/** What the walk over a chain says, and what season it names, in terms of the entries alone. */
module WalkLaws {
  import opened Wrappers
  import opened ListModels
  import opened Season
  import opened SeasonDecide

  // ------------------------------------------------------------ the walk

  /** Whether planned entries count: the override of the show, else the setting. */
  ghost predicate PlansCount(setting: bool, override: Option<bool>) {
    override == Some(true) || (override == None && setting)
  }

  /** All episodes are watched, as far as is known how many there are. */
  ghost predicate NothingLeftOf(entry: SeasonEntry) {
    entry.totalEpisodes.Some? && entry.totalEpisodes.value <= entry.watchedCount
  }

  /** The walk goes on to the next entry. */
  ghost predicate GoesOn(entry: SeasonEntry, plans: bool) {
    entry.listStatus == Completed || (entry.listStatus == PlanToWatch && plans && NothingLeftOf(entry))
  }

  /** What the walk says at the entry it stops at. */
  ghost predicate SaysAt(chain: Chain, markers: Markers, entry: SeasonEntry, plans: bool, want: Want) {
    match entry.listStatus
    case Completed => false
    case OnHold => want == SkipWalk(OnHoldEntry, false)
    case Dropped => want == SkipWalk(DroppedEntry, false)
    case PlanToWatch =>
      if plans then NamesNext(chain, markers, entry, want) else want == SkipWalk(PlanIsManual, false)
    case Watching =>
      if NothingLeftOf(entry) then want == SkipWalk(FullyWatched, true) else NamesNext(chain, markers, entry, want)
  }

  /** The next episode of the entry, under the season its chain gives it. */
  ghost predicate NamesNext(chain: Chain, markers: Markers, entry: SeasonEntry, want: Want) {
    && want.Want? && want.wanted.malId == entry.malId && want.wanted.title == entry.title
    && want.wanted.episode == Some(entry.watchedCount as real + 1.0)
    && SeasonOf(chain, markers, entry.malId) == Some(want.wanted.season)
  }

  lemma {:induction false} WalkFrom(chain: Chain, markers: Markers, setting: bool, override: Option<bool>, from: nat,
                                    k: nat)
    requires from <= k <= |chain|
    requires forall i :: from <= i < k ==> GoesOn(chain[i], PlansCount(setting, override))
    requires k < |chain| ==> !GoesOn(chain[k], PlansCount(setting, override))
    ensures var want := WantedIn(chain, markers, PlanAllowed(setting, override), from);
            if k == |chain| then want == SkipWalk(NothingLeft, false)
            else SaysAt(chain, markers, chain[k], PlansCount(setting, override), want)
    decreases k - from
  {
    hide SeasonOf;
    if from < k {
      WalkFrom(chain, markers, setting, override, from + 1, k);
    } else if k < |chain| {
      EntryHasSeason(chain, markers, k);
    }
  }

  lemma EntryHasSeason(chain: Chain, markers: Markers, k: nat)
    requires k < |chain|
    ensures SeasonOf(chain, markers, chain[k].malId).Some?
  {
  }

  /** The walk stops at the first entry it does not go past and says what its status calls for; past the end there is
      nothing left. */
  lemma WalkSays(chain: Chain, markers: Markers, setting: bool, override: Option<bool>, k: nat)
    requires k <= |chain| && forall i :: 0 <= i < k ==> GoesOn(chain[i], PlansCount(setting, override))
    requires k < |chain| ==> !GoesOn(chain[k], PlansCount(setting, override))
    ensures var want := WantedOf(chain, markers, setting, override);
            if k == |chain| then want == SkipWalk(NothingLeft, false)
            else SaysAt(chain, markers, chain[k], PlansCount(setting, override), want)
  {
    WalkFrom(chain, markers, setting, override, 0, k);
  }

  // ------------------------------------------------------------ the season

  /** Entries after place `from` up to place `p` that start a season of their own. */
  ghost function OwnSeasons(chain: Chain, markers: Markers, from: nat, p: nat): nat
    requires from <= p < |chain|
  {
    if p == from then 0
    else OwnSeasons(chain, markers, from, p - 1) + if markers.split(chain[p].title) then 0 else 1
  }

  /** The last entry up to place `p` whose title names a season. */
  ghost predicate LastNumbered(chain: Chain, markers: Markers, m: nat, p: nat) {
    && m <= p < |chain| && markers.season(chain[m].title).Some?
    && forall i :: m < i <= p ==> markers.season(chain[i].title).None?
  }

  lemma {:induction false} FoldCounts(chain: Chain, markers: Markers, m: nat, p: nat)
    requires LastNumbered(chain, markers, m, p)
    ensures FoldSeason(chain, markers, p + 1) ==
            markers.season(chain[m].title).value + OwnSeasons(chain, markers, m, p)
    decreases p - m
  {
    if m < p { FoldCounts(chain, markers, m, p - 1); }
  }

  lemma {:induction false} FoldCountsFromStart(chain: Chain, markers: Markers, p: nat)
    requires p < |chain| && forall i :: 0 <= i <= p ==> markers.season(chain[i].title).None?
    ensures FoldSeason(chain, markers, p + 1) == 1 + OwnSeasons(chain, markers, 0, p)
  {
    assert FoldSeason(chain, markers, 0) == 0;
    if p > 0 { FoldCountsFromStart(chain, markers, p - 1); }
  }

  lemma SeasonIsFold(chain: Chain, markers: Markers, p: nat)
    requires DistinctIds(chain) && p < |chain|
    ensures SeasonOf(chain, markers, chain[p].malId) == Some(FoldSeason(chain, markers, p + 1))
  {
    DistinctIdsAreNewFirst(chain);
    assert FirstAt(chain, p);
    SeasonAtIsFold(chain, markers, p);
  }

  /** The season of an entry is the number last named in a title up to it, and one more for every later entry up to
      it that is no cour or part. */
  lemma SeasonCountsOn(chain: Chain, markers: Markers, m: nat, p: nat)
    requires DistinctIds(chain) && LastNumbered(chain, markers, m, p)
    ensures SeasonOf(chain, markers, chain[p].malId) ==
            Some(markers.season(chain[m].title).value + OwnSeasons(chain, markers, m, p))
  {
    SeasonIsFold(chain, markers, p);
    FoldCounts(chain, markers, m, p);
  }

  /** Without such a title the first entry is season 1, whatever it is. */
  lemma SeasonCountsFromOne(chain: Chain, markers: Markers, p: nat)
    requires DistinctIds(chain) && p < |chain| && forall i :: 0 <= i <= p ==> markers.season(chain[i].title).None?
    ensures SeasonOf(chain, markers, chain[p].malId) == Some(1 + OwnSeasons(chain, markers, 0, p))
  {
    SeasonIsFold(chain, markers, p);
    FoldCountsFromStart(chain, markers, p);
  }
}
