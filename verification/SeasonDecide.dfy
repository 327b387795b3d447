/** What a chain wants next, and what one parsed release delivers for it. */
module SeasonDecide {
  import opened Wrappers
  import opened Numbers
  import opened ListModels
  import opened Season

  // ------------------------------------------------------ counts of earlier seasons

  /** The total of the first `k` counts, unknown as soon as one of them is. */
  function CountOfFirst(chain: Chain, k: nat): Option<int>
    requires k <= |chain|
  {
    if k == 0 then Some(0)
    else
      match CountOfFirst(chain, k - 1)
      case None => None
      case Some(total) =>
        match chain[k - 1].totalEpisodes
        case None => None
        case Some(t) => Some(total + t)
  }

  function Before(season: int): (k: nat) {
    if season > 1 then season - 1 else 0
  }

  /** An unknown count makes every later total unknown. */
  lemma {:induction false} UnknownStaysUnknown(chain: Chain, j: nat, k: nat)
    requires j <= k <= |chain| && CountOfFirst(chain, j).None?
    ensures CountOfFirst(chain, k).None?
  {
    if j < k { UnknownStaysUnknown(chain, j, k - 1); }
  }

  /** `episodes_before`: the slice bound is the caller's duty, as in the source. */
  method EpisodesBefore(chain: Chain, season: int) returns (total: Option<int>)
    requires Before(season) <= |chain|
    ensures total == CountOfFirst(chain, Before(season))
  {
    var sum := 0;
    for i := 0 to Before(season)
      invariant CountOfFirst(chain, i) == Some(sum)
    {
      var count := chain[i].totalEpisodes;
      if count.None? {
        UnknownStaysUnknown(chain, i + 1, Before(season));
        return None;
      }
      sum := sum + count.value;
    }
    return Some(sum);
  }

  // ------------------------------------------------------------------ the walk

  datatype Wanted = Wanted(malId: int, title: string, season: int, episode: Option<real>)

  datatype SkipReason = OnHoldEntry | DroppedEntry | PlanIsManual | FullyWatched | NothingLeft
  datatype Want = Want(wanted: Wanted) | SkipWalk(reason: SkipReason, fullyWatched: bool)

  /** Settings and override of the Plan to watch switch. */
  predicate PlanAllowed(setting: bool, override: Option<bool>) {
    override.GetOr(setting)
  }

  function WantedFrom(chain: Chain, markers: Markers, entry: SeasonEntry, episode: int): Wanted {
    Wanted(entry.malId, entry.title, SeasonOf(chain, markers, entry.malId).GetOr(1), Some(episode as real))
  }

  predicate AllWatched(entry: SeasonEntry) {
    entry.totalEpisodes.Some? && entry.watchedCount >= entry.totalEpisodes.value
  }

  function WantedIn(chain: Chain, markers: Markers, planAllowed: bool, from: nat): Want
    requires from <= |chain|
    decreases |chain| - from
  {
    if from == |chain| then SkipWalk(NothingLeft, false)
    else
      var entry := chain[from];
      match entry.listStatus
      case Completed => WantedIn(chain, markers, planAllowed, from + 1)
      case OnHold => SkipWalk(OnHoldEntry, false)
      case Dropped => SkipWalk(DroppedEntry, false)
      case PlanToWatch =>
        if !planAllowed then SkipWalk(PlanIsManual, false)
        else if AllWatched(entry) then WantedIn(chain, markers, planAllowed, from + 1)
        else Want(WantedFrom(chain, markers, entry, entry.watchedCount + 1))
      case Watching =>
        if AllWatched(entry) then SkipWalk(FullyWatched, true)
        else Want(WantedFrom(chain, markers, entry, entry.watchedCount + 1))
  }

  function WantedOf(chain: Chain, markers: Markers, setting: bool, override: Option<bool>): Want {
    WantedIn(chain, markers, PlanAllowed(setting, override), 0)
  }

  /** The walk passes an entry: it is completed, or planned, allowed and fully watched. */
  predicate PassedOver(entry: SeasonEntry, planAllowed: bool) {
    entry.listStatus.Completed? || (entry.listStatus.PlanToWatch? && planAllowed && AllWatched(entry))
  }

  predicate Wants(entry: SeasonEntry, planAllowed: bool) {
    && (entry.listStatus.Watching? || (entry.listStatus.PlanToWatch? && planAllowed))
    && !AllWatched(entry)
  }

  /** The walk wants exactly the first entry that is not passed over, provided that entry wants
      an episode; the episode is the next one and stays within a known count. */
  lemma {:induction false} WalkWantsFirstUnfinished(chain: Chain, markers: Markers, planAllowed: bool, from: nat,
                                                    k: nat)
    requires from <= k < |chain|
    requires forall i :: from <= i < k ==> PassedOver(chain[i], planAllowed)
    requires !PassedOver(chain[k], planAllowed)
    ensures WantedIn(chain, markers, planAllowed, from).Want? <==> Wants(chain[k], planAllowed)
    ensures Wants(chain[k], planAllowed) ==>
              WantedIn(chain, markers, planAllowed, from) ==
              Want(WantedFrom(chain, markers, chain[k], chain[k].watchedCount + 1))
    ensures Wants(chain[k], planAllowed) && chain[k].totalEpisodes.Some? ==>
              chain[k].watchedCount + 1 <= chain[k].totalEpisodes.value
    decreases k - from
  {
    if from < k { WalkWantsFirstUnfinished(chain, markers, planAllowed, from + 1, k); }
  }

  lemma {:induction false} WalkOfPassedChain(chain: Chain, markers: Markers, planAllowed: bool, from: nat)
    requires from <= |chain| && forall i :: from <= i < |chain| ==> PassedOver(chain[i], planAllowed)
    ensures WantedIn(chain, markers, planAllowed, from) == SkipWalk(NothingLeft, false)
    decreases |chain| - from
  {
    if from < |chain| { WalkOfPassedChain(chain, markers, planAllowed, from + 1); }
  }

  /** The walk suggests marking a show Completed exactly when the first entry it does not pass over is
      being watched and has no episode left. */
  lemma {:induction false} FullyWatchedIff(chain: Chain, markers: Markers, planAllowed: bool, from: nat, k: nat)
    requires from <= k < |chain|
    requires forall i :: from <= i < k ==> PassedOver(chain[i], planAllowed)
    requires !PassedOver(chain[k], planAllowed)
    ensures var want := WantedIn(chain, markers, planAllowed, from);
            && ((want.SkipWalk? && want.fullyWatched) <==> chain[k].listStatus.Watching? && AllWatched(chain[k]))
            && (want.SkipWalk? ==> want.reason != NothingLeft)
    decreases k - from
  {
    if from < k { FullyWatchedIff(chain, markers, planAllowed, from + 1, k); }
  }

  // ------------------------------------------------------------------ the decision

  datatype Release = Release(season: Option<int>, episode: Option<real>, isBatch: bool)

  datatype SkipWhy = AlreadyWatched | Earlier | AbsoluteElsewhere(mapped: int) | Later
  datatype AskWhy = NumberedFeature | OnlyBatch | NoNumber | EarlierCountUnknown | DoesNotFit | NoCount
  datatype NotFoundWhy = NoEntry | OtherSeason(found: int)

  datatype Decision =
    | Download(season: int, episode: real)
    | Skip(skip: SkipWhy)
    | Ask(ask: AskWhy)
    | NotFound(why: NotFoundWhy)

  /** `decide` either answers or stops on the slice of `episodes_before`. */
  datatype Outcome = Answer(decision: Decision) | SliceOutOfRange

  /** `f64::EPSILON`. */
  const EPSILON: real := 1.0 / 4503599627370496.0

  function Abs(x: real): real {
    if x < 0.0 then -x else x
  }

  /** The `as i64` cast: toward zero. */
  function Truncate(x: real): int {
    if x >= 0.0 then x.Floor else -((-x).Floor)
  }

  predicate Accepts(entry: SeasonEntry, w: real, found: real) {
    || Abs(w - found) < EPSILON
    || (entry.episodeOffset != 0 && Abs(w + entry.episodeOffset as real - found) < EPSILON)
  }

  function DecideAbsolute(chain: Chain, entry: SeasonEntry, wanted: Wanted, w: real, found: real, total: int): Outcome {
    if Before(wanted.season) > |chain| then SliceOutOfRange
    else
      match CountOfFirst(chain, Before(wanted.season))
      case None => Answer(Ask(EarlierCountUnknown))
      case Some(cumulative) =>
        var mapped := Truncate(found) - cumulative;
        if mapped == Truncate(w) then Answer(Download(wanted.season, w))
        else if 1 <= mapped <= total then Answer(Skip(AbsoluteElsewhere(mapped)))
        else Answer(Ask(DoesNotFit))
  }

  function DecideNumbered(chain: Chain, entry: SeasonEntry, wanted: Wanted, w: real, found: real): Outcome {
    if Accepts(entry, w, found) then Answer(Download(wanted.season, w))
    else if found < w then
      Answer(Skip(if Truncate(found) <= entry.watchedCount then AlreadyWatched else Earlier))
    else
      match entry.totalEpisodes
      case None => Answer(Ask(NoCount))
      case Some(total) =>
        if Truncate(found) > total then DecideAbsolute(chain, entry, wanted, w, found, total) else Answer(Skip(Later))
  }

  function Decide(chain: Chain, wanted: Wanted, release: Release): Outcome {
    match EntryOf(chain, wanted.malId)
    case None => Answer(NotFound(NoEntry))
    case Some(entry) =>
      if release.season.Some? && release.season.value != wanted.season then
        Answer(NotFound(OtherSeason(release.season.value)))
      else
        match wanted.episode
        case None =>
          Answer(if release.episode.None? || release.episode.value == 1.0 then Download(wanted.season, 1.0)
                 else Ask(NumberedFeature))
        case Some(w) =>
          if release.isBatch && release.episode.None? then
            Answer(if entry.fullyAired then Download(wanted.season, w) else Ask(OnlyBatch))
          else
            match release.episode
            case None => Answer(Ask(NoNumber))
            case Some(found) => DecideNumbered(chain, entry, wanted, w, found)
  }

  /** "Not found" is the answer exactly when the chain has no such entry or the release names another
      season, whatever else the release says. */
  lemma NotFoundIff(chain: Chain, wanted: Wanted, release: Release)
    ensures (Decide(chain, wanted, release).Answer? && Decide(chain, wanted, release).decision.NotFound?) <==>
            (forall i :: 0 <= i < |chain| ==> chain[i].malId != wanted.malId)
            || (release.season.Some? && release.season.value != wanted.season)
  {
    hide DecideNumbered;
    if release.episode.Some? && wanted.episode.Some? { NumberedNeverNotFound(chain, wanted, release); }
    assert EntryOf(chain, wanted.malId).Some? ==> exists i :: 0 <= i < |chain| && chain[i].malId == wanted.malId;
  }

  lemma NumberedNeverNotFound(chain: Chain, wanted: Wanted, release: Release)
    requires release.episode.Some? && wanted.episode.Some?
    ensures forall entry ::
              var r := DecideNumbered(chain, entry, wanted, wanted.episode.value, release.episode.value);
              r.Answer? ==> !r.decision.NotFound?
  {
  }

  // ------------------------------------------------- when the slice is out of range

  /** Some release makes `decide` stop exactly when the want names a season past the end of the
      chain (an explicit season number in a title can) for an entry with a known count. */
  lemma SomeReleaseStopsIffSeasonPastEnd(chain: Chain, wanted: Wanted)
    ensures (exists release :: Decide(chain, wanted, release).SliceOutOfRange?) <==>
            (EntryOf(chain, wanted.malId).Some? && EntryOf(chain, wanted.malId).value.totalEpisodes.Some?
             && wanted.episode.Some? && wanted.season - 1 > |chain|)
  {
    if EntryOf(chain, wanted.malId).Some? && EntryOf(chain, wanted.malId).value.totalEpisodes.Some?
       && wanted.episode.Some? && wanted.season - 1 > |chain| {
      var entry := EntryOf(chain, wanted.malId).value;
      var w := wanted.episode.value;
      var n := LargeNumber(w, w + entry.episodeOffset as real, entry.totalEpisodes.value);
      var release := Release(None, Some(n as real), false);
      assert !Accepts(entry, w, n as real);
      assert Decide(chain, wanted, release).SliceOutOfRange?;
    }
  }

  lemma LargeNumber(a: real, b: real, c: int) returns (n: int)
    ensures n >= 0 && n as real > a + 1.0 && n as real > b + 1.0 && n > c && Truncate(n as real) == n
  {
    n := Max(Max(a.Floor + 3, b.Floor + 3), Max(c + 1, 0));
  }

  /** The walk itself can produce such a want: one entry titled with an explicit season number. */
  lemma MarkedTitleMakesDecideStop()
    ensures exists chain: Chain, markers, w, release ::
              WantedOf(chain, markers, false, None) == Want(w) && Decide(chain, w, release).SliceOutOfRange?
  {
    var chain := [SeasonEntry(1, "Show 4th Season", Watching, 4, Some(12), 0, Tv, true)];
    var markers := Markers(t => Some(4), t => false);
    var w := Wanted(1, "Show 4th Season", 4, Some(5.0));
    assert SeasonOf(chain, markers, 1) == Some(4);
    assert WantedOf(chain, markers, false, None) == Want(w);
    var release := Release(None, Some(17.0), false);
    assert Truncate(17.0) == 17;
    assert Decide(chain, w, release).SliceOutOfRange?;
  }
}
