/** Absolute episode numbers on a chain with known counts: which want a number delivers. */
module AbsoluteNumbering {
  import opened Wrappers
  import opened ListModels
  import opened Season
  import opened SeasonDecide

  ghost predicate KnownCounts(chain: Chain) {
    && DistinctIds(chain)
    && forall k :: 0 <= k < |chain| ==> chain[k].totalEpisodes.Some? && chain[k].totalEpisodes.value > 0
  }

  /** Episodes of all seasons before position `k`. */
  ghost function Earlier(chain: Chain, k: nat): int
    requires k <= |chain|
  {
    CountOfFirst(chain, k).GetOr(0)
  }

  ghost function CountAt(chain: Chain, k: nat): int
    requires k < |chain|
  {
    chain[k].totalEpisodes.GetOr(0)
  }

  /** Releases number each season from 1, or the offset is the cumulative count. */
  ghost predicate OffsetsZeroOrCumulative(chain: Chain) {
    forall k :: 0 <= k < |chain| ==> chain[k].episodeOffset == 0 || chain[k].episodeOffset == Earlier(chain, k)
  }

  lemma {:induction false} CountsAreKnown(chain: Chain, k: nat)
    requires KnownCounts(chain) && k <= |chain|
    ensures CountOfFirst(chain, k) == Some(Earlier(chain, k)) && Earlier(chain, k) >= 0
    ensures k > 0 ==> Earlier(chain, k) == Earlier(chain, k - 1) + CountAt(chain, k - 1)
  {
    if k > 0 { CountsAreKnown(chain, k - 1); }
  }

  lemma {:induction false} EarlierGrows(chain: Chain, j: nat, k: nat)
    requires KnownCounts(chain) && j < k <= |chain|
    ensures Earlier(chain, j) + CountAt(chain, j) <= Earlier(chain, k)
    decreases k
  {
    CountsAreKnown(chain, k);
    if j + 1 < k {
      EarlierGrows(chain, j, k - 1);
    } else {
      CountsAreKnown(chain, j);
    }
  }

  /** The want for episode `e` of the season at position `k`, numbered by position. */
  function WantFor(chain: Chain, k: nat, e: int): Wanted
    requires k < |chain|
  {
    Wanted(chain[k].malId, chain[k].title, k + 1, Some(e as real))
  }

  /** A release carrying the whole number `n` and no season marker downloads episode `e` of the
      season at position `k`. */
  ghost predicate Hits(chain: Chain, n: int, batch: bool, k: nat, e: int)
    requires k < |chain|
  {
    Decide(chain, WantFor(chain, k, e), Release(None, Some(n as real), batch)) == Answer(Download(k + 1, e as real))
  }

  ghost predicate Episode(chain: Chain, k: nat, e: int) {
    k < |chain| && 1 <= e <= CountAt(chain, k)
  }

  lemma WholeNumbers(a: int, b: int)
    ensures Abs(a as real - b as real) < EPSILON <==> a == b
    ensures Truncate(a as real) == a
  {
    if a < b { assert a as real + 1.0 <= b as real; }
    if b < a { assert b as real + 1.0 <= a as real; }
    if a < 0 { assert -(a as real) == (-a) as real; }
  }

  lemma AcceptsIff(entry: SeasonEntry, e: int, n: int)
    ensures Accepts(entry, e as real, n as real)
       <==> n == e || (entry.episodeOffset != 0 && n == e + entry.episodeOffset)
  {
    WholeNumbers(e, n);
    WholeNumbers(e + entry.episodeOffset, n);
    assert (e + entry.episodeOffset) as real == e as real + entry.episodeOffset as real;
  }

  lemma DecideNumberedIff(chain: Chain, n: int, k: nat, e: int)
    requires KnownCounts(chain) && Episode(chain, k, e)
    ensures DecideNumbered(chain, chain[k], WantFor(chain, k, e), e as real, n as real) ==
            Answer(Download(k + 1, e as real)) <==>
            Accepts(chain[k], e as real, n as real) || (n > CountAt(chain, k) && n == Earlier(chain, k) + e)
  {
    CountsAreKnown(chain, k);
    WholeNumbers(e, n);
    WholeNumbers(n, n);
    assert Before(k + 1) == k;
  }

  /** Exactly which numbers deliver one episode: its own number, its number plus a nonzero offset,
      or, beyond the season's count, the cumulative number. */
  lemma HitIff(chain: Chain, n: int, batch: bool, k: nat, e: int)
    requires KnownCounts(chain) && Episode(chain, k, e)
    ensures Hits(chain, n, batch, k, e) <==>
            || n == e
            || (chain[k].episodeOffset != 0 && n == e + chain[k].episodeOffset)
            || (n > CountAt(chain, k) && n == Earlier(chain, k) + e)
  {
    DistinctIdsAreNewFirst(chain);
    assert EntryOf(chain, chain[k].malId) == Some(chain[k]);
    AcceptsIff(chain[k], e, n);
    DecideNumberedIff(chain, n, k, e);
  }

  /** A whole number that does not hit is skipped or asked about: asked exactly when it lies beyond
      the season's count and is not the place of another episode of that season in the whole run. */
  lemma AskIff(chain: Chain, n: int, batch: bool, k: nat, e: int)
    requires KnownCounts(chain) && Episode(chain, k, e) && !Hits(chain, n, batch, k, e)
    ensures var r := Decide(chain, WantFor(chain, k, e), Release(None, Some(n as real), batch));
            && r.Answer? && (r.decision.Ask? || r.decision.Skip?)
            && (r.decision.Ask? <==> n > CountAt(chain, k) && !Episode(chain, k, n - Earlier(chain, k)))
  {
    HitIff(chain, n, batch, k, e);
    AcceptsIff(chain[k], e, n);
    CountsAreKnown(chain, k);
    WholeNumbers(e, n);
    WholeNumbers(n, n);
    assert Before(k + 1) == k;
    assert EntryOf(chain, chain[k].malId) == Some(chain[k]) by { DistinctIdsAreNewFirst(chain); }
  }

  /** A fractional number never hits by itself, nor with an offset; beyond the season's count its
      fraction is dropped, so a half episode there delivers the whole one. */
  lemma FractionHitsIff(chain: Chain, n: int, fraction: real, k: nat, e: int)
    requires KnownCounts(chain) && Episode(chain, k, e) && n >= 0
    requires EPSILON <= fraction <= 1.0 - EPSILON
    ensures Decide(chain, WantFor(chain, k, e), Release(None, Some(n as real + fraction), false)) ==
            Answer(Download(k + 1, e as real)) <==>
            n > CountAt(chain, k) && n == Earlier(chain, k) + e
  {
    var found := n as real + fraction;
    NotWhole(e, n, fraction);
    NotWhole(e + chain[k].episodeOffset, n, fraction);
    assert (e + chain[k].episodeOffset) as real == e as real + chain[k].episodeOffset as real;
    assert !Accepts(chain[k], e as real, found);
    assert found.Floor == n;
    CountsAreKnown(chain, k);
    WholeNumbers(e, e);
    assert Before(k + 1) == k;
    assert EntryOf(chain, chain[k].malId) == Some(chain[k]) by { DistinctIdsAreNewFirst(chain); }
  }

  lemma NotWhole(w: int, n: int, fraction: real)
    requires EPSILON <= fraction <= 1.0 - EPSILON
    ensures Abs(w as real - (n as real + fraction)) >= EPSILON
  {
    if w <= n { assert w as real <= n as real; } else { assert w as real >= n as real + 1.0; }
  }

  /** Every number up to the grand total falls into exactly one season. */
  lemma {:induction false} FindSeason(chain: Chain, n: int, m: nat) returns (k: nat, e: int)
    requires KnownCounts(chain) && m <= |chain| && 1 <= n <= Earlier(chain, m)
    ensures k < m && Episode(chain, k, e) && n == Earlier(chain, k) + e
  {
    CountsAreKnown(chain, m);
    if m > 0 && n > Earlier(chain, m - 1) {
      k, e := m - 1, n - Earlier(chain, m - 1);
    } else {
      k, e := FindSeason(chain, n, m - 1);
    }
  }

  lemma SeasonsDoNotOverlap(chain: Chain, k: nat, e: int, j: nat, d: int)
    requires KnownCounts(chain) && Episode(chain, k, e) && Episode(chain, j, d)
    requires Earlier(chain, k) + e == Earlier(chain, j) + d
    ensures k == j && e == d
  {
    if k < j { EarlierGrows(chain, k, j); }
    if j < k { EarlierGrows(chain, j, k); }
  }

  ghost predicate OnlyHit(chain: Chain, n: int, batch: bool, k: nat, e: int) {
    && Episode(chain, k, e) && Hits(chain, n, batch, k, e)
    && forall j, d :: Episode(chain, j, d) && Hits(chain, n, batch, j, d) ==> j == k && d == e
  }

  /** Absolute numbering is unambiguous: a number beyond every single season's count, up to the
      grand total, downloads exactly one episode, the one at that place in the whole run. */
  lemma AbsoluteNumberHitsOneEpisode(chain: Chain, n: int, batch: bool) returns (k: nat, e: int)
    requires KnownCounts(chain) && OffsetsZeroOrCumulative(chain)
    requires forall i :: 0 <= i < |chain| ==> n > CountAt(chain, i)
    requires 1 <= n <= Earlier(chain, |chain|)
    ensures OnlyHit(chain, n, batch, k, e) && n == Earlier(chain, k) + e
  {
    k, e := FindSeason(chain, n, |chain|);
    HitIff(chain, n, batch, k, e);
    forall j, d | Episode(chain, j, d) && Hits(chain, n, batch, j, d) ensures j == k && d == e {
      HitIff(chain, n, batch, j, d);
      SeasonsDoNotOverlap(chain, k, e, j, d);
    }
  }

  /** Season `k`, where `n` lies in the whole run, is downloaded for it: at that place, or under `n` itself. */
  lemma PlaceIsHit(chain: Chain, n: int, batch: bool, k: nat, e: int) returns (d: int)
    requires KnownCounts(chain) && OffsetsZeroOrCumulative(chain) && Episode(chain, k, e) && n == Earlier(chain, k) + e
    ensures Episode(chain, k, d) && Hits(chain, n, batch, k, d)
    ensures d == if k > 0 && chain[k].episodeOffset == 0 && n <= CountAt(chain, k) then n else e
  {
    FirstStartsAtZero(chain);
    CountsAreKnown(chain, k);
    d := if k > 0 && chain[k].episodeOffset == 0 && n <= CountAt(chain, k) then n else e;
    HitIff(chain, n, batch, k, d);
  }

  lemma FirstStartsAtZero(chain: Chain)
    ensures Earlier(chain, 0) == 0
  {
  }

  /** Offsets of 0 and of the cumulative count, mixed in any way: a number `n` of the run, which lies in season
      `k`, is unambiguous exactly when no later season is long enough to contain it as its own number, season
      `k` itself excepted when its releases are numbered from 1. */
  lemma UnambiguousIffBeyondLaterSeasons(chain: Chain, n: int, batch: bool, k: nat, e: int)
    requires KnownCounts(chain) && OffsetsZeroOrCumulative(chain)
    requires Episode(chain, k, e) && n == Earlier(chain, k) + e
    ensures (exists j, d :: OnlyHit(chain, n, batch, j, d)) <==>
            (forall i :: 1 <= i < |chain| && !(i == k && chain[k].episodeOffset == 0) ==> n > CountAt(chain, i))
  {
    hide Hits;
    var own := PlaceIsHit(chain, n, batch, k, e);
    if forall i :: 1 <= i < |chain| && !(i == k && chain[k].episodeOffset == 0) ==> n > CountAt(chain, i) {
      forall j, d | Episode(chain, j, d) && Hits(chain, n, batch, j, d) ensures j == k && d == own {
        OtherHitIsOwn(chain, n, batch, k, e, j, d);
      }
      assert OnlyHit(chain, n, batch, k, own);
    } else {
      var i :| 1 <= i < |chain| && !(i == k && chain[k].episodeOffset == 0) && n <= CountAt(chain, i);
      CountsAreKnown(chain, k);
      HitIff(chain, n, batch, i, n);
      assert Episode(chain, i, n) && Hits(chain, n, batch, i, n);
      if i == k { EarlierGrows(chain, 0, k); FirstStartsAtZero(chain); }
    }
  }

  lemma OtherHitIsOwn(chain: Chain, n: int, batch: bool, k: nat, e: int, j: nat, d: int)
    requires KnownCounts(chain) && OffsetsZeroOrCumulative(chain)
    requires Episode(chain, k, e) && n == Earlier(chain, k) + e && Episode(chain, j, d) && Hits(chain, n, batch, j, d)
    requires forall i :: 1 <= i < |chain| && !(i == k && chain[k].episodeOffset == 0) ==> n > CountAt(chain, i)
    ensures j == k && d == if k > 0 && chain[k].episodeOffset == 0 && n <= CountAt(chain, k) then n else e
  {
    hide Hits;
    FirstStartsAtZero(chain);
    HitIff(chain, n, batch, j, d);
    CountsAreKnown(chain, k);
    if k > 0 { EarlierGrows(chain, 0, k); }
    if n == Earlier(chain, j) + d {
      SeasonsDoNotOverlap(chain, k, e, j, d);
    } else {
      assert n == d;
    }
  }

  /** With every offset cumulative, the number of a place is that place's alone exactly when it exceeds the
      count of every season but the first. */
  lemma CumulativeIsUnambiguousIff(chain: Chain, n: int, batch: bool, k: nat, e: int)
    requires KnownCounts(chain) && forall i :: 0 <= i < |chain| ==> chain[i].episodeOffset == Earlier(chain, i)
    requires Episode(chain, k, e) && n == Earlier(chain, k) + e
    ensures OnlyHit(chain, n, batch, k, e) <==> forall i :: 1 <= i < |chain| ==> n > CountAt(chain, i)
  {
    hide Hits;
    UnambiguousIffBeyondLaterSeasons(chain, n, batch, k, e);
    FirstStartsAtZero(chain);
    if k > 0 { EarlierGrows(chain, 0, k); }
    var own := PlaceIsHit(chain, n, batch, k, e);
  }

  // ------------------------------------------------ seasons by title and counts by position

  /** `episodes_before` counts by position. On a chain with known counts it gives what precedes position `p`
      for a season within reach exactly when that is the season numbered by the position. */
  lemma EpisodesBeforeIffPositional(chain: Chain, season: int, p: nat)
    requires KnownCounts(chain) && p <= |chain| && Before(season) <= |chain|
    ensures CountOfFirst(chain, Before(season)) == CountOfFirst(chain, p) <==> Before(season) == p
  {
    var q := Before(season);
    CountsAreKnown(chain, p);
    CountsAreKnown(chain, q);
    if p < q { EarlierGrows(chain, p, q); }
    if q < p { EarlierGrows(chain, q, p); }
  }

  lemma {:induction false} SplitsHoldBack(chain: Chain, markers: Markers, n: nat)
    requires 1 <= n <= |chain| && forall i :: 0 <= i < n ==> markers.season(chain[i].title).None?
    ensures 1 <= FoldSeason(chain, markers, n) <= n
    ensures FoldSeason(chain, markers, n) == n <==> forall i :: 1 <= i < n ==> !markers.split(chain[i].title)
  {
    if n > 1 { SplitsHoldBack(chain, markers, n - 1); }
  }

  /** `decide` asks `episodes_before` for the season that `season_of` gives, which a cour or part does not
      advance: without numbers in the titles the two agree on an entry exactly when neither it nor any entry
      before it, the first excepted, is such a split. */
  lemma SeasonMatchesPositionIffNoSplit(chain: Chain, markers: Markers, p: nat)
    requires KnownCounts(chain) && p < |chain| && forall i :: 0 <= i <= p ==> markers.season(chain[i].title).None?
    ensures var season := SeasonOf(chain, markers, chain[p].malId);
            && season.Some? && Before(season.value) <= |chain|
            && (CountOfFirst(chain, Before(season.value)) == CountOfFirst(chain, p) <==>
                forall i :: 1 <= i <= p ==> !markers.split(chain[i].title))
  {
    hide CountOfFirst, FoldSeason, SeasonAt, PositionOf, NewIdsFirst, FirstAt;
    DistinctIdsAreNewFirst(chain);
    FirstAtIsPosition(chain, p);
    SeasonAtIsFold(chain, markers, p);
    SplitsHoldBack(chain, markers, p + 1);
    EpisodesBeforeIffPositional(chain, FoldSeason(chain, markers, p + 1), p);
  }

  /** On a chain without season markers or splits, the walk asks for exactly such a want, within
      the known count. */
  lemma WalkWantsByPosition(chain: Chain, markers: Markers, setting: bool, override: Option<bool>, k: nat)
    requires DistinctIds(chain) && k < |chain|
    requires forall i :: 0 <= i < |chain| ==> markers.season(chain[i].title).None? && !markers.split(chain[i].title)
    requires forall i :: 0 <= i < k ==> PassedOver(chain[i], PlanAllowed(setting, override))
    requires Wants(chain[k], PlanAllowed(setting, override)) && chain[k].watchedCount >= 0
    ensures WantedOf(chain, markers, setting, override) == Want(WantFor(chain, k, chain[k].watchedCount + 1))
    ensures chain[k].totalEpisodes.Some? ==> Episode(chain, k, chain[k].watchedCount + 1)
  {
    WalkWantsFirstUnfinished(chain, markers, PlanAllowed(setting, override), 0, k);
    DistinctIdsAreNewFirst(chain);
    PlainScan(chain, markers, k);
  }

  /** From the list to the release: on such a chain the walk's want is served by exactly these whole numbers,
      and then as the want it is. */
  lemma WalkedWantIsServedIff(chain: Chain, markers: Markers, setting: bool, override: Option<bool>, k: nat, n: int,
                              batch: bool)
    requires KnownCounts(chain) && k < |chain|
    requires forall i :: 0 <= i < |chain| ==> markers.season(chain[i].title).None? && !markers.split(chain[i].title)
    requires forall i :: 0 <= i < k ==> PassedOver(chain[i], PlanAllowed(setting, override))
    requires Wants(chain[k], PlanAllowed(setting, override)) && chain[k].watchedCount >= 0
    ensures var want, e := WantedOf(chain, markers, setting, override), chain[k].watchedCount + 1;
            && want.Want?
            && (Decide(chain, want.wanted, Release(None, Some(n as real), batch)) ==
                Answer(Download(want.wanted.season, e as real)) <==>
                || n == e
                || (chain[k].episodeOffset != 0 && n == e + chain[k].episodeOffset)
                || (n > CountAt(chain, k) && n == Earlier(chain, k) + e))
  {
    hide Decide;
    WalkWantsByPosition(chain, markers, setting, override, k);
    HitIff(chain, n, batch, k, chain[k].watchedCount + 1);
  }
}
