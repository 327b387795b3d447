/** What `decide` answers, in terms of the entry, the want and the release alone: for chains with and without
    episode counts, whole and fractional numbers, batches and features. */
module DecideLaws {
  import opened Wrappers
  import opened ListModels
  import opened Season
  import opened SeasonDecide

  // ------------------------------------------------------------ the terms of the law

  /** The entry the want is for: the first with its id. */
  ghost predicate IsEntry(chain: Chain, i: nat, malId: int) {
    i < |chain| && chain[i].malId == malId && forall j :: 0 <= j < i ==> chain[j].malId != malId
  }

  /** Two numbers less than 2^-52 apart. */
  ghost predicate Same(x: real, y: real) {
    -1.0 < (x - y) * 4503599627370496.0 < 1.0
  }

  /** `t` is what is left of `x` without its fraction. */
  ghost predicate WholePart(x: real, t: int) {
    if x >= 0.0 then t as real <= x < t as real + 1.0 else t as real - 1.0 < x <= t as real
  }

  ghost predicate CountsKnown(chain: Chain, n: nat)
    requires n <= |chain|
  {
    forall j :: 0 <= j < n ==> chain[j].totalEpisodes.Some?
  }

  /** The counts of some entries, from the front. */
  ghost function SumOfCounts(entries: Chain): int {
    if entries == [] then 0 else entries[0].totalEpisodes.GetOr(0) + SumOfCounts(entries[1..])
  }

  /** Entries before a season. */
  ghost function SeasonsBefore(season: int): nat {
    if season >= 2 then season - 1 else 0
  }

  /** The number is one the entry uses for its episode `w`: the episode itself, or that and its offset. */
  ghost predicate NamesEpisode(entry: SeasonEntry, w: real, found: real) {
    Same(w, found) || (entry.episodeOffset != 0 && Same(w + entry.episodeOffset as real, found))
  }

  /** The number lies beyond the entry's own, known count. */
  ghost predicate Beyond(entry: SeasonEntry, found: real) {
    entry.totalEpisodes.Some? && exists t :: WholePart(found, t) && t > entry.totalEpisodes.value
  }

  /** The earlier seasons all stand in the chain with a count, and `mapped` is what is left of the number behind
      them. */
  ghost predicate MapsTo(chain: Chain, season: int, found: real, mapped: int) {
    var n := SeasonsBefore(season);
    && n <= |chain| && CountsKnown(chain, n)
    && WholePart(found, mapped + SumOfCounts(chain[..n]))
  }

  /** What a numbered release is to a numbered want. */
  datatype Verdict = IsIt | IsAnother | IsUnclear | StopsOnSlice

  ghost predicate Numbered(chain: Chain, entry: SeasonEntry, season: int, w: real, found: real, v: Verdict) {
    match v
    case IsIt =>
      || NamesEpisode(entry, w, found)
      || (found >= w && Beyond(entry, found) && exists m :: MapsTo(chain, season, found, m) && WholePart(w, m))
    case IsAnother =>
      && !NamesEpisode(entry, w, found)
      && (|| found < w
          || (entry.totalEpisodes.Some? && !Beyond(entry, found))
          || (Beyond(entry, found) && exists m :: MapsTo(chain, season, found, m) && !WholePart(w, m)
                                                  && 1 <= m <= entry.totalEpisodes.value))
    case IsUnclear =>
      && !NamesEpisode(entry, w, found) && found >= w
      && (|| entry.totalEpisodes.None?
          || (Beyond(entry, found) && SeasonsBefore(season) <= |chain| && !CountsKnown(chain, SeasonsBefore(season)))
          || (Beyond(entry, found) && exists m :: MapsTo(chain, season, found, m) && !WholePart(w, m)
                                                  && !(1 <= m <= entry.totalEpisodes.value)))
    case StopsOnSlice =>
      !NamesEpisode(entry, w, found) && found >= w && Beyond(entry, found) && SeasonsBefore(season) > |chain|
  }

  // ------------------------------------------------------------ whole parts and sums

  lemma TruncateIsWholePart(x: real, t: int)
    ensures WholePart(x, t) <==> t == Truncate(x)
  {
    if x >= 0.0 {
      if WholePart(x, t) { assert t == x.Floor; }
    } else {
      if WholePart(x, t) { assert -t as real <= -x; assert -t == (-x).Floor; }
    }
  }

  lemma SameIsNear(x: real, y: real)
    ensures Same(x, y) <==> Abs(x - y) < EPSILON
  {
  }

  lemma {:induction false} SumNext(entries: Chain, n: nat)
    requires n < |entries|
    ensures SumOfCounts(entries[..n + 1]) == SumOfCounts(entries[..n]) + entries[n].totalEpisodes.GetOr(0)
  {
    if n > 0 {
      assert entries[..n + 1][1..] == entries[1..][..n];
      assert entries[..n][1..] == entries[1..][..n - 1];
      SumNext(entries[1..], n - 1);
    } else {
      assert entries[..1][1..] == [] && entries[..0] == [];
    }
  }

  /** The total before a season: the sum of the counts, known exactly when each of them is. */
  lemma {:induction false} TotalIsSum(chain: Chain, n: nat)
    requires n <= |chain|
    ensures CountOfFirst(chain, n) == if CountsKnown(chain, n) then Some(SumOfCounts(chain[..n])) else None
  {
    if n > 0 {
      TotalIsSum(chain, n - 1);
      SumNext(chain, n - 1);
      assert CountsKnown(chain, n) <==> CountsKnown(chain, n - 1) && chain[n - 1].totalEpisodes.Some?;
    }
  }

  lemma EntryIsFirst(chain: Chain, i: nat, malId: int)
    requires IsEntry(chain, i, malId)
    ensures EntryOf(chain, malId) == Some(chain[i])
  {
  }

  // ------------------------------------------------------------ numbered wants and numbers

  lemma NamesIffAccepts(entry: SeasonEntry, w: real, found: real)
    ensures NamesEpisode(entry, w, found) <==> Accepts(entry, w, found)
  {
    SameIsNear(w, found);
    SameIsNear(w + entry.episodeOffset as real, found);
  }

  lemma BeyondIffTruncated(entry: SeasonEntry, found: real)
    ensures Beyond(entry, found) <==> entry.totalEpisodes.Some? && Truncate(found) > entry.totalEpisodes.value
  {
    TruncateIsWholePart(found, Truncate(found));
    if Beyond(entry, found) {
      var t :| WholePart(found, t) && t > entry.totalEpisodes.value;
      TruncateIsWholePart(found, t);
    }
  }

  /** The only number a release can map to. */
  lemma MapsToOnly(chain: Chain, season: int, found: real, mapped: int)
    ensures SeasonsBefore(season) == Before(season)
    ensures MapsTo(chain, season, found, mapped) <==>
            && Before(season) <= |chain| && CountOfFirst(chain, Before(season)).Some?
            && mapped == Truncate(found) - CountOfFirst(chain, Before(season)).value
  {
    var n := SeasonsBefore(season);
    if n <= |chain| {
      TotalIsSum(chain, n);
      TruncateIsWholePart(found, mapped + SumOfCounts(chain[..n]));
    }
  }

  /** A decision on a number is the one its verdict names. */
  ghost predicate Tells(r: Outcome, chain: Chain, entry: SeasonEntry, season: int, w: real, found: real) {
    && (r == Answer(Download(season, w)) <==> Numbered(chain, entry, season, w, found, IsIt))
    && (r.Answer? && r.decision.Skip? <==> Numbered(chain, entry, season, w, found, IsAnother))
    && (r.Answer? && r.decision.Ask? <==> Numbered(chain, entry, season, w, found, IsUnclear))
    && (r == SliceOutOfRange <==> Numbered(chain, entry, season, w, found, StopsOnSlice))
    && (r.Answer? && r.decision.Download? ==> r.decision == Download(season, w))
  }

  lemma AbsoluteTells(chain: Chain, entry: SeasonEntry, wanted: Wanted, w: real, found: real)
    requires !NamesEpisode(entry, w, found) && found >= w && Beyond(entry, found)
    ensures Tells(DecideAbsolute(chain, entry, wanted, w, found, entry.totalEpisodes.value), chain, entry,
                  wanted.season, w, found)
  {
    assert entry.totalEpisodes.Some?;
    hide MapsTo, Beyond, NamesEpisode, WholePart, CountsKnown, Truncate;
    var n := Before(wanted.season);
    assert forall m :: MapsTo(chain, wanted.season, found, m) <==>
             && n <= |chain| && CountOfFirst(chain, n).Some?
             && m == Truncate(found) - CountOfFirst(chain, n).value
    by {
      forall m { MapsToOnly(chain, wanted.season, found, m); }
    }
    MapsToOnly(chain, wanted.season, found, 0);
    if n <= |chain| {
      TotalIsSum(chain, n);
      if CountOfFirst(chain, n).Some? {
        var m := Truncate(found) - CountOfFirst(chain, n).value;
        TruncateIsWholePart(w, m);
        assert MapsTo(chain, wanted.season, found, m);
      }
    }
  }

  lemma NumberTells(chain: Chain, entry: SeasonEntry, wanted: Wanted, w: real, found: real)
    ensures Tells(DecideNumbered(chain, entry, wanted, w, found), chain, entry, wanted.season, w, found)
  {
    NamesIffAccepts(entry, w, found);
    BeyondIffTruncated(entry, found);
    if !NamesEpisode(entry, w, found) && found >= w && Beyond(entry, found) {
      AbsoluteTells(chain, entry, wanted, w, found);
    }
    hide DecideAbsolute, Accepts, NamesEpisode, Beyond, MapsTo, WholePart, CountsKnown;
  }

  // ------------------------------------------------------------ every want and every release

  ghost predicate SeasonFits(wanted: Wanted, release: Release) {
    release.season.None? || release.season.value == wanted.season
  }

  /** The release is what the want asks for. */
  ghost predicate Taken(chain: Chain, entry: SeasonEntry, wanted: Wanted, release: Release) {
    match (wanted.episode, release.episode)
    case (None, None) => true
    case (None, Some(found)) => found == 1.0
    case (Some(_), None) => release.isBatch && entry.fullyAired
    case (Some(w), Some(found)) => Numbered(chain, entry, wanted.season, w, found, IsIt)
  }

  /** It cannot be told whether it is. */
  ghost predicate Asked(chain: Chain, entry: SeasonEntry, wanted: Wanted, release: Release) {
    match (wanted.episode, release.episode)
    case (None, None) => false
    case (None, Some(found)) => found != 1.0
    case (Some(_), None) => !release.isBatch || !entry.fullyAired
    case (Some(w), Some(found)) => Numbered(chain, entry, wanted.season, w, found, IsUnclear)
  }

  /** Both carry a number, and the numbers settle it otherwise. */
  ghost predicate ByNumbers(chain: Chain, entry: SeasonEntry, wanted: Wanted, release: Release, v: Verdict) {
    && wanted.episode.Some? && release.episode.Some?
    && Numbered(chain, entry, wanted.season, wanted.episode.value, release.episode.value, v)
  }

  /** On every chain, want and release: what is downloaded, asked about, skipped and not found, and when the slice
      is out of range; and a download is always of the wanted season and episode. */
  lemma DecideTells(chain: Chain, wanted: Wanted, release: Release, i: nat)
    requires IsEntry(chain, i, wanted.malId) && SeasonFits(wanted, release)
    ensures var r := Decide(chain, wanted, release);
            && (r.Answer? && r.decision.Download? <==> Taken(chain, chain[i], wanted, release))
            && (r.Answer? && r.decision.Download? ==>
                  r.decision == Download(wanted.season, wanted.episode.GetOr(1.0)))
            && (r.Answer? && r.decision.Ask? <==> Asked(chain, chain[i], wanted, release))
            && (r.Answer? && r.decision.Skip? <==> ByNumbers(chain, chain[i], wanted, release, IsAnother))
            && (r == SliceOutOfRange <==> ByNumbers(chain, chain[i], wanted, release, StopsOnSlice))
            && (r.Answer? ==> !r.decision.NotFound?)
  {
    hide DecideNumbered, Numbered;
    EntryIsFirst(chain, i, wanted.malId);
    if wanted.episode.Some? && release.episode.Some? {
      NumberTells(chain, chain[i], wanted, wanted.episode.value, release.episode.value);
      NumberedNeverNotFound(chain, wanted, release);
    }
  }

  /** Without a count of its own nothing is guessed: a whole number delivers a whole episode exactly when it is that
      episode's own number, or that and a nonzero offset; a later number is asked about. */
  lemma UnknownCountNeverGuesses(chain: Chain, wanted: Wanted, i: nat, e: int, n: int, batch: bool)
    requires IsEntry(chain, i, wanted.malId) && chain[i].totalEpisodes.None? && wanted.episode == Some(e as real)
    ensures var r := Decide(chain, wanted, Release(None, Some(n as real), batch));
            && r.Answer?
            && (r.decision.Download? <==> n == e || (chain[i].episodeOffset != 0 && n == e + chain[i].episodeOffset))
            && (r.decision.Ask? <==> !r.decision.Download? && n > e)
  {
    hide Decide;
    DecideTells(chain, wanted, Release(None, Some(n as real), batch), i);
    WholeNumbersSame(e, n);
    WholeNumbersSame(e + chain[i].episodeOffset, n);
    assert (e + chain[i].episodeOffset) as real == e as real + chain[i].episodeOffset as real;
  }

  lemma WholeNumbersSame(a: int, b: int)
    ensures Same(a as real, b as real) <==> a == b
  {
    if a < b { assert a as real + 1.0 <= b as real; }
    if b < a { assert b as real + 1.0 <= a as real; }
  }
}
