/** The season chain: numbering its entries, what it wants next, and what a release delivers. */
module Season {
  import opened Wrappers
  import opened ListModels

  datatype ShowType = Tv | Movie | Ova | Ona | Special

  datatype SeasonEntry = SeasonEntry(
    malId: int,
    title: string,
    listStatus: ListStatus,
    watchedCount: int,
    totalEpisodes: Option<int>,
    episodeOffset: int,
    showType: ShowType,
    fullyAired: bool
  )

  type Chain = seq<SeasonEntry>

  /** The first position of an id. */
  function PositionOf(chain: Chain, malId: int): (p: Option<nat>)
    ensures p.Some? ==> p.value < |chain| && chain[p.value].malId == malId
    ensures p.Some? ==> forall i :: 0 <= i < p.value ==> chain[i].malId != malId
    ensures p.None? ==> forall i :: 0 <= i < |chain| ==> chain[i].malId != malId
  {
    if chain == [] then None
    else if chain[0].malId == malId then Some(0)
    else
      match PositionOf(chain[1..], malId)
      case None => None
      case Some(p) => Some(p + 1)
  }

  function EntryOf(chain: Chain, malId: int): Option<SeasonEntry> {
    match PositionOf(chain, malId)
    case None => None
    case Some(p) => Some(chain[p])
  }

  // -------------------------------------------------------- season numbers

  /** The base counter after the entries before `p`: an explicit number sets it, a cour or part
      after the first entry leaves it, anything else advances it. */
  function ScanSeason(chain: Chain, markers: Markers, p: nat): int
    requires p <= |chain|
  {
    if p == 0 then 1
    else
      var prev := chain[p - 1];
      match markers.season(prev.title)
      case Some(explicit) => explicit + 1
      case None =>
        if p - 1 > 0 && markers.split(prev.title) then ScanSeason(chain, markers, p - 1)
        else ScanSeason(chain, markers, p - 1) + 1
  }

  /** `season_of` for the entry at position `p`, recursing through the id of the entry before. */
  function SeasonAt(chain: Chain, markers: Markers, p: nat): int
    requires p < |chain|
    decreases p
  {
    match markers.season(chain[p].title)
    case Some(explicit) => explicit
    case None =>
      if p > 0 && markers.split(chain[p].title) then
        var q := PositionOf(chain, chain[p - 1].malId);
        if q.Some? && q.value < p then SeasonAt(chain, markers, q.value) else assert false; 0
      else ScanSeason(chain, markers, p)
  }

  function SeasonOf(chain: Chain, markers: Markers, malId: int): Option<int> {
    match PositionOf(chain, malId)
    case None => None
    case Some(p) => Some(SeasonAt(chain, markers, p))
  }

  /** `season_of` as written: a recursive call for splits, a counting loop otherwise. */
  method ComputeSeasonOf(chain: Chain, markers: Markers, malId: int) returns (season: Option<int>)
    ensures season == SeasonOf(chain, markers, malId)
    decreases match PositionOf(chain, malId) case Some(p) => p case None => 0
  {
    var target := PositionOf(chain, malId);
    if target.None? {
      return None;
    }
    var p := target.value;
    var explicit := markers.season(chain[p].title);
    if explicit.Some? {
      return explicit;
    }
    if p > 0 && markers.split(chain[p].title) {
      season := ComputeSeasonOf(chain, markers, chain[p - 1].malId);
      return;
    }
    var count := 1;
    for i := 0 to p
      invariant count == ScanSeason(chain, markers, i)
    {
      var found := markers.season(chain[i].title);
      if found.Some? {
        count := found.value + 1;
      } else if i > 0 && markers.split(chain[i].title) {
      } else {
        count := count + 1;
      }
    }
    return Some(count);
  }

  /** The numbering as one left fold over the chain: the explicit number, else the previous season
      for a split after the first entry, else the previous season plus one, starting from 0. */
  function FoldSeason(chain: Chain, markers: Markers, n: nat): int
    requires n <= |chain|
  {
    if n == 0 then 0
    else
      var previous := FoldSeason(chain, markers, n - 1);
      match markers.season(chain[n - 1].title)
      case Some(explicit) => explicit
      case None => if n > 1 && markers.split(chain[n - 1].title) then previous else previous + 1
  }

  lemma {:induction false} ScanIsFoldPlusOne(chain: Chain, markers: Markers, p: nat)
    requires p <= |chain|
    ensures ScanSeason(chain, markers, p) == FoldSeason(chain, markers, p) + 1
  {
    if p > 0 { ScanIsFoldPlusOne(chain, markers, p - 1); }
  }

  /** No id that is new at its position follows a repeated one. */
  ghost predicate NewIdsFirst(chain: Chain) {
    forall p :: 0 < p < |chain| && FirstAt(chain, p) ==> FirstAt(chain, p - 1)
  }

  /** Position `p` is the first with its id, the one that look-ups by id find. */
  ghost predicate FirstAt(chain: Chain, p: nat)
    requires p < |chain|
  {
    forall i :: 0 <= i < p ==> chain[i].malId != chain[p].malId
  }

  lemma FirstAtIsPosition(chain: Chain, p: nat)
    requires p < |chain|
    ensures FirstAt(chain, p) <==> PositionOf(chain, chain[p].malId) == Some(p)
  {
  }

  lemma {:induction false} SeasonAtIsFold(chain: Chain, markers: Markers, p: nat)
    requires NewIdsFirst(chain) && p < |chain| && FirstAt(chain, p)
    ensures SeasonAt(chain, markers, p) == FoldSeason(chain, markers, p + 1)
  {
    var explicit := markers.season(chain[p].title);
    if explicit.None? {
      if p > 0 && markers.split(chain[p].title) {
        SeasonAtIsFold(chain, markers, p - 1);
        FirstAtIsPosition(chain, p - 1);
        assert SeasonAt(chain, markers, p) == SeasonAt(chain, markers, p - 1);
      } else {
        ScanIsFoldPlusOne(chain, markers, p);
      }
    }
  }

  /** The chain with every title replaced: only the id structure is kept. */
  function Retitled(chain: Chain, p: nat): (r: Chain)
    ensures |r| == |chain| && forall i :: 0 <= i < |chain| ==> r[i] == chain[i].(title := if i == p then "part" else "")
  {
    seq(|chain|, i requires 0 <= i < |chain| => chain[i].(title := if i == p then "part" else ""))
  }

  lemma {:induction false} PlainScan(chain: Chain, markers: Markers, p: nat)
    requires p <= |chain| && forall i :: 0 <= i < p ==> markers.season(chain[i].title).None?
    requires forall i :: 0 <= i < p ==> !markers.split(chain[i].title)
    ensures ScanSeason(chain, markers, p) == p + 1
  {
    if p > 0 { PlainScan(chain, markers, p - 1); }
  }

  ghost predicate NumberedByFold(chain: Chain, markers: Markers, p: nat)
    requires p < |chain|
  {
    SeasonOf(chain, markers, chain[p].malId) == Some(FoldSeason(chain, markers, p + 1))
  }

  /** Every entry that is the first with its id is numbered by the fold, whatever the titles say. */
  ghost predicate AlwaysNumberedByFold(chain: Chain) {
    forall titled: Chain, markers, p ::
      SameIds(chain, titled) && 0 <= p < |titled| && FirstAt(titled, p) ==> NumberedByFold(titled, markers, p)
  }

  /** `season_of` is the left fold for every title and every pair of marker scans exactly when the
      id structure of the chain puts new ids first; distinct ids always do. */
  lemma SeasonOfIsFoldIffNewIdsFirst(chain: Chain)
    ensures NewIdsFirst(chain) <==> AlwaysNumberedByFold(chain)
  {
    if NewIdsFirst(chain) {
      forall titled: Chain, markers, p | SameIds(chain, titled) && 0 <= p < |titled| && FirstAt(titled, p)
        ensures NumberedByFold(titled, markers, p)
      {
        assert forall q :: 0 <= q < |chain| ==> (FirstAt(titled, q) <==> FirstAt(chain, q));
        SeasonAtIsFold(titled, markers, p);
        FirstAtIsPosition(titled, p);
      }
    } else {
      var p :| 0 < p < |chain| && FirstAt(chain, p) && !FirstAt(chain, p - 1);
      var titled, markers := SplitAfterRepeatDisagrees(chain, p);
      assert FirstAt(titled, p);
    }
  }

  ghost predicate SameIds(chain: Chain, titled: Chain) {
    |titled| == |chain| && forall i :: 0 <= i < |chain| ==> titled[i].malId == chain[i].malId
  }

  /** A split right after a repeated id is numbered like the first occurrence of that id. */
  lemma SplitAfterRepeatDisagrees(chain: Chain, p: nat) returns (titled: Chain, markers: Markers)
    requires 0 < p < |chain| && FirstAt(chain, p) && !FirstAt(chain, p - 1)
    ensures SameIds(chain, titled) && !NumberedByFold(titled, markers, p)
  {
    titled := Retitled(chain, p);
    markers := Markers(t => None, t => t == "part");
    FirstAtIsPosition(titled, p);
    FirstAtIsPosition(titled, p - 1);
    var q := PositionOf(titled, titled[p - 1].malId).value;
    PlainScan(titled, markers, q);
    PlainScan(titled, markers, p);
    ScanIsFoldPlusOne(titled, markers, p);
    assert titled[p].title == "part" && markers.split(titled[p].title);
    assert markers.season(titled[q].title).None? && markers.season(titled[p].title).None?;
    assert titled[q].title == "" && !markers.split("");
    assert SeasonAt(titled, markers, q) == q + 1;
    assert SeasonAt(titled, markers, p) == q + 1;
    assert FoldSeason(titled, markers, p + 1) == FoldSeason(titled, markers, p) == p;
  }

  ghost predicate DistinctIds(chain: Chain) {
    forall i, j :: 0 <= i < j < |chain| ==> chain[i].malId != chain[j].malId
  }

  lemma DistinctIdsAreNewFirst(chain: Chain)
    requires DistinctIds(chain)
    ensures NewIdsFirst(chain)
    ensures forall p :: 0 <= p < |chain| ==> PositionOf(chain, chain[p].malId) == Some(p)
  {
    forall p | 0 <= p < |chain| ensures PositionOf(chain, chain[p].malId) == Some(p) {
      var q := PositionOf(chain, chain[p].malId);
      assert q.Some?;
    }
  }
}
