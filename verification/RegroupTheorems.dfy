/** What regrouping makes of the rows that `build_chains` has written: when the chains come back in the
    emitted order, when the written offsets are what the chains count, and which release numbers a chain
    built this way delivers. */
module RegroupTheorems {
  import opened Wrappers
  import opened Graphs
  import opened ListModels
  import opened Sorting
  import opened MalModels
  import opened ChainTheorems
  import opened PlannerList
  import opened Totals
  import Season
  import SeasonDecide
  import AbsoluteNumbering

  // ------------------------------------------------------------ the rows of a component

  /** The rows of one order, in order. */
  ghost function OrderRows(after: seq<ListEntry>, index: map<int, nat>, order: seq<int>): (r: seq<ListEntry>)
    requires AllIndexed(after, index, order)
    ensures |r| == |order| && forall k :: 0 <= k < |order| ==> r[k] == after[index[order[k]]]
  {
    seq(|order|, k requires 0 <= k < |order| => after[index[order[k]]])
  }

  /** Where the list holds the row of an id. */
  ghost function Place(index: map<int, nat>): ListEntry -> int {
    (x: ListEntry) => if x.malId in index then index[x.malId] else 0
  }

  /** `orders[c]` is the order of the component with this franchise. */
  ghost predicate ComponentOf(before: seq<ListEntry>, after: seq<ListEntry>, index: map<int, nat>,
                              relations: Relations, markers: Markers, orders: seq<seq<int>>, c: nat, franchise: int)
  {
    && ChainsBuilt(before, after, index, relations, markers, orders)
    && c < |orders| && IsSmallestOf(orders[c], franchise) && AllIndexed(after, index, orders[c])
  }

  /** No row that carries the franchise is shadowed by a later one with the same id. */
  ghost predicate OnlyCurrentRows(before: seq<ListEntry>, after: seq<ListEntry>, franchise: int) {
    && |after| == |before|
    && forall i :: 0 <= i < |after| && after[i].franchise == franchise ==> IsLast(before, i)
  }

  ghost predicate DistinctIds(rows: seq<ListEntry>) {
    forall i, j :: 0 <= i < j < |rows| ==> rows[i].malId != rows[j].malId
  }

  lemma {:induction false} RowsOfMembers(entries: seq<ListEntry>, s: set<int>, x: ListEntry)
    ensures x in RowsOf(entries, s) <==> x in entries && x.franchise in s
  {
    if entries != [] { RowsOfMembers(entries[1..], s, x); }
  }

  lemma PlacedRow(before: seq<ListEntry>, after: seq<ListEntry>, index: map<int, nat>, relations: Relations,
                  markers: Markers, orders: seq<seq<int>>, c: nat, franchise: int, k: nat)
    requires ComponentOf(before, after, index, relations, markers, orders, c, franchise) && k < |orders[c]|
    ensures var row := OrderRows(after, index, orders[c])[k];
            && row.malId == orders[c][k] && row.franchise == franchise && IsLast(before, index[orders[c][k]])
            && Place(index)(row) == index[orders[c][k]]
  {
    assert PlacedAt(before, after, index, orders[c], k, markers);
  }

  /** A row with the franchise that no later row shadows is one of the component's. */
  lemma CurrentRowIsMember(before: seq<ListEntry>, after: seq<ListEntry>, index: map<int, nat>, relations: Relations,
                           markers: Markers, orders: seq<seq<int>>, c: nat, franchise: int, i: nat) returns (k: nat)
    requires ComponentOf(before, after, index, relations, markers, orders, c, franchise)
    requires IsLast(before, i) && after[i].franchise == franchise
    ensures k < |orders[c]| && index[orders[c][k]] == i
  {
    var d;
    d, k := Locate(before, after, index, relations, markers, orders, i);
    assert franchise in SetOf(orders[c]) && franchise in SetOf(orders[d]);
    assert c == d;
  }

  lemma OrderRowsAreDistinct(before: seq<ListEntry>, after: seq<ListEntry>, index: map<int, nat>,
                             relations: Relations, markers: Markers, orders: seq<seq<int>>, c: nat, franchise: int)
    requires ComponentOf(before, after, index, relations, markers, orders, c, franchise)
    ensures DistinctIds(OrderRows(after, index, orders[c]))
  {
    var rows := OrderRows(after, index, orders[c]);
    ComponentFacts(before, after, index, relations, markers, orders, c);
    forall k | 0 <= k < |rows| ensures rows[k].malId == orders[c][k] {
      PlacedRow(before, after, index, relations, markers, orders, c, franchise, k);
    }
  }

  /** Filtering keeps the list order. */
  lemma {:induction false} RowsInListOrder(after: seq<ListEntry>, franchise: int, place: ListEntry -> int, n: nat)
    requires n <= |after|
    requires forall i :: 0 <= i < n && after[i].franchise == franchise ==> place(after[i]) == i
    ensures Ascends(place, RowsOf(after[..n], {franchise}))
    ensures forall x :: x in RowsOf(after[..n], {franchise}) ==> place(x) < n
  {
    if n > 0 {
      RowsInListOrder(after, franchise, place, n - 1);
      RowsOfSnoc(after[..n - 1], after[n - 1], {franchise});
      assert after[..n] == after[..n - 1] + [after[n - 1]];
    }
  }

  lemma {:induction false} OnceEach(place: ListEntry -> int, s: seq<ListEntry>, x: ListEntry)
    requires forall i, j :: 0 <= i < j < |s| ==> place(s[i]) != place(s[j])
    ensures multiset(s)[x] == if x in s then 1 else 0
  {
    if s != [] {
      assert s == [s[0]] + s[1..];
      OnceEach(place, s[1..], x);
    }
  }

  /** Without shadowed rows, the rows that carry the franchise are the component's, in list order. */
  lemma FranchiseRows(before: seq<ListEntry>, after: seq<ListEntry>, index: map<int, nat>, relations: Relations,
                      markers: Markers, orders: seq<seq<int>>, c: nat, franchise: int)
    requires ComponentOf(before, after, index, relations, markers, orders, c, franchise)
    requires OnlyCurrentRows(before, after, franchise)
    ensures Ascends(Place(index), RowsOf(after, {franchise}))
    ensures multiset(RowsOf(after, {franchise})) == multiset(OrderRows(after, index, orders[c]))
  {
    hide ChainsBuilt, IsSmallestOf, OnlyCurrentRows, IsLast;
    var rows, grouped, place := OrderRows(after, index, orders[c]), RowsOf(after, {franchise}), Place(index);
    CurrentRowsAreInPlace(before, after, index, relations, markers, orders, c, franchise);
    RowsInListOrder(after, franchise, place, |after|);
    assert after[..|after|] == after;
    OrderRowsAreDistinct(before, after, index, relations, markers, orders, c, franchise);
    SameMembers(before, after, index, relations, markers, orders, c, franchise);
    forall x ensures multiset(grouped)[x] == multiset(rows)[x] {
      OnceEach(place, grouped, x);
      OnceEach((y: ListEntry) => y.malId, rows, x);
    }
  }

  lemma CurrentRowsAreInPlace(before: seq<ListEntry>, after: seq<ListEntry>, index: map<int, nat>,
                              relations: Relations, markers: Markers, orders: seq<seq<int>>, c: nat, franchise: int)
    requires ComponentOf(before, after, index, relations, markers, orders, c, franchise)
    requires OnlyCurrentRows(before, after, franchise)
    ensures forall i :: 0 <= i < |after| && after[i].franchise == franchise ==> Place(index)(after[i]) == i
    ensures AllIndexed(after, index, orders[c])
  {
    forall i | 0 <= i < |after| && after[i].franchise == franchise ensures Place(index)(after[i]) == i {
      var k := CurrentRowIsMember(before, after, index, relations, markers, orders, c, franchise, i);
      PlacedRow(before, after, index, relations, markers, orders, c, franchise, k);
    }
  }

  lemma SameMembers(before: seq<ListEntry>, after: seq<ListEntry>, index: map<int, nat>, relations: Relations,
                    markers: Markers, orders: seq<seq<int>>, c: nat, franchise: int)
    requires ComponentOf(before, after, index, relations, markers, orders, c, franchise)
    requires OnlyCurrentRows(before, after, franchise)
    ensures forall x :: x in RowsOf(after, {franchise}) <==> x in OrderRows(after, index, orders[c])
  {
    hide ChainsBuilt, IsSmallestOf, IsLast, RowsOf, Place;
    var rows := OrderRows(after, index, orders[c]);
    forall x ensures x in RowsOf(after, {franchise}) <==> x in rows {
      RowsOfMembers(after, {franchise}, x);
      if x in after && x.franchise == franchise {
        var i :| 0 <= i < |after| && after[i] == x;
        var k := CurrentRowIsMember(before, after, index, relations, markers, orders, c, franchise, i);
        assert rows[k] == x;
      }
      if x in rows {
        var k :| 0 <= k < |rows| && rows[k] == x;
        PlacedRow(before, after, index, relations, markers, orders, c, franchise, k);
      }
    }
  }

  // ------------------------------------------------------------ a shadowed row shows

  ghost function RowPlaces(after: seq<ListEntry>, franchise: int, n: nat): set<nat>
    requires n <= |after|
  {
    set i: nat | i < n && after[i].franchise == franchise
  }

  lemma RowPlacesNext(after: seq<ListEntry>, franchise: int, n: nat)
    requires n < |after|
    ensures |RowPlaces(after, franchise, n + 1)| ==
            |RowPlaces(after, franchise, n)| + if after[n].franchise == franchise then 1 else 0
  {
    var rest := RowPlaces(after, franchise, n);
    assert RowPlaces(after, franchise, n + 1) == if after[n].franchise == franchise then rest + {n} else rest;
  }

  lemma {:induction false} RowsOfLength(after: seq<ListEntry>, franchise: int, n: nat)
    requires n <= |after|
    ensures |RowsOf(after[..n], {franchise})| == |RowPlaces(after, franchise, n)|
  {
    if n > 0 {
      RowsOfLength(after, franchise, n - 1);
      RowsOfSnoc(after[..n - 1], after[n - 1], {franchise});
      assert after[..n] == after[..n - 1] + [after[n - 1]];
      RowPlacesNext(after, franchise, n - 1);
    }
  }

  ghost function OrderPlaces(index: map<int, nat>, order: seq<int>): set<nat>
    requires forall k :: 0 <= k < |order| ==> order[k] in index
  {
    set k | 0 <= k < |order| :: index[order[k]]
  }

  lemma {:induction false} OrderPlacesSize(index: map<int, nat>, order: seq<int>)
    requires forall k :: 0 <= k < |order| ==> order[k] in index
    requires forall i, j :: 0 <= i < j < |order| ==> index[order[i]] != index[order[j]]
    ensures |OrderPlaces(index, order)| == |order|
  {
    if order != [] {
      var n := |order| - 1;
      OrderPlacesSize(index, order[..n]);
      assert OrderPlaces(index, order) == OrderPlaces(index, order[..n]) + {index[order[n]]};
    }
  }

  lemma PlacesInOrder(before: seq<ListEntry>, after: seq<ListEntry>, index: map<int, nat>, relations: Relations,
                      markers: Markers, orders: seq<seq<int>>, c: nat, franchise: int)
    requires ComponentOf(before, after, index, relations, markers, orders, c, franchise)
    ensures |OrderPlaces(index, orders[c])| == |orders[c]|
    ensures forall i :: i in OrderPlaces(index, orders[c]) ==>
              i < |after| && after[i].franchise == franchise && IsLast(before, i)
  {
    ComponentFacts(before, after, index, relations, markers, orders, c);
    forall i, j | 0 <= i < j < |orders[c]| ensures index[orders[c][i]] != index[orders[c][j]] {
      RowsDiffer(before, index, orders[c], i, j);
    }
    OrderPlacesSize(index, orders[c]);
    forall k | 0 <= k < |orders[c]|
      ensures after[index[orders[c][k]]].franchise == franchise && IsLast(before, index[orders[c][k]])
    {
      PlacedRow(before, after, index, relations, markers, orders, c, franchise, k);
    }
  }

  lemma MorePlaces(after: seq<ListEntry>, franchise: int, mine: set<nat>, i: nat)
    requires i < |after| && after[i].franchise == franchise && i !in mine
    requires forall j :: j in mine ==> j < |after| && after[j].franchise == franchise
    ensures |ChainFor(after, franchise)| > |mine|
  {
    var all := RowPlaces(after, franchise, |after|);
    assert mine + {i} <= all;
    CardinalitiesGrow(mine + {i}, all);
    RowsOfLength(after, franchise, |after|);
    assert after[..|after|] == after;
    SortByKeyIsStableSort(SeasonKey(), RowsOf(after, {franchise}));
    SameLength(SortByKey(SeasonKey(), RowsOf(after, {franchise})), RowsOf(after, {franchise}));
  }

  /** A shadowed row with the franchise makes its chain longer than the order. */
  lemma ShadowedRowShows(before: seq<ListEntry>, after: seq<ListEntry>, index: map<int, nat>, relations: Relations,
                         markers: Markers, orders: seq<seq<int>>, c: nat, franchise: int)
    requires ComponentOf(before, after, index, relations, markers, orders, c, franchise)
    requires !OnlyCurrentRows(before, after, franchise)
    ensures |ChainFor(after, franchise)| > |orders[c]|
  {
    ComponentFacts(before, after, index, relations, markers, orders, c);
    PlacesInOrder(before, after, index, relations, markers, orders, c, franchise);
    hide ChainsBuilt, IsSmallestOf, IsLast, ChainFor, KahnOrder;
    var i :| 0 <= i < |after| && after[i].franchise == franchise && !IsLast(before, i);
    MorePlaces(after, franchise, OrderPlaces(index, orders[c]), i);
  }

  lemma CardinalitiesGrow(a: set<nat>, b: set<nat>)
    requires a <= b
    ensures |a| <= |b|
  {
    assert b == a + (b - a);
  }

  // ------------------------------------------------------------ when regrouping gives the order back

  lemma SameChainSameRows(s: seq<ListEntry>, rows: seq<ListEntry>)
    requires multiset(s) == multiset(rows) && DistinctIds(rows)
    ensures ToChain(s) == ToChain(rows) <==> s == rows
  {
    SameLength(s, rows);
    if ToChain(s) == ToChain(rows) {
      forall i | 0 <= i < |s| ensures s[i] == rows[i] {
        assert s[i] in multiset(s) && s[i] in rows;
        assert ToChain(s)[i].malId == ToChain(rows)[i].malId;
      }
    }
  }

  /** Regrouping the written list gives back an emitted order exactly when no shadowed row carries the
      franchise and the seasons along the order never fall, rows of equal season standing in list order. */
  lemma RegroupingReproducesOrderIff(before: seq<ListEntry>, after: seq<ListEntry>, index: map<int, nat>,
                                     relations: Relations, markers: Markers, orders: seq<seq<int>>, c: nat,
                                     franchise: int)
    requires ComponentOf(before, after, index, relations, markers, orders, c, franchise)
    ensures ChainFor(after, franchise) == ToChain(OrderRows(after, index, orders[c])) <==>
            && OnlyCurrentRows(before, after, franchise)
            && Lexicographic(SeasonKey(), Place(index), OrderRows(after, index, orders[c]))
  {
    if OnlyCurrentRows(before, after, franchise) {
      FranchiseRows(before, after, index, relations, markers, orders, c, franchise);
      OrderRowsAreDistinct(before, after, index, relations, markers, orders, c, franchise);
      hide ComponentOf, OnlyCurrentRows;
      SortedIsLexicographic(RowsOf(after, {franchise}), OrderRows(after, index, orders[c]), Place(index));
    } else {
      ShadowedRowShows(before, after, index, relations, markers, orders, c, franchise);
    }
  }

  lemma SortedIsLexicographic(grouped: seq<ListEntry>, rows: seq<ListEntry>, place: ListEntry -> int)
    requires Ascends(place, grouped) && multiset(grouped) == multiset(rows) && DistinctIds(rows)
    ensures ToChain(SortByKey(SeasonKey(), grouped)) == ToChain(rows) <==> Lexicographic(SeasonKey(), place, rows)
    ensures Lexicographic(SeasonKey(), place, rows) ==> SortByKey(SeasonKey(), grouped) == rows
  {
    var s := SortByKey(SeasonKey(), grouped);
    SortIsLexicographic(SeasonKey(), place, grouped);
    SameChainSameRows(s, rows);
    if Lexicographic(SeasonKey(), place, rows) { LexicographicIsUnique(SeasonKey(), place, s, rows); }
  }

  lemma UnmarkedIsLexicographic(before: seq<ListEntry>, after: seq<ListEntry>, index: map<int, nat>,
                                relations: Relations, markers: Markers, orders: seq<seq<int>>, c: nat, franchise: int)
    requires ComponentOf(before, after, index, relations, markers, orders, c, franchise)
    requires Unmarked(before, markers, orders[c])
    ensures Lexicographic(SeasonKey(), Place(index), OrderRows(after, index, orders[c]))
    ensures forall k :: 0 <= k < |orders[c]| ==> OrderRows(after, index, orders[c])[k].season == k + 1
  {
    hide ChainsBuilt, Unmarked;
    var rows := OrderRows(after, index, orders[c]);
    forall k | 0 <= k < |rows| ensures rows[k].season == k + 1 {
      UnmarkedSeasonIsPosition(before, after, index, relations, markers, orders, c, k);
    }
  }

  /** Without season markers only shadowed rows can get in the way. */
  lemma RegroupingReproducesOrder(before: seq<ListEntry>, after: seq<ListEntry>, index: map<int, nat>,
                                  relations: Relations, markers: Markers, orders: seq<seq<int>>, c: nat, franchise: int)
    requires ComponentOf(before, after, index, relations, markers, orders, c, franchise)
    requires Unmarked(before, markers, orders[c])
    ensures ChainFor(after, franchise) == ToChain(OrderRows(after, index, orders[c])) <==>
            OnlyCurrentRows(before, after, franchise)
  {
    UnmarkedIsLexicographic(before, after, index, relations, markers, orders, c, franchise);
    RegroupingReproducesOrderIff(before, after, index, relations, markers, orders, c, franchise);
  }

  // ------------------------------------------------------------ the two offsets agree

  lemma {:induction false} ChainCountsAgree(before: seq<ListEntry>, after: seq<ListEntry>, index: map<int, nat>,
                                            order: seq<int>, k: nat)
    requires AllIndexed(before, index, order) && AllIndexed(after, index, order) && k <= |order|
    requires forall j :: 0 <= j < |order| ==>
               after[index[order[j]]].totalEpisodes == before[index[order[j]]].totalEpisodes
    ensures SeasonDecide.CountOfFirst(ToChain(OrderRows(after, index, order)), k)
         == CountBefore(before, index, order, k)
  {
    if k > 0 { ChainCountsAgree(before, after, index, order, k - 1); }
  }

  /** The offset written for a row is the count of the rows before it in its order, or 0 when one is unknown. */
  lemma OffsetOfPlace(before: seq<ListEntry>, after: seq<ListEntry>, index: map<int, nat>, relations: Relations,
                      markers: Markers, orders: seq<seq<int>>, c: nat, franchise: int, k: nat)
    requires ComponentOf(before, after, index, relations, markers, orders, c, franchise) && k < |orders[c]|
    ensures var rows := OrderRows(after, index, orders[c]);
            rows[k].episodeOffset == SeasonDecide.CountOfFirst(ToChain(rows), k).GetOr(0)
  {
    assert AllIndexed(before, index, orders[c]);
    forall j | 0 <= j < |orders[c]|
      ensures after[index[orders[c][j]]].totalEpisodes == before[index[orders[c][j]]].totalEpisodes
    {
      assert PlacedAt(before, after, index, orders[c], j, markers);
    }
    ChainCountsAgree(before, after, index, orders[c], k);
    assert PlacedAt(before, after, index, orders[c], k, markers);
  }

  lemma FranchiseIsUnmarked(before: seq<ListEntry>, after: seq<ListEntry>, index: map<int, nat>,
                            relations: Relations, markers: Markers, orders: seq<seq<int>>, c: nat, franchise: int)
    requires ComponentOf(before, after, index, relations, markers, orders, c, franchise)
    requires forall j :: 0 <= j < |before| && after[j].franchise == franchise ==>
               markers.season(before[j].title).None?
    ensures Unmarked(before, markers, orders[c])
  {
    forall i | 0 <= i < |before| && before[i].malId in orders[c] && IsLast(before, i)
      ensures after[i].franchise == franchise
    {
      var k :| 0 <= k < |orders[c]| && orders[c][k] == before[i].malId;
      PlacedRow(before, after, index, relations, markers, orders, c, franchise, k);
      LastIsIndexed(before, index, i);
    }
  }

  /** The row stands in the chain at its season, and its offset is what the chain counts before that, or 0. */
  ghost predicate StandsAtItsCount(row: ListEntry, chain: Season.Chain) {
    && 1 <= row.season <= |chain| && chain[row.season - 1] == ToSeasonEntry(row)
    && row.episodeOffset == SeasonDecide.CountOfFirst(chain, SeasonDecide.Before(row.season)).GetOr(0)
  }

  lemma OffsetAgreesAtPlace(before: seq<ListEntry>, after: seq<ListEntry>, index: map<int, nat>,
                            relations: Relations, markers: Markers, orders: seq<seq<int>>, c: nat, franchise: int,
                            k: nat)
    requires ComponentOf(before, after, index, relations, markers, orders, c, franchise) && k < |orders[c]|
    requires OnlyCurrentRows(before, after, franchise) && Unmarked(before, markers, orders[c])
    ensures StandsAtItsCount(OrderRows(after, index, orders[c])[k], ChainFor(after, franchise))
  {
    hide ChainsBuilt, OnlyCurrentRows, IsSmallestOf, ChainFor, Lexicographic, Unmarked;
    UnmarkedIsLexicographic(before, after, index, relations, markers, orders, c, franchise);
    RegroupingReproducesOrder(before, after, index, relations, markers, orders, c, franchise);
    OffsetOfPlace(before, after, index, relations, markers, orders, c, franchise, k);
  }

  /** Which component and place a row has that no later row shadows. */
  lemma LocateComponent(before: seq<ListEntry>, after: seq<ListEntry>, index: map<int, nat>, relations: Relations,
                        markers: Markers, orders: seq<seq<int>>, i: nat) returns (c: nat, k: nat)
    requires ChainsBuilt(before, after, index, relations, markers, orders) && IsLast(before, i)
    ensures ComponentOf(before, after, index, relations, markers, orders, c, after[i].franchise)
    ensures k < |orders[c]| && OrderRows(after, index, orders[c])[k] == after[i]
  {
    c, k := Locate(before, after, index, relations, markers, orders, i);
    ComponentFacts(before, after, index, relations, markers, orders, c);
  }

  /** The offset written for an entry is the count that its regrouped chain gives for the seasons
      before it, or 0 when an earlier count is unknown. */
  lemma OffsetsAgree(before: seq<ListEntry>, after: seq<ListEntry>, index: map<int, nat>, relations: Relations,
                     markers: Markers, orders: seq<seq<int>>, i: nat)
    requires ChainsBuilt(before, after, index, relations, markers, orders)
    requires i < |before| && OnlyCurrentRows(before, after, after[i].franchise)
    requires forall j :: 0 <= j < |before| && after[j].franchise == after[i].franchise ==>
               markers.season(before[j].title).None?
    ensures StandsAtItsCount(after[i], ChainFor(after, after[i].franchise))
  {
    var franchise := after[i].franchise;
    assert IsLast(before, i);
    hide ChainsBuilt, OnlyCurrentRows, IsSmallestOf, ChainFor, Unmarked, IsLast, StandsAtItsCount;
    var c, k := LocateComponent(before, after, index, relations, markers, orders, i);
    FranchiseIsUnmarked(before, after, index, relations, markers, orders, c, franchise);
    OffsetAgreesAtPlace(before, after, index, relations, markers, orders, c, franchise, k);
  }

  /** Offset and count agree on a row at place `k` exactly when its season is `k + 1` (or less than 1, for
      the first). */
  ghost predicate AgreesIffSeasonIsPlace(row: ListEntry, chain: Season.Chain, k: nat) {
    && SeasonDecide.Before(row.season) <= |chain|
    && (row.episodeOffset == SeasonDecide.CountOfFirst(chain, SeasonDecide.Before(row.season)).GetOr(0) <==>
        SeasonDecide.Before(row.season) == k)
  }

  /** With any titles, known positive counts and seasons that never fall along the order, the two agree on
      an entry exactly when its season is its place in the order. A place between two rows of the entry's
      own season, which a numbered title and its second part leave, depends on the list order: there the
      rows of equal season must stand in list order. */
  lemma OffsetsAgreeIffSeasonIsPlace(before: seq<ListEntry>, after: seq<ListEntry>, index: map<int, nat>,
                                     relations: Relations, markers: Markers, orders: seq<seq<int>>, c: nat,
                                     franchise: int, k: nat)
    requires ComponentOf(before, after, index, relations, markers, orders, c, franchise)
    requires OnlyCurrentRows(before, after, franchise) && k < |orders[c]|
    requires AllKnown(OrderRows(after, index, orders[c]))
    requires SortedByKey(SeasonKey(), OrderRows(after, index, orders[c]))
    requires var rows := OrderRows(after, index, orders[c]);
             && SeasonDecide.Before(rows[k].season) <= |rows|
             && (InsideOwnSeason(rows, k, SeasonDecide.Before(rows[k].season)) ==>
                   Lexicographic(SeasonKey(), Place(index), rows))
    ensures AgreesIffSeasonIsPlace(OrderRows(after, index, orders[c])[k], ChainFor(after, franchise), k)
  {
    FranchiseRows(before, after, index, relations, markers, orders, c, franchise);
    OrderRowsAreDistinct(before, after, index, relations, markers, orders, c, franchise);
    OffsetOfPlace(before, after, index, relations, markers, orders, c, franchise, k);
    hide ChainsBuilt, OnlyCurrentRows, IsSmallestOf;
    PlaceOfSeason(RowsOf(after, {franchise}), OrderRows(after, index, orders[c]), Place(index), k);
  }

  lemma PlaceOfSeason(grouped: seq<ListEntry>, rows: seq<ListEntry>, place: ListEntry -> int, k: nat)
    requires Ascends(place, grouped) && multiset(grouped) == multiset(rows) && DistinctIds(rows)
    requires AllKnown(rows) && SortedByKey(SeasonKey(), rows) && k < |rows|
    requires var q := SeasonDecide.Before(rows[k].season);
             q <= |rows| && (InsideOwnSeason(rows, k, q) ==> Lexicographic(SeasonKey(), place, rows))
    requires rows[k].episodeOffset == SeasonDecide.CountOfFirst(ToChain(rows), k).GetOr(0)
    ensures AgreesIffSeasonIsPlace(rows[k], ToChain(SortByKey(SeasonKey(), grouped)), k)
  {
    var s, q := SortByKey(SeasonKey(), grouped), SeasonDecide.Before(rows[k].season);
    SortByKeyIsStableSort(SeasonKey(), grouped);
    SameLength(s, rows);
    AllKnownStays(s, rows);
    CountIsTotal(rows, k);
    CountIsTotal(s, q);
    if InsideOwnSeason(rows, k, q) {
      SortedIsLexicographic(grouped, rows, place);
      if k < q { TotalGrows(rows, k, q); }
      if q < k { TotalGrows(rows, q, k); }
    } else {
      TotalsAgreeIff(s, rows, k, q);
    }
  }

  /** Season 2 and its second part, listed the other way round: the part stands at the place of its season,
      yet its offset is not what the chain counts. */
  lemma SecondPartListedFirstDisagrees(first: ListEntry, part: ListEntry)
    requires first.season == part.season == 2 && first.totalEpisodes == Some(12) && part.totalEpisodes == Some(10)
    requires part.episodeOffset == 12
    ensures InsideOwnSeason([first, part], 1, 1)
    ensures !AgreesIffSeasonIsPlace(part, ToChain(SortByKey(SeasonKey(), [part, first])), 1)
  {
    var s := SortByKey(SeasonKey(), [part, first]);
    assert [part, first][1..] == [first] && [first][1..] == [];
    assert SortByKey(SeasonKey(), [first]) == [first];
    assert s == [part, first];
    CountIsTotal(s, 1);
    assert s[..1] == [part];
    TotalOne(part);
  }

  // ------------------------------------------------------------ release numbers on a built chain

  lemma RowsAreKnown(rows: seq<ListEntry>)
    requires AllKnown(rows) && DistinctIds(rows)
    ensures AbsoluteNumbering.KnownCounts(ToChain(rows))
  {
  }

  /** Without numbers in the titles and with known counts, a chain that comes out of `build_chains` and
      `chains` is one the results on absolute numbering speak of, and every offset is cumulative. */
  lemma BuiltChainIsCumulative(before: seq<ListEntry>, after: seq<ListEntry>, index: map<int, nat>,
                               relations: Relations, markers: Markers, orders: seq<seq<int>>, c: nat, franchise: int)
    requires ComponentOf(before, after, index, relations, markers, orders, c, franchise)
    requires OnlyCurrentRows(before, after, franchise) && Unmarked(before, markers, orders[c])
    requires AllKnown(OrderRows(after, index, orders[c]))
    ensures var chain := ChainFor(after, franchise);
            && AbsoluteNumbering.KnownCounts(chain)
            && forall k :: 0 <= k < |chain| ==> chain[k].episodeOffset == AbsoluteNumbering.Earlier(chain, k)
  {
    var rows := OrderRows(after, index, orders[c]);
    RegroupingReproducesOrder(before, after, index, relations, markers, orders, c, franchise);
    OrderRowsAreDistinct(before, after, index, relations, markers, orders, c, franchise);
    RowsAreKnown(rows);
    hide ChainsBuilt, OnlyCurrentRows, IsSmallestOf, Unmarked, ChainFor, AllKnown, AbsoluteNumbering.KnownCounts;
    forall k | 0 <= k < |rows| ensures rows[k].episodeOffset == AbsoluteNumbering.Earlier(ToChain(rows), k) {
      OffsetOfPlace(before, after, index, relations, markers, orders, c, franchise, k);
    }
  }

  /** On such a chain a number of the run is unambiguous, and delivers the episode at its place, exactly when it
      exceeds the count of every season but the first. */
  lemma BuiltChainUnambiguousIff(before: seq<ListEntry>, after: seq<ListEntry>, index: map<int, nat>,
                                 relations: Relations, markers: Markers, orders: seq<seq<int>>, c: nat,
                                 franchise: int, n: int, batch: bool, k: nat, e: int)
    requires ComponentOf(before, after, index, relations, markers, orders, c, franchise)
    requires OnlyCurrentRows(before, after, franchise) && Unmarked(before, markers, orders[c])
    requires AllKnown(OrderRows(after, index, orders[c]))
    requires AbsoluteNumbering.Episode(ChainFor(after, franchise), k, e)
    requires n == AbsoluteNumbering.Earlier(ChainFor(after, franchise), k) + e
    ensures var chain := ChainFor(after, franchise);
            AbsoluteNumbering.OnlyHit(chain, n, batch, k, e) <==>
            forall i :: 1 <= i < |chain| ==> n > AbsoluteNumbering.CountAt(chain, i)
  {
    hide ComponentOf, OnlyCurrentRows, Unmarked, AllKnown, ChainFor;
    BuiltChainIsCumulative(before, after, index, relations, markers, orders, c, franchise);
    AbsoluteNumbering.CumulativeIsUnambiguousIff(ChainFor(after, franchise), n, batch, k, e);
  }
}
