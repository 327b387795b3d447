/** What the chains written by `build_chains` mean, whatever order the hash maps were visited in. */
module ChainTheorems {
  import opened Wrappers
  import opened Graphs
  import opened HashOrders
  import opened ListModels
  import opened MalModels

  ghost function LinksOf(es: seq<ListEntry>, relations: Relations): Pairs {
    Undirected(ListPairs(es, relations))
  }

  /** Where an indexed row sits: its component and its position there. */
  lemma Locate(before: seq<ListEntry>, after: seq<ListEntry>, index: map<int, nat>, relations: Relations,
               markers: Markers, orders: seq<seq<int>>, i: nat) returns (c: nat, k: nat)
    requires ChainsBuilt(before, after, index, relations, markers, orders) && IsLast(before, i)
    ensures c < |orders| && k < |orders[c]| && orders[c][k] == before[i].malId
    ensures AllIndexed(before, index, orders[c]) && index[orders[c][k]] == i
    ensures Placed(before[i], after[i], orders[c], k, CountBefore(before, index, orders[c], k), markers)
  {
    assert before[i].malId in IdsOf(before);
    c :| 0 <= c < |orders| && before[i].malId in orders[c];
    k :| 0 <= k < |orders[c]| && orders[c][k] == before[i].malId;
    LastIsIndexed(before, index, i);
    assert PlacedAt(before, after, index, orders[c], k, markers);
  }

  lemma SameComponentIffConnected(before: seq<ListEntry>, after: seq<ListEntry>, index: map<int, nat>,
                                  relations: Relations, markers: Markers, orders: seq<seq<int>>, c: nat, x: int, y: int)
    requires ChainsBuilt(before, after, index, relations, markers, orders)
    requires c < |orders| && x in orders[c] && y in IdsOf(before)
    ensures y in orders[c] <==> Connected(LinksOf(before, relations), x, y)
  {
    assert x in SetOf(orders[c]);
    assert y in orders[c] <==> y in SetOf(orders[c]);
  }

  /** Two entries share a franchise exactly when sequel and prequel links inside the list connect
      them. */
  lemma SameFranchiseIffConnected(before: seq<ListEntry>, after: seq<ListEntry>, index: map<int, nat>,
                                  relations: Relations, markers: Markers, orders: seq<seq<int>>, i: nat, j: nat)
    requires ChainsBuilt(before, after, index, relations, markers, orders)
    requires IsLast(before, i) && IsLast(before, j)
    ensures after[i].franchise == after[j].franchise <==>
            Connected(LinksOf(before, relations), before[i].malId, before[j].malId)
  {
    var c, k := Locate(before, after, index, relations, markers, orders, i);
    var d, l := Locate(before, after, index, relations, markers, orders, j);
    var x, y := before[i].malId, before[j].malId;
    assert y in IdsOf(before);
    SameComponentIffConnected(before, after, index, relations, markers, orders, c, x, y);
    assert y in SetOf(orders[d]);
    if c != d {
      assert SetOf(orders[c]) !! SetOf(orders[d]);
      assert after[i].franchise in SetOf(orders[c]) && after[j].franchise in SetOf(orders[d]);
    }
  }

  /** The franchise of an entry is the smallest id its links reach. */
  lemma FranchiseIsSmallestConnected(before: seq<ListEntry>, after: seq<ListEntry>, index: map<int, nat>,
                                     relations: Relations, markers: Markers, orders: seq<seq<int>>, i: nat)
    requires ChainsBuilt(before, after, index, relations, markers, orders) && IsLast(before, i)
    ensures after[i].franchise in IdsOf(before)
    ensures Connected(LinksOf(before, relations), before[i].malId, after[i].franchise)
    ensures forall y :: y in IdsOf(before) && Connected(LinksOf(before, relations), before[i].malId, y) ==>
              after[i].franchise <= y
  {
    var c, k := Locate(before, after, index, relations, markers, orders, i);
    var f := after[i].franchise;
    assert f in SetOf(orders[c]);
    SameComponentIffConnected(before, after, index, relations, markers, orders, c, before[i].malId, f);
    forall y | y in IdsOf(before) && Connected(LinksOf(before, relations), before[i].malId, y) ensures f <= y {
      SameComponentIffConnected(before, after, index, relations, markers, orders, c, before[i].malId, y);
    }
  }

  /** Two runs on the same list and relations agree on every franchise: hash order never shows. */
  lemma FranchiseIndependentOfHashOrder(before: seq<ListEntry>, relations: Relations,
                                        after: seq<ListEntry>, index: map<int, nat>, orders: seq<seq<int>>,
                                        after': seq<ListEntry>, index': map<int, nat>, orders': seq<seq<int>>,
                                        markers: Markers, i: nat)
    requires ChainsBuilt(before, after, index, relations, markers, orders)
    requires ChainsBuilt(before, after', index', relations, markers, orders')
    requires i < |before|
    ensures after[i].franchise == after'[i].franchise
  {
    if IsLast(before, i) {
      FranchiseIsSmallestConnected(before, after, index, relations, markers, orders, i);
      FranchiseIsSmallestConnected(before, after', index', relations, markers, orders', i);
    }
  }

  /** The titles under which these ids are indexed are without a season marker. */
  ghost predicate Unmarked(es: seq<ListEntry>, markers: Markers, ids: seq<int>) {
    forall i :: 0 <= i < |es| && es[i].malId in ids && IsLast(es, i) ==> markers.season(es[i].title).None?
  }

  lemma UnmarkedSeasonIsPosition(before: seq<ListEntry>, after: seq<ListEntry>, index: map<int, nat>,
                                 relations: Relations, markers: Markers, orders: seq<seq<int>>, c: nat, k: nat)
    requires ChainsBuilt(before, after, index, relations, markers, orders)
    requires c < |orders| && k < |orders[c]| && Unmarked(before, markers, orders[c])
    ensures orders[c][k] in index && index[orders[c][k]] < |after| && after[index[orders[c][k]]].season == k + 1
  {
    assert PlacedAt(before, after, index, orders[c], k, markers);
    assert before[index[orders[c][k]]].malId in orders[c];
  }

  /** Every declared pair inside one component runs from a smaller to a larger season. */
  ghost predicate SeasonsFollow(after: seq<ListEntry>, index: map<int, nat>, e: Pairs, order: seq<int>)
    requires AllIndexed(after, index, order)
  {
    forall i, j :: 0 <= i < |order| && 0 <= j < |order| && Edge(e, order[i], order[j]) ==>
      after[index[order[i]]].season < after[index[order[j]]].season
  }

  lemma PositionalSeasonsFollow(after: seq<ListEntry>, index: map<int, nat>, e: Pairs, order: seq<int>)
    requires AllIndexed(after, index, order)
    requires forall k :: 0 <= k < |order| ==> after[index[order[k]]].season == k + 1
    ensures SeasonsFollow(after, index, e, order) <==> Topological(e, order)
  {
  }

  lemma ComponentFacts(before: seq<ListEntry>, after: seq<ListEntry>, index: map<int, nat>, relations: Relations,
                       markers: Markers, orders: seq<seq<int>>, c: nat)
    requires ChainsBuilt(before, after, index, relations, markers, orders) && c < |orders|
    ensures |after| == |before| && AllIndexed(after, index, orders[c])
    ensures KahnOrder(ListPairs(before, relations), orders[c])
  {
    assert AllIndexed(before, index, orders[c]);
  }

  lemma SeasonsArePositional(before: seq<ListEntry>, after: seq<ListEntry>, index: map<int, nat>,
                             relations: Relations, markers: Markers, orders: seq<seq<int>>, c: nat)
    requires ChainsBuilt(before, after, index, relations, markers, orders)
    requires c < |orders| && Unmarked(before, markers, orders[c])
    ensures AllIndexed(after, index, orders[c])
    ensures forall k :: 0 <= k < |orders[c]| ==> after[index[orders[c][k]]].season == k + 1
  {
    hide ChainsBuilt, Unmarked;
    ComponentFacts(before, after, index, relations, markers, orders, c);
    forall k | 0 <= k < |orders[c]| ensures after[index[orders[c][k]]].season == k + 1 {
      UnmarkedSeasonIsPosition(before, after, index, relations, markers, orders, c, k);
    }
  }

  /** In a component without season markers, every sequel has a larger season than its prequel
      exactly when the declared order has no cycle. */
  lemma SeasonsFollowLinksIffAcyclic(before: seq<ListEntry>, after: seq<ListEntry>, index: map<int, nat>,
                                     relations: Relations, markers: Markers, orders: seq<seq<int>>, c: nat)
    requires ChainsBuilt(before, after, index, relations, markers, orders)
    requires c < |orders| && Unmarked(before, markers, orders[c])
    ensures AllIndexed(after, index, orders[c])
    ensures SeasonsFollow(after, index, ListPairs(before, relations), orders[c])
            <==> Acyclic(Within(ListPairs(before, relations), SetOf(orders[c])))
  {
    hide ChainsBuilt, Unmarked, SeasonsFollow, KahnOrder, Topological, Acyclic, Within;
    ComponentFacts(before, after, index, relations, markers, orders, c);
    FallbackNeverTakenIffAcyclic(ListPairs(before, relations), orders[c]);
    SeasonsArePositional(before, after, index, relations, markers, orders, c);
    PositionalSeasonsFollow(after, index, ListPairs(before, relations), orders[c]);
  }

  /** Wherever the relations of one entry name a sequel or a prequel, the later entry has the larger season. */
  ghost predicate SequelsFollow(before: seq<ListEntry>, after: seq<ListEntry>, relations: Relations, ids: seq<int>)
    requires |after| == |before|
  {
    forall i, j :: 0 <= i < |before| && 0 <= j < |before| && IsLast(before, i) && IsLast(before, j)
                   && before[i].malId in ids
                   && ComesBefore(IdsOf(before), relations, before[i].malId, before[j].malId)
                   ==> after[i].season < after[j].season
  }

  /** An unnumbered component without a cycle of declared links is numbered along them: a row of the list whose
      entry another one names as its sequel, or which names that one as its prequel, gets the larger season.
      With a cycle some link is broken. */
  lemma SequelsFollowIffAcyclic(before: seq<ListEntry>, after: seq<ListEntry>, index: map<int, nat>,
                                relations: Relations, markers: Markers, orders: seq<seq<int>>, c: nat)
    requires ChainsBuilt(before, after, index, relations, markers, orders)
    requires c < |orders| && Unmarked(before, markers, orders[c])
    ensures |after| == |before|
    ensures SequelsFollow(before, after, relations, orders[c])
            <==> Acyclic(Within(ListPairs(before, relations), SetOf(orders[c])))
  {
    SeasonsFollowLinksIffAcyclic(before, after, index, relations, markers, orders, c);
    ComponentFacts(before, after, index, relations, markers, orders, c);
    RowsAreIndexed(before, after, index, relations, markers, orders, c);
    if SeasonsFollow(after, index, ListPairs(before, relations), orders[c]) {
      LinksToRows(before, after, index, relations, markers, orders, c);
    }
    if SequelsFollow(before, after, relations, orders[c]) {
      hide ChainsBuilt, Unmarked, Acyclic, Within, KahnOrder, IsLast;
      var e := ListPairs(before, relations);
      forall x, y | 0 <= x < |orders[c]| && 0 <= y < |orders[c]| && Edge(e, orders[c][x], orders[c][y])
        ensures after[index[orders[c][x]]].season < after[index[orders[c][y]]].season
      {
        EdgeIffComesBefore(IdsOf(before), relations, orders[c][x], orders[c][y]);
      }
    }
  }

  lemma RowsAreIndexed(before: seq<ListEntry>, after: seq<ListEntry>, index: map<int, nat>, relations: Relations,
                       markers: Markers, orders: seq<seq<int>>, c: nat)
    requires ChainsBuilt(before, after, index, relations, markers, orders) && c < |orders|
    ensures AllIndexed(before, index, orders[c])
    ensures forall k :: 0 <= k < |orders[c]| ==>
              IsLast(before, index[orders[c][k]]) && before[index[orders[c][k]]].malId == orders[c][k]
  {
  }

  lemma LinksToRows(before: seq<ListEntry>, after: seq<ListEntry>, index: map<int, nat>, relations: Relations,
                    markers: Markers, orders: seq<seq<int>>, c: nat)
    requires ChainsBuilt(before, after, index, relations, markers, orders) && c < |orders|
    requires AllIndexed(after, index, orders[c]) && SeasonsFollow(after, index, ListPairs(before, relations), orders[c])
    ensures SequelsFollow(before, after, relations, orders[c])
  {
    hide KahnOrder, ComesBefore;
    forall i, j | 0 <= i < |before| && 0 <= j < |before| && IsLast(before, i) && IsLast(before, j)
                  && before[i].malId in orders[c]
                  && ComesBefore(IdsOf(before), relations, before[i].malId, before[j].malId)
      ensures after[i].season < after[j].season
    {
      var a, b := before[i].malId, before[j].malId;
      EdgeIffComesBefore(IdsOf(before), relations, a, b);
      LinkStaysInside(before, after, index, relations, markers, orders, c, a, b);
      LastIsIndexed(before, index, i);
      LastIsIndexed(before, index, j);
      var x :| 0 <= x < |orders[c]| && orders[c][x] == a;
      var y :| 0 <= y < |orders[c]| && orders[c][y] == b;
    }
  }

  lemma LinkStaysInside(before: seq<ListEntry>, after: seq<ListEntry>, index: map<int, nat>, relations: Relations,
                        markers: Markers, orders: seq<seq<int>>, c: nat, a: int, b: int)
    requires ChainsBuilt(before, after, index, relations, markers, orders) && c < |orders|
    requires a in orders[c] && Edge(ListPairs(before, relations), a, b)
    ensures b in orders[c]
  {
    SequelPairsAreListed(IdsOf(before), relations);
    UndirectedEdges(ListPairs(before, relations));
    ConnectedRefl(LinksOf(before, relations), a);
    ConnectedStep(LinksOf(before, relations), a, a, b);
    SameComponentIffConnected(before, after, index, relations, markers, orders, c, a, b);
  }

  /** A number in the title is the season, wherever the entry stands; without one the place in the order is. */
  lemma TitleNumberIsSeason(before: seq<ListEntry>, after: seq<ListEntry>, index: map<int, nat>,
                            relations: Relations, markers: Markers, orders: seq<seq<int>>, i: nat)
    requires ChainsBuilt(before, after, index, relations, markers, orders) && IsLast(before, i)
    ensures markers.season(before[i].title).Some? ==> after[i].season == markers.season(before[i].title).value
    ensures markers.season(before[i].title).None? ==>
              exists c, k :: 0 <= c < |orders| && 0 <= k < |orders[c]| && orders[c][k] == before[i].malId
                             && after[i].season == k + 1
  {
    var c, k := Locate(before, after, index, relations, markers, orders, i);
  }

  // ------------------------------------------------ when the order is unique

  ghost predicate Linear(e: Pairs, order: seq<int>) {
    forall k :: 0 <= k < |order| - 1 ==> StepAt(e, order, k)
  }

  lemma {:induction false} PositionAtLeast(e: Pairs, o: seq<int>, p: seq<int>, k: nat)
    requires Linear(e, o) && Topological(e, p) && SetOf(o) == SetOf(p) && k < |o|
    ensures o[k] in p && PositionOf(p, o[k]) >= k
  {
    assert o[k] in SetOf(o);
    if k > 0 {
      PositionAtLeast(e, o, p, k - 1);
      assert StepAt(e, o, k - 1);
      assert Edge(e, p[PositionOf(p, o[k - 1])], p[PositionOf(p, o[k])]);
    }
  }

  lemma {:induction false} PositionAtMost(e: Pairs, o: seq<int>, p: seq<int>, k: nat)
    requires Linear(e, o) && Topological(e, p) && SetOf(o) == SetOf(p) && |o| == |p| && k < |o|
    ensures o[k] in p && PositionOf(p, o[k]) <= k
    decreases |o| - k
  {
    assert o[k] in SetOf(o);
    if k + 1 < |o| {
      PositionAtMost(e, o, p, k + 1);
      assert StepAt(e, o, k);
      assert Edge(e, p[PositionOf(p, o[k])], p[PositionOf(p, o[k + 1])]);
    }
  }

  lemma SameSetSameLength(o: seq<int>, p: seq<int>)
    requires Distinct(o) && Distinct(p) && SetOf(o) == SetOf(p)
    ensures |o| == |p|
  {
    CardOfDistinct(o);
    CardOfDistinct(p);
  }

  lemma {:induction false} CardOfDistinct(o: seq<int>)
    requires Distinct(o)
    ensures |SetOf(o)| == |o|
  {
    if o != [] {
      var n := |o| - 1;
      CardOfDistinct(o[..n]);
      assert o == o[..n] + [o[n]];
      assert SetOf(o) == SetOf(o[..n]) + {o[n]};
      assert o[n] !in o[..n];
    }
  }

  function SwapAt(o: seq<int>, k: nat): (p: seq<int>)
    requires k + 1 < |o|
    ensures |p| == |o|
  {
    o[k := o[k + 1]][k + 1 := o[k]]
  }

  lemma SwapStaysTopological(e: Pairs, o: seq<int>, k: nat)
    requires Distinct(o) && Topological(e, o) && k + 1 < |o| && !StepAt(e, o, k)
    ensures SwapAt(o, k) != o && SetOf(SwapAt(o, k)) == SetOf(o)
    ensures Distinct(SwapAt(o, k)) && Topological(e, SwapAt(o, k))
  {
    var p := SwapAt(o, k);
    assert p[k] == o[k + 1] && p[k + 1] == o[k];
    forall x ensures x in p <==> x in o {
      if x in o {
        var i :| 0 <= i < |o| && o[i] == x;
        assert p[if i == k then k + 1 else if i == k + 1 then k else i] == x;
      }
    }
    forall i, j | 0 <= i < |p| && 0 <= j < |p| && Edge(e, p[i], p[j]) ensures i < j {
      var i' := if i == k then k + 1 else if i == k + 1 then k else i;
      var j' := if j == k then k + 1 else if j == k + 1 then k else j;
      assert p[i] == o[i'] && p[j] == o[j'];
    }
  }

  lemma TopologicalIsKahn(e: Pairs, o: seq<int>)
    requires Distinct(o) && Topological(e, o)
    ensures KahnOrder(e, o)
  {
    forall k | 0 <= k < |o| ensures MayPick(e, SetOf(o[k..]), o[k]) {
      assert o[k..][0] == o[k];
      forall y | y in SetOf(o[k..]) ensures !Edge(e, y, o[k]) {
        var i :| 0 <= i < |o| - k && o[k..][i] == y;
        assert o[k + i] == y;
      }
      assert Ready(e, SetOf(o[k..]), o[k]);
    }
  }

  /** An acyclic component has one admissible order exactly when each entry is directly linked to the next. */
  lemma OrderUniqueIffLinear(e: Pairs, o: seq<int>)
    requires KahnOrder(e, o) && Acyclic(Within(e, SetOf(o)))
    ensures (forall p :: KahnOrder(e, p) && SetOf(p) == SetOf(o) ==> p == o) <==> Linear(e, o)
  {
    FallbackNeverTakenIffAcyclic(e, o);
    if Linear(e, o) {
      forall p | KahnOrder(e, p) && SetOf(p) == SetOf(o) ensures p == o {
        FallbackNeverTakenIffAcyclic(e, p);
        SameSetSameLength(o, p);
        forall k | 0 <= k < |o| ensures p[k] == o[k] {
          PositionAtLeast(e, o, p, k);
          PositionAtMost(e, o, p, k);
        }
      }
    } else {
      var k :| 0 <= k < |o| - 1 && !StepAt(e, o, k);
      SwapStaysTopological(e, o, k);
      TopologicalIsKahn(e, SwapAt(o, k));
    }
  }

  /** For an acyclic component the emitted order, and so the season numbering, is the same for every way to
      iterate the hash set exactly when each entry is directly linked to the next one. */
  lemma HashOrderNeverShowsIffLinear(e: Pairs, ids: set<int>, visit: set<int> -> seq<int>)
    requires Iterates(visit, ids) && Acyclic(Within(e, ids))
    ensures (forall other :: Iterates(other, ids) ==> Emitted(e, ids, other) == Emitted(e, ids, visit)) <==>
            Linear(e, Emitted(e, ids, visit))
  {
    hide Iterates, Emitted, KahnOrder, Acyclic, Within, Linear;
    var o := Emitted(e, ids, visit);
    EmittedIsKahn(e, ids, visit);
    OrderUniqueIffLinear(e, o);
    if Linear(e, o) {
      forall other | Iterates(other, ids) ensures Emitted(e, ids, other) == o {
        EmittedIsKahn(e, ids, other);
      }
    } else {
      var p :| KahnOrder(e, p) && SetOf(p) == SetOf(o) && p != o;
      EmittedIffKahn(e, p);
      var other :| IsEmitted(e, other, p);
      assert Iterates(other, ids) && Emitted(e, ids, other) == p;
    }
  }
}
