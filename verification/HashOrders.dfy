/** The ordering loop of `build_chains` as a function of the order in which its hash set is iterated, and
    which orders come out of it. */
module HashOrders {
  import opened Wrappers
  import opened Graphs
  import opened Sets

  /** A scan meets every member of the set once. */
  ghost predicate Visits(scan: seq<int>, s: set<int>) {
    Distinct(scan) && SetOf(scan) == s
  }

  /** `visit` says how the set of remaining ids is iterated, whichever of `ids` remain. The set only
      shrinks, so it never has the same members twice and may be iterated differently every time. */
  ghost predicate Iterates(visit: set<int> -> seq<int>, ids: set<int>) {
    forall s :: s <= ids ==> Visits(visit(s), s)
  }

  /** The first ready id of a scan. */
  ghost function FirstReady(e: Pairs, remaining: set<int>, scan: seq<int>): (pick: Option<int>)
    ensures pick.Some? ==> pick.value in scan && Ready(e, remaining, pick.value)
    ensures pick.None? ==> forall y :: y in scan ==> !Ready(e, remaining, y)
  {
    if scan == [] then None
    else if Ready(e, remaining, scan[0]) then Some(scan[0])
    else FirstReady(e, remaining, scan[1..])
  }

  ghost predicate IsLeast(s: set<int>, x: int) {
    x in s && forall y :: y in s ==> x <= y
  }

  lemma {:induction false} HasLeast(s: set<int>)
    requires s != {}
    ensures exists x :: IsLeast(s, x)
  {
    HasElement(s);
    var y :| y in s;
    var rest := s - {y};
    if rest == {} {
      assert s == {y};
      assert IsLeast(s, y);
    } else {
      HasLeast(rest);
      var x :| IsLeast(rest, x);
      assert s == rest + {y};
      assert IsLeast(s, if x < y then x else y);
    }
  }

  ghost function Least(s: set<int>): (x: int)
    requires s != {}
    ensures IsLeast(s, x)
  {
    HasLeast(s);
    var x :| IsLeast(s, x);
    x
  }

  ghost function Pick(e: Pairs, remaining: set<int>, scan: seq<int>): (id: int)
    requires remaining != {} && Visits(scan, remaining)
    ensures MayPick(e, remaining, id)
  {
    assert forall y :: y in scan <==> y in remaining by { assert SetOf(scan) == remaining; }
    var ready := FirstReady(e, remaining, scan);
    if ready.Some? then ready.value else Least(remaining)
  }

  /** The ids that remain, in the order the loop emits them. */
  ghost function Emitted(e: Pairs, remaining: set<int>, visit: set<int> -> seq<int>): seq<int>
    requires Iterates(visit, remaining)
    decreases |remaining|
  {
    if remaining == {} then []
    else
      var id := Pick(e, remaining, visit(remaining));
      [id] + Emitted(e, remaining - {id}, visit)
  }

  /** The order is what comes out of its own ids. */
  ghost predicate IsEmitted(e: Pairs, visit: set<int> -> seq<int>, order: seq<int>) {
    Iterates(visit, SetOf(order)) && Emitted(e, SetOf(order), visit) == order
  }

  /** Whatever the iteration order, all ids come out once and every pick obeys the rule. */
  lemma {:induction false} EmittedIsKahn(e: Pairs, remaining: set<int>, visit: set<int> -> seq<int>)
    requires Iterates(visit, remaining)
    ensures KahnOrder(e, Emitted(e, remaining, visit)) && SetOf(Emitted(e, remaining, visit)) == remaining
    decreases |remaining|
  {
    if remaining != {} {
      var id := Pick(e, remaining, visit(remaining));
      EmittedIsKahn(e, remaining - {id}, visit);
      PickInFront(e, remaining, id, Emitted(e, remaining - {id}, visit));
    }
  }

  lemma FrontMembers(remaining: set<int>, id: int, rest: seq<int>)
    requires id in remaining && SetOf(rest) == remaining - {id} && Distinct(rest)
    ensures SetOf([id] + rest) == remaining && Distinct([id] + rest)
  {
    assert id !in rest by { assert id !in SetOf(rest); }
    assert forall x :: x in [id] + rest <==> x == id || x in SetOf(rest);
  }

  lemma PickInFront(e: Pairs, remaining: set<int>, id: int, rest: seq<int>)
    requires MayPick(e, remaining, id) && KahnOrder(e, rest) && SetOf(rest) == remaining - {id}
    ensures KahnOrder(e, [id] + rest) && SetOf([id] + rest) == remaining
  {
    assert id in remaining;
    FrontMembers(remaining, id, rest);
    hide MayPick, SetOf, Distinct;
    var order := [id] + rest;
    forall k | 0 <= k < |order| ensures MayPick(e, SetOf(order[k..]), order[k]) {
      if k == 0 {
        assert order[0..] == order;
      } else {
        assert order[k..] == rest[k - 1..] && order[k] == rest[k - 1];
      }
    }
  }

  // ------------------------------------------------------------ every such order comes out

  /** The members of a set, in the order of a sequence. */
  ghost function Filter(p: seq<int>, s: set<int>): seq<int> {
    if p == [] then [] else (if p[0] in s then [p[0]] else []) + Filter(p[1..], s)
  }

  lemma {:induction false} FilterMembers(p: seq<int>, s: set<int>, x: int)
    ensures x in Filter(p, s) <==> x in p && x in s
  {
    if p != [] { FilterMembers(p[1..], s, x); }
  }

  lemma {:induction false} FilterDistinct(p: seq<int>, s: set<int>)
    requires Distinct(p)
    ensures Distinct(Filter(p, s))
  {
    if p != [] {
      FilterDistinct(p[1..], s);
      FilterMembers(p[1..], s, p[0]);
    }
  }

  lemma {:induction false} FilterKeepsTail(p: seq<int>, k: nat, s: set<int>)
    requires Distinct(p) && k <= |p| && s == SetOf(p[k..])
    ensures Filter(p, s) == p[k..]
    decreases |p|
  {
    if p != [] {
      if k == 0 {
        FilterAll(p, s);
      } else {
        assert p[k..] == p[1..][k - 1..];
        FilterKeepsTail(p[1..], k - 1, s);
        assert p[0] !in p[k..];
      }
    }
  }

  lemma {:induction false} FilterAll(p: seq<int>, s: set<int>)
    requires SetOf(p) <= s
    ensures Filter(p, s) == p
  {
    if p != [] {
      assert p[0] in SetOf(p);
      assert SetOf(p[1..]) <= SetOf(p);
      FilterAll(p[1..], s);
    }
  }

  /** Iterating every set in the order of `p`. */
  ghost function Along(p: seq<int>): set<int> -> seq<int> {
    (s: set<int>) => Filter(p, s)
  }

  lemma AlongIterates(p: seq<int>)
    requires Distinct(p)
    ensures Iterates(Along(p), SetOf(p))
  {
    forall s | s <= SetOf(p) ensures Visits(Along(p)(s), s) {
      FilterDistinct(p, s);
      forall x ensures x in Filter(p, s) <==> x in s { FilterMembers(p, s, x); }
    }
  }

  /** The scan along `p` finds `p[k]` first. */
  lemma PickAlong(e: Pairs, p: seq<int>, k: nat)
    requires KahnOrder(e, p) && k < |p| && Visits(p[k..], SetOf(p[k..]))
    ensures SetOf(p[k..]) != {} && Pick(e, SetOf(p[k..]), p[k..]) == p[k]
  {
    var rest := p[k..];
    assert rest[0] == p[k] && rest[0] in SetOf(rest);
    assert MayPick(e, SetOf(rest), p[k]);
  }

  lemma TailWithoutFirst(p: seq<int>, k: nat)
    requires Distinct(p) && k < |p|
    ensures p[k..] == [p[k]] + p[k + 1..] && SetOf(p[k..]) - {p[k]} == SetOf(p[k + 1..])
    ensures SetOf(p[k..]) <= SetOf(p)
  {
    assert p[k..] == [p[k]] + p[k + 1..];
    assert p[k] !in p[k + 1..];
  }

  lemma {:induction false} AlongEmits(e: Pairs, p: seq<int>, k: nat)
    requires KahnOrder(e, p) && k <= |p|
    ensures SetOf(p[k..]) <= SetOf(p) && Iterates(Along(p), SetOf(p[k..]))
    ensures Emitted(e, SetOf(p[k..]), Along(p)) == p[k..]
    decreases |p| - k
  {
    AlongIterates(p);
    if k < |p| {
      AlongEmits(e, p, k + 1);
      TailWithoutFirst(p, k);
      FilterKeepsTail(p, k, SetOf(p[k..]));
      assert Visits(Along(p)(SetOf(p[k..])), SetOf(p[k..]));
      PickAlong(e, p, k);
      hide Pick, KahnOrder, Iterates, Visits;
    }
  }

  /** The orders the loop emits, over all ways to iterate its hash set, are exactly the orders whose every
      pick obeys the rule. */
  lemma EmittedIffKahn(e: Pairs, p: seq<int>)
    ensures KahnOrder(e, p) <==>
            exists visit :: IsEmitted(e, visit, p)
  {
    if KahnOrder(e, p) {
      AlongIterates(p);
      AlongEmits(e, p, 0);
      assert p[0..] == p;
      assert IsEmitted(e, Along(p), p);
    }
    forall visit | IsEmitted(e, visit, p) ensures KahnOrder(e, p) {
      EmittedIsKahn(e, SetOf(p), visit);
    }
  }
}
