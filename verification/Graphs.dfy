/** Finite directed graphs as sets of pairs: walks, connectivity, cycles, and the orders that
    Kahn's algorithm with a smallest-id fallback may emit. */
module Graphs {

  type Pairs = set<(int, int)>

  predicate Edge(e: Pairs, a: int, b: int) {
    (a, b) in e
  }

  /** A nonempty vertex sequence whose neighbours are joined by edges. */
  ghost predicate IsWalk(e: Pairs, p: seq<int>) {
    |p| > 0 && forall i :: 0 <= i < |p| - 1 ==> StepAt(e, p, i)
  }

  ghost predicate StepAt(e: Pairs, p: seq<int>, i: nat)
    requires i + 1 < |p|
  {
    Edge(e, p[i], p[i + 1])
  }

  ghost predicate WalkFromTo(e: Pairs, p: seq<int>, a: int, b: int) {
    IsWalk(e, p) && p[0] == a && p[|p| - 1] == b
  }

  ghost predicate Connected(e: Pairs, a: int, b: int) {
    exists p :: WalkFromTo(e, p, a, b)
  }

  ghost predicate Symmetric(e: Pairs) {
    forall a, b :: Edge(e, a, b) ==> Edge(e, b, a)
  }

  ghost predicate ClosedUnder(e: Pairs, s: set<int>) {
    forall a, b :: a in s && Edge(e, a, b) ==> b in s
  }

  /** No walk of at least one edge returns to its start. */
  ghost predicate Acyclic(e: Pairs) {
    forall p, a :: |p| >= 2 ==> !WalkFromTo(e, p, a, a)
  }

  function SetOf(s: seq<int>): set<int> {
    set x | x in s
  }

  ghost predicate Distinct(s: seq<int>) {
    forall i, j :: 0 <= i < j < |s| ==> s[i] != s[j]
  }

  // ------------------------------------------------------------------ walks

  lemma WalkAppend(e: Pairs, p: seq<int>, a: int, b: int, c: int)
    requires WalkFromTo(e, p, a, b) && Edge(e, b, c)
    ensures WalkFromTo(e, p + [c], a, c)
  {
    var r := p + [c];
    forall i | 0 <= i < |r| - 1 ensures StepAt(e, r, i) {
      if i < |p| - 1 { assert StepAt(e, p, i); }
    }
  }

  lemma ConnectedRefl(e: Pairs, a: int)
    ensures Connected(e, a, a)
  {
    assert WalkFromTo(e, [a], a, a);
  }

  lemma ConnectedStep(e: Pairs, a: int, b: int, c: int)
    requires Connected(e, a, b) && Edge(e, b, c)
    ensures Connected(e, a, c)
  {
    var p :| WalkFromTo(e, p, a, b);
    WalkAppend(e, p, a, b, c);
  }

  lemma {:induction false} WalkConcat(e: Pairs, p: seq<int>, q: seq<int>, a: int, b: int, c: int)
    requires WalkFromTo(e, p, a, b) && WalkFromTo(e, q, b, c)
    ensures WalkFromTo(e, p + q[1..], a, c)
  {
    var r := p + q[1..];
    forall i | 0 <= i < |r| - 1 ensures StepAt(e, r, i) {
      if i < |p| - 1 { assert StepAt(e, p, i); } else { assert StepAt(e, q, i - |p| + 1); }
    }
  }

  lemma ConnectedTrans(e: Pairs, a: int, b: int, c: int)
    requires Connected(e, a, b) && Connected(e, b, c)
    ensures Connected(e, a, c)
  {
    var p :| WalkFromTo(e, p, a, b);
    var q :| WalkFromTo(e, q, b, c);
    WalkConcat(e, p, q, a, b, c);
  }

  ghost function Reverse(p: seq<int>): (r: seq<int>)
    ensures |r| == |p| && forall i :: 0 <= i < |p| ==> r[i] == p[|p| - 1 - i]
  {
    seq(|p|, i requires 0 <= i < |p| => p[|p| - 1 - i])
  }

  lemma ConnectedSym(e: Pairs, a: int, b: int)
    requires Symmetric(e) && Connected(e, a, b)
    ensures Connected(e, b, a)
  {
    var p :| WalkFromTo(e, p, a, b);
    var r := Reverse(p);
    forall i | 0 <= i < |r| - 1 ensures StepAt(e, r, i) { assert StepAt(e, p, |p| - 2 - i); }
    assert WalkFromTo(e, r, b, a);
  }

  /** A walk cannot leave a closed set. */
  lemma {:induction false} WalkStaysInside(e: Pairs, s: set<int>, p: seq<int>)
    requires ClosedUnder(e, s) && IsWalk(e, p) && p[0] in s
    ensures forall k :: 0 <= k < |p| ==> p[k] in s
    decreases |p|
  {
    if |p| > 1 {
      var q := p[..|p| - 1];
      forall i | 0 <= i < |q| - 1 ensures StepAt(e, q, i) { assert StepAt(e, p, i); }
      WalkStaysInside(e, s, q);
      assert q[|p| - 2] == p[|p| - 2] && q[|p| - 2] in s && StepAt(e, p, |p| - 2);
      forall k | 0 <= k < |p| ensures p[k] in s {
        if k < |q| { assert p[k] == q[k]; }
      }
    }
  }

  // ------------------------------------------- a finite acyclic graph has a source

  lemma {:induction false} CardBound(s: set<int>, p: seq<int>)
    requires Distinct(p) && SetOf(p) <= s
    ensures |p| <= |s|
    decreases |p|
  {
    if p != [] {
      var last := p[|p| - 1];
      var q := p[..|p| - 1];
      assert last in SetOf(p) && forall x :: x in q ==> x in SetOf(p) && x != last;
      CardBound(s - {last}, q);
    }
  }

  /** In a set where everything has a predecessor, walks of every length exist. */
  lemma {:induction false} BackwardWalk(e: Pairs, s: set<int>, start: int, n: nat) returns (p: seq<int>)
    requires start in s && forall x :: x in s ==> !Ready(e, s, x)
    ensures |p| == n + 1 && IsWalk(e, p) && SetOf(p) <= s
  {
    if n == 0 {
      p := [start];
    } else {
      var q := BackwardWalk(e, s, start, n - 1);
      assert q[0] in SetOf(q) && !Ready(e, s, q[0]);
      var y :| y in s && Edge(e, y, q[0]);
      p := [y] + q;
      forall i | 0 <= i < |p| - 1 ensures StepAt(e, p, i) {
        if i > 0 { assert StepAt(e, q, i - 1); }
      }
    }
  }

  lemma CutWalk(e: Pairs, p: seq<int>, i: nat, j: nat)
    requires IsWalk(e, p) && i <= j < |p|
    ensures WalkFromTo(e, p[i..j + 1], p[i], p[j])
  {
    var c := p[i..j + 1];
    forall k | 0 <= k < |c| - 1 ensures StepAt(e, c, k) { assert StepAt(e, p, i + k); }
  }

  /** Pigeonhole: a nonempty set in an acyclic graph has an element nothing in it precedes. */
  lemma SourceExists(e: Pairs, s: set<int>, start: int)
    requires Acyclic(e) && start in s
    ensures exists x :: x in s && Ready(e, s, x)
  {
    if forall x :: x in s ==> !Ready(e, s, x) {
      var p := BackwardWalk(e, s, start, |s|);
      if Distinct(p) { CardBound(s, p); }
      var i, j :| 0 <= i < j < |p| && p[i] == p[j];
      CutWalk(e, p, i, j);
    }
  }

  // ------------------------------------------------------------- Kahn orders

  /** Nothing still remaining points at `x`. */
  ghost predicate Ready(e: Pairs, remaining: set<int>, x: int) {
    forall y :: y in remaining ==> !Edge(e, y, x)
  }

  /** A pick the algorithm may make: some ready element, or the smallest when none is ready. */
  ghost predicate MayPick(e: Pairs, remaining: set<int>, x: int) {
    && x in remaining
    && (Ready(e, remaining, x)
        || ((forall y :: y in remaining ==> !Ready(e, remaining, y))
            && forall y :: y in remaining ==> x <= y))
  }

  ghost predicate KahnOrder(e: Pairs, order: seq<int>) {
    && Distinct(order)
    && forall k {:trigger order[k..]} :: 0 <= k < |order| ==> MayPick(e, SetOf(order[k..]), order[k])
  }

  ghost predicate Topological(e: Pairs, order: seq<int>) {
    forall i, j :: 0 <= i < |order| && 0 <= j < |order| && Edge(e, order[i], order[j]) ==> i < j
  }

  ghost predicate FallbackNeverTaken(e: Pairs, order: seq<int>) {
    forall k :: 0 <= k < |order| ==> Ready(e, SetOf(order[k..]), order[k])
  }

  /** The edges inside a vertex set. */
  ghost function Within(e: Pairs, s: set<int>): Pairs {
    set p | p in e && p.0 in s && p.1 in s
  }

  lemma ReadyPicksAreTopological(e: Pairs, order: seq<int>)
    requires FallbackNeverTaken(e, order)
    ensures Topological(e, order)
  {
    forall i, j | 0 <= j <= i < |order| ensures !Edge(e, order[i], order[j]) {
      assert order[j..][i - j] == order[i];
    }
  }

  lemma {:induction false} TopologicalWalkAdvances(e: Pairs, order: seq<int>, p: seq<int>, at: seq<nat>)
    requires Topological(e, order) && IsWalk(e, p)
    requires |at| == |p| && forall k :: 0 <= k < |p| ==> at[k] < |order| && order[at[k]] == p[k]
    ensures at[0] + |p| - 1 <= at[|p| - 1]
    decreases |p|
  {
    if |p| > 1 {
      var n := |p| - 1;
      CutWalk(e, p, 0, n - 1);
      TopologicalWalkAdvances(e, order, p[..n], at[..n]);
      assert StepAt(e, p, n - 1);
    }
  }

  lemma TopologicalMeansAcyclic(e: Pairs, order: seq<int>)
    requires Topological(e, order) && Distinct(order)
    ensures Acyclic(Within(e, SetOf(order)))
  {
    var w := Within(e, SetOf(order));
    forall p, a | |p| >= 2 ensures !WalkFromTo(w, p, a, a) {
      if WalkFromTo(w, p, a, a) {
        forall k | 0 <= k < |p| ensures p[k] in order {
          if k == 0 { assert StepAt(w, p, 0); } else { assert StepAt(w, p, k - 1); }
        }
        var at := seq(|p|, k requires 0 <= k < |p| => PositionOf(order, p[k]));
        TopologicalWalkAdvances(w, order, p, at);
      }
    }
  }

  ghost function PositionOf(order: seq<int>, x: int): (k: nat)
    ensures x in order ==> k < |order| && order[k] == x
  {
    if x in order then var k :| 0 <= k < |order| && order[k] == x; k else 0
  }

  lemma ReadyWhenAcyclic(e: Pairs, order: seq<int>, k: nat)
    requires KahnOrder(e, order) && Acyclic(Within(e, SetOf(order))) && k < |order|
    ensures Ready(e, SetOf(order[k..]), order[k])
  {
    var w, rest := Within(e, SetOf(order)), SetOf(order[k..]);
    assert order[k..][0] in rest;
    SourceExists(w, rest, order[k]);
    var x :| x in rest && Ready(w, rest, x);
    assert rest <= SetOf(order);
    forall y | y in rest ensures !Edge(e, y, x) {
      assert !Edge(w, y, x);
    }
    assert Ready(e, rest, x);
    assert MayPick(e, rest, order[k]);
  }

  /** An order the algorithm may emit never used the cycle fallback, and equivalently puts every
      predecessor first, exactly when the component has no cycle. */
  lemma FallbackNeverTakenIffAcyclic(e: Pairs, order: seq<int>)
    requires KahnOrder(e, order)
    ensures FallbackNeverTaken(e, order) <==> Acyclic(Within(e, SetOf(order)))
    ensures Topological(e, order) <==> Acyclic(Within(e, SetOf(order)))
  {
    var w := Within(e, SetOf(order));
    if Acyclic(w) {
      forall k | 0 <= k < |order| ensures Ready(e, SetOf(order[k..]), order[k]) {
        ReadyWhenAcyclic(e, order, k);
      }
    }
    if FallbackNeverTaken(e, order) { ReadyPicksAreTopological(e, order); }
    if Topological(e, order) { TopologicalMeansAcyclic(e, order); }
  }
}
