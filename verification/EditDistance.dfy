/** The edit distance behind title matching: a two-row table against edit scripts. */
module EditDistance {
  import opened Numbers

  function Init<T>(s: seq<T>): seq<T>
    requires s != []
  {
    s[..|s| - 1]
  }

  function Last<T>(s: seq<T>): T
    requires s != []
  {
    s[|s| - 1]
  }

  /** The recursive table entry for two whole sequences. */
  ghost function Distance(a: seq<char>, b: seq<char>): nat
    decreases |a| + |b|
  {
    if a == [] then |b|
    else if b == [] then |a|
    else
      Min(Min(Distance(Init(a), Init(b)) + if Last(a) == Last(b) then 0 else 1,
              Distance(Init(a), b) + 1),
          Distance(a, Init(b)) + 1)
  }

  // ------------------------------------------------------------ edit scripts

  datatype Edit = Keep(c: char) | Replace(from: char, to: char) | Delete(c: char) | Insert(c: char) {
    function Reads(): seq<char> {
      match this
      case Keep(c) => [c]
      case Replace(c, _) => [c]
      case Delete(c) => [c]
      case Insert(_) => []
    }

    function Writes(): seq<char> {
      match this
      case Keep(c) => [c]
      case Replace(_, d) => [d]
      case Delete(_) => []
      case Insert(d) => [d]
    }

    function Price(): nat {
      if Keep? then 0 else 1
    }
  }

  ghost function Source(script: seq<Edit>): seq<char> {
    if script == [] then [] else Source(Init(script)) + Last(script).Reads()
  }

  ghost function Target(script: seq<Edit>): seq<char> {
    if script == [] then [] else Target(Init(script)) + Last(script).Writes()
  }

  ghost function Cost(script: seq<Edit>): nat {
    if script == [] then 0 else Cost(Init(script)) + Last(script).Price()
  }

  ghost predicate Rewrites(script: seq<Edit>, a: seq<char>, b: seq<char>) {
    Source(script) == a && Target(script) == b
  }

  lemma Extend(script: seq<Edit>, e: Edit)
    ensures Source(script + [e]) == Source(script) + e.Reads()
    ensures Target(script + [e]) == Target(script) + e.Writes()
    ensures Cost(script + [e]) == Cost(script) + e.Price()
  {
    assert Init(script + [e]) == script && Last(script + [e]) == e;
  }

  lemma AppendEdit(a: seq<char>, b: seq<char>, e: Edit)
    ensures Distance(a + e.Reads(), b + e.Writes()) <= Distance(a, b) + e.Price()
  {
    var x, y := a + e.Reads(), b + e.Writes();
    match e
    case Keep(c) => assert Init(x) == a && Init(y) == b;
    case Replace(c, d) => assert Init(x) == a && Init(y) == b;
    case Delete(c) => assert Init(x) == a && y == b;
    case Insert(d) => assert x == a && Init(y) == b;
  }

  /** No script is cheaper than the distance. */
  lemma {:induction false} EveryScriptCosts(script: seq<Edit>)
    ensures Distance(Source(script), Target(script)) <= Cost(script)
    decreases |script|
  {
    if script != [] {
      EveryScriptCosts(Init(script));
      AppendEdit(Source(Init(script)), Target(Init(script)), Last(script));
    }
  }

  /** The last edit of a cheapest script, and what the edits before it do. */
  lemma LastEdit(a: seq<char>, b: seq<char>) returns (a': seq<char>, b': seq<char>, e: Edit)
    requires a != [] || b != []
    ensures a == a' + e.Reads() && b == b' + e.Writes() && |a'| + |b'| < |a| + |b|
    ensures Distance(a, b) == Distance(a', b') + e.Price()
  {
    a', b' := a, b;
    assert a != [] ==> a == Init(a) + [Last(a)];
    assert b != [] ==> b == Init(b) + [Last(b)];
    if b == [] || (a != [] && Distance(a, b) == Distance(Init(a), b) + 1) {
      a', e := Init(a), Delete(Last(a));
    } else if a == [] || Distance(a, b) == Distance(a, Init(b)) + 1 {
      b', e := Init(b), Insert(Last(b));
    } else {
      a', b' := Init(a), Init(b);
      e := if Last(a) == Last(b) then Keep(Last(a)) else Replace(Last(a), Last(b));
    }
  }

  /** Some script costs exactly the distance. */
  lemma {:induction false} BestScript(a: seq<char>, b: seq<char>) returns (script: seq<Edit>)
    ensures Rewrites(script, a, b) && Cost(script) == Distance(a, b)
    decreases |a| + |b|
  {
    if a == [] && b == [] {
      script := [];
    } else {
      var a', b', e := LastEdit(a, b);
      var before := BestScript(a', b');
      Extend(before, e);
      script := before + [e];
    }
  }

  // ------------------------------------------------------------ metric laws

  lemma {:induction false} ZeroCostKeepsAll(script: seq<Edit>)
    requires Cost(script) == 0
    ensures Source(script) == Target(script)
    decreases |script|
  {
    if script != [] { ZeroCostKeepsAll(Init(script)); }
  }

  lemma {:induction false} SelfDistance(a: seq<char>)
    ensures Distance(a, a) == 0
  {
    if a != [] { SelfDistance(Init(a)); }
  }

  lemma {:induction false} ZeroIffEqual(a: seq<char>, b: seq<char>)
    ensures Distance(a, b) == 0 <==> a == b
  {
    SelfDistance(a);
    var script := BestScript(a, b);
    if Distance(a, b) == 0 { ZeroCostKeepsAll(script); }
  }

  /** The script backwards in time. */
  lemma {:induction false} Undo(script: seq<Edit>) returns (undo: seq<Edit>)
    ensures Rewrites(undo, Target(script), Source(script)) && Cost(undo) == Cost(script)
    decreases |script|
  {
    if script == [] {
      undo := [];
    } else {
      undo := Undo(Init(script));
      var e := match Last(script)
        case Keep(c) => Keep(c)
        case Replace(c, d) => Replace(d, c)
        case Delete(c) => Insert(c)
        case Insert(d) => Delete(d);
      Extend(undo, e);
      undo := undo + [e];
    }
  }

  lemma {:induction false} DistanceAtMost(a: seq<char>, b: seq<char>)
    ensures Distance(b, a) <= Distance(a, b)
  {
    var script := BestScript(a, b);
    var undo := Undo(script);
    EveryScriptCosts(undo);
  }

  lemma {:induction false} Symmetric(a: seq<char>, b: seq<char>)
    ensures Distance(a, b) == Distance(b, a)
  {
    DistanceAtMost(a, b);
    DistanceAtMost(b, a);
  }

  /** A deletion that ends the first script can wait until after the merged ones. */
  lemma ComposeDelete(s: seq<Edit>, t: seq<Edit>, before: seq<Edit>) returns (r: seq<Edit>)
    requires s != [] && Last(s).Delete?
    requires Rewrites(before, Source(Init(s)), Target(t)) && Cost(before) <= Cost(Init(s)) + Cost(t)
    ensures Rewrites(r, Source(s), Target(t)) && Cost(r) <= Cost(s) + Cost(t)
  {
    Extend(before, Last(s));
    r := before + [Last(s)];
  }

  /** So can an insertion that ends the second one. */
  lemma ComposeInsert(s: seq<Edit>, t: seq<Edit>, before: seq<Edit>) returns (r: seq<Edit>)
    requires t != [] && Last(t).Insert?
    requires Rewrites(before, Source(s), Target(Init(t))) && Cost(before) <= Cost(s) + Cost(Init(t))
    ensures Rewrites(r, Source(s), Target(t)) && Cost(r) <= Cost(s) + Cost(t)
  {
    Extend(before, Last(t));
    r := before + [Last(t)];
  }

  /** Otherwise the two last edits meet in one character. */
  lemma LastEditsMeet(s: seq<Edit>, t: seq<Edit>)
    requires Target(s) == Source(t) && s != [] && t != [] && !Last(s).Delete? && !Last(t).Insert?
    ensures Target(Init(s)) == Source(Init(t))
  {
    hide Source, Target, Cost;
    Unfold(s);
    Unfold(t);
    SameTail(Target(Init(s)), Last(s).Writes()[0], Source(Init(t)), Last(t).Reads()[0]);
  }

  lemma Unfold(s: seq<Edit>)
    requires s != []
    ensures Source(s) == Source(Init(s)) + Last(s).Reads()
    ensures Target(s) == Target(Init(s)) + Last(s).Writes()
    ensures Cost(s) == Cost(Init(s)) + Last(s).Price()
  {
  }

  lemma MergedEdits(first: Edit, second: Edit)
    requires !first.Delete? && !second.Insert? && first.Writes() == second.Reads()
    ensures if first.Insert? && second.Delete? then first.Reads() == [] && second.Writes() == []
            else
              var e := Merged(first, second);
              e.Reads() == first.Reads() && e.Writes() == second.Writes() && e.Price() <= first.Price() + second.Price()
  {
    assert first.Writes()[0] == second.Reads()[0];
  }

  lemma ComposeMeeting(s: seq<Edit>, t: seq<Edit>, before: seq<Edit>) returns (r: seq<Edit>)
    requires Target(s) == Source(t) && s != [] && t != [] && !Last(s).Delete? && !Last(t).Insert?
    requires Rewrites(before, Source(Init(s)), Target(Init(t))) && Cost(before) <= Cost(Init(s)) + Cost(Init(t))
    ensures Rewrites(r, Source(s), Target(t)) && Cost(r) <= Cost(s) + Cost(t)
  {
    hide Source, Target, Cost, Merged;
    SameCharacter(s, t);
    Unfold(s);
    Unfold(t);
    MergedEdits(Last(s), Last(t));
    if Last(s).Insert? && Last(t).Delete? {
      r := before;
    } else {
      var e := Merged(Last(s), Last(t));
      Extend(before, e);
      r := before + [e];
    }
  }

  lemma SameCharacter(s: seq<Edit>, t: seq<Edit>)
    requires Target(s) == Source(t) && s != [] && t != [] && !Last(s).Delete? && !Last(t).Insert?
    ensures Last(s).Writes() == Last(t).Reads()
  {
    hide Source, Target, Cost;
    Unfold(s);
    Unfold(t);
    SameTail(Target(Init(s)), Last(s).Writes()[0], Source(Init(t)), Last(t).Reads()[0]);
  }

  lemma SameTail(a: seq<char>, x: char, b: seq<char>, y: char)
    requires a + [x] == b + [y]
    ensures a == b && x == y
  {
    assert (a + [x])[|a|] == x && (b + [y])[|b|] == y;
    assert a == (a + [x])[..|a|] && b == (b + [y])[..|b|];
  }

  lemma NothingWritten(s: seq<Edit>)
    requires s != [] && !Last(s).Delete?
    ensures Target(s) != []
  {
  }

  lemma NothingRead(t: seq<Edit>)
    requires t != [] && !Last(t).Insert?
    ensures Source(t) != []
  {
  }

  /** One script after another, merged character by character. */
  lemma {:induction false} Compose(s: seq<Edit>, t: seq<Edit>) returns (r: seq<Edit>)
    requires Target(s) == Source(t)
    ensures Rewrites(r, Source(s), Target(t)) && Cost(r) <= Cost(s) + Cost(t)
    decreases |s| + |t|
  {
    hide Source, Target, Cost;
    if s != [] && Last(s).Delete? {
      WithoutLast(s, t);
      var before := Compose(Init(s), t);
      r := ComposeDelete(s, t, before);
    } else if t != [] && Last(t).Insert? {
      WithoutLast(s, t);
      var before := Compose(s, Init(t));
      r := ComposeInsert(s, t, before);
    } else if s == [] || t == [] {
      BothEmpty(s, t);
      r := [];
    } else {
      LastEditsMeet(s, t);
      var before := Compose(Init(s), Init(t));
      r := ComposeMeeting(s, t, before);
    }
  }

  /** A deletion writes nothing and an insertion reads nothing. */
  lemma WithoutLast(s: seq<Edit>, t: seq<Edit>)
    ensures s != [] && Last(s).Delete? ==> Target(Init(s)) == Target(s)
    ensures t != [] && Last(t).Insert? ==> Source(Init(t)) == Source(t)
  {
  }

  lemma BothEmpty(s: seq<Edit>, t: seq<Edit>)
    requires Target(s) == Source(t) && (s == [] || t == [])
    requires (s != [] ==> !Last(s).Delete?) && (t != [] ==> !Last(t).Insert?)
    ensures s == [] && t == [] && Rewrites([], Source(s), Target(t)) && Cost([]) == 0
  {
    if s != [] { NothingWritten(s); }
    if t != [] { NothingRead(t); }
  }

  /** The edit that does in one step what a producing and then a consuming edit do. */
  ghost function Merged(first: Edit, second: Edit): Edit
    requires !first.Delete? && !second.Insert? && !(first.Insert? && second.Delete?)
  {
    var to := match second case Keep(c) => c case Replace(_, d) => d case Delete(c) => c;
    match first
    case Insert(_) => Insert(to)
    case Keep(c) => if second.Delete? then Delete(c) else if c == to then Keep(c) else Replace(c, to)
    case Replace(c, _) => if second.Delete? then Delete(c) else if c == to then Keep(c) else Replace(c, to)
  }

  lemma {:induction false} TriangleInequality(a: seq<char>, b: seq<char>, c: seq<char>)
    ensures Distance(a, c) <= Distance(a, b) + Distance(b, c)
  {
    var s := BestScript(a, b);
    var t := BestScript(b, c);
    var r := Compose(s, t);
    EveryScriptCosts(r);
  }

  lemma {:induction false} LengthBounds(a: seq<char>, b: seq<char>)
    ensures |a| <= |b| + Distance(a, b) && |b| <= |a| + Distance(a, b)
    ensures Distance(a, b) <= Max(|a|, |b|)
    decreases |a| + |b|
  {
    if a != [] && b != [] {
      LengthBounds(Init(a), Init(b));
      LengthBounds(Init(a), b);
      LengthBounds(a, Init(b));
    }
  }

  // ------------------------------------------------------------ the two rows

  /** One table entry from its three neighbours. */
  lemma TableStep(a: seq<char>, b: seq<char>, i: nat, j: nat)
    requires i < |a| && j < |b|
    ensures Distance(a[..i + 1], b[..j + 1]) ==
            Min(Min(Distance(a[..i], b[..j]) + (if a[i] == b[j] then 0 else 1), Distance(a[..i], b[..j + 1]) + 1),
                Distance(a[..i + 1], b[..j]) + 1)
  {
    assert Init(a[..i + 1]) == a[..i] && Init(b[..j + 1]) == b[..j];
  }

  /** Entry `j` of the row for the first `i` characters of `a`. */
  ghost predicate RowUpTo(a: seq<char>, b: seq<char>, i: nat, row: seq<nat>, n: nat)
    requires i <= |a| && n <= |b| + 1 && |row| == |b| + 1
  {
    forall j :: 0 <= j < n ==> row[j] == Distance(a[..i], b[..j])
  }

  lemma RowStep(a: seq<char>, b: seq<char>, i: nat, prev: seq<nat>, cur: seq<nat>, j: nat)
    requires i < |a| && j < |b| && |prev| == |cur| == |b| + 1
    requires RowUpTo(a, b, i, prev, |b| + 1) && RowUpTo(a, b, i + 1, cur, j + 1)
    ensures RowUpTo(a, b, i + 1,
                    cur[j + 1 := Min(Min(prev[j] + (if a[i] == b[j] then 0 else 1), prev[j + 1] + 1),
                                     cur[j] + 1)], j + 2)
  {
    TableStep(a, b, i, j);
  }

  /** The inner loop: overwrite one row from the finished one. */
  method FillRow(a: seq<char>, b: seq<char>, i: nat, prev: array<nat>, cur: array<nat>)
    requires prev != cur && prev.Length == cur.Length == |b| + 1 && i < |a|
    requires RowUpTo(a, b, i, prev[..], |b| + 1)
    modifies cur
    ensures RowUpTo(a, b, i + 1, cur[..], |b| + 1)
  {
    cur[0] := i + 1;
    for j := 0 to |b|
      invariant RowUpTo(a, b, i, prev[..], |b| + 1)
      invariant RowUpTo(a, b, i + 1, cur[..], j + 1)
    {
      var cost := if a[i] == b[j] then 0 else 1;
      ghost var before := cur[..];
      RowStep(a, b, i, prev[..], before, j);
      cur[j + 1] := Min(Min(prev[j] + cost, prev[j + 1] + 1), cur[j] + 1);
      assert cur[..] == before[j + 1 := cur[j + 1]];
    }
  }

  /** `levenshtein`: two rows overwritten and swapped in place. */
  method Levenshtein(a: seq<char>, b: seq<char>) returns (distance: nat)
    ensures distance == Distance(a, b)
  {
    var prev := new nat[|b| + 1](j => j);
    var cur := new nat[|b| + 1](j => 0);
    for i := 0 to |a|
      invariant prev != cur && prev.Length == cur.Length == |b| + 1
      invariant fresh(prev) && fresh(cur)
      invariant RowUpTo(a, b, i, prev[..], |b| + 1)
    {
      FillRow(a, b, i, prev, cur);
      prev, cur := cur, prev;
    }
    assert a[..|a|] == a && b[..|b|] == b;
    assert prev[..][|b|] == Distance(a[..|a|], b[..|b|]);
    return prev[|b|];
  }

  // ------------------------------------------------------------ the ratio

  /** One minus the normalized distance, with the two empty cases of the source. */
  ghost function Ratio(a: seq<char>, b: seq<char>): real {
    if a == [] && b == [] then 1.0
    else if a == [] || b == [] then 0.0
    else 1.0 - (Distance(a, b) as real / Max(|a|, |b|) as real)
  }

  /** `fuzzy_ratio`. */
  method FuzzyRatio(a: seq<char>, b: seq<char>) returns (ratio: real)
    ensures ratio == Ratio(a, b)
  {
    if a == [] && b == [] {
      return 1.0;
    }
    if a == [] || b == [] {
      return 0.0;
    }
    var distance := Levenshtein(a, b);
    return 1.0 - (distance as real / Max(|a|, |b|) as real);
  }

  lemma QuotientInUnit(n: nat, d: nat)
    requires n <= d && d > 0
    ensures 0.0 <= n as real / d as real <= 1.0
    ensures n as real / d as real == 0.0 <==> n == 0
  {
    var q := n as real / d as real;
    assert q * d as real == n as real;
    assert q <= 0.0 ==> q * d as real <= 0.0;
    assert q < 0.0 ==> q * d as real < 0.0;
    assert q > 1.0 ==> q * d as real > d as real;
  }

  /** The ratio is symmetric, lies between 0 and 1, and is 1 on equal titles only. */
  lemma RatioLaws(a: seq<char>, b: seq<char>)
    ensures Ratio(a, b) == Ratio(b, a)
    ensures 0.0 <= Ratio(a, b) <= 1.0
    ensures Ratio(a, b) == 1.0 <==> a == b
  {
    Symmetric(a, b);
    ZeroIffEqual(a, b);
    LengthBounds(a, b);
    if a != [] && b != [] { QuotientInUnit(Distance(a, b), Max(|a|, |b|)); }
  }

  /** Some edit script turns one title into the other at this cost, and none is cheaper. */
  ghost predicate CheapestScript(a: seq<char>, b: seq<char>, cost: nat) {
    && (exists script :: Rewrites(script, a, b) && Cost(script) == cost)
    && (forall script :: Rewrites(script, a, b) ==> Cost(script) >= cost)
  }

  /** What the ratio measures: the share of the longer title that a cheapest edit script leaves alone. An empty title is
      like nothing but another empty one. */
  lemma RatioIsShareKept(a: seq<char>, b: seq<char>)
    ensures a == [] && b == [] ==> Ratio(a, b) == 1.0
    ensures (a == []) != (b == []) ==> Ratio(a, b) == 0.0
    ensures a != [] && b != [] ==>
              exists cost :: CheapestScript(a, b, cost)
                             && (1.0 - Ratio(a, b)) * (if |a| <= |b| then |b| else |a|) as real == cost as real
  {
    hide Distance, Cost;
    var script := BestScript(a, b);
    forall other | Rewrites(other, a, b) ensures Cost(other) >= Distance(a, b) {
      EveryScriptCosts(other);
    }
    assert CheapestScript(a, b, Distance(a, b));
  }
}
