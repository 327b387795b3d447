/** The library sorts the source calls, as one stable insertion sort with the contract callers
    rely on: ordered by key, and elements of equal key keep their relative order. */
module Sorting {

  ghost predicate SortedByKey<T>(key: T -> int, s: seq<T>) {
    forall i, j :: 0 <= i < j < |s| ==> key(s[i]) <= key(s[j])
  }

  function Identity(): int -> int { x => x }

  /** The elements with a given key, in order. */
  ghost function WithKey<T>(key: T -> int, k: int, s: seq<T>): seq<T> {
    if s == [] then [] else (if key(s[0]) == k then [s[0]] else []) + WithKey(key, k, s[1..])
  }

  /** `r` is a stable rearrangement of `s`: every key class is the same sequence in both. */
  ghost predicate StableRearrangement<T(!new)>(key: T -> int, s: seq<T>, r: seq<T>) {
    forall k :: WithKey(key, k, s) == WithKey(key, k, r)
  }

  /** Put `x` in front of the first element whose key is not smaller. */
  function InsertByKey<T>(key: T -> int, x: T, s: seq<T>): seq<T> {
    if s == [] || key(x) <= key(s[0]) then [x] + s else [s[0]] + InsertByKey(key, x, s[1..])
  }

  function SortByKey<T>(key: T -> int, s: seq<T>): seq<T> {
    if s == [] then [] else InsertByKey(key, s[0], SortByKey(key, s[1..]))
  }

  lemma {:induction false} InsertKeepsElements<T>(key: T -> int, x: T, s: seq<T>)
    ensures multiset(InsertByKey(key, x, s)) == multiset(s) + multiset{x}
  {
    if s == [] || key(x) <= key(s[0]) {
    } else {
      InsertKeepsElements(key, x, s[1..]);
      assert s == [s[0]] + s[1..];
    }
  }

  lemma {:induction false} InsertSorted<T>(key: T -> int, x: T, s: seq<T>)
    requires SortedByKey(key, s)
    ensures SortedByKey(key, InsertByKey(key, x, s))
  {
    if s == [] || key(x) <= key(s[0]) {
    } else {
      var r := InsertByKey(key, x, s[1..]);
      InsertSorted(key, x, s[1..]);
      InsertKeepsElements(key, x, s[1..]);
      forall j | 0 <= j < |r| ensures key(s[0]) <= key(r[j]) {
        assert r[j] in multiset(r);
        assert r[j] == x || r[j] in s[1..];
      }
    }
  }

  lemma WithKeyFront<T>(key: T -> int, x: T, s: seq<T>, k: int)
    ensures WithKey(key, k, [x] + s) == (if key(x) == k then [x] else []) + WithKey(key, k, s)
  {
    assert ([x] + s)[1..] == s;
  }

  lemma {:induction false} InsertStable<T>(key: T -> int, x: T, s: seq<T>, k: int)
    ensures WithKey(key, k, InsertByKey(key, x, s)) == (if key(x) == k then [x] else []) + WithKey(key, k, s)
  {
    if s == [] || key(x) <= key(s[0]) {
      WithKeyFront(key, x, s, k);
    } else {
      InsertStable(key, x, s[1..], k);
      WithKeyFront(key, s[0], InsertByKey(key, x, s[1..]), k);
    }
  }

  /** The contract of `sort_by_key` and, on plain integers, of `sort_unstable`. */
  lemma {:induction false} SortByKeyIsStableSort<T(!new)>(key: T -> int, s: seq<T>)
    ensures SortedByKey(key, SortByKey(key, s))
    ensures StableRearrangement(key, s, SortByKey(key, s))
    ensures multiset(SortByKey(key, s)) == multiset(s)
  {
    if s != [] {
      var r := SortByKey(key, s[1..]);
      SortByKeyIsStableSort(key, s[1..]);
      InsertSorted(key, s[0], r);
      InsertKeepsElements(key, s[0], r);
      assert s == [s[0]] + s[1..];
      forall k ensures WithKey(key, k, s) == WithKey(key, k, SortByKey(key, s)) {
        InsertStable(key, s[0], r, k);
      }
    }
  }

  // ------------------------------------------------------------ ties

  ghost predicate Ascends<T>(place: T -> int, s: seq<T>) {
    forall i, j :: 0 <= i < j < |s| ==> place(s[i]) < place(s[j])
  }

  ghost predicate InFront<T>(key: T -> int, place: T -> int, x: T, y: T) {
    key(x) < key(y) || (key(x) == key(y) && place(x) < place(y))
  }

  /** By key, and by place among equal keys. */
  ghost predicate Lexicographic<T>(key: T -> int, place: T -> int, s: seq<T>) {
    forall i, j :: 0 <= i < j < |s| ==> InFront(key, place, s[i], s[j])
  }

  lemma {:induction false} InsertLexicographic<T>(key: T -> int, place: T -> int, x: T, s: seq<T>)
    requires Lexicographic(key, place, s) && forall y :: y in s ==> place(x) < place(y)
    ensures Lexicographic(key, place, InsertByKey(key, x, s))
  {
    if s != [] && key(x) > key(s[0]) {
      var r := InsertByKey(key, x, s[1..]);
      InsertLexicographic(key, place, x, s[1..]);
      InsertKeepsElements(key, x, s[1..]);
      forall j | 0 <= j < |r| ensures InFront(key, place, s[0], r[j]) {
        assert r[j] in multiset(r);
        assert r[j] == x || r[j] in s[1..];
      }
    }
  }

  lemma StillBehind<T(!new)>(place: T -> int, x: T, r: seq<T>, s: seq<T>)
    requires multiset(r) == multiset(s) && forall i :: 0 <= i < |s| ==> place(x) < place(s[i])
    ensures forall y :: y in r ==> place(x) < place(y)
  {
    forall y | y in r ensures place(x) < place(y) {
      assert y in multiset(r);
      assert y in multiset(s);
      var i :| 0 <= i < |s| && s[i] == y;
    }
  }

  /** Sorting by key a list that stands in order of place sorts it by both. */
  lemma {:induction false} SortIsLexicographic<T(!new)>(key: T -> int, place: T -> int, s: seq<T>)
    requires Ascends(place, s)
    ensures Lexicographic(key, place, SortByKey(key, s))
    ensures multiset(SortByKey(key, s)) == multiset(s)
  {
    if s != [] {
      var r := SortByKey(key, s[1..]);
      SortIsLexicographic(key, place, s[1..]);
      assert s == [s[0]] + s[1..];
      StillBehind(place, s[0], r, s[1..]);
      InsertLexicographic(key, place, s[0], r);
      InsertKeepsElements(key, s[0], r);
    }
  }

  lemma LeastComesFirst<T>(key: T -> int, place: T -> int, s: seq<T>, r: seq<T>)
    requires multiset(s) == multiset(r) && s != [] && r != []
    requires Lexicographic(key, place, s) && Lexicographic(key, place, r)
    ensures s[0] == r[0]
  {
    assert s[0] in multiset(r) && r[0] in multiset(s);
    var i :| 0 <= i < |r| && r[i] == s[0];
    var j :| 0 <= j < |s| && s[j] == r[0];
    assert i > 0 ==> InFront(key, place, r[0], r[i]);
    assert j > 0 ==> InFront(key, place, s[0], s[j]);
  }

  lemma SameAfterFirst<T>(s: seq<T>, r: seq<T>)
    requires multiset(s) == multiset(r) && s != [] && r != [] && s[0] == r[0]
    ensures multiset(s[1..]) == multiset(r[1..])
  {
    assert s == [s[0]] + s[1..] && r == [r[0]] + r[1..];
    assert multiset(s[1..]) == multiset(s) - multiset{s[0]};
    assert multiset(r[1..]) == multiset(r) - multiset{r[0]};
  }

  /** No other arrangement of the same elements stands in that order. */
  lemma {:induction false} LexicographicIsUnique<T>(key: T -> int, place: T -> int, s: seq<T>, r: seq<T>)
    requires multiset(s) == multiset(r)
    requires Lexicographic(key, place, s) && Lexicographic(key, place, r)
    ensures s == r
    decreases |s|
  {
    assert |s| == |multiset(s)| == |r|;
    if s != [] {
      LeastComesFirst(key, place, s, r);
      SameAfterFirst(s, r);
      LexicographicIsUnique(key, place, s[1..], r[1..]);
    }
  }

  // ------------------------------------------------------------ the part below a key

  ghost function Below<T>(key: T -> int, v: int, s: seq<T>): seq<T> {
    if s == [] then [] else (if key(s[0]) < v then [s[0]] else []) + Below(key, v, s[1..])
  }

  /** In a sorted sequence the smaller keys are a prefix. */
  lemma {:induction false} BelowIsPrefix<T>(key: T -> int, v: int, s: seq<T>)
    requires SortedByKey(key, s)
    ensures |Below(key, v, s)| <= |s| && Below(key, v, s) == s[..|Below(key, v, s)|]
    ensures forall i :: 0 <= i < |s| ==> (key(s[i]) < v <==> i < |Below(key, v, s)|)
  {
    if s != [] {
      BelowIsPrefix(key, v, s[1..]);
      assert s == [s[0]] + s[1..];
      if key(s[0]) >= v {
        assert Below(key, v, s[1..]) != [] ==> key(s[1..][0]) < v;
      }
    }
  }

  lemma {:induction false} BelowCounts<T>(key: T -> int, v: int, s: seq<T>, x: T)
    ensures multiset(Below(key, v, s))[x] == if key(x) < v then multiset(s)[x] else 0
  {
    if s != [] {
      BelowCounts(key, v, s[1..], x);
      assert s == [s[0]] + s[1..];
    }
  }

  lemma SamePartBelow<T(!new)>(key: T -> int, v: int, s: seq<T>, r: seq<T>)
    requires multiset(s) == multiset(r)
    ensures multiset(Below(key, v, s)) == multiset(Below(key, v, r))
    ensures |Below(key, v, s)| == |Below(key, v, r)|
  {
    forall x ensures multiset(Below(key, v, s))[x] == multiset(Below(key, v, r))[x] {
      BelowCounts(key, v, s, x);
      BelowCounts(key, v, r, x);
    }
    assert multiset(Below(key, v, s)) == multiset(Below(key, v, r));
    assert |Below(key, v, s)| == |multiset(Below(key, v, s))|;
  }
}
