/** Episode totals of rows arranged by season: what a prefix of any sorted arrangement counts. */
module Totals {
  import opened Wrappers
  import opened ListModels
  import opened Sorting
  import opened PlannerList
  import SeasonDecide

  lemma SameLength(a: seq<ListEntry>, b: seq<ListEntry>)
    requires multiset(a) == multiset(b)
    ensures |a| == |b|
  {
    assert |multiset(a)| == |multiset(b)|;
  }

  ghost predicate AllKnown(rows: seq<ListEntry>) {
    forall i :: 0 <= i < |rows| ==> rows[i].totalEpisodes.Some? && rows[i].totalEpisodes.value > 0
  }

  ghost function Total(rows: seq<ListEntry>): int {
    if rows == [] then 0 else Total(rows[..|rows| - 1]) + rows[|rows| - 1].totalEpisodes.GetOr(0)
  }

  lemma {:induction false} CountIsTotal(rows: seq<ListEntry>, n: nat)
    requires AllKnown(rows) && n <= |rows|
    ensures SeasonDecide.CountOfFirst(ToChain(rows), n) == Some(Total(rows[..n]))
  {
    if n > 0 {
      CountIsTotal(rows, n - 1);
      assert rows[..n][..n - 1] == rows[..n - 1];
    }
  }

  lemma {:induction false} TotalConcat(a: seq<ListEntry>, b: seq<ListEntry>)
    ensures Total(a + b) == Total(a) + Total(b)
  {
    if b == [] {
      assert a + b == a;
    } else {
      TotalConcat(a, b[..|b| - 1]);
      assert (a + b)[..|a + b| - 1] == a + b[..|b| - 1];
    }
  }

  lemma TotalOne(x: ListEntry)
    ensures Total([x]) == x.totalEpisodes.GetOr(0)
  {
    assert [x][..0] == [];
  }

  /** What is left of a rearrangement without its last element. */
  lemma Without(front: seq<ListEntry>, x: ListEntry, b: seq<ListEntry>) returns (j: nat)
    requires multiset(front + [x]) == multiset(b)
    ensures j < |b| && b[j] == x && multiset(front) == multiset(b[..j] + b[j + 1..])
  {
    assert x in multiset(b);
    j :| 0 <= j < |b| && b[j] == x;
    assert b == b[..j] + [x] + b[j + 1..];
    assert multiset(b) == multiset(b[..j] + b[j + 1..]) + multiset{x};
    forall y ensures multiset(front)[y] == multiset(b[..j] + b[j + 1..])[y] {
      assert multiset(front + [x])[y] == multiset(b)[y];
    }
  }

  lemma {:induction false} SameTotal(a: seq<ListEntry>, b: seq<ListEntry>)
    requires multiset(a) == multiset(b)
    ensures Total(a) == Total(b)
    decreases |a|
  {
    SameLength(a, b);
    if a != [] {
      var x, front := a[|a| - 1], a[..|a| - 1];
      assert a == front + [x];
      var j := Without(front, x, b);
      assert b == b[..j] + [x] + b[j + 1..];
      SameTotal(front, b[..j] + b[j + 1..]);
      TotalConcat(b[..j], b[j + 1..]);
      TotalConcat(b[..j] + [x], b[j + 1..]);
      TotalConcat(b[..j], [x]);
      TotalOne(x);
    }
  }

  lemma {:induction false} TotalGrows(rows: seq<ListEntry>, i: nat, j: nat)
    requires AllKnown(rows) && i < j <= |rows|
    ensures Total(rows[..i]) < Total(rows[..j])
    decreases j
  {
    assert rows[..j][..j - 1] == rows[..j - 1];
    if i < j - 1 { TotalGrows(rows, i, j - 1); }
  }

  lemma AllKnownStays(s: seq<ListEntry>, rows: seq<ListEntry>)
    requires multiset(s) == multiset(rows) && AllKnown(rows)
    ensures AllKnown(s)
  {
    forall i | 0 <= i < |s| ensures s[i].totalEpisodes.Some? && s[i].totalEpisodes.value > 0 {
      assert s[i] in multiset(s) && s[i] in rows;
    }
  }

  /** Two sorted arrangements have the same rows, and so the same total, below any season. */
  lemma SameTotalBelow(s: seq<ListEntry>, rows: seq<ListEntry>, v: int) returns (b: nat)
    requires multiset(s) == multiset(rows) && SortedByKey(SeasonKey(), s) && SortedByKey(SeasonKey(), rows)
    ensures b <= |s| == |rows| && Total(s[..b]) == Total(rows[..b])
    ensures forall i :: 0 <= i < |rows| ==> (rows[i].season < v <==> i < b)
  {
    SameLength(s, rows);
    BelowIsPrefix(SeasonKey(), v, s);
    BelowIsPrefix(SeasonKey(), v, rows);
    SamePartBelow(SeasonKey(), v, s, rows);
    b := |Below(SeasonKey(), v, rows)|;
    SameTotal(s[..b], rows[..b]);
    assert forall i :: 0 <= i < |rows| ==> SeasonKey()(rows[i]) == rows[i].season;
  }

  /** Place `q` lies between two rows whose season is that of row `k`. */
  ghost predicate InsideOwnSeason(rows: seq<ListEntry>, k: nat, q: nat)
    requires k < |rows|
  {
    0 < q < |rows| && rows[q - 1].season == rows[q].season == rows[k].season
  }

  /** What the first `q` rows of any sorted arrangement count is what stands before place `k` only for
      `q == k`: a place inside another season cuts a whole number of rows too few or too many. */
  lemma TotalsAgreeIff(s: seq<ListEntry>, rows: seq<ListEntry>, k: nat, q: nat)
    requires multiset(s) == multiset(rows) && SortedByKey(SeasonKey(), s) && SortedByKey(SeasonKey(), rows)
    requires AllKnown(rows) && k < |rows| && q <= |rows| == |s| && !InsideOwnSeason(rows, k, q)
    ensures Total(s[..q]) == Total(rows[..k]) <==> q == k
  {
    AllKnownStays(s, rows);
    if q == |rows| {
      assert s[..q] == s && rows[..q] == rows;
      SameTotal(s, rows);
      TotalGrows(rows, k, q);
    } else {
      var v := rows[q].season;
      var b := SameTotalBelow(s, rows, v);
      assert b <= q;
      if b == q {
        if k < q { TotalGrows(rows, k, q); }
        if q < k { TotalGrows(rows, q, k); }
      } else {
        CutInsideASeason(s, rows, k, q, b);
      }
    }
  }

  lemma CutInsideASeason(s: seq<ListEntry>, rows: seq<ListEntry>, k: nat, q: nat, b: nat)
    requires multiset(s) == multiset(rows) && SortedByKey(SeasonKey(), s) && SortedByKey(SeasonKey(), rows)
    requires AllKnown(rows) && AllKnown(s) && k < |rows| && b < q < |rows| == |s| && !InsideOwnSeason(rows, k, q)
    requires Total(s[..b]) == Total(rows[..b])
    requires forall i :: 0 <= i < |rows| ==> (rows[i].season < rows[q].season <==> i < b)
    ensures Total(s[..q]) != Total(rows[..k]) && q != k
  {
    var v := rows[q].season;
    assert SeasonKey()(rows[q - 1]) <= SeasonKey()(rows[q]);
    if rows[k].season < v {
      TotalGrows(rows, k, b);
      TotalGrows(s, b, q);
    } else {
      var end := SameTotalBelow(s, rows, v + 1);
      TotalGrows(s, q, end);
      if end < k { TotalGrows(rows, end, k); }
    }
  }
}
