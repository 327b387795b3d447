/** Regrouping a list into season chains: `MalList::chains`. */
module PlannerList {
  import opened Graphs
  import opened ListModels
  import opened Sorting
  import opened Wrappers
  import Season

  predicate AiringFinished(entry: ListEntry) {
    entry.totalEpisodes.None? || entry.watchedCount >= entry.totalEpisodes.value
  }

  function ToSeasonEntry(entry: ListEntry): Season.SeasonEntry {
    Season.SeasonEntry(entry.malId, entry.title, entry.listStatus, entry.watchedCount, entry.totalEpisodes,
                       entry.episodeOffset, Season.Tv, AiringFinished(entry))
  }

  function SeasonKey(): ListEntry -> int { (e: ListEntry) => e.season }

  /** The rows of a set of franchises, in list order. */
  ghost function RowsOf(entries: seq<ListEntry>, franchises: set<int>): seq<ListEntry> {
    if entries == [] then []
    else (if entries[0].franchise in franchises then [entries[0]] else []) + RowsOf(entries[1..], franchises)
  }

  ghost function ToChain(rows: seq<ListEntry>): (c: Season.Chain)
    ensures |c| == |rows| && forall i :: 0 <= i < |rows| ==> c[i] == ToSeasonEntry(rows[i])
  {
    seq(|rows|, i requires 0 <= i < |rows| => ToSeasonEntry(rows[i]))
  }

  /** The chain of one franchise. */
  ghost function ChainFor(entries: seq<ListEntry>, franchise: int): Season.Chain {
    ToChain(SortByKey(SeasonKey(), RowsOf(entries, {franchise})))
  }

  ghost predicate StrictlyIncreasing(s: seq<int>) {
    forall i, j :: 0 <= i < j < |s| ==> s[i] < s[j]
  }

  ghost function FranchisesOf(entries: seq<ListEntry>): set<int> {
    set i | 0 <= i < |entries| :: entries[i].franchise
  }

  lemma {:induction false} RowsOfSnoc(entries: seq<ListEntry>, e: ListEntry, franchises: set<int>)
    ensures RowsOf(entries + [e], franchises) ==
            RowsOf(entries, franchises) + (if e.franchise in franchises then [e] else [])
  {
    if entries == [] {
      assert entries + [e] == [e];
    } else {
      RowsOfSnoc(entries[1..], e, franchises);
      assert (entries + [e])[1..] == entries[1..] + [e];
    }
  }

  ghost predicate Ascending(s: seq<int>) {
    forall i, j :: 0 <= i < j < |s| ==> s[i] <= s[j]
  }

  lemma SortedIntegers(values: seq<int>)
    ensures Ascending(SortByKey(Identity(), values)) && SetOf(SortByKey(Identity(), values)) == SetOf(values)
  {
    var sorted := SortByKey(Identity(), values);
    SortByKeyIsStableSort(Identity(), values);
    forall x ensures x in sorted <==> x in values {
      assert x in multiset(sorted) <==> x in multiset(values);
    }
    forall i, j | 0 <= i < j < |sorted| ensures sorted[i] <= sorted[j] {
      assert Identity()(sorted[i]) <= Identity()(sorted[j]);
    }
  }

  /** `dedup`: drop each element equal to the one before it. */
  method Dedup(sorted: seq<int>) returns (out: seq<int>)
    requires Ascending(sorted)
    ensures StrictlyIncreasing(out) && SetOf(out) == SetOf(sorted)
  {
    out := [];
    for i := 0 to |sorted|
      invariant StrictlyIncreasing(out) && SetOf(out) == SetOf(sorted[..i])
      invariant i == 0 ==> out == []
      invariant i > 0 ==> out != [] && out[|out| - 1] == sorted[i - 1]
    {
      assert SetOf(sorted[..i + 1]) == SetOf(sorted[..i]) + {sorted[i]};
      if out == [] || out[|out| - 1] != sorted[i] {
        assert SetOf(out + [sorted[i]]) == SetOf(out) + {sorted[i]};
        out := out + [sorted[i]];
      }
    }
    assert sorted[..|sorted|] == sorted;
  }

  /** One chain for each of the named franchises, which are all of the list's, ascending. */
  ghost predicate ChainsFor(entries: seq<ListEntry>, chains: seq<Season.Chain>, franchises: seq<int>) {
    && StrictlyIncreasing(franchises) && SetOf(franchises) == FranchisesOf(entries)
    && |chains| == |franchises| && forall i :: 0 <= i < |chains| ==> chains[i] == ChainFor(entries, franchises[i])
  }

  /** `MalList::chains`: one chain per franchise, ascending, each ordered by season. */
  method ChainsOf(entries: seq<ListEntry>) returns (out: seq<Season.Chain>)
    ensures exists franchises :: ChainsFor(entries, out, franchises)
  {
    var names := seq(|entries|, i requires 0 <= i < |entries| => entries[i].franchise);
    SortedIntegers(names);
    var distinct := Dedup(SortByKey(Identity(), names));
    assert SetOf(names) == FranchisesOf(entries) by {
      forall x | x in FranchisesOf(entries) ensures x in names {
        var i :| 0 <= i < |entries| && entries[i].franchise == x;
        assert names[i] == x;
      }
    }
    out := [];
    for f := 0 to |distinct|
      invariant |out| == f && forall i :: 0 <= i < f ==> out[i] == ChainFor(entries, distinct[i])
    {
      var chain := ChainOfFranchise(entries, distinct[f]);
      out := out + [chain];
    }
    assert ChainsFor(entries, out, distinct);
  }

  method ChainOfFranchise(entries: seq<ListEntry>, franchise: int) returns (chain: Season.Chain)
    ensures chain == ChainFor(entries, franchise)
  {
    var rows := [];
    for i := 0 to |entries|
      invariant rows == RowsOf(entries[..i], {franchise})
    {
      RowsOfSnoc(entries[..i], entries[i], {franchise});
      assert entries[..i + 1] == entries[..i] + [entries[i]];
      if entries[i].franchise == franchise { rows := rows + [entries[i]]; }
    }
    assert entries[..|entries|] == entries;
    rows := SortByKey(SeasonKey(), rows);
    chain := seq(|rows|, i requires 0 <= i < |rows| => ToSeasonEntry(rows[i]));
  }

  /** A chain's entry is the list's row; the show counts as finished unless the row has a count that is not reached. */
  lemma ChainEntryIsRow(rows: seq<ListEntry>, i: nat)
    requires i < |rows|
    ensures var entry, row := ToChain(rows)[i], rows[i];
            && entry.malId == row.malId && entry.title == row.title && entry.listStatus == row.listStatus
            && entry.watchedCount == row.watchedCount && entry.totalEpisodes == row.totalEpisodes
            && entry.episodeOffset == row.episodeOffset
            && (entry.fullyAired <==> !exists count :: row.totalEpisodes == Some(count) && row.watchedCount < count)
  {
  }

  // ------------------------------------------------- every entry lands in one chain

  ghost function Concat(chains: seq<Season.Chain>): Season.Chain {
    if chains == [] then [] else Concat(chains[..|chains| - 1]) + chains[|chains| - 1]
  }

  lemma {:induction false} RowsSplit(entries: seq<ListEntry>, s: set<int>, f: int)
    requires f !in s
    ensures multiset(RowsOf(entries, s + {f})) == multiset(RowsOf(entries, s)) + multiset(RowsOf(entries, {f}))
  {
    if entries != [] { RowsSplit(entries[1..], s, f); }
  }

  lemma {:induction false} RowsOfAll(entries: seq<ListEntry>, s: set<int>)
    requires FranchisesOf(entries) <= s
    ensures RowsOf(entries, s) == entries
  {
    if entries != [] {
      assert entries[0].franchise in FranchisesOf(entries);
      forall x | x in FranchisesOf(entries[1..]) ensures x in s {
        var i :| 0 <= i < |entries| - 1 && entries[1..][i].franchise == x;
        assert entries[i + 1].franchise in FranchisesOf(entries);
      }
      RowsOfAll(entries[1..], s);
    }
  }

  lemma {:induction false} ChainsHoldRows(entries: seq<ListEntry>, chains: seq<Season.Chain>, franchises: seq<int>)
    returns (rows: seq<ListEntry>)
    requires StrictlyIncreasing(franchises) && |chains| == |franchises|
    requires forall i :: 0 <= i < |chains| ==> chains[i] == ChainFor(entries, franchises[i])
    ensures Concat(chains) == ToChain(rows)
    ensures multiset(rows) == multiset(RowsOf(entries, SetOf(franchises)))
    decreases |chains|
  {
    if chains == [] {
      rows := [];
      NoRows(entries);
      assert SetOf(franchises) == {};
    } else {
      var n := |chains| - 1;
      var before := ChainsHoldRows(entries, chains[..n], franchises[..n]);
      var f := franchises[n];
      var mine := RowsOf(entries, {f});
      SortByKeyIsStableSort(SeasonKey(), mine);
      rows := before + SortByKey(SeasonKey(), mine);
      assert SetOf(franchises) == SetOf(franchises[..n]) + {f} by {
        assert franchises == franchises[..n] + [f];
      }
      RowsSplit(entries, SetOf(franchises[..n]), f);
      ToChainConcat(before, SortByKey(SeasonKey(), mine));
    }
  }

  lemma ToChainConcat(a: seq<ListEntry>, b: seq<ListEntry>)
    ensures ToChain(a + b) == ToChain(a) + ToChain(b)
  {
  }

  lemma {:induction false} NoRows(entries: seq<ListEntry>)
    ensures RowsOf(entries, {}) == []
  {
    if entries != [] { NoRows(entries[1..]); }
  }

  /** Conservation: read in order, the chains are the list's entries, each as often as in the list. */
  lemma EveryEntryInExactlyOneChain(entries: seq<ListEntry>, chains: seq<Season.Chain>, franchises: seq<int>)
    returns (rows: seq<ListEntry>)
    requires ChainsFor(entries, chains, franchises)
    ensures Concat(chains) == ToChain(rows) && multiset(rows) == multiset(entries)
  {
    rows := ChainsHoldRows(entries, chains, franchises);
    RowsOfAll(entries, SetOf(franchises));
  }
}
