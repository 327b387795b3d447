/** The size-rotating log: numbered files as a map from index to bytes, with the current file at 0. */
module Logging {
  import opened Bytes
  import opened Wrappers

  type Files = map<nat, bytes>

  function At(files: Files, k: nat): Option<bytes> {
    if k in files then Some(files[k]) else None
  }

  /** `fs::rename`: the target is replaced; a missing source leaves everything as it is. */
  function Renamed(files: Files, from: nat, to: nat): Files {
    if from in files && from != to then (files - {from})[to := files[from]] else files
  }

  /** Where the contents of index `k` come from when the older files have moved up one place. */
  function ShiftedAt(files: Files, keep: nat, k: nat): Option<bytes> {
    if k == 0 || k > keep then At(files, k)
    else if k == 1 then (if keep == 1 then At(files, 1) else None)
    else if k - 1 in files then At(files, k - 1)
    else if k == keep then At(files, k)
    else None
  }

  /** Index `k` after a rotation, for any set of numbered files, holes included. */
  function RotatedAt(files: Files, keep: nat, k: nat): Option<bytes> {
    if k == 0 then Some([])
    else if keep == 0 || k > keep then At(files, k)
    else if k == 1 then At(files, 0)
    else ShiftedAt(files, keep, k)
  }

  // ------------------------------------------------------------ what the files should hold

  ghost function Flatten(chunks: seq<bytes>): bytes {
    if chunks == [] then [] else Flatten(chunks[..|chunks| - 1]) + chunks[|chunks| - 1]
  }

  /** File `i` holds the writes from `bounds[i + 1]` up to `bounds[i]` of the history: the current
      file the newest ones, each numbered file the ones before. */
  ghost predicate HoldsWrites(files: Files, history: seq<bytes>, bounds: seq<nat>) {
    && |bounds| >= 2 && bounds[0] == |history|
    && (forall i, j :: 0 <= i < j < |bounds| ==> bounds[j] <= bounds[i])
    && (forall i: nat :: i in files <==> i + 1 < |bounds|)
    && (forall i :: 0 <= i < |bounds| - 1 ==> files[i] == Flatten(history[bounds[i + 1]..bounds[i]]))
  }

  ghost predicate SingleWrite(content: bytes, chunks: seq<bytes>) {
    exists c :: 0 <= c < |chunks| && content == chunks[c]
  }

  ghost predicate SizesBounded(files: Files, history: seq<bytes>, bounds: seq<nat>, maxBytes: nat)
    requires HoldsWrites(files, history, bounds)
  {
    forall i :: 0 <= i < |bounds| - 1 ==>
      |files[i]| <= maxBytes || SingleWrite(files[i], history[bounds[i + 1]..bounds[i]])
  }

  /** The files from the oldest to the current one, end to end. */
  ghost function Joined(files: Files, m: nat): bytes
    requires forall i :: 0 <= i <= m ==> i in files
  {
    files[m] + if m == 0 then [] else Joined(files, m - 1)
  }

  lemma {:induction false} FlattenConcat(a: seq<bytes>, b: seq<bytes>)
    ensures Flatten(a + b) == Flatten(a) + Flatten(b)
    decreases |b|
  {
    if b == [] {
      assert a + b == a;
    } else {
      FlattenConcat(a, b[..|b| - 1]);
      assert (a + b)[..|a + b| - 1] == a + b[..|b| - 1];
    }
  }

  lemma CutFlatten(history: seq<bytes>, a: nat, b: nat)
    requires a <= b <= |history|
    ensures Flatten(history[a..]) == Flatten(history[a..b]) + Flatten(history[b..])
  {
    FlattenConcat(history[a..b], history[b..]);
    assert history[a..] == history[a..b] + history[b..];
  }

  lemma {:induction false} JoinedFromCut(files: Files, history: seq<bytes>, bounds: seq<nat>, m: nat)
    requires HoldsWrites(files, history, bounds) && m + 1 < |bounds|
    ensures forall i: nat :: i <= m ==> i in files
    ensures Joined(files, m) == Flatten(history[bounds[m + 1]..])
  {
    hide Flatten;
    assert bounds[m + 1] <= bounds[m] <= bounds[0];
    if m == 0 {
      assert history[bounds[1]..bounds[0]] == history[bounds[1]..];
    } else {
      JoinedFromCut(files, history, bounds, m - 1);
      CutFlatten(history, bounds[m + 1], bounds[m]);
    }
  }

  /** Read in order, the kept files are a suffix of everything written, cut between two writes. */
  lemma KeptFilesAreSuffix(files: Files, history: seq<bytes>, bounds: seq<nat>)
    requires HoldsWrites(files, history, bounds)
    ensures var oldest := |bounds| - 2;
            && (forall i: nat :: i in files <==> i <= oldest)
            && bounds[oldest + 1] <= |history|
            && Flatten(history) == Flatten(history[..bounds[oldest + 1]]) + Joined(files, oldest)
  {
    var cut := bounds[|bounds| - 1];
    JoinedFromCut(files, history, bounds, |bounds| - 2);
    CutFlatten(history, 0, cut);
    assert history[0..] == history && history[0..cut] == history[..cut];
  }

  // ------------------------------------------------------------ rotation on the list of files

  /** New bounds after a rotation: an empty current file, and the oldest one dropped if there is no
      room for it. */
  function RotatedBounds(bounds: seq<nat>, keep: nat): (r: seq<nat>)
    requires |bounds| >= 2
    ensures |r| >= 2
  {
    var all := [bounds[0]] + bounds;
    if |all| <= keep + 2 then all else all[..keep + 2]
  }

  lemma RotationKeepsWrites(files: Files, after: Files, history: seq<bytes>, bounds: seq<nat>, keep: nat)
    requires HoldsWrites(files, history, bounds) && |bounds| - 2 <= keep
    requires forall k: nat :: At(after, k) == RotatedAt(files, keep, k)
    ensures HoldsWrites(after, history, RotatedBounds(bounds, keep))
    ensures |RotatedBounds(bounds, keep)| - 2 <= keep
    ensures |RotatedBounds(bounds, keep)| == if |bounds| - 2 < keep then |bounds| + 1 else keep + 2
  {
    var next := RotatedBounds(bounds, keep);
    forall i: nat ensures i in after <==> i + 1 < |next| {
      assert At(after, i) == RotatedAt(files, keep, i);
    }
    forall i | 0 <= i < |next| - 1 ensures after[i] == Flatten(history[next[i + 1]..next[i]]) {
      assert At(after, i) == RotatedAt(files, keep, i);
      if i > 0 {
        assert next[i] == bounds[i - 1] && next[i + 1] == bounds[i];
        assert At(after, i) == At(files, i - 1);
      }
    }
  }

  lemma RotationKeepsSizes(files: Files, after: Files, history: seq<bytes>, bounds: seq<nat>, keep: nat, maxBytes: nat)
    requires HoldsWrites(files, history, bounds) && |bounds| - 2 <= keep
    requires SizesBounded(files, history, bounds, maxBytes)
    requires forall k: nat :: At(after, k) == RotatedAt(files, keep, k)
    ensures HoldsWrites(after, history, RotatedBounds(bounds, keep))
    ensures SizesBounded(after, history, RotatedBounds(bounds, keep), maxBytes)
  {
    RotationKeepsWrites(files, after, history, bounds, keep);
    var next := RotatedBounds(bounds, keep);
    forall i | 0 <= i < |next| - 1
      ensures |after[i]| <= maxBytes || SingleWrite(after[i], history[next[i + 1]..next[i]])
    {
      assert At(after, i) == RotatedAt(files, keep, i);
      if i > 0 {
        assert next[i] == bounds[i - 1] && next[i + 1] == bounds[i];
        assert At(after, i) == At(files, i - 1);
      }
    }
  }

  /** One accepted chunk appended to the current file. */
  lemma AppendKeepsWrites(files: Files, history: seq<bytes>, bounds: seq<nat>, chunk: bytes, maxBytes: nat)
    requires HoldsWrites(files, history, bounds) && SizesBounded(files, history, bounds, maxBytes)
    requires files[0] == [] || |files[0]| + |chunk| <= maxBytes
    ensures HoldsWrites(files[0 := files[0] + chunk], history + [chunk], bounds[0 := |history| + 1])
    ensures SizesBounded(files[0 := files[0] + chunk], history + [chunk], bounds[0 := |history| + 1], maxBytes)
  {
    var after, all, next := files[0 := files[0] + chunk], history + [chunk], bounds[0 := |history| + 1];
    var mine := history[bounds[1]..bounds[0]];
    assert all[next[1]..next[0]] == mine + [chunk];
    FlattenConcat(mine, [chunk]);
    assert Flatten([chunk]) == [] + chunk == chunk;
    forall i | 1 <= i < |next| - 1 ensures all[next[i + 1]..next[i]] == history[bounds[i + 1]..bounds[i]] {
      assert bounds[i] <= bounds[0];
    }
    if files[0] == [] {
      assert (mine + [chunk])[|mine|] == chunk;
      assert SingleWrite(after[0], all[next[1]..next[0]]);
    }
  }

  // ------------------------------------------------------------ the writer

  class RotatingWriter {
    var files: Files
    var written: nat
    const maxBytes: nat
    const keep: nat
    /** Every chunk accepted since opening. */
    ghost var history: seq<bytes>
    ghost var bounds: seq<nat>

    ghost predicate Valid()
      reads this
    {
      0 in files && written == |files[0]|
    }

    /** The numbered files are contiguous, at most `keep` of them, and hold a suffix of the history
        cut between writes, each within `max_bytes` or a single write. */
    ghost predicate Tracks()
      reads this
    {
      Valid() && HoldsWrites(files, history, bounds) && |bounds| - 2 <= keep
      && SizesBounded(files, history, bounds, maxBytes)
    }

    /** `RotState::open`, on whatever files are there. */
    constructor (existing: Files, maxBytes: nat, keep: nat)
      ensures Valid() && this.maxBytes == maxBytes && this.keep == keep
      ensures files == if 0 in existing then existing else existing[0 := []]
      ensures existing == map[] ==> Tracks() && history == []
    {
      var current := if 0 in existing then existing else existing[0 := []];
      files := current;
      written := |current[0]|;
      this.maxBytes, this.keep := maxBytes, keep;
      history, bounds := [], [0, 0];
    }

    /** `rotate`: the numbered files move up one at a time, from the oldest down. */
    method Rotate()
      requires Valid()
      modifies this
      ensures Valid() && written == 0 && history == old(history)
      ensures forall k: nat :: At(files, k) == RotatedAt(old(files), keep, k)
      ensures old(Tracks()) ==> Tracks() && bounds == RotatedBounds(old(bounds), keep)
    {
      ghost var before := files;
      if keep == 0 {
        files, written := files[0 := []], 0;
      } else {
        var i := keep - 1;
        while i >= 1
          invariant 0 <= i < keep
          invariant history == old(history) && bounds == old(bounds)
          invariant forall k: nat :: k <= i ==> At(files, k) == At(before, k)
          invariant At(files, i + 1) == if i + 1 == keep then At(before, keep) else None
          invariant forall k: nat :: k > i + 1 ==> At(files, k) == ShiftedAt(before, keep, k)
        {
          ghost var prior := files;
          files := Renamed(files, i, i + 1);
          RenameMoves(prior, i);
          i := i - 1;
        }
        files := Renamed(files, 0, 1);
        files, written := files[0 := []], 0;
      }
      assert forall k: nat :: At(files, k) == RotatedAt(before, keep, k);
      if old(Tracks()) {
        RotationKeepsSizes(before, files, history, bounds, keep, maxBytes);
        RotationKeepsWrites(before, files, history, bounds, keep);
        bounds := RotatedBounds(bounds, keep);
      }
    }

    /** `write`: rotate when the buffer does not fit, then append what the system accepts. */
    method Write(buf: bytes, accepted: nat) returns (n: nat)
      requires Valid() && accepted <= |buf|
      modifies this
      ensures Valid() && n == accepted
      ensures old(Tracks()) ==> Tracks() && history == old(history) + [buf[..n]]
      ensures var rotates := old(written) > 0 && old(written) + |buf| > maxBytes;
              forall k: nat :: At(files, k) ==
                if k == 0 then Some((if rotates then [] else old(files[0])) + buf[..n])
                else if rotates then RotatedAt(old(files), keep, k)
                else At(old(files), k)
    {
      if written > 0 && written + |buf| > maxBytes {
        Rotate();
        assert At(files, 0) == Some([]);
      }
      ghost var chunk := buf[..accepted];
      if Tracks() {
        AppendKeepsWrites(files, history, bounds, chunk, maxBytes);
      }
      files := files[0 := files[0] + buf[..accepted]];
      written := written + accepted;
      bounds := if |bounds| > 0 then bounds[0 := |history| + 1] else bounds;
      history := history + [chunk];
      return accepted;
    }
  }

  lemma RenameMoves(files: Files, i: nat)
    ensures forall k: nat :: At(Renamed(files, i, i + 1), k) ==
              if k == i + 1 then (if i in files then At(files, i) else At(files, i + 1))
              else if k == i then None
              else At(files, k)
  {
    var r := Renamed(files, i, i + 1);
    forall k: nat
      ensures At(r, k) == if k == i + 1 then (if i in files then At(files, i) else At(files, i + 1))
                          else if k == i then None
                          else At(files, k)
    {
      if i in files && k != i && k != i + 1 { assert k in files - {i} <==> k in files; }
    }
  }
}
