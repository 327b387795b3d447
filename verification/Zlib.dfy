/** The zlib stream the icon writer emits, and a decoder written from the formats alone: stored blocks
    after section 3.2.4 of RFC 1951, the wrapper and Adler-32 after RFC 1950. */
module Zlib {
  import opened Bytes
  import opened Wrappers
  import opened Numbers

  const BLOCK: nat := 65535
  const ADLER: nat := 65521

  // ------------------------------------------------------------ stored blocks

  function Block(data: bytes, last: bool): bytes
    requires |data| <= BLOCK
  {
    [if last then 1 else 0] + Le16(|data|) + Le16(BLOCK - |data|) + data
  }

  /** Blocks of at most 65535 bytes, the last one marked; none at all for no bytes. */
  function Stored(raw: bytes): bytes
    decreases |raw|
  {
    if raw == [] then []
    else if |raw| <= BLOCK then Block(raw, true)
    else Block(raw[..BLOCK], false) + Stored(raw[BLOCK..])
  }

  /** Decoding stored blocks: the final bit and a block type of 00, LEN, its complement NLEN, then LEN
      bytes, until the block marked final. The bytes after it are returned too. */
  function Inflate(s: bytes): Option<(bytes, bytes)>
    decreases |s|
  {
    if |s| < 5 || s[0] / 2 % 4 != 0 then None
    else
      var len := ReadLe16(s[1..3]);
      if ReadLe16(s[3..5]) != 65535 - len || |s| < 5 + len then None
      else
        var data, rest := s[5..5 + len], s[5 + len..];
        if s[0] % 2 == 1 then Some((data, rest))
        else
          match Inflate(rest)
          case None => None
          case Some((more, tail)) => Some((data + more, tail))
  }

  lemma BlockLayout(data: bytes, last: bool, rest: bytes)
    requires |data| <= BLOCK
    ensures var s := Block(data, last) + rest;
            && |s| == 5 + |data| + |rest| && s[0] == (if last then 1 else 0)
            && s[1..3] == Le16(|data|) && s[3..5] == Le16(BLOCK - |data|)
            && s[5..5 + |data|] == data && s[5 + |data|..] == rest
  {
    hide Le16;
  }

  lemma InflateBlock(data: bytes, last: bool, rest: bytes)
    requires |data| <= BLOCK
    ensures Inflate(Block(data, last) + rest) ==
            if last then Some((data, rest))
            else match Inflate(rest) case None => None case Some((more, tail)) => Some((data + more, tail))
  {
    hide Le16, ReadLe16, Block;
    BlockLayout(data, last, rest);
    Le16RoundTrip(|data|);
    Le16RoundTrip(BLOCK - |data|);
  }

  /** Every nonempty buffer decodes to exactly itself, with the bytes behind it left over. */
  lemma {:induction false} StoredRoundTrip(raw: bytes, rest: bytes)
    requires raw != []
    ensures Inflate(Stored(raw) + rest) == Some((raw, rest))
    decreases |raw|
  {
    hide Block, Inflate;
    if |raw| <= BLOCK {
      InflateBlock(raw, true, rest);
    } else {
      var head, tail := raw[..BLOCK], raw[BLOCK..];
      StoredRoundTrip(tail, rest);
      InflateBlock(head, false, Stored(tail) + rest);
      assert Stored(raw) + rest == Block(head, false) + (Stored(tail) + rest);
      assert head + tail == raw;
    }
  }

  /** The final marks in a sequence of blocks. */
  function FinalMarks(s: bytes): Option<nat>
    decreases |s|
  {
    if s == [] then Some(0)
    else if |s| < 5 then None
    else
      var len := ReadLe16(s[1..3]);
      if |s| < 5 + len then None
      else
        match FinalMarks(s[5 + len..])
        case None => None
        case Some(n) => Some(n + s[0] % 2)
  }

  lemma MarksOfBlock(data: bytes, last: bool, rest: bytes)
    requires |data| <= BLOCK
    ensures FinalMarks(Block(data, last) + rest) ==
            match FinalMarks(rest) case None => None case Some(n) => Some(n + if last then 1 else 0)
  {
    hide Le16, ReadLe16, Block;
    BlockLayout(data, last, rest);
    Le16RoundTrip(|data|);
  }

  lemma NoMarks()
    ensures FinalMarks([]) == Some(0)
  {
  }

  /** A nonempty buffer is framed with exactly one final block, an empty one with no block at all. */
  lemma {:induction false} ExactlyOneFinalBlock(raw: bytes)
    ensures FinalMarks(Stored(raw)) == Some(if raw == [] then 0 else 1)
    decreases |raw|
  {
    hide Block, FinalMarks;
    NoMarks();
    if raw == [] {
      assert Stored(raw) == [];
    } else if |raw| <= BLOCK {
      MarksOfBlock(raw, true, []);
      assert Block(raw, true) + [] == Block(raw, true);
    } else {
      ExactlyOneFinalBlock(raw[BLOCK..]);
      MarksOfBlock(raw[..BLOCK], false, Stored(raw[BLOCK..]));
    }
  }

  /** Five bytes of framing for every 65535 bytes or part of them. */
  lemma {:induction false} StoredLength(raw: bytes)
    ensures |Stored(raw)| == |raw| + 5 * BlockCount(|raw|)
    decreases |raw|
  {
    hide Le16;
    if |raw| > BLOCK { StoredLength(raw[BLOCK..]); }
  }

  /** How many chunks `chunks(65535)` yields. */
  function BlockCount(n: nat): nat {
    (n + BLOCK - 1) / BLOCK
  }

  /** The framing loop. */
  method StoreBlocks(raw: bytes) returns (out: bytes)
    ensures out == Stored(raw)
  {
    hide Block;
    out := [];
    var count := BlockCount(|raw|);
    for i := 0 to count
      invariant i * BLOCK <= |raw| || i == count
      invariant out + Stored(raw[Min(i * BLOCK, |raw|)..]) == Stored(raw)
    {
      var last := i == count - 1;
      var chunk := raw[i * BLOCK..Min((i + 1) * BLOCK, |raw|)];
      ghost var left := raw[i * BLOCK..];
      assert last ==> chunk == left;
      assert !last ==> chunk == left[..BLOCK] && raw[(i + 1) * BLOCK..] == left[BLOCK..];
      assert Stored(left) == Block(chunk, last) + Stored(raw[Min((i + 1) * BLOCK, |raw|)..]);
      out := out + Block(chunk, last);
    }
    assert raw[|raw|..] == [];
  }

  // ------------------------------------------------------------ Adler-32

  function Sum(data: bytes): nat {
    if data == [] then 0 else Sum(data[..|data| - 1]) + data[|data| - 1]
  }

  /** Every byte weighted by `n` minus its position: section 2.2 of RFC 1950 in closed form. */
  function Weighted(data: bytes, n: nat): int {
    if data == [] then 0
    else Weighted(data[..|data| - 1], n) + (n - (|data| - 1)) * data[|data| - 1] as int
  }

  function AdlerA(data: bytes): nat {
    (1 + Sum(data)) % ADLER
  }

  function AdlerB(data: bytes): nat {
    (|data| + Weighted(data, |data|)) % ADLER
  }

  function Adler(data: bytes): (w: nat)
    ensures w < U32
  {
    AdlerB(data) * 65536 + AdlerA(data)
  }

  lemma {:induction false} WeightMore(data: bytes, n: nat)
    ensures Weighted(data, n + 1) == Weighted(data, n) + Sum(data)
  {
    if data != [] {
      WeightMore(data[..|data| - 1], n);
      MoreOfOne(n - (|data| - 1), data[|data| - 1]);
    }
  }

  lemma MoreOfOne(a: int, x: int)
    ensures (a + 1) * x == a * x + x
  {
  }

  lemma ModularNext(a: int, b: int)
    ensures (a % ADLER + b) % ADLER == (a + b) % ADLER
  {
    var q := a / ADLER;
    assert a + b == (a % ADLER + b) + q * ADLER;
    AddMultiple(a % ADLER + b, q);
  }

  lemma AddMultiple(x: int, q: int)
    ensures (x + q * ADLER) % ADLER == x % ADLER
  {
    assert x == (x / ADLER) * ADLER + x % ADLER;
    assert x + q * ADLER == (x / ADLER + q) * ADLER + x % ADLER;
  }

  /** One round of the loop, from the sums of a prefix to the sums of the next. */
  lemma AdlerNext(data: bytes, i: nat)
    requires i < |data|
    ensures AdlerA(data[..i + 1]) == (AdlerA(data[..i]) + data[i]) % ADLER
    ensures AdlerB(data[..i + 1]) == (AdlerB(data[..i]) + AdlerA(data[..i + 1])) % ADLER
  {
    var p, q, x := data[..i], data[..i + 1], data[i];
    assert q[..i] == p;
    ModularNext(1 + Sum(p), x);
    WeightMore(p, i);
    assert |q| + Weighted(q, |q|) == (i + Weighted(p, i)) + (1 + Sum(q));
    ModularNext(i + Weighted(p, i), AdlerA(q));
    ModularNext(1 + Sum(q), i + Weighted(p, i));
  }

  lemma AdlerOfNothing()
    ensures AdlerA([]) == 1 && AdlerB([]) == 0
  {
  }

  /** The checksum loop; the assertions are the sums it forms in 32 bits. */
  method Adler32(raw: bytes) returns (adler: nat)
    ensures adler == Adler(raw)
  {
    hide AdlerA, AdlerB;
    var s1, s2 := 1, 0;
    AdlerOfNothing();
    for i := 0 to |raw|
      invariant s1 == AdlerA(raw[..i]) && s2 == AdlerB(raw[..i]) && s1 < ADLER && s2 < ADLER
    {
      AdlerNext(raw, i);
      assert s1 + raw[i] < U32;
      s1 := (s1 + raw[i]) % ADLER;
      assert s2 + s1 < U32;
      s2 := (s2 + s1) % ADLER;
    }
    assert raw[..|raw|] == raw;
    adler := s2 * 65536 + s1;
  }

  // ------------------------------------------------------------ the whole stream

  /** Header bytes 0x78 0x01, the blocks, the checksum. */
  function Stream(raw: bytes): bytes {
    [0x78, 0x01] + Stored(raw) + Be32(Adler(raw))
  }

  /** The two sums of section 8.2 of RFC 1950, byte by byte. */
  function Sums(data: bytes): (int, int) {
    if data == [] then (1, 0)
    else
      var (a, b) := Sums(data[..|data| - 1]);
      var a' := (a + data[|data| - 1]) % 65521;
      (a', (b + a') % 65521)
  }

  /** What a reader computes. */
  function CheckValue(data: bytes): int {
    65536 * Sums(data).1 + Sums(data).0
  }

  lemma {:induction false} SumsAreClosed(data: bytes)
    ensures Sums(data) == (AdlerA(data), AdlerB(data))
  {
    if data == [] {
      AdlerOfNothing();
    } else {
      var n := |data| - 1;
      SumsAreClosed(data[..n]);
      AdlerNext(data, n);
      hide AdlerA, AdlerB;
      assert data[..n + 1] == data;
    }
  }

  lemma CheckIsAdler(data: bytes)
    ensures CheckValue(data) == Adler(data)
  {
    hide Sums, AdlerA, AdlerB;
    SumsAreClosed(data);
  }

  /** A reader of a whole stream: a deflate header with a valid check value and no dictionary, blocks,
      and the checksum of what they held, with nothing behind it. */
  function ReadStream(s: bytes): Option<bytes> {
    if |s| < 2 || s[0] % 16 != 8 || (256 * s[0] as int + s[1]) % 31 != 0 || s[1] / 32 % 2 != 0 then None
    else
      match Inflate(s[2..])
      case None => None
      case Some((raw, rest)) => if |rest| == 4 && ReadBe32(rest) == CheckValue(raw) then Some(raw) else None
  }

  /** The stream of a buffer reads back as that buffer exactly when the buffer is not empty: for an
      empty one no block is written, so no block is marked final. */
  lemma StreamRoundTrip(raw: bytes)
    ensures ReadStream(Stream(raw)) == if raw == [] then None else Some(raw)
  {
    hide Inflate, Adler, Be32, ReadBe32, CheckValue;
    CheckIsAdler(raw);
    var check := Be32(Adler(raw));
    var s := Stream(raw);
    assert s[2..] == Stored(raw) + check;
    if raw == [] {
      assert s[2..] == check;
      TooShort(check);
    } else {
      StoredRoundTrip(raw, check);
      Be32RoundTrip(Adler(raw));
    }
  }

  lemma TooShort(s: bytes)
    requires |s| < 5
    ensures Inflate(s) == None
  {
  }
}
