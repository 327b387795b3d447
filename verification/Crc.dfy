/** The CRC-32 loop over 32-bit words, and which changes to a message it always detects. */
module Crc {

  type Byte = bv8
  type Word = bv32

  const POLYNOMIAL: Word := 0xEDB8_8320

  function Mix(a: Word, b: Word): Word {
    a ^ b
  }

  predicate Odd(c: Word) {
    c & 1 != 0
  }

  function Half(c: Word): Word {
    c >> 1
  }

  function Widen(b: Byte): Word {
    b as Word
  }

  /** The byte `shift` bits up. */
  function Narrow(w: Word, shift: bv6): Byte
    requires shift <= 24
  {
    ((w >> shift) & 0xff) as Byte
  }

  /** One round of the inner loop. */
  function BitStep(c: Word): Word {
    if Odd(c) then Mix(Half(c), POLYNOMIAL) else Half(c)
  }

  function Steps(c: Word, n: nat): Word {
    if n == 0 then c else BitStep(Steps(c, n - 1))
  }

  function ByteStep(c: Word, b: Byte): Word {
    Steps(Mix(c, Widen(b)), 8)
  }

  /** The register after some bytes. */
  function Feed(c: Word, data: seq<Byte>): Word {
    if data == [] then c else ByteStep(Feed(c, data[..|data| - 1]), data[|data| - 1])
  }

  function Checksum(data: seq<Byte>): Word {
    Mix(Feed(0xFFFF_FFFF, data), 0xFFFF_FFFF)
  }

  /** `crc32`. */
  method Crc32(data: seq<Byte>) returns (crc: Word)
    ensures crc == Checksum(data)
  {
    hide Mix, Odd, Half, Widen;
    crc := 0xFFFF_FFFF;
    for i := 0 to |data|
      invariant crc == Feed(0xFFFF_FFFF, data[..i])
    {
      var start := Mix(crc, Widen(data[i]));
      crc := start;
      for k := 0 to 8
        invariant crc == Steps(start, k)
      {
        crc := if Odd(crc) then Mix(Half(crc), POLYNOMIAL) else Half(crc);
      }
      assert data[..i + 1][..i] == data[..i];
    }
    assert data[..|data|] == data;
    crc := Mix(crc, 0xFFFF_FFFF);
  }

  // ------------------------------------------------------------ the bit step

  lemma BitStepInjective(a: Word, b: Word)
    requires BitStep(a) == BitStep(b)
    ensures a == b
  {
  }

  lemma HalfLinear(a: Word, b: Word)
    ensures Half(Mix(a, b)) == Mix(Half(a), Half(b))
    ensures Odd(Mix(a, b)) <==> (Odd(a) != Odd(b))
  {
  }

  lemma MixAssociative(a: Word, b: Word, c: Word)
    ensures Mix(Mix(a, b), c) == Mix(a, Mix(b, c))
  {
  }

  lemma MixCommutes(a: Word, b: Word)
    ensures Mix(a, b) == Mix(b, a)
  {
  }

  lemma MixUndo(b: Word, c: Word)
    ensures Mix(c, Mix(b, c)) == b
  {
  }

  lemma MixExchange(a: Word, b: Word, c: Word)
    ensures Mix(Mix(a, c), b) == Mix(Mix(a, b), c)
  {
    hide Mix;
    MixAssociative(a, c, b);
    MixCommutes(c, b);
    MixAssociative(a, b, c);
  }

  lemma MixTwice(a: Word, b: Word, c: Word)
    ensures Mix(Mix(a, c), Mix(b, c)) == Mix(a, b)
  {
    hide Mix;
    MixAssociative(a, c, Mix(b, c));
    MixUndo(b, c);
  }

  lemma MixZero(a: Word)
    ensures Mix(a, 0) == a
  {
  }

  lemma MixCancels(a: Word, b: Word, c: Word)
    ensures Mix(a, c) == Mix(b, c) ==> a == b
    ensures Mix(c, a) == Mix(c, b) ==> a == b
  {
  }

  lemma BitStepLinear(a: Word, b: Word)
    ensures BitStep(Mix(a, b)) == Mix(BitStep(a), BitStep(b))
  {
    hide Mix, Odd, Half;
    HalfLinear(a, b);
    MixAssociative(Half(a), Half(b), POLYNOMIAL);
    MixExchange(Half(a), Half(b), POLYNOMIAL);
    MixTwice(Half(a), Half(b), POLYNOMIAL);
  }

  lemma {:induction false} StepsInjective(a: Word, b: Word, n: nat)
    requires Steps(a, n) == Steps(b, n)
    ensures a == b
  {
    hide BitStep;
    if n > 0 {
      BitStepInjective(Steps(a, n - 1), Steps(b, n - 1));
      StepsInjective(a, b, n - 1);
    }
  }

  lemma {:induction false} StepsLinear(a: Word, b: Word, n: nat)
    ensures Steps(Mix(a, b), n) == Mix(Steps(a, n), Steps(b, n))
  {
    hide BitStep, Mix;
    if n > 0 {
      StepsLinear(a, b, n - 1);
      BitStepLinear(Steps(a, n - 1), Steps(b, n - 1));
    }
  }

  lemma {:induction false} StepsAdd(c: Word, m: nat, n: nat)
    ensures Steps(Steps(c, m), n) == Steps(c, m + n)
  {
    hide BitStep;
    if n > 0 { StepsAdd(c, m, n - 1); }
  }

  // ------------------------------------------------------------ several bytes at once

  function Shift8(w: Word): Word {
    w << 8
  }

  /** Up to four bytes as one little-endian word. */
  function Packed(x: seq<Byte>): Word
    requires |x| <= 4
  {
    if x == [] then 0 else Mix(Widen(x[0]), Shift8(Packed(x[1..])))
  }

  /** Only the lowest `8 * k` bits are used. */
  predicate Below(w: Word, k: nat)
    requires k <= 4
  {
    if k == 0 then w == 0
    else if k == 1 then w >> 8 == 0
    else if k == 2 then w >> 16 == 0
    else if k == 3 then w >> 24 == 0
    else true
  }

  lemma ByteBelow(b: Byte, rest: Word, k: nat)
    requires k <= 3 && Below(rest, k)
    ensures Below(Mix(Widen(b), Shift8(rest)), k + 1)
  {
  }

  lemma {:induction false} PackedBelow(x: seq<Byte>)
    requires |x| <= 4
    ensures Below(Packed(x), |x|)
  {
    hide Below, Mix, Widen, Shift8;
    if x == [] {
      ZeroBelow();
    } else {
      PackedBelow(x[1..]);
      ByteBelow(x[0], Packed(x[1..]), |x| - 1);
    }
  }

  lemma ZeroBelow()
    ensures Below(0, 0)
  {
  }

  lemma ShiftEight(w: Word)
    requires w >> 24 == 0
    ensures BitStep(BitStep(BitStep(BitStep(BitStep(BitStep(BitStep(BitStep(w << 8)))))))) == w
  {
  }

  lemma EightStepsUndoShift(w: Word)
    requires Below(w, 3)
    ensures Steps(Shift8(w), 8) == w
  {
    ShiftEight(w);
    EightSteps(Shift8(w));
  }

  lemma EightSteps(c: Word)
    ensures Steps(c, 8) == BitStep(BitStep(BitStep(BitStep(BitStep(BitStep(BitStep(BitStep(c))))))))
  {
    hide BitStep;
    assert Steps(c, 1) == BitStep(Steps(c, 0));
    assert Steps(c, 2) == BitStep(BitStep(c));
    assert Steps(c, 4) == BitStep(BitStep(Steps(c, 2)));
    assert Steps(c, 6) == BitStep(BitStep(Steps(c, 4)));
  }

  lemma {:induction false} FeedConcat(c: Word, a: seq<Byte>, b: seq<Byte>)
    ensures Feed(c, a + b) == Feed(Feed(c, a), b)
    decreases |b|
  {
    hide ByteStep;
    if b == [] {
      assert a + b == a;
    } else {
      FeedConcat(c, a, b[..|b| - 1]);
      assert (a + b)[..|a + b| - 1] == a + b[..|b| - 1];
    }
  }

  lemma SmallWords(w: Word, k: nat)
    requires k <= 3 && Below(w, k)
    ensures Below(w, 3)
  {
  }

  lemma FeedOne(c: Word, b: Byte)
    ensures Feed(c, [b]) == Steps(Mix(c, Widen(b)), 8)
  {
    hide Steps, Mix, Widen;
    assert [b][..0] == [];
    assert Feed(c, []) == c;
  }

  /** Feeding up to four bytes is mixing them into the register as one word and stepping. */
  lemma {:induction false} FeedIsSteps(c: Word, x: seq<Byte>)
    requires |x| <= 4
    ensures Feed(c, x) == Steps(Mix(c, Packed(x)), 8 * |x|)
    decreases |x|
  {
    hide BitStep, ByteStep, Below, Mix, Widen, Shift8;
    if x == [] {
      MixZero(c);
    } else {
      var b, rest := x[0], x[1..];
      var mixed, w := Mix(c, Widen(b)), Packed(rest);
      FeedOne(c, b);
      FeedConcat(c, [b], rest);
      assert x == [b] + rest;
      FeedIsSteps(Steps(mixed, 8), rest);
      PackedBelow(rest);
      SmallWords(w, |rest|);
      EightStepsUndoShift(w);
      StepsLinear(mixed, Shift8(w), 8);
      MixAssociative(c, Widen(b), Shift8(w));
      StepsAdd(Mix(mixed, Shift8(w)), 8, 8 * |rest|);
    }
  }

  lemma FirstByte(a: Byte, u: Word, b: Byte, v: Word)
    requires Below(u, 3) && Below(v, 3)
    requires Mix(Widen(a), Shift8(u)) == Mix(Widen(b), Shift8(v))
    ensures a == b && u == v
  {
  }

  lemma {:induction false} PackedInjective(x: seq<Byte>, y: seq<Byte>)
    requires |x| == |y| <= 4 && Packed(x) == Packed(y)
    ensures x == y
    decreases |x|
  {
    hide Below, Mix, Widen, Shift8;
    if x != [] {
      PackedBelow(x[1..]);
      PackedBelow(y[1..]);
      SmallWords(Packed(x[1..]), |x| - 1);
      SmallWords(Packed(y[1..]), |x| - 1);
      FirstByte(x[0], Packed(x[1..]), y[0], Packed(y[1..]));
      PackedInjective(x[1..], y[1..]);
      assert x == [x[0]] + x[1..] && y == [y[0]] + y[1..];
    }
  }

  lemma NarrowCovers(a: Word, b: Word)
    requires Narrow(a, 24) == Narrow(b, 24) && Narrow(a, 16) == Narrow(b, 16)
    requires Narrow(a, 8) == Narrow(b, 8) && Narrow(a, 0) == Narrow(b, 0)
    ensures a == b
  {
  }

  lemma {:induction false} FeedInjective(c: Word, d: Word, data: seq<Byte>)
    requires Feed(c, data) == Feed(d, data)
    ensures c == d
    decreases |data|
  {
    hide Steps, Mix, Widen;
    if data != [] {
      var front, last := data[..|data| - 1], data[|data| - 1];
      var u, v := Feed(c, front), Feed(d, front);
      StepsInjective(Mix(u, Widen(last)), Mix(v, Widen(last)), 8);
      MixCancels(u, v, Widen(last));
      FeedInjective(c, d, front);
    }
  }

  lemma ShortChangesReach(c: Word, x: seq<Byte>, y: seq<Byte>, after: seq<Byte>)
    requires |x| == |y| <= 4 && Feed(Feed(c, x), after) == Feed(Feed(c, y), after)
    ensures x == y
  {
    hide Steps, Feed, Packed, Mix;
    FeedInjective(Feed(c, x), Feed(c, y), after);
    FeedIsSteps(c, x);
    FeedIsSteps(c, y);
    StepsInjective(Mix(c, Packed(x)), Mix(c, Packed(y)), 8 * |x|);
    MixCancels(Packed(x), Packed(y), c);
    PackedInjective(x, y);
  }

  lemma FeedThree(c: Word, x: seq<Byte>, y: seq<Byte>, z: seq<Byte>)
    ensures Feed(c, x + y + z) == Feed(Feed(Feed(c, x), y), z)
  {
    hide Feed;
    FeedConcat(c, x + y, z);
    FeedConcat(c, x, y);
  }

  /** Any change confined to at most four consecutive bytes, in a message of any length, changes the
      checksum; one byte is the smallest case. */
  lemma DetectsShortChanges(before: seq<Byte>, x: seq<Byte>, y: seq<Byte>, after: seq<Byte>)
    requires |x| == |y| <= 4 && x != y
    ensures Checksum(before + x + after) != Checksum(before + y + after)
  {
    hide Feed, Mix;
    var c := Feed(0xFFFF_FFFF, before);
    FeedThree(0xFFFF_FFFF, before, x, after);
    FeedThree(0xFFFF_FFFF, before, y, after);
    MixCancels(Feed(Feed(c, x), after), Feed(Feed(c, y), after), 0xFFFF_FFFF);
    if Checksum(before + x + after) == Checksum(before + y + after) { ShortChangesReach(c, x, y, after); }
  }

  /** Two messages that differ in exactly one byte have different checksums. */
  lemma DetectsOneByte(a: seq<Byte>, b: seq<Byte>, i: nat)
    requires i < |a| == |b| && a[i] != b[i]
    requires forall j :: 0 <= j < |a| && j != i ==> a[j] == b[j]
    ensures Checksum(a) != Checksum(b)
  {
    hide Checksum;
    DetectsShortChanges(a[..i], [a[i]], [b[i]], a[i + 1..]);
    assert a == a[..i] + [a[i]] + a[i + 1..];
    assert b == a[..i] + [b[i]] + a[i + 1..];
  }
}
