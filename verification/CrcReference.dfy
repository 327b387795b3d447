/** The checksum as section 3.2.9 of IEEE 802.3 defines it, by long division of polynomials over two
    elements, and that the table-free loop computes it. */
module CrcReference {
  import opened Crc

  // ------------------------------------------------------------ the definition

  /** The bits of a byte in the order they are sent, lowest first. */
  function BitsOf(b: Byte): seq<bool> {
    [b & 1 != 0, b & 2 != 0, b & 4 != 0, b & 8 != 0, b & 16 != 0, b & 32 != 0, b & 64 != 0, b & 128 != 0]
  }

  function MessageBits(data: seq<Byte>): seq<bool> {
    if data == [] then [] else MessageBits(data[..|data| - 1]) + BitsOf(data[|data| - 1])
  }

  /** x^26 + x^23 + x^22 + x^16 + x^12 + x^11 + x^10 + x^8 + x^7 + x^5 + x^4 + x^2 + x + 1, which is
      x^32 modulo the generator. */
  const GENERATOR: Word := 0x04C1_1DB7

  /** One step of the long division: bring down the next coefficient, and subtract the generator when a
      coefficient of x^32 has come up. */
  function Divide(remainder: Word, bit: bool): Word {
    var next := Mix(Double(remainder), if bit then 1 else 0);
    if HasTop(remainder) then Mix(next, GENERATOR) else next
  }

  function Double(w: Word): Word {
    w << 1
  }

  predicate HasTop(w: Word) {
    w & 0x8000_0000 != 0
  }

  /** The remainder of a polynomial, given by its coefficients from the highest on. */
  function Remainder(bits: seq<bool>): Word {
    if bits == [] then 0 else Divide(Remainder(bits[..|bits| - 1]), bits[|bits| - 1])
  }

  function Zeros(n: nat): seq<bool> {
    seq(n, i => false)
  }

  /** The first 32 coefficients complemented. */
  function Complemented(bits: seq<bool>): seq<bool> {
    seq(|bits|, i requires 0 <= i < |bits| => if i < 32 then !bits[i] else bits[i])
  }

  /** The 32 bits in reverse. */
  function Mirror(w: Word): Word {
    var a := ((w >> 1) & 0x5555_5555) | ((w & 0x5555_5555) << 1);
    var b := ((a >> 2) & 0x3333_3333) | ((a & 0x3333_3333) << 2);
    var c := ((b >> 4) & 0x0F0F_0F0F) | ((b & 0x0F0F_0F0F) << 4);
    var d := ((c >> 8) & 0x00FF_00FF) | ((c & 0x00FF_00FF) << 8);
    (d >> 16) | (d << 16)
  }

  /** The message times x^32 with its first 32 bits complemented, divided; the remainder complemented and sent
      from the highest coefficient on, which is the lowest bit here. */
  function FrameCheck(data: seq<Byte>): Word {
    Mix(Mirror(Remainder(Complemented(MessageBits(data) + Zeros(32)))), 0xFFFF_FFFF)
  }

  // ------------------------------------------------------------ the mirrored division

  /** The division step on mirrored words. */
  function Step(c: Word, bit: bool): Word {
    Mix(BitStep(c), if bit then 0x8000_0000 else 0)
  }

  function Divided(c: Word, bits: seq<bool>): Word {
    if bits == [] then c else Step(Divided(c, bits[..|bits| - 1]), bits[|bits| - 1])
  }

  /** The loop's own step, one message bit at a time. */
  function Taken(c: Word, bit: bool): Word {
    BitStep(Mix(c, if bit then 1 else 0))
  }

  function Fed(c: Word, bits: seq<bool>): Word {
    if bits == [] then c else Taken(Fed(c, bits[..|bits| - 1]), bits[|bits| - 1])
  }

  lemma MirrorDouble(r: Word)
    ensures Mirror(Double(r)) == Half(Mirror(r)) && (HasTop(r) <==> Odd(Mirror(r)))
  {
  }

  lemma MirrorMix(a: Word, b: Word)
    ensures Mirror(Mix(a, b)) == Mix(Mirror(a), Mirror(b))
  {
  }

  lemma MirrorConstants()
    ensures Mirror(GENERATOR) == POLYNOMIAL && Mirror(1) == 0x8000_0000 && Mirror(0) == 0
  {
  }

  lemma MirrorDivide(r: Word, bit: bool)
    ensures Mirror(Divide(r, bit)) == Step(Mirror(r), bit)
  {
    hide Mirror, Mix, Double, Half, HasTop, Odd;
    var low: Word := if bit then 1 else 0;
    MirrorDouble(r);
    MirrorConstants();
    MirrorMix(Double(r), low);
    MirrorMix(Mix(Double(r), low), GENERATOR);
    MixExchange(Half(Mirror(r)), Mirror(low), POLYNOMIAL);
  }

  lemma {:induction false} MirrorRemainder(bits: seq<bool>)
    ensures Mirror(Remainder(bits)) == Divided(0, bits)
  {
    hide Mirror, Divide, Step;
    if bits == [] {
      MirrorConstants();
    } else {
      MirrorRemainder(bits[..|bits| - 1]);
      MirrorDivide(Remainder(bits[..|bits| - 1]), bits[|bits| - 1]);
    }
  }

  // ------------------------------------------------------------ bits and bytes

  function Low(bit: bool): Word {
    if bit then 1 else 0
  }

  lemma {:induction false} FedConcat(c: Word, a: seq<bool>, b: seq<bool>)
    ensures Fed(c, a + b) == Fed(Fed(c, a), b)
    decreases |b|
  {
    hide Taken;
    if b == [] {
      assert a + b == a;
    } else {
      FedConcat(c, a, b[..|b| - 1]);
      assert (a + b)[..|a + b| - 1] == a + b[..|b| - 1];
    }
  }

  /** A bit mixed in at once or with the others behind it. */
  lemma BitThenRest(c: Word, w: Word)
    ensures BitStep(Mix(c, w)) == Mix(Taken(c, Odd(w)), Half(w))
  {
    LowBitAndRest(c, w);
    hide Mix, Half, Odd;
    BitStepLinear(Mix(c, Low(Odd(w))), Double(Half(w)));
    DoubleHalf(w);
  }

  lemma LowBitAndRest(c: Word, w: Word)
    ensures Mix(c, w) == Mix(Mix(c, Low(Odd(w))), Double(Half(w)))
  {
  }

  lemma DoubleHalf(w: Word)
    ensures BitStep(Double(Half(w))) == Half(w)
  {
  }

  /** The lowest `n` bits of a word. */
  function LowBits(w: Word, n: nat): seq<bool> {
    if n == 0 then [] else [Odd(w)] + LowBits(Half(w), n - 1)
  }

  function Shifted(w: Word, n: nat): Word {
    if n == 0 then w else Shifted(Half(w), n - 1)
  }

  lemma FedOne(c: Word, bit: bool)
    ensures Fed(c, [bit]) == Taken(c, bit)
  {
    assert [bit][..0] == [];
    assert Fed(c, []) == c;
  }

  /** Mixing in a word and stepping takes its bits one by one. */
  lemma {:induction false} StepsTakeBits(c: Word, w: Word, n: nat)
    ensures Steps(Mix(c, w), n) == Mix(Fed(c, LowBits(w, n)), Shifted(w, n))
    decreases n
  {
    hide BitStep, Mix, Half, Taken;
    if n > 0 {
      StepsAdd(Mix(c, w), 1, n - 1);
      assert Steps(Mix(c, w), 1) == BitStep(Steps(Mix(c, w), 0));
      BitThenRest(c, w);
      StepsTakeBits(Taken(c, Odd(w)), Half(w), n - 1);
      FedConcat(c, [Odd(w)], LowBits(Half(w), n - 1));
      FedOne(c, Odd(w));
    }
  }

  lemma ByteBits(b: Byte)
    ensures LowBits(Widen(b), 8) == BitsOf(b) && Shifted(Widen(b), 8) == 0
  {
    hide Half, Widen, LowBits, Shifted, BitsOf, Odd, BitOf;
    ByteHalves(b);
    var w := Widen(b);
    var h := Half(Half(Half(Half(w))));
    FourLow(w);
    FourLow(h);
    LowSplit(w, 4, 4);
    EightBits(b);
    Joined(BitsOf(b), LowBits(w, 4), LowBits(h, 4));
  }

  predicate BitOf(b: Byte, mask: Byte) {
    b & mask != 0
  }

  lemma EightBits(b: Byte)
    ensures BitsOf(b) == [BitOf(b, 1), BitOf(b, 2), BitOf(b, 4), BitOf(b, 8), BitOf(b, 16), BitOf(b, 32), BitOf(b, 64),
                          BitOf(b, 128)]
  {
  }

  lemma Joined(all: seq<bool>, front: seq<bool>, back: seq<bool>)
    requires |all| == 8 && |front| == |back| == 4
    requires all[0] == front[0] && all[1] == front[1] && all[2] == front[2] && all[3] == front[3]
    requires all[4] == back[0] && all[5] == back[1] && all[6] == back[2] && all[7] == back[3]
    ensures all == front + back
  {
  }

  lemma {:induction false} LowSplit(w: Word, m: nat, n: nat)
    ensures LowBits(w, m + n) == LowBits(w, m) + LowBits(Shifted(w, m), n)
    ensures Shifted(w, m + n) == Shifted(Shifted(w, m), n)
    decreases m
  {
    hide Half;
    if m > 0 {
      LowSplit(Half(w), m - 1, n);
      assert LowBits(w, m) == [Odd(w)] + LowBits(Half(w), m - 1);
      assert LowBits(w, m + n) == [Odd(w)] + LowBits(Half(w), m - 1 + n);
    }
  }

  lemma TwoLow(w: Word)
    ensures LowBits(w, 2) == [Odd(w), Odd(Half(w))] && Shifted(w, 2) == Half(Half(w))
  {
    hide Half;
    assert LowBits(Half(w), 1) == [Odd(Half(w))] + LowBits(Half(Half(w)), 0);
    assert Shifted(Half(w), 1) == Shifted(Half(Half(w)), 0);
  }

  lemma FourLow(w: Word)
    ensures LowBits(w, 4) == [Odd(w), Odd(Half(w)), Odd(Half(Half(w))), Odd(Half(Half(Half(w))))]
    ensures Shifted(w, 4) == Half(Half(Half(Half(w))))
  {
    TwoLow(w);
    TwoLow(Half(Half(w)));
    LowSplit(w, 2, 2);
    hide Half, LowBits, Shifted;
  }

  lemma ByteHalves(b: Byte)
    ensures var w := Widen(b);
            && (Odd(w) <==> BitOf(b, 1)) && (Odd(Half(w)) <==> BitOf(b, 2))
            && (Odd(Half(Half(w))) <==> BitOf(b, 4)) && (Odd(Half(Half(Half(w)))) <==> BitOf(b, 8))
            && (Odd(Half(Half(Half(Half(w))))) <==> BitOf(b, 16))
            && (Odd(Half(Half(Half(Half(Half(w)))))) <==> BitOf(b, 32))
            && (Odd(Half(Half(Half(Half(Half(Half(w))))))) <==> BitOf(b, 64))
            && (Odd(Half(Half(Half(Half(Half(Half(Half(w)))))))) <==> BitOf(b, 128))
            && Half(Half(Half(Half(Half(Half(Half(Half(w)))))))) == 0
  {
  }

  /** The loop over bytes is the loop over their bits. */
  lemma {:induction false} FeedTakesBits(c: Word, data: seq<Byte>)
    ensures Feed(c, data) == Fed(c, MessageBits(data))
    decreases |data|
  {
    hide BitStep, Mix, Widen, BitsOf, Taken, Steps;
    if data != [] {
      var front, b := data[..|data| - 1], data[|data| - 1];
      FeedTakesBits(c, front);
      FedConcat(c, MessageBits(front), BitsOf(b));
      StepsTakeBits(Feed(c, front), Widen(b), 8);
      ByteBits(b);
      MixZero(Fed(Feed(c, front), BitsOf(b)));
    }
  }

  // ------------------------------------------------------------ dividing with zeros behind the message

  lemma {:induction false} DividedConcat(c: Word, a: seq<bool>, b: seq<bool>)
    ensures Divided(c, a + b) == Divided(Divided(c, a), b)
    decreases |b|
  {
    hide Step;
    if b == [] {
      assert a + b == a;
    } else {
      DividedConcat(c, a, b[..|b| - 1]);
      assert (a + b)[..|a + b| - 1] == a + b[..|b| - 1];
    }
  }

  lemma {:induction false} ZerosAreSteps(c: Word, n: nat)
    ensures Divided(c, Zeros(n)) == Steps(c, n)
  {
    hide BitStep, Mix;
    if n > 0 {
      ZerosAreSteps(c, n - 1);
      assert Zeros(n)[..n - 1] == Zeros(n - 1);
      MixZero(BitStep(Steps(c, n - 1)));
    }
  }

  lemma EightFromTop()
    ensures BitStep(BitStep(BitStep(BitStep(BitStep(BitStep(BitStep(BitStep(0x8000_0000)))))))) == 0x0080_0000
    ensures BitStep(BitStep(BitStep(BitStep(BitStep(BitStep(BitStep(BitStep(0x0080_0000)))))))) == 0x0000_8000
    ensures BitStep(BitStep(BitStep(BitStep(BitStep(BitStep(BitStep(BitStep(0x0000_8000)))))))) == 0x0000_0080
    ensures BitStep(BitStep(BitStep(BitStep(BitStep(BitStep(BitStep(BitStep(0x0000_0080)))))))) == POLYNOMIAL
  {
  }

  /** x^31 times x is the generator's low part, mirrored. */
  lemma TopAfter32()
    ensures Steps(0x8000_0000, 32) == POLYNOMIAL && Taken(0, true) == POLYNOMIAL
  {
    EightFromTop();
    BitStepOfOne();
    hide BitStep;
    EightSteps(0x8000_0000);
    EightSteps(0x0080_0000);
    EightSteps(0x0000_8000);
    EightSteps(0x0000_0080);
    StepsAdd(0x8000_0000, 8, 8);
    StepsAdd(0x8000_0000, 16, 8);
    StepsAdd(0x8000_0000, 24, 8);
  }

  lemma BitStepOfOne()
    ensures Taken(0, true) == POLYNOMIAL
  {
  }

  lemma {:induction false} StepsOfZero(n: nat)
    ensures Steps(0, n) == 0
  {
    if n > 0 {
      StepsOfZero(n - 1);
      BitStepOfZero();
    }
  }

  lemma BitStepOfZero()
    ensures BitStep(0) == 0
  {
  }

  lemma TakenIsLinear(c: Word, d: Word, bit: bool)
    ensures Taken(Mix(c, d), bit) == Mix(BitStep(c), Taken(d, bit))
  {
    hide BitStep, Mix;
    MixAssociative(c, d, Low(bit));
    BitStepLinear(c, Mix(d, Low(bit)));
  }

  /** 32 steps later, a division step has become a step of the loop. */
  lemma StepBecomesTaken(c: Word, bit: bool)
    ensures Steps(Step(c, bit), 32) == Taken(Steps(c, 32), bit)
  {
    hide BitStep, Mix, Steps, Taken;
    var top: Word := if bit then 0x8000_0000 else 0;
    StepsLinear(BitStep(c), top, 32);
    StepsCommute(c);
    TopAfter32();
    StepsOfZero(32);
    MixZero(Steps(c, 32));
    TakenIsLinear(Steps(c, 32), 0, bit);
    TakenOfZero();
  }

  lemma TakenOfZero()
    ensures Taken(0, false) == 0
  {
  }

  lemma StepsCommute(c: Word)
    ensures Steps(BitStep(c), 32) == BitStep(Steps(c, 32))
  {
    hide BitStep;
    StepsAdd(c, 1, 32);
    assert Steps(c, 1) == BitStep(Steps(c, 0));
    assert Steps(c, 33) == BitStep(Steps(c, 32));
  }

  lemma {:induction false} DividedBecomesFed(c: Word, bits: seq<bool>)
    ensures Steps(Divided(c, bits), 32) == Fed(Steps(c, 32), bits)
    decreases |bits|
  {
    hide Step, Taken, Steps;
    if bits != [] {
      DividedBecomesFed(c, bits[..|bits| - 1]);
      StepBecomesTaken(Divided(c, bits[..|bits| - 1]), bits[|bits| - 1]);
    }
  }

  // ------------------------------------------------------------ complementing the first 32 bits

  function Sum(a: seq<bool>, b: seq<bool>): seq<bool>
    requires |a| == |b|
  {
    seq(|a|, i requires 0 <= i < |a| => a[i] != b[i])
  }

  lemma StepIsLinear(c: Word, d: Word, x: bool, y: bool)
    ensures Step(Mix(c, d), x != y) == Mix(Step(c, x), Step(d, y))
  {
    hide BitStep;
    BitStepLinear(c, d);
    TopsMix(BitStep(c), BitStep(d), x, y);
  }

  lemma TopsMix(a: Word, b: Word, x: bool, y: bool)
    ensures Mix(Mix(a, b), if x != y then 0x8000_0000 else 0) ==
            Mix(Mix(a, if x then 0x8000_0000 else 0), Mix(b, if y then 0x8000_0000 else 0))
  {
    hide Mix;
    MixZero(a);
    MixZero(b);
    MixZero(Mix(a, b));
    MixTwice(a, b, 0x8000_0000);
    MixExchange(a, b, 0x8000_0000);
    MixAssociative(a, b, 0x8000_0000);
  }

  lemma {:induction false} DividedIsLinear(a: seq<bool>, b: seq<bool>)
    requires |a| == |b|
    ensures Divided(0, Sum(a, b)) == Mix(Divided(0, a), Divided(0, b))
    decreases |a|
  {
    hide Step, Mix;
    if a == [] {
      MixZero(0);
    } else {
      var n := |a| - 1;
      DividedIsLinear(a[..n], b[..n]);
      assert Sum(a, b)[..n] == Sum(a[..n], b[..n]);
      StepIsLinear(Divided(0, a[..n]), Divided(0, b[..n]), a[n], b[n]);
    }
  }

  function Ones(n: nat): seq<bool> {
    seq(n, i => true)
  }

  lemma OnesNext(n: nat)
    ensures Divided(0, Ones(n + 1)) == Step(Divided(0, Ones(n)), true)
  {
    assert Ones(n + 1)[..n] == Ones(n);
  }

  function On(c: Word): Word {
    Step(c, true)
  }

  lemma EightOn()
    ensures On(On(On(On(On(On(On(On(0)))))))) == 0xFF00_0000
    ensures On(On(On(On(On(On(On(On(0xFF00_0000)))))))) == 0xFFFF_0000
    ensures On(On(On(On(On(On(On(On(0xFFFF_0000)))))))) == 0xFFFF_FF00
    ensures On(On(On(On(On(On(On(On(0xFFFF_FF00)))))))) == 0xFFFF_FFFF
  {
  }

  lemma EightOnes(n: nat)
    ensures Divided(0, Ones(n + 8)) == On(On(On(On(On(On(On(On(Divided(0, Ones(n))))))))))
  {
    hide Step;
    OnesNext(n);
    OnesNext(n + 1);
    OnesNext(n + 2);
    OnesNext(n + 3);
    OnesNext(n + 4);
    OnesNext(n + 5);
    OnesNext(n + 6);
    OnesNext(n + 7);
  }

  lemma OnesFill()
    ensures Divided(0, Ones(32)) == 0xFFFF_FFFF
  {
    EightOn();
    hide On;
    assert Divided(0, Ones(0)) == 0;
    EightOnes(0);
    EightOnes(8);
    EightOnes(16);
    EightOnes(24);
  }

  lemma {:induction false} FedFromOnes(c: Word, bits: seq<bool>)
    ensures Fed(c, bits) == Mix(Steps(c, |bits|), Fed(0, bits))
    decreases |bits|
  {
    hide BitStep, Mix, Taken;
    if bits == [] {
      MixZero(c);
    } else {
      var front, last := bits[..|bits| - 1], bits[|bits| - 1];
      FedFromOnes(c, front);
      TakenIsLinear(Steps(c, |front|), Fed(0, front), last);
    }
  }

  /** Complementing the first 32 coefficients is starting the register with ones. */
  lemma ComplementStartsWithOnes(bits: seq<bool>)
    ensures Divided(0, Complemented(bits + Zeros(32))) == Fed(0xFFFF_FFFF, bits)
  {
    hide Step, Taken, BitStep, Mix;
    var n, all := |bits|, bits + Zeros(32);
    var flips := Ones(32) + Zeros(n);
    assert Complemented(all) == Sum(all, flips);
    DividedIsLinear(all, flips);
    DividedConcat(0, bits, Zeros(32));
    ZerosAreSteps(Divided(0, bits), 32);
    DividedBecomesFed(0, bits);
    StepsOfZero(32);
    DividedConcat(0, Ones(32), Zeros(n));
    OnesFill();
    ZerosAreSteps(0xFFFF_FFFF, n);
    FedFromOnes(0xFFFF_FFFF, bits);
    MixCommutes(Fed(0, bits), Steps(0xFFFF_FFFF, n));
  }

  /** For every message, the loop's checksum is the frame check sequence of the standard. */
  lemma ChecksumIsFrameCheck(data: seq<Byte>)
    ensures Checksum(data) == FrameCheck(data)
  {
    FeedTakesBits(0xFFFF_FFFF, data);
    ComplementStartsWithOnes(MessageBits(data));
    MirrorRemainder(Complemented(MessageBits(data) + Zeros(32)));
    hide Mirror, Remainder, Feed, Fed, Divided, Complemented, MessageBits, Zeros, Mix;
  }
}
