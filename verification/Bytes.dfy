/** Bytes, and numbers written as bytes. */
module Bytes {

  type byte = b: int | 0 <= b < 256
  type bytes = seq<byte>

  const U16: nat := 0x1_0000
  const U32: nat := 0x1_0000_0000

  function Le16(n: nat): (s: bytes)
    requires n < U16
    ensures |s| == 2
  {
    [n % 256, n / 256]
  }

  function ReadLe16(s: bytes): (n: nat)
    requires |s| == 2
    ensures n < U16
  {
    s[0] as int + 256 * s[1] as int
  }

  /** Two little-endian halves, swapped: big-endian. */
  function Be32(n: nat): (s: bytes)
    requires n < U32
    ensures |s| == 4
  {
    [n / U16 / 256, n / U16 % 256, n % U16 / 256, n % U16 % 256]
  }

  function ReadBe32(s: bytes): (n: nat)
    requires |s| == 4
    ensures n < U32
  {
    U16 * (256 * s[0] as int + s[1] as int) + (256 * s[2] as int + s[3] as int)
  }

  /** Which byte weighs what: the last one most in the first form, the first one most in the second. */
  lemma ByteOrders(a: byte, b: byte, c: byte, d: byte)
    ensures ReadLe16([a, b]) == b * 256 + a
    ensures ReadBe32([a, b, c, d]) == ((a * 256 + b) * 256 + c) * 256 + d
  {
  }

  lemma Le16RoundTrip(n: nat)
    requires n < U16
    ensures ReadLe16(Le16(n)) == n
  {
  }

  lemma Be32RoundTrip(n: nat)
    requires n < U32
    ensures ReadBe32(Be32(n)) == n
  {
  }
}

/** An 8-bit number as a bit vector and back. */
module Bits8 {
  import opened Bytes

  function ToBits(n: byte): bv8 {
    n as bv8
  }

  function FromBits(b: bv8): byte {
    b as int
  }

  lemma CastBack(n: int)
    requires 0 <= n < 256
    ensures n <= (n as bv8) as int <= n
  {
  }

  lemma BitsBack(n: byte)
    ensures FromBits(ToBits(n)) == n
  {
    CastBack(n);
  }

  lemma ToBitsBack(b: bv8)
    ensures ToBits(FromBits(b)) == b
  {
    CastForth(b);
  }

  lemma CastForth(b: bv8)
    ensures (b as int) as bv8 == b
  {
  }

  lemma FromBitsInjective(a: bv8, b: bv8)
    requires FromBits(a) == FromBits(b)
    ensures a == b
  {
  }
}
