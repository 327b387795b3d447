/** UTF-8 (section 4 of RFC 3629) and the lossy conversion that ends the percent decoder. */
module Utf8 {
  import opened Bytes

  /** U+FFFD. */
  const REPLACEMENT: bytes := [0xEF, 0xBF, 0xBD]

  /** The length a first byte announces; 0 for a byte that starts nothing. */
  function Width(b: byte): nat {
    if b < 0x80 then 1
    else if 0xC2 <= b <= 0xDF then 2
    else if 0xE0 <= b <= 0xEF then 3
    else if 0xF0 <= b <= 0xF4 then 4
    else 0
  }

  predicate Tail(s: bytes, i: nat) {
    i < |s| && 0x80 <= s[i] <= 0xBF
  }

  /** The second byte of a three- or four-byte character: no overlong form, no surrogate, nothing too large. */
  predicate Second(s: bytes)
    requires s != []
  {
    && Tail(s, 1)
    && (s[0] == 0xE0 ==> s[1] >= 0xA0) && (s[0] == 0xED ==> s[1] <= 0x9F)
    && (s[0] == 0xF0 ==> s[1] >= 0x90) && (s[0] == 0xF4 ==> s[1] <= 0x8F)
  }

  /** How many bytes the next character takes, or how many belong to a broken start of one. */
  function Next(s: bytes): (r: (nat, bool))
    requires s != []
    ensures 1 <= r.0 <= |s|
  {
    match Width(s[0])
    case 1 => (1, true)
    case 2 => if Tail(s, 1) then (2, true) else (1, false)
    case 3 => if !Second(s) then (1, false) else if !Tail(s, 2) then (2, false) else (3, true)
    case 4 =>
      if !Second(s) then (1, false)
      else if !Tail(s, 2) then (2, false)
      else if !Tail(s, 3) then (3, false)
      else (4, true)
    case _ => (1, false)
  }

  predicate Valid(s: bytes)
    decreases |s|
  {
    s == [] || (Next(s).1 && Valid(s[Next(s).0..]))
  }

  /** `String::from_utf8_lossy`. */
  function Lossy(s: bytes): bytes
    decreases |s|
  {
    if s == [] then []
    else
      var (n, complete) := Next(s);
      (if complete then s[..n] else REPLACEMENT) + Lossy(s[n..])
  }

  lemma CompleteStays(s: bytes, more: bytes)
    requires s != [] && Next(s).1
    ensures s[..Next(s).0] != [] && Next(s[..Next(s).0] + more) == Next(s)
  {
  }

  lemma ReplacementIsComplete(more: bytes)
    ensures Next(REPLACEMENT + more) == (3, true)
  {
  }

  /** What comes out is always well formed. */
  lemma {:induction false} LossyIsValid(s: bytes)
    ensures Valid(Lossy(s))
    decreases |s|
  {
    hide Next;
    if s != [] {
      var (n, complete) := Next(s);
      LossyIsValid(s[n..]);
      var rest, all := Lossy(s[n..]), Lossy(s);
      if complete {
        CompleteStays(s, rest);
        assert all[n..] == rest;
      } else {
        ReplacementIsComplete(rest);
        assert all[3..] == rest;
      }
    }
  }

  /** Nothing is changed exactly when the bytes are well formed already. */
  lemma {:induction false} LossyKeepsIffValid(s: bytes)
    ensures Lossy(s) == s <==> Valid(s)
    decreases |s|
  {
    hide Next;
    if s != [] {
      var (n, complete) := Next(s);
      var rest := Lossy(s[n..]);
      LossyKeepsIffValid(s[n..]);
      assert s == s[..n] + s[n..];
      if complete {
        assert Lossy(s)[..n] == s[..n] && Lossy(s)[n..] == rest;
      } else {
        ReplacementIsComplete(rest);
      }
    }
  }

  lemma {:induction false} AsciiIsValid(s: bytes)
    requires forall i :: 0 <= i < |s| ==> s[i] < 0x80
    ensures Valid(s)
  {
    if s != [] { AsciiIsValid(s[1..]); }
  }

  // ------------------------------------------------------------ characters

  /** A code point that is no surrogate. */
  ghost predicate Scalar(c: nat) {
    c < 0xD800 || 0xE000 <= c < 0x11_0000
  }

  /** The bytes of a character: its bits, six to a byte from the end, behind the mark of the length. */
  ghost function Character(c: nat): (s: bytes)
    requires Scalar(c)
    ensures 1 <= |s| <= 4
  {
    if c < 0x80 then [c]
    else if c < 0x800 then [0xC0 + c / 64, 0x80 + c % 64]
    else if c < 0x1_0000 then [0xE0 + c / 4096, 0x80 + c / 64 % 64, 0x80 + c % 64]
    else [0xF0 + c / 262144, 0x80 + c / 4096 % 64, 0x80 + c / 64 % 64, 0x80 + c % 64]
  }

  ghost predicate AllScalar(cs: seq<nat>) {
    forall i :: 0 <= i < |cs| ==> Scalar(cs[i])
  }

  ghost function TextOf(cs: seq<nat>): bytes
    requires AllScalar(cs)
  {
    if cs == [] then [] else Character(cs[0]) + TextOf(cs[1..])
  }

  lemma CharacterIsNext(c: nat, more: bytes)
    requires Scalar(c)
    ensures Next(Character(c) + more) == (|Character(c)|, true)
  {
    var s := Character(c) + more;
    assert s[0] == Character(c)[0];
    if c >= 0x80 { assert s[1] == Character(c)[1]; }
    if c >= 0x800 { assert s[2] == Character(c)[2]; }
    if c >= 0x1_0000 { assert s[3] == Character(c)[3]; }
  }

  /** The code point of a complete character. */
  lemma NextIsCharacter(s: bytes) returns (c: nat)
    requires s != [] && Next(s).1
    ensures Scalar(c) && s[..Next(s).0] == Character(c)
  {
    var n := Next(s).0;
    if n == 1 {
      c := s[0];
    } else if n == 2 {
      var a: int, b: int := s[0], s[1];
      c := (a - 0xC0) * 64 + (b - 0x80);
    } else if n == 3 {
      c := ThreeBytes(s[0], s[1], s[2]);
    } else {
      c := FourBytes(s[0], s[1], s[2], s[3]);
    }
  }

  lemma ThreeBytes(a: byte, b: byte, d: byte) returns (c: nat)
    requires 0xE0 <= a <= 0xEF && 0x80 <= b <= 0xBF && 0x80 <= d <= 0xBF
    requires (a == 0xE0 ==> b >= 0xA0) && (a == 0xED ==> b <= 0x9F)
    ensures Scalar(c) && Character(c) == [a, b, d]
  {
    var high := (a - 0xE0) * 64 + (b - 0x80);
    c := high * 64 + (d - 0x80);
    SixBits(high, d - 0x80);
    SixBits(a - 0xE0, b - 0x80);
    assert c / 4096 == c / 64 / 64;
  }

  lemma FourBytes(a: byte, b: byte, d: byte, e: byte) returns (c: nat)
    requires 0xF0 <= a <= 0xF4 && 0x80 <= b <= 0xBF && 0x80 <= d <= 0xBF && 0x80 <= e <= 0xBF
    requires (a == 0xF0 ==> b >= 0x90) && (a == 0xF4 ==> b <= 0x8F)
    ensures Scalar(c) && Character(c) == [a, b, d, e]
  {
    var top := (a - 0xF0) * 64 + (b - 0x80);
    var high := top * 64 + (d - 0x80);
    c := high * 64 + (e - 0x80);
    SixBits(high, e - 0x80);
    SixBits(top, d - 0x80);
    SixBits(a - 0xF0, b - 0x80);
    assert c / 4096 == c / 64 / 64 && c / 262144 == c / 4096 / 64;
  }

  lemma SixBits(high: nat, low: nat)
    requires low < 64
    ensures (high * 64 + low) / 64 == high && (high * 64 + low) % 64 == low
  {
  }

  /** Bytes are well formed exactly when they are the text of some characters. */
  lemma ValidIffText(s: bytes)
    ensures Valid(s) <==> exists cs :: AllScalar(cs) && TextOf(cs) == s
  {
    hide Next, Character, Scalar;
    if Valid(s) {
      var cs := TextIn(s);
    }
    forall cs | AllScalar(cs) && TextOf(cs) == s ensures Valid(s) {
      TextIsValid(cs);
    }
  }

  lemma {:induction false} TextIn(s: bytes) returns (cs: seq<nat>)
    requires Valid(s)
    ensures AllScalar(cs) && TextOf(cs) == s
    decreases |s|
  {
    hide Next, Character, Scalar;
    cs := [];
    if s != [] {
      var n := Next(s).0;
      var c := NextIsCharacter(s);
      var rest := TextIn(s[n..]);
      cs := [c] + rest;
      assert cs[1..] == rest && s == s[..n] + s[n..];
    }
  }

  lemma {:induction false} TextIsValid(cs: seq<nat>)
    requires AllScalar(cs)
    ensures Valid(TextOf(cs))
    decreases |cs|
  {
    hide Next, Character, Scalar;
    if cs != [] {
      CharacterIsNext(cs[0], TextOf(cs[1..]));
      TextIsValid(cs[1..]);
      assert TextOf(cs)[|Character(cs[0])|..] == TextOf(cs[1..]);
    }
  }
}
