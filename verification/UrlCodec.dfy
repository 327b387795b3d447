/** Percent-encoding (sections 2.1 and 2.3 of RFC 3986), its decoder, and query strings. Text is its
    UTF-8 bytes. */
module UrlCodec {
  import opened Bytes
  import Text
  import Utf8
  import opened Wrappers

  const PERCENT: byte := 37
  const PLUS: byte := 43
  const SPACE: byte := 32
  const AMPERSAND: byte := 38
  const EQUALS: byte := 61
  const QUESTION: byte := 63

  // ------------------------------------------------------------ one byte

  predicate Digit(b: byte) {
    48 <= b <= 57
  }

  predicate Unreserved(b: byte) {
    || 65 <= b <= 90 || 97 <= b <= 122 || Digit(b)
    || b == 45 || b == 95 || b == 46 || b == 126
  }

  /** Upper-case hexadecimal. */
  function HexDigit(n: nat): byte
    requires n < 16
  {
    if n < 10 then 48 + n else 55 + n
  }

  function HexValue(b: byte): Option<nat> {
    if Digit(b) then Some(b - 48)
    else if 65 <= b <= 70 then Some(b - 55)
    else if 97 <= b <= 102 then Some(b - 87)
    else None
  }

  /** `u8::from_str_radix` on two bytes: a leading plus sign is accepted. */
  function TwoHex(a: byte, b: byte): Option<byte> {
    if a == PLUS then
      match HexValue(b)
      case None => None
      case Some(low) => Some(low)
    else
      match (HexValue(a), HexValue(b))
      case (Some(high), Some(low)) => Some(16 * high + low)
      case _ => None
  }

  /** How one byte is written; `form` writes a space as a plus sign. */
  function EncodeByte(b: byte, form: bool): bytes {
    if Unreserved(b) then [b]
    else if form && b == SPACE then [PLUS]
    else [PERCENT, HexDigit(b / 16), HexDigit(b % 16)]
  }

  lemma HexRoundTrip(b: byte)
    ensures TwoHex(HexDigit(b / 16), HexDigit(b % 16)) == Some(b)
  {
  }

  // ------------------------------------------------------------ whole strings

  function Encode(s: bytes, form: bool): bytes {
    if s == [] then [] else Encode(s[..|s| - 1], form) + EncodeByte(s[|s| - 1], form)
  }

  /** The second byte of a multi-byte character, or a later one: no slice may start there. */
  predicate Continuation(b: byte) {
    0x80 <= b < 0xC0
  }

  /** The slice of two bytes after a percent sign would end inside a character. */
  predicate BadSlice(s: bytes, i: nat)
    requires i < |s|
  {
    s[i] == PERCENT && i + 3 < |s| && Continuation(s[i + 3])
  }

  /** What one round of the decoder consumes and yields; nothing when the slice stops it. */
  function Token(s: bytes): (r: Option<(nat, byte)>)
    requires s != []
    ensures r.Some? ==> 1 <= r.value.0 <= |s|
  {
    if s[0] == PERCENT && 2 < |s| then
      if BadSlice(s, 0) then None
      else
        match TwoHex(s[1], s[2])
        case Some(v) => Some((3, v))
        case None => Some((1, s[0]))
    else if s[0] == PLUS then Some((1, SPACE))
    else Some((1, s[0]))
  }

  function Decode(s: bytes): Option<bytes>
    decreases |s|
  {
    if s == [] then Some([])
    else
      match Token(s)
      case None => None
      case Some((n, b)) => Prepend([b], Decode(s[n..]))
  }

  /** The decoded text: the bytes with everything that is not UTF-8 replaced. */
  function DecodeText(s: bytes): Option<bytes> {
    match Decode(s)
    case None => None
    case Some(b) => Some(Utf8.Lossy(b))
  }

  function Prepend(a: bytes, r: Option<bytes>): Option<bytes> {
    match r
    case None => None
    case Some(b) => Some(a + b)
  }

  /** `pct_encode`. */
  method PctEncode(s: bytes) returns (out: bytes)
    ensures out == Encode(s, false)
  {
    out := [];
    for i := 0 to |s|
      invariant out == Encode(s[..i], false)
    {
      if Unreserved(s[i]) {
        out := out + [s[i]];
      } else {
        out := out + [PERCENT, HexDigit(s[i] / 16), HexDigit(s[i] % 16)];
      }
      assert s[..i + 1][..i] == s[..i];
    }
    assert s[..|s|] == s;
  }

  /** `encode` of the search client: a space becomes a plus sign. */
  method FormEncode(s: bytes) returns (out: bytes)
    ensures out == Encode(s, true)
  {
    out := [];
    for i := 0 to |s|
      invariant out == Encode(s[..i], true)
    {
      if Unreserved(s[i]) {
        out := out + [s[i]];
      } else if s[i] == SPACE {
        out := out + [PLUS];
      } else {
        out := out + [PERCENT, HexDigit(s[i] / 16), HexDigit(s[i] % 16)];
      }
      assert s[..i + 1][..i] == s[..i];
    }
    assert s[..|s|] == s;
  }

  /** `pct_decode`; nothing is returned when a slice stops it. */
  method PctDecode(s: bytes) returns (decoded: Option<bytes>)
    ensures decoded == DecodeText(s)
    ensures decoded == None <==> exists i :: 0 <= i < |s| && BadSlice(s, i)
  {
    hide TwoHex;
    DecodeStopsIffBadSlice(s);
    var out := [];
    var i := 0;
    PrependNothing(Decode(s));
    assert s[0..] == s;
    while i < |s|
      invariant 0 <= i <= |s|
      invariant Decode(s) == Prepend(out, Decode(s[i..]))
    {
      ghost var rest, before := s[i..], out;
      var n, b;
      if s[i] == PERCENT && i + 2 < |s| {
        if i + 3 < |s| && Continuation(s[i + 3]) {
          assert Token(rest) == None;
          return None;
        }
        match TwoHex(s[i + 1], s[i + 2])
        case Some(v) => n, b := 3, v;
        case None => n, b := 1, s[i];
      } else if s[i] == PLUS {
        n, b := 1, SPACE;
      } else {
        n, b := 1, s[i];
      }
      assert Token(rest) == Some((n, b));
      out := out + [b];
      i := i + n;
      assert rest[n..] == s[i..];
      PrependTwice(before, [b], Decode(s[i..]));
    }
    assert Decode(s[i..]) == Some([]);
    assert out + [] == out;
    return Some(Utf8.Lossy(out));
  }

  lemma PrependNothing(r: Option<bytes>)
    ensures Prepend([], r) == r
  {
    match r
    case None =>
    case Some(b) => assert [] + b == b;
  }

  lemma PrependTwice(a: bytes, b: bytes, r: Option<bytes>)
    ensures Prepend(a, Prepend(b, r)) == Prepend(a + b, r)
  {
    match r
    case None =>
    case Some(c) => assert a + (b + c) == (a + b) + c;
  }

  // ------------------------------------------------------------ decoding undoes encoding

  lemma {:induction false} EncodeFront(b: byte, s: bytes, form: bool)
    ensures Encode([b] + s, form) == EncodeByte(b, form) + Encode(s, form)
    decreases |s|
  {
    hide EncodeByte;
    var t := [b] + s;
    if s == [] {
      assert t[..0] == [];
      assert t == [b];
      assert Encode(t, form) == Encode([], form) + EncodeByte(b, form);
    } else {
      EncodeFront(b, s[..|s| - 1], form);
      assert t[..|t| - 1] == [b] + s[..|s| - 1];
    }
  }

  predicate Plain(s: bytes) {
    forall i :: 0 <= i < |s| ==> s[i] < 0x80
  }

  /** Only unreserved characters, percent signs and plus signs are ever written. */
  predicate UrlSafe(s: bytes) {
    forall i :: 0 <= i < |s| ==> Unreserved(s[i]) || s[i] == PERCENT || s[i] == PLUS
  }

  lemma {:induction false} EncodedIsUrlSafe(s: bytes, form: bool)
    ensures UrlSafe(Encode(s, form)) && Plain(Encode(s, form))
    ensures AMPERSAND !in Encode(s, form) && EQUALS !in Encode(s, form) && QUESTION !in Encode(s, form)
  {
    if s != [] { EncodedIsUrlSafe(s[..|s| - 1], form); }
  }

  lemma TokenOfEncoded(b: byte, form: bool, rest: bytes)
    requires Plain(rest)
    ensures Token(EncodeByte(b, form) + rest) == Some((|EncodeByte(b, form)|, b))
  {
    hide TwoHex, HexDigit;
    HexRoundTrip(b);
    var e := EncodeByte(b, form);
    assert |e| == 3 && rest != [] ==> (e + rest)[3] == rest[0];
  }

  /** Decoding gives back every byte string, from either encoding. */
  lemma {:induction false} DecodeUndoesEncode(s: bytes, form: bool)
    ensures Decode(Encode(s, form)) == Some(s)
  {
    hide EncodeByte, Token, Plain;
    if s != [] {
      var e, rest := EncodeByte(s[0], form), Encode(s[1..], form);
      EncodeFront(s[0], s[1..], form);
      assert s == [s[0]] + s[1..];
      EncodedIsUrlSafe(s[1..], form);
      TokenOfEncoded(s[0], form, rest);
      EncodeByteNonempty(s[0], form);
      assert (e + rest)[|e|..] == rest;
      DecodeUndoesEncode(s[1..], form);
    }
  }

  /** As text: decoding undoes both encodings exactly on well-formed UTF-8, which every string is. */
  lemma DecodeTextUndoesEncodeIffUtf8(s: bytes, form: bool)
    ensures DecodeText(Encode(s, form)) == Some(s) <==> Utf8.Valid(s)
  {
    hide Decode, Encode, Utf8.Valid, Utf8.Lossy;
    DecodeUndoesEncode(s, form);
    Utf8.LossyKeepsIffValid(s);
  }

  lemma EncodeByteNonempty(b: byte, form: bool)
    ensures EncodeByte(b, form) != []
  {
  }

  /** Text of unreserved characters is written as it is. */
  lemma {:induction false} UnreservedUnchanged(s: bytes, form: bool)
    requires forall i :: 0 <= i < |s| ==> Unreserved(s[i])
    ensures Encode(s, form) == s
  {
    if s != [] { UnreservedUnchanged(s[..|s| - 1], form); }
  }

  // ------------------------------------------------------------ the two encodings, byte by byte

  /** The sixteen digits as they are written. */
  const HEX: string := "0123456789ABCDEF"

  lemma {:induction false} EncodeAppends(s: bytes, t: bytes, form: bool)
    ensures Encode(s + t, form) == Encode(s, form) + Encode(t, form)
    decreases |t|
  {
    hide EncodeByte;
    if t == [] {
      assert s + t == s;
    } else {
      EncodeAppends(s, t[..|t| - 1], form);
      assert (s + t)[..|s + t| - 1] == s + t[..|t| - 1];
    }
  }

  /** Letters, digits, hyphen, low line, full stop and tilde (section 2.3 of RFC 3986). */
  ghost predicate StandsForItself(b: byte) {
    || 'a' as int <= b <= 'z' as int || 'A' as int <= b <= 'Z' as int || '0' as int <= b <= '9' as int
    || b == '-' as int || b == '_' as int || b == '.' as int || b == '~' as int
  }

  /** Every byte is written by itself: those stand for themselves; in a form a space is a plus sign; any other is a
      percent sign and two upper-case hexadecimal digits. */
  lemma ByteIsWritten(s: bytes, b: byte, form: bool)
    ensures Encode(s + [b], form) == Encode(s, form) + Encode([b], form)
    ensures Encode([b], form) ==
            if StandsForItself(b) then [b]
            else if form && b == ' ' as int then ['+' as int]
            else ['%' as int, HEX[b / 16] as int, HEX[b % 16] as int]
  {
    EncodeAppends(s, [b], form);
    assert [b][..0] == [];
    HexIsWritten(b / 16);
    HexIsWritten(b % 16);
  }

  lemma HexIsWritten(n: nat)
    requires n < 16
    ensures HexDigit(n) == HEX[n] as int
  {
  }

  /** The value of a hexadecimal digit in either case. */
  ghost predicate Names(c: byte, n: nat) {
    n < 16 && (c == HEX[n] as int || (n >= 10 && c == 'a' as int + n - 10))
  }

  lemma NamesIsValue(c: byte, n: nat)
    ensures Names(c, n) <==> HexValue(c) == Some(n)
  {
    if n < 16 { HexIsWritten(n); }
    if HexValue(c) == Some(n) && n >= 10 && c != HEX[n] as int { assert c == 87 + n; }
  }

  /** The slice behind a percent sign can be taken. */
  ghost predicate SliceFits(s: bytes) {
    |s| >= 3 && (|s| == 3 || s[3] < 0x80 || s[3] >= 0xC0)
  }

  /** How decoding starts on any text: a plus sign is a space, and any other byte but a percent sign, and a percent sign
      near the end, is itself. */
  lemma DecodeStarts(s: bytes)
    requires s != []
    ensures s[0] == '+' as int ==> Decode(s) == Prepend([' ' as int], Decode(s[1..]))
    ensures s[0] != '+' as int && (s[0] != '%' as int || |s| < 3) ==> Decode(s) == Prepend([s[0]], Decode(s[1..]))
  {
  }

  /** A percent sign and two hexadecimal digits in either case are the byte they name. */
  lemma DecodeNamed(s: bytes, m: nat, n: nat)
    requires SliceFits(s) && s[0] == '%' as int && Names(s[1], m) && Names(s[2], n)
    ensures Decode(s) == Prepend([16 * m + n], Decode(s[3..]))
  {
    NamesIsValue(s[1], m);
    NamesIsValue(s[2], n);
    hide Names, HexValue;
  }

  /** A percent sign before anything else, a plus sign apart, is itself. */
  lemma DecodeUnnamed(s: bytes)
    requires SliceFits(s) && s[0] == '%' as int && s[1] != '+' as int
    requires (forall n :: !Names(s[1], n)) || (forall n :: !Names(s[2], n))
    ensures Decode(s) == Prepend([s[0]], Decode(s[1..]))
  {
    if HexValue(s[1]).Some? { NamesIsValue(s[1], HexValue(s[1]).value); }
    if HexValue(s[2]).Some? { NamesIsValue(s[2], HexValue(s[2]).value); }
    hide Names, HexValue;
  }

  // ------------------------------------------------------------ when decoding stops

  ghost predicate SomeBadSlice(s: bytes) {
    exists i :: 0 <= i < |s| && BadSlice(s, i)
  }

  /** A percent sign is never consumed by the one before it. */
  lemma TokenKeepsPercents(s: bytes, i: nat)
    requires s != [] && Token(s).Some? && 0 < i < |s| && s[i] == PERCENT
    ensures Token(s).value.0 <= i
  {
  }

  lemma BadSliceLater(s: bytes, n: nat, i: nat)
    requires n <= i < |s|
    ensures BadSlice(s[n..], i - n) == BadSlice(s, i)
  {
  }

  /** Decoding stops exactly when some percent sign is followed, three bytes on, by the inside of a
      character. */
  lemma {:induction false} DecodeStopsIffBadSlice(s: bytes)
    ensures Decode(s) == None <==> SomeBadSlice(s)
    decreases |s|
  {
    hide Token, BadSlice;
    if s == [] {
    } else {
      TokenStops(s);
      match Token(s)
      case None =>
      case Some((n, b)) =>
        DecodeStopsIffBadSlice(s[n..]);
        forall i | 0 <= i < |s| && BadSlice(s, i) ensures n <= i && BadSlice(s[n..], i - n) {
          BadSliceIsPercent(s, i);
          if i > 0 { TokenKeepsPercents(s, i); }
          BadSliceLater(s, n, i);
        }
        forall i | 0 <= i < |s[n..]| && BadSlice(s[n..], i) ensures BadSlice(s, i + n) {
          BadSliceLater(s, n, i + n);
        }
    }
  }

  lemma TokenStops(s: bytes)
    requires s != []
    ensures Token(s) == None <==> BadSlice(s, 0)
  {
  }

  lemma BadSliceIsPercent(s: bytes, i: nat)
    requires i < |s| && BadSlice(s, i)
    ensures s[i] == PERCENT
  {
  }

  /** ASCII text is always decoded. */
  lemma AsciiDecodes(s: bytes)
    requires Plain(s)
    ensures Decode(s).Some?
  {
    DecodeStopsIffBadSlice(s);
  }

  // ------------------------------------------------------------ query strings

  type Pair = (bytes, bytes)

  /** One piece of a query: nothing without an equals sign. The outer option says whether decoding
      went through. */
  function ParsePair(piece: bytes): Option<Option<Pair>> {
    match Text.SplitOnce(piece, EQUALS)
    case None => Some(None)
    case Some((k, v)) =>
      match (DecodeText(k), DecodeText(v))
      case (Some(key), Some(value)) => Some(Some((key, value)))
      case _ => None
  }

  function ParsePieces(pieces: seq<bytes>): Option<seq<Pair>> {
    if pieces == [] then Some([])
    else
      match (ParsePair(pieces[0]), ParsePieces(pieces[1..]))
      case (Some(Some(pair)), Some(more)) => Some([pair] + more)
      case (Some(None), Some(more)) => Some(more)
      case _ => None
  }

  /** `parse_query`. */
  function ParseQuery(query: bytes): Option<seq<Pair>> {
    ParsePieces(Text.SplitOn(query, AMPERSAND))
  }

  /** A pair as it is written. */
  function PairText(pair: Pair, form: bool): bytes {
    Encode(pair.0, form) + [EQUALS] + Encode(pair.1, form)
  }

  /** The pairs with an ampersand between them. */
  function QueryText(pairs: seq<Pair>, form: bool): bytes {
    if pairs == [] then []
    else if |pairs| == 1 then PairText(pairs[0], form)
    else PairText(pairs[0], form) + [AMPERSAND] + QueryText(pairs[1..], form)
  }

  /** Keys and values are strings. */
  ghost predicate AllText(pairs: seq<Pair>) {
    forall i :: 0 <= i < |pairs| ==> IsText(pairs[i])
  }

  ghost predicate IsText(pair: Pair) {
    Utf8.Valid(pair.0) && Utf8.Valid(pair.1)
  }

  lemma ParsePairText(pair: Pair, form: bool)
    requires IsText(pair)
    ensures ParsePair(PairText(pair, form)) == Some(Some(pair))
    ensures AMPERSAND !in PairText(pair, form)
  {
    hide Encode, DecodeText, Utf8.Valid;
    EncodedIsUrlSafe(pair.0, form);
    EncodedIsUrlSafe(pair.1, form);
    Text.SplitOnceAt(Encode(pair.0, form), EQUALS, Encode(pair.1, form));
    DecodeTextUndoesEncodeIffUtf8(pair.0, form);
    DecodeTextUndoesEncodeIffUtf8(pair.1, form);
  }

  lemma ParseFirst(piece: bytes, pieces: seq<bytes>, pair: Pair, more: seq<Pair>)
    requires ParsePair(piece) == Some(Some(pair)) && ParsePieces(pieces) == Some(more)
    ensures ParsePieces([piece] + pieces) == Some([pair] + more)
  {
    hide ParsePair;
    assert ([piece] + pieces)[1..] == pieces;
  }

  /** Every list of pairs of strings, the empty one included, is read back exactly. */
  lemma {:induction false} ParseUndoesQueryText(pairs: seq<Pair>, form: bool)
    requires AllText(pairs)
    ensures ParseQuery(QueryText(pairs, form)) == Some(pairs)
  {
    hide ParsePair, PairText, IsText;
    if pairs == [] {
      NoPair();
    } else {
      var first := PairText(pairs[0], form);
      ParsePairText(pairs[0], form);
      if |pairs| == 1 {
        Text.SplitOnPlain(first, AMPERSAND);
        ParseFirst(first, [], pairs[0], []);
        assert pairs == [pairs[0]] + [];
        assert [first] + [] == [first];
      } else {
        ParseUndoesQueryText(pairs[1..], form);
        Text.SplitOnNext(first, AMPERSAND, QueryText(pairs[1..], form));
        ParseFirst(first, Text.SplitOn(QueryText(pairs[1..], form), AMPERSAND), pairs[0], pairs[1..]);
        assert pairs == [pairs[0]] + pairs[1..];
      }
    }
  }

  lemma NoPair()
    ensures Text.SplitOn<byte>([], AMPERSAND) == [[]]
    ensures ParsePieces([[]]) == Some([])
  {
    var pieces: seq<bytes> := [[]];
    assert pieces[1..] == [];
  }

  // ------------------------------------------------------------ the authorize URL

  /** The bytes of an ASCII literal. */
  function Of(s: string): bytes {
    seq(|s|, i requires 0 <= i < |s| => s[i] as int % 256)
  }

  const AUTHORIZE_URL := "https://myanimelist.net/v1/oauth2/authorize"

  /** A literal key and its equals sign. */
  function Key(name: string): bytes {
    Of(name) + [EQUALS]
  }

  /** `authorize_url`: the format string, with the four arguments encoded. */
  function AuthorizeUrl(clientId: bytes, redirectUri: bytes, state: bytes, challenge: bytes): bytes {
    Of(AUTHORIZE_URL) + [QUESTION]
      + (Key("response_type") + Of("code"))
      + [AMPERSAND] + (Key("client_id") + Encode(clientId, false))
      + [AMPERSAND] + (Key("redirect_uri") + Encode(redirectUri, false))
      + [AMPERSAND] + (Key("state") + Encode(state, false))
      + [AMPERSAND] + (Key("code_challenge") + Encode(challenge, false))
      + [AMPERSAND] + (Key("code_challenge_method") + Of("plain"))
  }

  function AuthorizePairs(clientId: bytes, redirectUri: bytes, state: bytes, challenge: bytes): seq<Pair> {
    [(Of("response_type"), Of("code")), (Of("client_id"), clientId), (Of("redirect_uri"), redirectUri),
     (Of("state"), state), (Of("code_challenge"), challenge), (Of("code_challenge_method"), Of("plain"))]
  }

  predicate Name(s: string) {
    forall i :: 0 <= i < |s| ==> 'a' <= s[i] <= 'z' || s[i] == '_'
  }

  lemma NameUnchanged(s: string)
    requires Name(s)
    ensures Encode(Of(s), false) == Of(s)
  {
    hide Encode;
    UnreservedUnchanged(Of(s), false);
  }

  lemma LiteralsUnchanged()
    ensures forall s :: s in ["response_type", "code", "client_id", "redirect_uri"] ==> Encode(Of(s), false) == Of(s)
    ensures forall s :: s in ["state", "code_challenge", "code_challenge_method", "plain"] ==>
              Encode(Of(s), false) == Of(s)
  {
    hide Encode, Of;
    NameUnchanged("response_type");
    NameUnchanged("code");
    NameUnchanged("client_id");
    NameUnchanged("redirect_uri");
    NameUnchanged("state");
    NameUnchanged("code_challenge");
    NameUnchanged("code_challenge_method");
    NameUnchanged("plain");
  }

  lemma NameIsText(s: string)
    requires Name(s)
    ensures Utf8.Valid(Of(s))
  {
    Utf8.AsciiIsValid(Of(s));
  }

  lemma LiteralsAreText()
    ensures forall s :: s in ["response_type", "code", "client_id", "redirect_uri"] ==> Utf8.Valid(Of(s))
    ensures forall s :: s in ["state", "code_challenge", "code_challenge_method", "plain"] ==> Utf8.Valid(Of(s))
  {
    hide Utf8.Valid, Of;
    NameIsText("response_type");
    NameIsText("code");
    NameIsText("client_id");
    NameIsText("redirect_uri");
    NameIsText("state");
    NameIsText("code_challenge");
    NameIsText("code_challenge_method");
    NameIsText("plain");
  }

  lemma BaseHasNoQuestionMark()
    ensures QUESTION !in Of(AUTHORIZE_URL)
  {
    var s := AUTHORIZE_URL;
    assert forall i :: 0 <= i < |s| ==> s[i] as int % 256 != 63;
  }

  lemma {:induction false} QueryTextOfMore(pair: Pair, pairs: seq<Pair>, form: bool)
    requires pairs != []
    ensures QueryText([pair] + pairs, form) == PairText(pair, form) + [AMPERSAND] + QueryText(pairs, form)
  {
    hide PairText;
    assert ([pair] + pairs)[1..] == pairs;
  }

  /** The part of the authorize URL behind its question mark parses to the six pairs, the four
      arguments exactly as they were given. */
  lemma AuthorizeUrlParses(clientId: bytes, redirectUri: bytes, state: bytes, challenge: bytes)
    requires Utf8.Valid(clientId) && Utf8.Valid(redirectUri) && Utf8.Valid(state) && Utf8.Valid(challenge)
    ensures match Text.SplitOnce(AuthorizeUrl(clientId, redirectUri, state, challenge), QUESTION)
            case None => false
            case Some((base, query)) =>
              && base == Of("https://myanimelist.net/v1/oauth2/authorize")
              && ParseQuery(query) == Some([
                (Of("response_type"), Of("code")), (Of("client_id"), clientId), (Of("redirect_uri"), redirectUri),
                (Of("state"), state), (Of("code_challenge"), challenge), (Of("code_challenge_method"), Of("plain"))])
  {
    hide Encode, Of, ParseQuery, QueryText, Utf8.Valid;
    var pairs := AuthorizePairs(clientId, redirectUri, state, challenge);
    var query := QueryText(pairs, false);
    AuthorizeUrlText(clientId, redirectUri, state, challenge);
    BaseHasNoQuestionMark();
    Text.SplitOnceAt(Of(AUTHORIZE_URL), QUESTION, query);
    LiteralsAreText();
    ParseUndoesQueryText(pairs, false);
  }

  lemma SixPairs(p: seq<Pair>)
    requires |p| == 6
    ensures QueryText(p, false) ==
            PairText(p[0], false) + [AMPERSAND] + (PairText(p[1], false) + [AMPERSAND]
            + (PairText(p[2], false) + [AMPERSAND] + (PairText(p[3], false) + [AMPERSAND]
            + (PairText(p[4], false) + [AMPERSAND] + PairText(p[5], false)))))
  {
    hide PairText;
    var last, five := [p[5]], [p[4]] + [p[5]];
    var four := [p[3]] + five;
    var three := [p[2]] + four;
    assert p == [p[0]] + ([p[1]] + three);
    QueryTextOfMore(p[4], last, false);
    QueryTextOfMore(p[3], five, false);
    QueryTextOfMore(p[2], four, false);
    QueryTextOfMore(p[1], three, false);
    QueryTextOfMore(p[0], [p[1]] + three, false);
  }

  lemma Regroup(base: bytes, a: bytes, b: bytes, c: bytes, d: bytes, e: bytes, f: bytes, sep: bytes)
    ensures base + a + sep + b + sep + c + sep + d + sep + e + sep + f ==
            base + (a + sep + (b + sep + (c + sep + (d + sep + (e + sep + f)))))
  {
    assert base + a + sep + b + sep + c + sep == base + (a + sep + (b + sep + (c + sep)));
  }

  lemma AuthorizeUrlText(clientId: bytes, redirectUri: bytes, state: bytes, challenge: bytes)
    ensures AuthorizeUrl(clientId, redirectUri, state, challenge) ==
            Of(AUTHORIZE_URL) + [QUESTION] + QueryText(AuthorizePairs(clientId, redirectUri, state, challenge), false)
  {
    hide Encode, Of, QueryText, PairText;
    var p := AuthorizePairs(clientId, redirectUri, state, challenge);
    PairTexts(clientId, redirectUri, state, challenge);
    SixPairs(p);
    Regroup(Of(AUTHORIZE_URL) + [QUESTION], PairText(p[0], false), PairText(p[1], false), PairText(p[2], false),
            PairText(p[3], false), PairText(p[4], false), PairText(p[5], false), [AMPERSAND]);
  }

  lemma PairTexts(clientId: bytes, redirectUri: bytes, state: bytes, challenge: bytes)
    ensures var p := AuthorizePairs(clientId, redirectUri, state, challenge);
            && PairText(p[0], false) == Key("response_type") + Of("code")
            && PairText(p[1], false) == Key("client_id") + Encode(clientId, false)
            && PairText(p[2], false) == Key("redirect_uri") + Encode(redirectUri, false)
            && PairText(p[3], false) == Key("state") + Encode(state, false)
            && PairText(p[4], false) == Key("code_challenge") + Encode(challenge, false)
            && PairText(p[5], false) == Key("code_challenge_method") + Of("plain")
  {
    hide Encode, Of;
    LiteralsUnchanged();
  }
}
