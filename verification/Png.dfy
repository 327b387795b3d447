/** The solid-colour PNG writer, and a reader that knows only the file format. */
module Png {
  import opened Bits8
  import opened Bytes
  import opened Wrappers
  import Crc
  import CrcReference
  import Zlib

  const SIGNATURE: bytes := [0x89, 0x50, 0x4E, 0x47, 0x0D, 0x0A, 0x1A, 0x0A]
  const IHDR: bytes := [0x49, 0x48, 0x44, 0x52]
  const IDAT: bytes := [0x49, 0x44, 0x41, 0x54]
  const IEND: bytes := [0x49, 0x45, 0x4E, 0x44]

  /** The largest dimension and the largest chunk length that the format allows. */
  const LARGEST: nat := 0x7fff_ffff

  datatype Pixel = Pixel(r: byte, g: byte, b: byte)
  datatype Image = Image(width: nat, height: nat, rows: seq<seq<Pixel>>)

  function Copies<T>(item: T, n: nat): seq<T> {
    seq(n, i => item)
  }

  /** One colour at every position. */
  function Solid(width: nat, height: nat, p: Pixel): Image {
    Image(width, height, Copies(Copies(p, width), height))
  }

  // ------------------------------------------------------------ chunks

  function BitsOf(s: bytes): seq<Crc.Byte> {
    seq(|s|, i requires 0 <= i < |s| => ToBits(s[i]))
  }

  /** `to_be_bytes` of a word. */
  function WordBytes(w: Crc.Word): (s: bytes)
    ensures |s| == 4
  {
    [FromBits(Crc.Narrow(w, 24)), FromBits(Crc.Narrow(w, 16)), FromBits(Crc.Narrow(w, 8)), FromBits(Crc.Narrow(w, 0))]
  }

  function CrcOf(s: bytes): (check: bytes)
    ensures |check| == 4
  {
    WordBytes(Crc.Checksum(BitsOf(s)))
  }

  /** Length, tag, data, checksum of tag and data. The length is cut to 32 bits. */
  function Chunk(tag: bytes, data: bytes): bytes {
    Be32(|data| % U32) + tag + data + CrcOf(tag + data)
  }

  /** Four bytes as a word, the first one highest. */
  function ReadWord(s: bytes): Crc.Word
    requires |s| == 4
  {
    Joined(ToBits(s[0]), ToBits(s[1]), ToBits(s[2]), ToBits(s[3]))
  }

  function Joined(a: Crc.Byte, b: Crc.Byte, c: Crc.Byte, d: Crc.Byte): Crc.Word {
    Raised(a, 24) | Raised(b, 16) | Raised(c, 8) | Raised(d, 0)
  }

  /** A byte `shift` bits up. */
  function Raised(b: Crc.Byte, shift: bv6): Crc.Word
    requires shift <= 24
  {
    (b as Crc.Word) << shift
  }

  /** What a reader tests: four bytes that hold the frame check of the standard. */
  predicate Agrees(check: bytes, body: bytes) {
    |check| == 4 && ReadWord(check) == CrcReference.FrameCheck(BitsOf(body))
  }

  lemma NarrowJoined(a: Crc.Byte, b: Crc.Byte, c: Crc.Byte, d: Crc.Byte)
    ensures var w := Joined(a, b, c, d);
            && Crc.Narrow(w, 24) == a && Crc.Narrow(w, 16) == b && Crc.Narrow(w, 8) == c && Crc.Narrow(w, 0) == d
  {
  }

  lemma JoinedNarrow(w: Crc.Word)
    ensures Joined(Crc.Narrow(w, 24), Crc.Narrow(w, 16), Crc.Narrow(w, 8), Crc.Narrow(w, 0)) == w
  {
  }

  lemma WordReadsBack(w: Crc.Word, s: bytes)
    requires |s| == 4
    ensures ReadWord(s) == w <==> s == WordBytes(w)
  {
    hide ToBits, FromBits, Crc.Narrow, Joined;
    ToBitsBack(Crc.Narrow(w, 24));
    ToBitsBack(Crc.Narrow(w, 16));
    ToBitsBack(Crc.Narrow(w, 8));
    ToBitsBack(Crc.Narrow(w, 0));
    JoinedNarrow(w);
    NarrowJoined(ToBits(s[0]), ToBits(s[1]), ToBits(s[2]), ToBits(s[3]));
    BitsBack(s[0]);
    BitsBack(s[1]);
    BitsBack(s[2]);
    BitsBack(s[3]);
  }

  lemma AgreesIffCrc(check: bytes, body: bytes)
    ensures Agrees(check, body) <==> check == CrcOf(body)
  {
    hide ReadWord, WordBytes, Crc.Checksum, CrcReference.FrameCheck, BitsOf;
    CrcReference.ChecksumIsFrameCheck(BitsOf(body));
    if |check| == 4 { WordReadsBack(Crc.Checksum(BitsOf(body)), check); }
  }

  /** Reading one chunk: tag, data and what follows; nothing when the length is out of the format's range
      or the checksum disagrees. */
  function ReadChunk(s: bytes): Option<(bytes, bytes, bytes)> {
    if |s| < 12 then None
    else
      var len := ReadBe32(s[..4]);
      if len > LARGEST || |s| < 12 + len || !Agrees(s[8 + len..12 + len], s[4..8 + len]) then None
      else Some((s[4..8], s[8..8 + len], s[12 + len..]))
  }

  lemma ChunkLayout(tag: bytes, data: bytes, rest: bytes)
    requires |tag| == 4
    ensures var s := Chunk(tag, data) + rest;
            && |s| == 12 + |data| + |rest|
            && s[..4] == Be32(|data| % U32) && s[4..8] == tag
            && s[8..8 + |data|] == data && s[4..8 + |data|] == tag + data
            && s[8 + |data|..12 + |data|] == CrcOf(tag + data) && s[12 + |data|..] == rest
  {
    hide Be32, CrcOf;
    var head, check := Be32(|data| % U32), CrcOf(tag + data);
    assert Chunk(tag, data) + rest == head + (tag + data) + check + rest;
  }

  lemma ChunkRoundTrip(tag: bytes, data: bytes, rest: bytes)
    requires |tag| == 4 && |data| <= LARGEST
    ensures ReadChunk(Chunk(tag, data) + rest) == Some((tag, data, rest))
  {
    hide Be32, ReadBe32, CrcOf, Chunk, Agrees;
    ChunkLayout(tag, data, rest);
    Be32RoundTrip(|data|);
    AgreesIffCrc(CrcOf(tag + data), tag + data);
  }

  /** A chunk above the largest length is refused, or read short by a multiple of 2^32. */
  lemma LongChunkMisread(tag: bytes, data: bytes, rest: bytes)
    requires |tag| == 4 && |data| > LARGEST
    ensures match ReadChunk(Chunk(tag, data) + rest)
            case None => true
            case Some((t, d, more)) => |more| >= U32
  {
    hide Be32, ReadBe32, CrcOf, Chunk, Agrees;
    ChunkLayout(tag, data, rest);
    Be32RoundTrip(|data| % U32);
    if |data| < U32 { assert |data| % U32 == |data|; } else { assert |data| - |data| % U32 >= U32; }
  }

  lemma WordBytesInjective(a: Crc.Word, b: Crc.Word)
    requires WordBytes(a) == WordBytes(b)
    ensures a == b
  {
    hide FromBits, Crc.Narrow;
    var s, t := WordBytes(a), WordBytes(b);
    assert s[0] == t[0] && s[1] == t[1] && s[2] == t[2] && s[3] == t[3];
    FromBitsInjective(Crc.Narrow(a, 24), Crc.Narrow(b, 24));
    FromBitsInjective(Crc.Narrow(a, 16), Crc.Narrow(b, 16));
    FromBitsInjective(Crc.Narrow(a, 8), Crc.Narrow(b, 8));
    FromBitsInjective(Crc.Narrow(a, 0), Crc.Narrow(b, 0));
    Crc.NarrowCovers(a, b);
  }

  /** Changing any one byte of a chunk's tag or data makes its checksum disagree. */
  lemma CorruptByteDetected(s: bytes, i: nat, b: byte)
    requires i < |s| && b != s[i]
    ensures CrcOf(s[i := b]) != CrcOf(s)
  {
    hide ToBits, Crc.Checksum, WordBytes;
    var u, v := BitsOf(s), BitsOf(s[i := b]);
    BitsBack(s[i]);
    BitsBack(b);
    Crc.DetectsOneByte(u, v, i);
    if CrcOf(s[i := b]) == CrcOf(s) { WordBytesInjective(Crc.Checksum(u), Crc.Checksum(v)); }
  }

  /** Changing any one byte of a chunk behind its length makes a reader refuse it. */
  lemma CorruptChunkRefused(tag: bytes, data: bytes, rest: bytes, i: nat, b: byte)
    requires |tag| == 4 && |data| <= LARGEST && 4 <= i < 12 + |data|
    ensures |Chunk(tag, data)| == 12 + |data|
    ensures b != Chunk(tag, data)[i] ==> ReadChunk(Chunk(tag, data)[i := b] + rest) == None
  {
    hide Be32, ReadBe32, CrcOf, Agrees;
    var c := Chunk(tag, data);
    ChunkLayout(tag, data, []);
    assert c + [] == c;
    Be32RoundTrip(|data|);
    var body, end := c[4..8 + |data|], 8 + |data|;
    var s := c[i := b] + rest;
    assert s[..4] == c[..4];
    AgreesIffCrc(s[end..end + 4], s[4..end]);
    if i < end {
      assert s[4..end] == body[i - 4 := b] && s[end..end + 4] == c[end..end + 4];
      if b != c[i] { CorruptByteDetected(body, i - 4, b); }
    } else {
      assert s[4..end] == body;
      assert s[end..end + 4] == c[end..end + 4][i - end := b];
      assert c[end..end + 4][i - end] == c[i];
    }
  }

  // ------------------------------------------------------------ scanlines

  /** `width` pixels in bytes. */
  function PixelBytes(width: nat, p: Pixel): bytes {
    if width == 0 then [] else PixelBytes(width - 1, p) + [p.r, p.g, p.b]
  }

  /** Filter byte 0, then the pixels. */
  function Row(width: nat, p: Pixel): bytes {
    [0] + PixelBytes(width, p)
  }

  function Scanlines(row: bytes, n: nat): bytes {
    if n == 0 then [] else Scanlines(row, n - 1) + row
  }

  function ReadPixels(s: bytes): Option<seq<Pixel>> {
    if s == [] then Some([])
    else if |s| < 3 then None
    else
      match ReadPixels(s[3..])
      case None => None
      case Some(more) => Some([Pixel(s[0], s[1], s[2])] + more)
  }

  /** Undoing the filters: `height` lines of filter byte 0 and `width` pixels, and nothing more. */
  function ReadRows(s: bytes, width: nat, height: nat): Option<seq<seq<Pixel>>> {
    if height == 0 then if s == [] then Some([]) else None
    else
      var line := 1 + 3 * width;
      if |s| < line || s[0] != 0 then None
      else
        match (ReadPixels(s[1..line]), ReadRows(s[line..], width, height - 1))
        case (Some(row), Some(more)) => Some([row] + more)
        case _ => None
  }

  lemma {:induction false} PixelsFromFront(width: nat, p: Pixel)
    requires width > 0
    ensures PixelBytes(width, p) == [p.r, p.g, p.b] + PixelBytes(width - 1, p)
  {
    if width > 1 { PixelsFromFront(width - 1, p); }
  }

  lemma {:induction false} ReadSolidRow(width: nat, p: Pixel)
    ensures |PixelBytes(width, p)| == 3 * width
    ensures ReadPixels(PixelBytes(width, p)) == Some(Copies(p, width))
  {
    if width == 0 {
      assert Copies(p, 0) == [];
    } else {
      ReadSolidRow(width - 1, p);
      PixelsFromFront(width, p);
      var s := PixelBytes(width, p);
      assert s[3..] == PixelBytes(width - 1, p);
      assert [p] + Copies(p, width - 1) == Copies(p, width);
    }
  }

  lemma {:induction false} LinesFromFront(row: bytes, n: nat)
    requires n > 0
    ensures Scanlines(row, n) == row + Scanlines(row, n - 1)
  {
    if n > 1 { LinesFromFront(row, n - 1); }
  }

  lemma {:induction false} ReadSolidRows(width: nat, height: nat, p: Pixel)
    ensures ReadRows(Scanlines(Row(width, p), height), width, height) == Some(Solid(width, height, p).rows)
  {
    hide ReadPixels, PixelBytes;
    if height == 0 {
      assert Solid(width, 0, p).rows == [];
    } else {
      var row := Row(width, p);
      var s := Scanlines(row, height);
      ReadSolidRow(width, p);
      ReadSolidRows(width, height - 1, p);
      LinesFromFront(row, height);
      assert s[1..1 + 3 * width] == PixelBytes(width, p);
      assert s[1 + 3 * width..] == Scanlines(row, height - 1);
      assert [Copies(p, width)] + Solid(width, height - 1, p).rows == Solid(width, height, p).rows;
    }
  }

  lemma {:induction false} LinesLength(row: bytes, n: nat)
    ensures |Scanlines(row, n)| == n * |row|
  {
    if n > 0 {
      LinesLength(row, n - 1);
      assert n * |row| == (n - 1) * |row| + |row|;
    }
  }

  // ------------------------------------------------------------ the file

  function Header(width: nat, height: nat): bytes
    requires width < U32 && height < U32
  {
    Be32(width) + Be32(height) + [8, 2, 0, 0, 0]
  }

  /** The bytes of the file, piece by piece. */
  function SolidFile(width: nat, height: nat, p: Pixel): bytes
    requires width < U32 && height < U32
  {
    SIGNATURE + Chunk(IHDR, Header(width, height))
      + Chunk(IDAT, Zlib.Stream(Scanlines(Row(width, p), height))) + Chunk(IEND, [])
  }

  /** Size of the compressed data, from the numbers a caller passes. */
  function DataSize(width: nat, height: nat): nat {
    var raw := height * (1 + 3 * width);
    6 + raw + 5 * Zlib.BlockCount(raw)
  }

  predicate InRange(dimension: nat) {
    1 <= dimension <= LARGEST
  }

  /** Characters by their codes. */
  function Letters(s: string): bytes {
    seq(|s|, i requires 0 <= i < |s| => s[i] as int % 256)
  }

  lemma TagsAreLetters()
    ensures SIGNATURE == [137] + Letters("PNG") + [13, 10, 26, 10]
    ensures IHDR == Letters("IHDR") && IDAT == Letters("IDAT") && IEND == Letters("IEND")
  {
  }

  /** A reader of 8-bit RGB files without interlacing and with one data chunk. */
  function ReadImage(file: bytes): Option<Image> {
    if |file| < 8 || file[..8] != [137] + Letters("PNG") + [13, 10, 26, 10] then None
    else
      match ReadChunk(file[8..])
      case None => None
      case Some((tag, head, rest)) =>
        if tag != Letters("IHDR") || |head| != 13 || head[8..] != [8, 2, 0, 0, 0] then None
        else
          var width, height := ReadBe32(head[..4]), ReadBe32(head[4..8]);
          if InRange(width) && InRange(height) then ReadData(width, height, rest) else None
  }

  function ReadData(width: nat, height: nat, s: bytes): Option<Image> {
    match ReadChunk(s)
    case None => None
    case Some((tag, data, rest)) =>
      if tag != Letters("IDAT") || ReadChunk(rest) != Some((Letters("IEND"), [], [])) then None
      else
        match Zlib.ReadStream(data)
        case None => None
        case Some(raw) =>
          match ReadRows(raw, width, height)
          case None => None
          case Some(rows) => Some(Image(width, height, rows))
  }

  lemma HeaderRoundTrip(width: nat, height: nat)
    requires width < U32 && height < U32
    ensures var h := Header(width, height);
            && |h| == 13 && h[8..] == [8, 2, 0, 0, 0]
            && ReadBe32(h[..4]) == width && ReadBe32(h[4..8]) == height
  {
    hide Be32, ReadBe32;
    var h := Header(width, height);
    assert h[..4] == Be32(width) && h[4..8] == Be32(height) && h[8..] == [8, 2, 0, 0, 0];
    Be32RoundTrip(width);
    Be32RoundTrip(height);
  }

  lemma ReadPastHeader(width: nat, height: nat, rest: bytes)
    requires width < U32 && height < U32
    ensures ReadImage(SIGNATURE + Chunk(IHDR, Header(width, height)) + rest) ==
            if InRange(width) && InRange(height) then ReadData(width, height, rest) else None
  {
    TagsAreLetters();
    hide Chunk, ReadChunk, ReadBe32, Header, ReadData, Letters;
    var head := Header(width, height);
    var file := SIGNATURE + Chunk(IHDR, head) + rest;
    HeaderRoundTrip(width, height);
    ChunkRoundTrip(IHDR, head, rest);
    assert file[..8] == SIGNATURE;
    assert file[8..] == Chunk(IHDR, head) + rest;
  }

  lemma ReadEnd()
    ensures ReadChunk(Chunk(IEND, [])) == Some((IEND, [], []))
    ensures |Chunk(IEND, [])| == 12
  {
    hide Chunk, ReadChunk;
    ChunkRoundTrip(IEND, [], []);
    ChunkLayout(IEND, [], []);
    assert Chunk(IEND, []) + [] == Chunk(IEND, []);
  }

  /** What ends a file is exactly twelve bytes long. */
  lemma EndIsShort(s: bytes)
    requires ReadChunk(s) == Some((IEND, [], []))
    ensures |s| == 12
  {
    hide CrcOf, ReadBe32, Agrees;
  }

  lemma StreamLength(raw: bytes)
    ensures |Zlib.Stream(raw)| == 6 + |raw| + 5 * Zlib.BlockCount(|raw|)
  {
    hide Zlib.Stored, Zlib.Adler, Be32;
    Zlib.StoredLength(raw);
  }

  lemma SolidDataSize(width: nat, height: nat, p: Pixel)
    ensures |Zlib.Stream(Scanlines(Row(width, p), height))| == DataSize(width, height)
    ensures Scanlines(Row(width, p), height) == [] <==> height == 0
  {
    hide Zlib.Stream, Zlib.BlockCount, Scanlines, PixelBytes;
    ReadSolidRow(width, p);
    LinesLength(Row(width, p), height);
    StreamLength(Scanlines(Row(width, p), height));
    Positive(height, 1 + 3 * width);
  }

  lemma Positive(n: nat, k: nat)
    requires k > 0
    ensures n * k == 0 <==> n == 0
  {
  }

  lemma ReadSolidData(width: nat, height: nat, p: Pixel)
    requires DataSize(width, height) <= LARGEST
    ensures ReadData(width, height, Chunk(IDAT, Zlib.Stream(Scanlines(Row(width, p), height))) + Chunk(IEND, [])) ==
            if height > 0 then Some(Solid(width, height, p)) else None
  {
    TagsAreLetters();
    hide Chunk, ReadChunk, ReadRows, Scanlines, Row, DataSize, Zlib.Stream, Zlib.ReadStream, Letters;
    var raw := Scanlines(Row(width, p), height);
    SolidDataSize(width, height, p);
    ChunkRoundTrip(IDAT, Zlib.Stream(raw), Chunk(IEND, []));
    ReadEnd();
    Zlib.StreamRoundTrip(raw);
    ReadSolidRows(width, height, p);
  }

  lemma LongDataUnreadable(width: nat, height: nat, data: bytes)
    requires |data| > LARGEST
    ensures ReadData(width, height, Chunk(IDAT, data) + Chunk(IEND, [])) == None
  {
    TagsAreLetters();
    hide Chunk, ReadChunk, ReadRows, Zlib.ReadStream, Letters;
    LongChunkMisread(IDAT, data, Chunk(IEND, []));
    match ReadChunk(Chunk(IDAT, data) + Chunk(IEND, []))
    case None =>
    case Some((tag, d, rest)) =>
      if ReadChunk(rest) == Some((IEND, [], [])) { EndIsShort(rest); }
  }

  /** Reading the file back gives the solid image exactly when both dimensions and the size of the compressed
      data are within the format's range. */
  lemma SolidFileReadsBack(width: nat, height: nat, p: Pixel)
    requires width < U32 && height < U32
    ensures ReadImage(SolidFile(width, height, p)) ==
            if InRange(width) && InRange(height) && DataSize(width, height) <= LARGEST
            then Some(Solid(width, height, p)) else None
  {
    hide Chunk, ReadImage, ReadData, Header, Scanlines, Row, DataSize, Zlib.Stream;
    var stream := Zlib.Stream(Scanlines(Row(width, p), height));
    var rest := Chunk(IDAT, stream) + Chunk(IEND, []);
    var start := SIGNATURE + Chunk(IHDR, Header(width, height));
    assert SolidFile(width, height, p) == start + rest;
    ReadPastHeader(width, height, rest);
    SolidDataSize(width, height, p);
    if DataSize(width, height) <= LARGEST {
      ReadSolidData(width, height, p);
    } else {
      LongDataUnreadable(width, height, stream);
    }
  }

  // ------------------------------------------------------------ the writer

  method WriteChunk(file: bytes, tag: bytes, data: bytes) returns (out: bytes)
    ensures out == file + Chunk(tag, data)
  {
    hide CrcOf;
    out := file + Be32(|data| % U32);
    out := out + tag;
    out := out + data;
    out := out + CrcOf(tag + data);
  }

  /** `write_solid_png`, with the file as the bytes written to it. */
  method WriteSolidPng(width: nat, height: nat, r: byte, g: byte, b: byte) returns (file: bytes)
    requires width < U32 && height < U32
    ensures file == SolidFile(width, height, Pixel(r, g, b))
    ensures ReadImage(file) ==
            if InRange(width) && InRange(height) && DataSize(width, height) <= LARGEST
            then Some(Solid(width, height, Pixel(r, g, b))) else None
  {
    hide Chunk, ReadImage, DataSize, Be32, Zlib.Stored, Zlib.Adler;
    ghost var p := Pixel(r, g, b);
    file := WriteChunk(SIGNATURE, IHDR, Be32(width) + Be32(height) + [8, 2, 0, 0, 0]);
    var row := [0];
    for x := 0 to width
      invariant row == Row(x, p)
    {
      row := row + [r, g, b];
    }
    var raw := [];
    for y := 0 to height
      invariant raw == Scanlines(row, y)
    {
      raw := raw + row;
    }
    var zlib: bytes := [0x78, 0x01];
    var blocks := Zlib.StoreBlocks(raw);
    var adler := Zlib.Adler32(raw);
    zlib := zlib + blocks + Be32(adler);
    file := WriteChunk(file, IDAT, zlib);
    file := WriteChunk(file, IEND, []);
    SolidFileReadsBack(width, height, p);
  }
}
