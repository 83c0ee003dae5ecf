/** The picture of a QR symbol: an 8-bit greyscale PNG of its modules, and what a PNG reader makes of it. */
module Png {
  import opened Bytes
  import opened Crc
  import opened Qr
  import opened Terminal
  import opened Wrappers

  const WHITE: Byte := 255
  const BLACK: Byte := 0
  const LIMIT: nat := 0x1_0000_0000

  const SIGNATURE: seq<Byte> := [0x89, 0x50, 0x4e, 0x47, 0x0d, 0x0a, 0x1a, 0x0a]
  const IHDR: seq<Byte> := [0x49, 0x48, 0x44, 0x52]
  const IDAT: seq<Byte> := [0x49, 0x44, 0x41, 0x54]
  const IEND: seq<Byte> := [0x49, 0x45, 0x4e, 0x44]

  // ---- Chunks ----------------------------------------------------------------------------------------

  function CrcBytes(message: seq<Byte>): (bytes: seq<Byte>)
    ensures |bytes| == 4
  {
    ValueBound(Checksum(message));
    WordLimit();
    BigEndian(Value(Checksum(message)), 4)
  }

  lemma WordLimit()
    ensures Power2(32) == LIMIT == Limit(4)
  {
    assert Power2(8) == 256;
    assert Power2(16) == 0x1_0000;
    assert Power2(24) == 0x100_0000;
    Limits();
  }

  function Chunk(kind: seq<Byte>, data: seq<Byte>): seq<Byte>
    requires |kind| == 4 && |data| < LIMIT
  {
    BigEndian(|data|, 4) + (kind + data) + CrcBytes(kind + data)
  }

  method MakeChunk(table: array<Word>, kind: seq<Byte>, data: seq<Byte>) returns (bytes: seq<Byte>)
    requires |kind| == 4 && |data| < LIMIT && IsTable(table[..])
    ensures bytes == Chunk(kind, data)
  {
    var typeAndData := kind + data;
    var crc := Crc32(table, typeAndData);
    ValueBound(crc);
    WordLimit();
    return BigEndian(|data|, 4) + typeAndData + BigEndian(Value(crc), 4);
  }

  datatype Parsed = Parsed(kind: seq<Byte>, data: seq<Byte>, rest: seq<Byte>)

  /** A PNG reader's view of the next chunk: its checksum must match (section 3.2 of RFC 2083). */
  function ParseChunk(bytes: seq<Byte>): Option<Parsed> {
    if |bytes| < 12 then None
    else
      var n := FromBigEndian(bytes[..4]);
      if |bytes| < 12 + n || bytes[8 + n..12 + n] != CrcBytes(bytes[4..8 + n]) then None
      else Some(Parsed(bytes[4..8], bytes[8..8 + n], bytes[12 + n..]))
  }

  /** A chunk is taken exactly when its checksum is that of its type and data. */
  lemma ParsesWhenIntact(length: seq<Byte>, body: seq<Byte>, crc: seq<Byte>, rest: seq<Byte>)
    requires |length| == 4 && |crc| == 4 && |body| >= 4 && FromBigEndian(length) == |body| - 4
    ensures ParseChunk(length + body + crc + rest) ==
            if crc == CrcBytes(body) then Some(Parsed(body[..4], body[4..], rest)) else None
  {
    var n := |body| - 4;
    var bytes := length + body + crc + rest;
    assert bytes[..4] == length && bytes[4..8 + n] == body;
    assert bytes[8 + n..12 + n] == crc && bytes[12 + n..] == rest;
    assert bytes[4..8] == body[..4] && bytes[8..8 + n] == body[4..];
  }

  lemma LengthReadsBack(n: nat)
    requires n < LIMIT
    ensures FromBigEndian(BigEndian(n, 4)) == n
  {
    WordLimit();
    BigEndianReadsBack(n, 4);
  }

  lemma ChunkReadsBack(kind: seq<Byte>, data: seq<Byte>, rest: seq<Byte>)
    requires |kind| == 4 && |data| < LIMIT
    ensures ParseChunk(Chunk(kind, data) + rest) == Some(Parsed(kind, data, rest))
  {
    LengthReadsBack(|data|);
    ParsesWhenIntact(BigEndian(|data|, 4), kind + data, CrcBytes(kind + data), rest);
    assert (kind + data)[..4] == kind && (kind + data)[4..] == data;
  }

  lemma CrcBytesTell(a: seq<Byte>, b: seq<Byte>)
    requires Checksum(a) != Checksum(b)
    ensures CrcBytes(a) != CrcBytes(b)
  {
    BitsOfValue(Checksum(a));
    BitsOfValue(Checksum(b));
    ValueBound(Checksum(a));
    ValueBound(Checksum(b));
    WordLimit();
    LengthReadsBack(Value(Checksum(a)));
    LengthReadsBack(Value(Checksum(b)));
  }

  /** A reader refuses a chunk whose type or data was damaged within four consecutive bytes. */
  lemma DamageIsRefused(kind: seq<Byte>, data: seq<Byte>, rest: seq<Byte>,
                        before: seq<Byte>, a: seq<Byte>, b: seq<Byte>, after: seq<Byte>)
    requires |kind| == 4 && |data| < LIMIT && kind + data == before + a + after
    requires |a| == |b| <= 4 && a != b
    ensures ParseChunk(BigEndian(|data|, 4) + (before + b + after) + CrcBytes(kind + data) + rest) == None
  {
    var damaged := before + b + after;
    assert |damaged| == |before + a + after|;
    LengthReadsBack(|data|);
    ParsesWhenIntact(BigEndian(|data|, 4), damaged, CrcBytes(kind + data), rest);
    BurstIsDetected(before, a, b, after);
    CrcBytesTell(kind + data, damaged);
  }

  // ---- Scanlines -------------------------------------------------------------------------------------

  function Side(modules: Matrix, scale: nat, quietZone: nat): nat {
    (|modules| + quietZone * 2) * scale
  }

  /** Where scanline `y` starts, with its filter byte. */
  function LineStart(size: nat, y: nat): (offset: nat)
    requires y < size
    ensures offset + size < (size + 1) * size
  {
    LineFits(size, y);
    y * (size + 1)
  }

  lemma LineFits(size: nat, y: nat)
    requires y < size
    ensures y * (size + 1) + size < (size + 1) * size
  {
    Monotone(y + 1, size, size + 1);
  }

  function Offset(size: nat, y: nat, x: nat): (offset: nat)
    requires y < size && x < size
    ensures offset < (size + 1) * size
  {
    LineStart(size, y) + 1 + x
  }

  /** The module is on the symbol and black. */
  predicate Dark(modules: Matrix, j: int, i: int) {
    0 <= j < |modules| && 0 <= i < |modules| && i < |modules[j]| && modules[j][i]
  }

  /** The shade of pixel (x, y): black exactly inside the square of a black module. */
  function Shade(modules: Matrix, scale: nat, quietZone: nat, y: nat, x: nat): Byte
    requires scale > 0
  {
    if Dark(modules, y / scale - quietZone, x / scale - quietZone) then BLACK else WHITE
  }

  /** The unfiltered scanlines of the symbol's picture. */
  ghost predicate IsRaster(raw: seq<Byte>, modules: Matrix, scale: nat, quietZone: nat) {
    var size := Side(modules, scale, quietZone);
    && |raw| == (size + 1) * size
    && (forall y :: 0 <= y < size ==> raw[LineStart(size, y)] == 0)
    && forall y, x :: 0 <= y < size && 0 <= x < size ==> raw[Offset(size, y, x)] == Shade(modules, scale, quietZone, y, x)
  }

  lemma Monotone(a: nat, b: nat, c: nat)
    requires a <= b
    ensures a * c <= b * c
  {
    assert (b - a) * c >= 0;
  }

  /** Lines do not overlap: each starts a whole line after the one before. */
  lemma LineAfterLine(size: nat, y: nat, v: nat)
    requires y < v < size
    ensures LineStart(size, y) + size + 1 <= LineStart(size, v)
  {
    Monotone(y + 1, v, size + 1);
  }

  lemma SameLine(size: nat, y: nat, v: nat, d: int)
    requires y < size && v < size && d <= size <= size + d + size
    ensures LineStart(size, v) == LineStart(size, y) + d ==> v == y && d == 0
  {
    if v < y {
      LineAfterLine(size, v, y);
    } else if v > y {
      LineAfterLine(size, y, v);
    }
  }

  /** A stretch of one scanline holds pixels of that scanline only. */
  lemma StretchHolds(size: nat, y: nat, x: nat, n: nat)
    requires y < size && x + n <= size
    ensures forall v, u :: 0 <= v < size && 0 <= u < size ==>
      (LineStart(size, y) + 1 + x <= Offset(size, v, u) < LineStart(size, y) + 1 + x + n <==> v == y && x <= u < x + n)
    ensures forall v :: 0 <= v < size ==> !(LineStart(size, y) + 1 + x <= LineStart(size, v) < LineStart(size, y) + 1 + x + n)
  {
    forall v, u | 0 <= v < size && 0 <= u < size
      ensures LineStart(size, y) + 1 + x <= Offset(size, v, u) < LineStart(size, y) + 1 + x + n <==> v == y && x <= u < x + n
    {
      if LineStart(size, y) + 1 + x <= Offset(size, v, u) < LineStart(size, y) + 1 + x + n {
        SameLine(size, y, v, Offset(size, v, u) - LineStart(size, y) - 1 - u);
      }
    }
    forall v | 0 <= v < size
      ensures !(LineStart(size, y) + 1 + x <= LineStart(size, v) < LineStart(size, y) + 1 + x + n)
    {
      if LineStart(size, y) + 1 + x <= LineStart(size, v) < LineStart(size, y) + 1 + x + n {
        SameLine(size, y, v, LineStart(size, v) - LineStart(size, y));
      }
    }
  }

  /** `after` is `before` with a black rectangle of `h` lines and `w` columns painted at (x0, y0). */
  ghost predicate Painted(before: seq<Byte>, after: seq<Byte>, size: nat, y0: nat, x0: nat, h: nat, w: nat) {
    && |before| == |after| == (size + 1) * size
    && (forall y :: 0 <= y < size ==> after[LineStart(size, y)] == before[LineStart(size, y)])
    && forall y, x :: 0 <= y < size && 0 <= x < size ==>
         after[Offset(size, y, x)] == if y0 <= y < y0 + h && x0 <= x < x0 + w then BLACK else before[Offset(size, y, x)]
  }

  /** `raw.fill(0x00, from, to)`. */
  method Fill(raw: array<Byte>, from: nat, to: nat)
    requires from <= to <= raw.Length
    modifies raw
    ensures forall k :: 0 <= k < raw.Length ==> raw[k] == if from <= k < to then BLACK else old(raw[k])
  {
    for k := from to to
      invariant forall l :: 0 <= l < raw.Length ==> raw[l] == if from <= l < k then BLACK else old(raw[l])
    {
      raw[k] := BLACK;
    }
  }

  method PaintLine(raw: array<Byte>, size: nat, y: nat, x0: nat, w: nat)
    requires raw.Length == (size + 1) * size && y < size && x0 + w <= size
    modifies raw
    ensures Painted(old(raw[..]), raw[..], size, y, x0, 1, w)
  {
    StretchHolds(size, y, x0, w);
    Fill(raw, LineStart(size, y) + 1 + x0, LineStart(size, y) + 1 + x0 + w);
  }

  method PaintSquare(raw: array<Byte>, size: nat, y0: nat, x0: nat, scale: nat)
    requires raw.Length == (size + 1) * size && y0 + scale <= size && x0 + scale <= size
    modifies raw
    ensures Painted(old(raw[..]), raw[..], size, y0, x0, scale, scale)
  {
    for y := y0 to y0 + scale
      invariant Painted(old(raw[..]), raw[..], size, y0, x0, y - y0, scale)
    {
      ghost var before := raw[..];
      PaintLine(raw, size, y, x0, scale);
      assert Painted(before, raw[..], size, y, x0, 1, scale);
    }
  }

  /** The dark modules drawn before row `my`, column `mx`. */
  predicate Drawn(modules: Matrix, my: nat, mx: nat, j: int, i: int) {
    Dark(modules, j, i) && (j < my || (j == my && i < mx))
  }

  /** A raster with those modules drawn and everything else white. */
  ghost predicate Shows(raw: seq<Byte>, modules: Matrix, scale: nat, quietZone: nat, my: nat, mx: nat) {
    var size := Side(modules, scale, quietZone);
    && |raw| == (size + 1) * size
    && (forall y :: 0 <= y < size ==> raw[LineStart(size, y)] == 0)
    && forall y, x :: 0 <= y < size && 0 <= x < size ==>
         scale > 0 && raw[Offset(size, y, x)] == if Drawn(modules, my, mx, y / scale - quietZone, x / scale - quietZone) then BLACK else WHITE
  }

  lemma Quotient(scale: nat, m: nat, y: nat)
    requires scale > 0
    ensures m * scale <= y < m * scale + scale <==> y / scale == m
  {
    assert y == scale * (y / scale) + y % scale;
    if y / scale < m {
      Monotone(y / scale + 1, m, scale);
    } else if y / scale > m {
      Monotone(m + 1, y / scale, scale);
    }
  }

  lemma ModuleFits(modules: Matrix, scale: nat, quietZone: nat, m: nat)
    requires m < |modules|
    ensures (m + quietZone) * scale + scale <= Side(modules, scale, quietZone)
  {
    Monotone(m + quietZone + 1, |modules| + quietZone * 2, scale);
    assert (m + quietZone + 1) * scale == (m + quietZone) * scale + scale;
  }

  lemma DrawModule(before: seq<Byte>, after: seq<Byte>, modules: Matrix, scale: nat, quietZone: nat, my: nat, mx: nat)
    requires my < |modules| && mx < |modules| && Dark(modules, my, mx)
    requires Shows(before, modules, scale, quietZone, my, mx)
    requires Painted(before, after, Side(modules, scale, quietZone), (my + quietZone) * scale, (mx + quietZone) * scale, scale, scale)
    ensures Shows(after, modules, scale, quietZone, my, mx + 1)
  {
    var size := Side(modules, scale, quietZone);
    forall y, x | 0 <= y < size && 0 <= x < size
      ensures scale > 0 && after[Offset(size, y, x)] ==
              if Drawn(modules, my, mx + 1, y / scale - quietZone, x / scale - quietZone) then BLACK else WHITE
    {
      Quotient(scale, my + quietZone, y);
      Quotient(scale, mx + quietZone, x);
    }
  }

  /** The source's raster loop. */
  method Raster(modules: Matrix, scale: nat, quietZone: nat) returns (raw: array<Byte>)
    ensures fresh(raw) && IsRaster(raw[..], modules, scale, quietZone)
  {
    var size := Side(modules, scale, quietZone);
    raw := new Byte[(size + 1) * size](_ => WHITE);
    FilterBytes(raw, size);
    for my := 0 to |modules|
      invariant Shows(raw[..], modules, scale, quietZone, my, 0)
    {
      for mx := 0 to |modules|
        invariant Shows(raw[..], modules, scale, quietZone, my, mx)
      {
        PaintModule(raw, modules, scale, quietZone, my, mx);
      }
      RowIsDrawn(raw[..], modules, scale, quietZone, my);
    }
  }

  lemma RowIsDrawn(raw: seq<Byte>, modules: Matrix, scale: nat, quietZone: nat, my: nat)
    requires my < |modules| && Shows(raw, modules, scale, quietZone, my, |modules|)
    ensures Shows(raw, modules, scale, quietZone, my + 1, 0)
  {
  }

  /** One module of the loop: a black one is filled in, any other leaves the raster white there. */
  method PaintModule(raw: array<Byte>, modules: Matrix, scale: nat, quietZone: nat, my: nat, mx: nat)
    requires my < |modules| && mx < |modules| && Shows(raw[..], modules, scale, quietZone, my, mx)
    modifies raw
    ensures Shows(raw[..], modules, scale, quietZone, my, mx + 1)
  {
    if mx < |modules[my]| && modules[my][mx] {
      ghost var before := raw[..];
      var size, y0, x0 := Side(modules, scale, quietZone), (my + quietZone) * scale, (mx + quietZone) * scale;
      ModuleFits(modules, scale, quietZone, my);
      ModuleFits(modules, scale, quietZone, mx);
      PaintSquare(raw, size, y0, x0, scale);
      DrawModule(before, raw[..], modules, scale, quietZone, my, mx);
    } else {
      SkipModule(raw[..], modules, scale, quietZone, my, mx);
    }
  }

  lemma SkipModule(raw: seq<Byte>, modules: Matrix, scale: nat, quietZone: nat, my: nat, mx: nat)
    requires Shows(raw, modules, scale, quietZone, my, mx) && !Dark(modules, my, mx)
    ensures Shows(raw, modules, scale, quietZone, my, mx + 1)
  {
  }

  /** Each scanline begins with a zero: no filter. */
  method FilterBytes(raw: array<Byte>, size: nat)
    requires raw.Length == (size + 1) * size
    modifies raw
    ensures forall y :: 0 <= y < size ==> raw[LineStart(size, y)] == 0
    ensures forall y, x :: 0 <= y < size && 0 <= x < size ==> raw[Offset(size, y, x)] == old(raw[Offset(size, y, x)])
  {
    for y := 0 to size
      invariant forall v :: 0 <= v < y ==> raw[LineStart(size, v)] == 0
      invariant forall v, u :: 0 <= v < size && 0 <= u < size ==> raw[Offset(size, v, u)] == old(raw[Offset(size, v, u)])
    {
      StartIsNoPixel(size, y);
      raw[LineStart(size, y)] := 0;
    }
  }

  lemma StartIsNoPixel(size: nat, y: nat)
    requires y < size
    ensures forall v, u :: 0 <= v < size && 0 <= u < size ==> Offset(size, v, u) != LineStart(size, y)
  {
    forall v, u | 0 <= v < size && 0 <= u < size ensures Offset(size, v, u) != LineStart(size, y) {
      if Offset(size, v, u) == LineStart(size, y) {
        SameLine(size, y, v, -1 - u);
      }
    }
  }

  // ---- The file, and reading it back -----------------------------------------------------------------

  /** Eight-bit greyscale, no palette, no interlace. */
  function Header(size: nat): (header: seq<Byte>)
    requires size < LIMIT
    ensures |header| == 13
  {
    BigEndian(size, 4) + BigEndian(size, 4) + [8, 0, 0, 0, 0]
  }

  function File(size: nat, deflated: seq<Byte>): seq<Byte>
    requires size < LIMIT && |deflated| < LIMIT
  {
    SIGNATURE + (Chunk(IHDR, Header(size)) + (Chunk(IDAT, deflated) + Chunk(IEND, [])))
  }

  /** One byte of a scanline: its filter byte, or a pixel. */
  function ScanlineByte(modules: Matrix, scale: nat, quietZone: nat, y: nat, column: nat): Byte {
    if column == 0 || scale == 0 then 0 else Shade(modules, scale, quietZone, y, column - 1)
  }

  function ByteAt(modules: Matrix, scale: nat, quietZone: nat, width: nat, k: nat): Byte
    requires width > 0
  {
    ScanlineByte(modules, scale, quietZone, k / width, k % width)
  }

  /** The scanlines of a symbol, as one sequence: the only raster there is. */
  function Scanlines(modules: Matrix, scale: nat, quietZone: nat): seq<Byte> {
    var size := Side(modules, scale, quietZone);
    seq((size + 1) * size, k requires k >= 0 => ByteAt(modules, scale, quietZone, size + 1, k))
  }

  lemma InLine(size: nat, y: nat, d: nat)
    requires d <= size
    ensures (y * (size + 1) + d) / (size + 1) == y && (y * (size + 1) + d) % (size + 1) == d
  {
    var k := y * (size + 1) + d;
    Quotient(size + 1, y, k);
    assert k == (size + 1) * (k / (size + 1)) + k % (size + 1);
  }

  lemma ScanlinesAreRaster(modules: Matrix, scale: nat, quietZone: nat)
    ensures IsRaster(Scanlines(modules, scale, quietZone), modules, scale, quietZone)
  {
    var size, raw := Side(modules, scale, quietZone), Scanlines(modules, scale, quietZone);
    forall y | 0 <= y < size ensures raw[LineStart(size, y)] == 0 {
      InLine(size, y, 0);
    }
    forall y, x | 0 <= y < size && 0 <= x < size ensures raw[Offset(size, y, x)] == Shade(modules, scale, quietZone, y, x) {
      InLine(size, y, x + 1);
    }
  }

  /** The file a symbol becomes. Its four-byte fields hold the side and the compressed length, or it cannot be written. */
  function PngOf(modules: Matrix, scale: nat, quietZone: nat, deflate: seq<Byte> -> seq<Byte>): Option<seq<Byte>> {
    var size, deflated := Side(modules, scale, quietZone), deflate(Scanlines(modules, scale, quietZone));
    if size < LIMIT && |deflated| < LIMIT then Some(File(size, deflated)) else None
  }

  /** The source's encoder, or none where writing a four-byte field fails. `deflate` compresses the scanlines. */
  method PngFromModules(table: array<Word>, modules: Matrix, scale: nat, quietZone: nat, deflate: seq<Byte> -> seq<Byte>)
    returns (png: Option<seq<Byte>>)
    requires IsTable(table[..])
    ensures png == PngOf(modules, scale, quietZone, deflate)
  {
    var size := Side(modules, scale, quietZone);
    if size >= LIMIT {
      return None;
    }
    var header := MakeChunk(table, IHDR, Header(size));
    var raw := Raster(modules, scale, quietZone);
    ScanlinesAreRaster(modules, scale, quietZone);
    RasterIsUnique(raw[..], Scanlines(modules, scale, quietZone), modules, scale, quietZone);
    var deflated := deflate(raw[..]);
    if |deflated| >= LIMIT {
      return None;
    }
    var data := MakeChunk(table, IDAT, deflated);
    var end := MakeChunk(table, IEND, []);
    return Some(SIGNATURE + (header + (data + end)));
  }

  const SCALE: nat := 8
  const QUIET_ZONE: nat := 4

  /** What the console shows for a terminal text: no symbol, a picture, or the failure of its encoder. */
  datatype Shown = NoSymbol | TooLarge | Picture(png: seq<Byte>)

  function ShownFor(text: string, deflate: seq<Byte> -> seq<Byte>): Shown {
    match ModulesOf(text)
    case None => NoSymbol
    case Some(modules) =>
      match PngOf(modules, SCALE, QUIET_ZONE, deflate)
      case None => TooLarge
      case Some(png) => Picture(png)
  }

  /** The source's `qrDataUrlFromTerminal`, up to the base64 of its data URL. */
  method QrFromTerminal(table: array<Word>, text: string, deflate: seq<Byte> -> seq<Byte>) returns (shown: Shown)
    requires IsTable(table[..])
    ensures shown == ShownFor(text, deflate) && (shown == NoSymbol <==> ModulesOf(text) == None)
  {
    var modules := ModulesFromTerminalQr(text);
    if modules.None? {
      return NoSymbol;
    }
    var png := PngFromModules(table, modules.value, SCALE, QUIET_ZONE, deflate);
    if png.None? {
      return TooLarge;
    }
    return Picture(png.value);
  }

  // ---- The file, byte for byte -----------------------------------------------------------------------

  /** A chunk around its data: the length, the ASCII name, the data and the checksum of name and data. */
  lemma ChunkForm(name: string, kind: seq<Byte>, data: seq<Byte>)
    requires |name| == |kind| == 4 && (forall i :: 0 <= i < 4 ==> kind[i] == name[i] as int) && |data| < 0x1_0000_0000
    ensures var bytes := Chunk(kind, data);
            && |bytes| == |data| + 12 && FromBigEndian(bytes[..4]) == |data|
            && (forall i :: 0 <= i < 4 ==> bytes[4 + i] == name[i] as int)
            && bytes[8..8 + |data|] == data && bytes[8 + |data|..] == CrcBytes(kind + data)
  {
    LengthReadsBack(|data|);
    var length := BigEndian(|data|, 4);
    assert Chunk(kind, data)[..4] == length;
    assert Chunk(kind, data)[4..8] == kind;
  }

  lemma ThreeParts(a: seq<Byte>, b: seq<Byte>, c: seq<Byte>, d: seq<Byte>)
    ensures var all := a + (b + (c + d));
            && all[..|a|] == a && all[|a|..|a| + |b|] == b && all[|a| + |b|..|a| + |b| + |c|] == c && all[|a| + |b| + |c|..] == d
  {
  }

  lemma Names()
    ensures IHDR == Ascii("IHDR") && IDAT == Ascii("IDAT") && IEND == Ascii("IEND")
  {
  }

  /** The signature, then the header with the side twice, eight-bit greyscale, then the data, then the end. */
  lemma FileForm(size: nat, deflated: seq<Byte>)
    requires size < 0x1_0000_0000 && |deflated| < 0x1_0000_0000
    ensures var file := File(size, deflated);
            && |file| == 57 + |deflated|
            && file[..8] == [137, 80, 78, 71, 13, 10, 26, 10]
            && file[8..33] == Chunk(Ascii("IHDR"), BigEndian(size, 4) + BigEndian(size, 4) + [8, 0, 0, 0, 0])
            && file[33..45 + |deflated|] == Chunk(Ascii("IDAT"), deflated)
            && file[45 + |deflated|..] == Chunk(Ascii("IEND"), [])
  {
    Names();
    ThreeParts(SIGNATURE, Chunk(IHDR, Header(size)), Chunk(IDAT, deflated), Chunk(IEND, []));
  }

  datatype Image = Image(size: nat, deflated: seq<Byte>)

  function ReadHeader(header: seq<Byte>): Option<nat> {
    if |header| == 13 && header[8..] == [8, 0, 0, 0, 0] && header[..4] == header[4..8]
    then Some(FromBigEndian(header[..4]))
    else None
  }

  /** The one data chunk and the end marker. */
  function ReadData(bytes: seq<Byte>): Option<seq<Byte>> {
    var data := ParseChunk(bytes);
    if data.Some? && data.value.kind == IDAT && ParseChunk(data.value.rest) == Some(Parsed(IEND, [], []))
    then Some(data.value.data)
    else None
  }

  /** A reader of square greyscale files with one data chunk. */
  function ReadFile(bytes: seq<Byte>): Option<Image> {
    if |bytes| < 8 || bytes[..8] != SIGNATURE then None
    else
      var header := ParseChunk(bytes[8..]);
      if header.None? || header.value.kind != IHDR then None
      else
        var size, data := ReadHeader(header.value.data), ReadData(header.value.rest);
        if size.Some? && data.Some? then Some(Image(size.value, data.value)) else None
  }

  lemma HeaderReadsBack(size: nat)
    requires size < LIMIT
    ensures ReadHeader(Header(size)) == Some(size)
  {
    LengthReadsBack(size);
    var header := Header(size);
    assert header[8..] == [8, 0, 0, 0, 0] && header[..4] == BigEndian(size, 4) && header[4..8] == BigEndian(size, 4);
  }

  lemma DataReadsBack(deflated: seq<Byte>)
    requires |deflated| < LIMIT
    ensures ReadData(Chunk(IDAT, deflated) + Chunk(IEND, [])) == Some(deflated)
  {
    var end := Chunk(IEND, []);
    ChunkReadsBack(IDAT, deflated, end);
    ChunkReadsBack(IEND, [], []);
    assert end + [] == end;
  }

  lemma FileReadsBack(size: nat, deflated: seq<Byte>)
    requires size < LIMIT && |deflated| < LIMIT
    ensures ReadFile(File(size, deflated)) == Some(Image(size, deflated))
  {
    var tail := Chunk(IDAT, deflated) + Chunk(IEND, []);
    var file := File(size, deflated);
    assert file[8..] == Chunk(IHDR, Header(size)) + tail && file[..8] == SIGNATURE;
    ChunkReadsBack(IHDR, Header(size), tail);
    HeaderReadsBack(size);
    DataReadsBack(deflated);
  }

  /** A picture's length tells the size of its symbol. */
  lemma LengthTellsSize(a: Matrix, b: Matrix, scale: nat, quietZone: nat)
    requires scale > 0 && |a| < |b|
    ensures (Side(a, scale, quietZone) + 1) * Side(a, scale, quietZone) < (Side(b, scale, quietZone) + 1) * Side(b, scale, quietZone)
  {
    var x, y := Side(a, scale, quietZone), Side(b, scale, quietZone);
    Monotone(|a| + quietZone * 2 + 1, |b| + quietZone * 2, scale);
    assert x + 1 <= y;
    Monotone(x + 1, y, y + 1);
    assert (x + 1) * (y + 1) > (x + 1) * x;
  }

  /** No two symbols have the same picture, so a scanner that sees it recovers the symbol. */
  lemma PictureTells(raw: seq<Byte>, a: Matrix, b: Matrix, scale: nat, quietZone: nat)
    requires scale > 0 && IsSquare(a) && IsSquare(b)
    requires IsRaster(raw, a, scale, quietZone) && IsRaster(raw, b, scale, quietZone)
    ensures a == b
  {
    if |a| < |b| {
      LengthTellsSize(a, b, scale, quietZone);
    } else if |b| < |a| {
      LengthTellsSize(b, a, scale, quietZone);
    }
    var size := Side(a, scale, quietZone);
    forall j, i | 0 <= j < |a| && 0 <= i < |a| ensures a[j][i] == b[j][i] {
      var y, x := (j + quietZone) * scale, (i + quietZone) * scale;
      ModuleFits(a, scale, quietZone, j);
      ModuleFits(a, scale, quietZone, i);
      Quotient(scale, j + quietZone, y);
      Quotient(scale, i + quietZone, x);
      assert raw[Offset(size, y, x)] == Shade(a, scale, quietZone, y, x) == Shade(b, scale, quietZone, y, x);
    }
    forall j | 0 <= j < |a| ensures a[j] == b[j] {
    }
  }

  /** A symbol printed between its two border lines, among lines that are no part of it. */
  predicate Prints(text: string, before: seq<string>, above: seq<string>, modules: Matrix, below: seq<string>, after: seq<string>) {
    && IsSquare(modules) && IsBorder(above, |modules| + 2) && IsBorder(below, |modules| + 2)
    && Noise(before) && Noise(after)
    && (var lines := before + (above + PrintSymbol(modules) + below) + after;
        lines != [] && OneLiners(lines) && Clean(text) == Join(lines))
    && |modules| >= 28 && !Uniform(modules[0]) && !Uniform(modules[|modules| - 1])
  }

  /** What the console shows for a printed symbol, with the raster and the quiet zone it is drawn with. */
  ghost predicate ShowsPicture(shown: Shown, modules: Matrix, scale: nat, quietZone: nat, side: nat, deflated: seq<Byte>, raw: seq<Byte>) {
    if side > 0xffff_ffff || |deflated| > 0xffff_ffff then shown == TooLarge
    else shown.Picture? && ReadFile(shown.png) == Some(Image(side, deflated)) && IsOnlyPicture(raw, modules, scale, quietZone)
  }

  /** The raster is a picture of this symbol and of no other. */
  ghost predicate IsOnlyPicture(raw: seq<Byte>, modules: Matrix, scale: nat, quietZone: nat) {
    && IsRaster(raw, modules, scale, quietZone)
    && forall other :: IsSquare(other) && IsRaster(raw, other, scale, quietZone) ==> other == modules
  }

  lemma PictureShows(shown: Shown, modules: Matrix, scale: nat, quietZone: nat, side: nat, deflated: seq<Byte>, raw: seq<Byte>)
    requires shown == if side < LIMIT && |deflated| < LIMIT then Picture(File(side, deflated)) else TooLarge
    requires IsOnlyPicture(raw, modules, scale, quietZone)
    ensures ShowsPicture(shown, modules, scale, quietZone, side, deflated, raw)
  {
    if side < LIMIT && |deflated| < LIMIT {
      FileReadsBack(side, deflated);
    }
  }

  lemma PrintedIsShown(text: string, before: seq<string>, above: seq<string>, modules: Matrix, below: seq<string>, after: seq<string>,
                       deflate: seq<Byte> -> seq<Byte>)
    requires Prints(text, before, above, modules, below, after)
    ensures var side, deflated := Side(modules, SCALE, QUIET_ZONE), deflate(Scanlines(modules, SCALE, QUIET_ZONE));
            ShownFor(text, deflate) == if side < LIMIT && |deflated| < LIMIT then Picture(File(side, deflated)) else TooLarge
  {
    PrintedReadsBack(text, before, above, modules, below, after);
  }

  lemma OnlyPicture(raw: seq<Byte>, modules: Matrix, scale: nat, quietZone: nat)
    requires scale > 0 && IsSquare(modules) && raw == Scanlines(modules, scale, quietZone)
    ensures IsOnlyPicture(raw, modules, scale, quietZone)
  {
    ScanlinesAreRaster(modules, scale, quietZone);
    forall other | IsSquare(other) && IsRaster(raw, other, scale, quietZone) ensures other == modules {
      PictureTells(raw, other, modules, scale, quietZone);
    }
  }

  /**
   From the terminal to the scanner: what the console shows for a printed symbol, read as a PNG and inflated,
   is a picture of that symbol and of no other, eight pixels a module with a quiet zone of four modules. The picture
   fails to be written exactly when its side or its compressed length does not fit four bytes.
   */
  lemma ScannedIsPrinted(text: string, before: seq<string>, above: seq<string>, modules: Matrix, below: seq<string>, after: seq<string>,
                         deflate: seq<Byte> -> seq<Byte>, inflate: seq<Byte> -> seq<Byte>, scale: nat, quietZone: nat)
    requires Prints(text, before, above, modules, below, after) && scale == 8 && quietZone == 4
    requires var raw := Scanlines(modules, scale, quietZone); inflate(deflate(raw)) == raw
    ensures var deflated := deflate(Scanlines(modules, scale, quietZone));
            ShowsPicture(ShownFor(text, deflate), modules, scale, quietZone, 8 * (|modules| + 8), deflated, inflate(deflated))
  {
    var side, raw := Side(modules, scale, quietZone), Scanlines(modules, scale, quietZone);
    PrintedIsShown(text, before, above, modules, below, after, deflate);
    OnlyPicture(raw, modules, scale, quietZone);
    SideIs(|modules|, scale, quietZone);
    PictureShows(ShownFor(text, deflate), modules, scale, quietZone, side, deflate(raw), raw);
  }

  lemma SideIs(n: nat, scale: nat, quietZone: nat)
    ensures (n + quietZone * 2) * scale == scale * (quietZone + n + quietZone)
  {
  }

  lemma PixelAt(raw: seq<Byte>, modules: Matrix, scale: nat, quietZone: nat, side: nat, y: nat, x: nat)
    requires IsRaster(raw, modules, scale, quietZone) && side == Side(modules, scale, quietZone) && y < side && x < side
    ensures scale > 0 && |raw| == (side + 1) * side && raw[LineStart(side, y)] == 0
    ensures raw[Offset(side, y, x)] == if Dark(modules, y / scale - quietZone, x / scale - quietZone) then 0 else 255
  {
    assert raw[Offset(side, y, x)] == Shade(modules, scale, quietZone, y, x);
  }

  /**
   A picture, line by line: as many pixels as the modules and the quiet zone take, each line after a zero byte, and each
   pixel zero where its module is black and 255 elsewhere.
   */
  lemma PixelsShow(raw: seq<Byte>, modules: Matrix, scale: nat, quietZone: nat, side: nat, y: nat, x: nat)
    requires IsRaster(raw, modules, scale, quietZone) && side == scale * (quietZone + |modules| + quietZone)
    requires y < side && x < side
    ensures scale > 0 && |raw| == side * (1 + side)
    ensures 0 <= y * (side + 1) < y * (side + 1) + 1 + x < |raw|
    ensures raw[y * (side + 1)] == 0
    ensures raw[y * (side + 1) + 1 + x] == if Dark(modules, y / scale - quietZone, x / scale - quietZone) then 0 else 255
  {
    SideIs(|modules|, scale, quietZone);
    PixelAt(raw, modules, scale, quietZone, side, y, x);
    LineFits(side, y);
  }

  /** The picture is fixed to the last byte: scanlines hold their filter byte and their pixels, nothing else. */
  lemma RasterIsUnique(a: seq<Byte>, b: seq<Byte>, modules: Matrix, scale: nat, quietZone: nat)
    requires IsRaster(a, modules, scale, quietZone) && IsRaster(b, modules, scale, quietZone)
    ensures a == b
  {
    var size := Side(modules, scale, quietZone);
    forall k | 0 <= k < |a| ensures a[k] == b[k] {
      var y, x := Position(size, k);
      if x == 0 {
        assert a[LineStart(size, y)] == b[LineStart(size, y)];
      } else {
        assert a[Offset(size, y, x - 1)] == b[Offset(size, y, x - 1)];
      }
    }
  }

  lemma LineBound(size: nat, y: nat, k: nat)
    requires (size + 1) * y <= k < (size + 1) * size
    ensures y < size
  {
  }

  lemma Position(size: nat, k: nat) returns (y: nat, x: nat)
    requires k < (size + 1) * size
    ensures y < size && x <= size && k == LineStart(size, y) + x
  {
    y, x := k / (size + 1), k % (size + 1);
    assert k == (size + 1) * y + x;
    LineBound(size, y, k);
  }
}
