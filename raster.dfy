/** The pure parts of the text rasterizer in Wrappers/lcd_display.cpp: the
    big-endian packing of a glyph scanline into a 64-bit word, the pixel rows a
    glyph produces, the start column of a string per alignment mode, and how
    many characters of a string are drawn. The display object that drives
    them is in module Lcd. */
module Raster {
  import opened Types
  import opened Fonts

  /** One call into the display driver's blit functions: `FillRGBRect` with a
      pixel buffer, or `FillRect` with one colour. A pixel is a 32-bit word in
      ARGB8888 format and a value below 0x10000 in RGB565 format. */
  datatype Blit =
    | RgbRect(device: u32, x: u32, y: u32, pixels: seq<bv32>, width: u32, height: u32)
    | SolidRect(device: u32, x: u32, y: u32, width: u32, height: u32, color: bv32)

  // ---------------------------------------------------------------------------
  // Scanline unpacking (drawChar)

  /** The value of `line` after `line <<= 8; line |= b` for each byte `b` in turn. */
  function Pack(bytes: seq<bv8>): (packed: bv64)
    ensures |bytes| > 0 ==> packed & 0xFF == bytes[|bytes| - 1] as bv64
  {
    if |bytes| == 0 then 0
    else (Pack(bytes[..|bytes| - 1]) << 8) | (bytes[|bytes| - 1] as bv64)
  }

  /** Packing one byte more of a sequence shifts in that byte. */
  lemma PackPrefix(bytes: seq<bv8>, k: nat)
    requires k < |bytes|
    ensures Pack(bytes[..k + 1]) == (Pack(bytes[..k]) << 8) | (bytes[k] as bv64)
  {
    assert bytes[..k + 1][..k] == bytes[..k];
  }

  /** Bit `k` of a 64-bit word: the word masked with `(uint64_t)1 << k`. The
      shift amount is below 64, so it is carried as an 8-bit value. */
  predicate Bit(line: bv64, k: nat)
    requires k < 64
  {
    line & ((1 as bv64) << (k as bv8)) != 0
  }

  /** The row drawChar's pixel loop writes for the packed scanline `line`:
      pixel `m` is `fg` where bit `width - m + pad - 1` is set and `bg`
      elsewhere. */
  function RowPixels(line: bv64, width: nat, pad: nat, fg: bv32, bg: bv32): (row: seq<bv32>)
    requires width + pad <= 64
    ensures |row| == width
  {
    seq(width, m requires 0 <= m < width => PixelColor(line, width, pad, fg, bg, m))
  }

  /** Pixel `m` of `RowPixels`. */
  function PixelColor(line: bv64, width: nat, pad: nat, fg: bv32, bg: bv32, m: nat): bv32
    requires m < width && width + pad <= 64
  {
    if Bit(line, width - m + pad - 1) then fg else bg
  }

  /** Bit `8 * count - 1 - j` of a packed scanline of `count` bytes: the bit
      drawChar tests for pixel `j`. */
  predicate LineBit(line: bv64, count: nat, j: nat)
    requires j < 8 * count <= 64
  {
    Bit(line, 8 * count - 1 - j)
  }

  /** Bit `8 * |bytes| - 1 - j` of the packed word is pixel `j` of the scanline:
      the leftmost pixel is the most significant bit of the first byte. */
  lemma {:induction false} PackBit(bytes: seq<bv8>, j: nat)
    requires |bytes| <= 8 && j < 8 * |bytes|
    ensures LineBit(Pack(bytes), |bytes|, j) == PixelOn(bytes, j)
  {
    var n := |bytes|;
    if j < 8 * (n - 1) {
      PackBit(bytes[..n - 1], j);
      PackBitEarlier(bytes, j);
    } else {
      PackBitLast(bytes, j);
    }
  }

  /** A pixel of an earlier byte is shifted up by the last byte's eight bits. */
  lemma PackBitEarlier(bytes: seq<bv8>, j: nat)
    requires 0 < |bytes| <= 8 && j < 8 * (|bytes| - 1)
    requires LineBit(Pack(bytes[..|bytes| - 1]), |bytes| - 1, j) == PixelOn(bytes[..|bytes| - 1], j)
    ensures LineBit(Pack(bytes), |bytes|, j) == PixelOn(bytes, j)
  {
    HighBitOfPack(bytes, 8 * |bytes| - 1 - j);
    PixelOnPrefix(bytes, |bytes| - 1, j);
  }

  /** A pixel of the last byte is that byte's bit, in the low eight bits. */
  lemma PackBitLast(bytes: seq<bv8>, j: nat)
    requires 0 < |bytes| <= 8 && 8 * (|bytes| - 1) <= j < 8 * |bytes|
    ensures LineBit(Pack(bytes), |bytes|, j) == PixelOn(bytes, j)
  {
    var k := 8 * |bytes| - 1 - j;
    LowBitOfPack(bytes, k);
    assert j / 8 == |bytes| - 1 && 7 - j % 8 == k;
  }

  lemma HighBitOfPack(bytes: seq<bv8>, k: nat)
    requires 0 < |bytes| && 8 <= k < 64
    ensures Bit(Pack(bytes), k) == Bit(Pack(bytes[..|bytes| - 1]), k - 8)
  {
    BitOfPackUnfold(bytes, k);
    ShiftInHighBit(Pack(bytes[..|bytes| - 1]), bytes[|bytes| - 1], k);
  }

  /** A bit of the packed word is that bit of the word the last byte was shifted into. */
  lemma BitOfPackUnfold(bytes: seq<bv8>, k: nat)
    requires 0 < |bytes| && k < 64
    ensures Bit(Pack(bytes), k) == Bit((Pack(bytes[..|bytes| - 1]) << 8) | (bytes[|bytes| - 1] as bv64), k)
  {
  }

  lemma ShiftInHighBit(x: bv64, b: bv8, k: nat)
    requires 8 <= k < 64
    ensures Bit((x << 8) | (b as bv64), k) == Bit(x, k - 8)
  {
    BvMinus8(k);
    AsAmount(k);
    AmountValue(k);
    ShiftInHigh(x, b, Amount(k));
  }

  lemma LowBitOfPack(bytes: seq<bv8>, k: nat)
    requires 0 < |bytes| && k < 8
    ensures Bit(Pack(bytes), k) == (bytes[|bytes| - 1] & ((1 as bv8) << (k as bv8)) != 0)
  {
    AsAmount(k);
    AmountValue(k);
    ShiftInLow(Pack(bytes[..|bytes| - 1]), bytes[|bytes| - 1], Amount(k));
  }

  lemma PixelOnPrefix(bytes: seq<bv8>, m: nat, j: nat)
    requires m <= |bytes| && j < 8 * m
    ensures PixelOn(bytes[..m], j) == PixelOn(bytes, j)
  {
    assert bytes[..m][j / 8] == bytes[j / 8];
  }

  lemma BvMinus8(k: nat)
    requires 8 <= k < 64
    ensures (k as bv8) - 8 == (k - 8) as bv8
  {
    AsAmount(k);
    AsAmount(k - 8);
    AmountMinus8(k);
  }

  /** A shift amount below 64 counted up from zero in 8-bit arithmetic; it
      relates `k as bv8` to `(k - 8) as bv8` without converting differences. */
  ghost function Amount(k: nat): bv8
    requires k < 64
  {
    if k == 0 then 0 else Amount(k - 1) + 1
  }

  lemma {:induction false} AmountValue(k: nat)
    requires k < 64
    ensures Amount(k) as int == k
  {
    if k > 0 {
      AmountValue(k - 1);
    }
  }

  lemma {:induction false} AmountMinus8(k: nat)
    requires 8 <= k < 64
    ensures Amount(k) - 8 == Amount(k - 8)
  {
    if k > 8 {
      AmountMinus8(k - 1);
    }
  }

  lemma AsAmount(k: nat)
    requires k < 64
    ensures k as bv8 == Amount(k)
  {
    AmountValue(k);
    assert (Amount(k) as int) as bv8 == Amount(k);
  }

  /** After `x << 8 | b`, bit `a >= 8` is bit `a - 8` of `x`. */
  lemma ShiftInHigh(x: bv64, b: bv8, a: bv8)
    requires 8 <= a < 64
    ensures ((((x << 8) | (b as bv64)) & ((1 as bv64) << a)) != 0) == ((x & ((1 as bv64) << (a - 8))) != 0)
  {
  }

  /** After `x << 8 | b`, bit `a < 8` is bit `a` of `b`. */
  lemma ShiftInLow(x: bv64, b: bv8, a: bv8)
    requires a < 8
    ensures ((((x << 8) | (b as bv64)) & ((1 as bv64) << a)) != 0) == ((b & ((1 as bv8) << a)) != 0)
  {
  }

  /** The inner loop of drawChar: packs `count` bytes from `table[start..]`
      big-endian into one word. */
  method PackScanline(table: seq<bv8>, start: nat, count: nat) returns (line: bv64)
    requires start + count <= |table| && count <= 8
    ensures line == Pack(table[start..start + count])
  {
    ghost var bytes := table[start..start + count];
    line := 0;
    var k := 0;
    while k < count
      invariant k <= count
      invariant line == Pack(bytes[..k])
    {
      PackPrefix(bytes, k);
      line := (line << 8) | (table[start + k] as bv64);
      k := k + 1;
    }
    assert bytes[..count] == bytes;
  }

  /** PackBit for every pixel of the scanline. */
  lemma PackBits(bytes: seq<bv8>)
    requires |bytes| <= 8
    ensures forall j :: 0 <= j < 8 * |bytes| ==> LineBit(Pack(bytes), |bytes|, j) == PixelOn(bytes, j)
  {
    forall j | 0 <= j < 8 * |bytes|
      ensures LineBit(Pack(bytes), |bytes|, j) == PixelOn(bytes, j)
    {
      PackBit(bytes, j);
    }
  }

  /** The bytes of scanline `i` of the glyph at `offset`. */
  function ScanlineBytes(font: Font, offset: nat, i: nat): (bytes: seq<bv8>)
    requires GlyphFits(font, offset) && i < font.height
    ensures |bytes| == BytesPerLine(font.width)
  {
    var bpl := BytesPerLine(font.width);
    MulAtMost(i + 1, font.height, bpl);
    font.table[offset + bpl * i..offset + bpl * i + bpl]
  }

  /** The pixel row of one scanline: `fg` where the bit is set, `bg` elsewhere. */
  function ScanlinePixels(bytes: seq<bv8>, width: nat, fg: bv32, bg: bv32): (pixels: seq<bv32>)
    requires width <= 8 * |bytes|
    ensures |pixels| == width
  {
    seq(width, j requires 0 <= j < width => if PixelOn(bytes, j) then fg else bg)
  }

  /** The blits of one glyph drawn at (x, y): one single-row FillRGBRect per
      scanline, top to bottom, `y` advancing by one in `uint32_t`. */
  function GlyphRows(device: u32, x: u32, y: u32, font: Font, offset: nat, fg: bv32, bg: bv32): (rows: seq<Blit>)
    requires GlyphFits(font, offset)
    ensures |rows| == font.height
  {
    seq(font.height, i requires 0 <= i < font.height =>
      RgbRect(device, x, Wrap32(y + i),
              ScanlinePixels(ScanlineBytes(font, offset, i), font.width, fg, bg), font.width, 1))
  }

  /** Every row of a glyph starts at column `x`, is one scanline high and
      `width` pixels wide; row `i` is at `y + i`, and its pixel `j` is `fg`
      where bit `width - j + pad - 1` of the packed scanline is set and `bg`
      elsewhere, `pad` being the unused low bits of the last byte. */
  lemma GlyphRowAt(device: u32, x: u32, y: u32, font: Font, offset: nat, fg: bv32, bg: bv32, i: nat, j: nat)
    requires GlyphFits(font, offset) && i < font.height && j < font.width
    requires BytesPerLine(font.width) <= 8
    ensures var row := GlyphRows(device, x, y, font, offset, fg, bg)[i];
      var bpl := BytesPerLine(font.width);
      var pad := 8 * bpl - font.width;
      && row.RgbRect? && row.device == device && row.x == x && row.y == Wrap32(y + i)
      && row.width == font.width && row.height == 1 && |row.pixels| == font.width
      && row.pixels[j]
         == if Bit(Pack(ScanlineBytes(font, offset, i)), font.width - j + pad - 1) then fg else bg
  {
    PackBit(ScanlineBytes(font, offset, i), j);
  }

  // ---------------------------------------------------------------------------
  // String layout (displayStringAt)

  /** LCDDisplay::AlignMode, with the enumerators' values. */
  datatype AlignMode = CenterMode | RightMode | LeftMode {
    function Code(): (code: int)
      ensures (code == 1) == this.CenterMode?
      ensures (code == 2) == this.RightMode?
      ensures (code == 3) == this.LeftMode?
    {
      match this
      case CenterMode => 1
      case RightMode => 2
      case LeftMode => 3
    }
  }

  /** The start column before the range check, in `uint32_t` arithmetic;
      `perLine` is `xSize / width` and `n` the length of the text. */
  function RawColumn(mode: AlignMode, xPos: u32, xSize: u32, width: u16, n: u32): (raw: u32)
    requires width > 0
    ensures mode.LeftMode? ==> raw == xPos
    ensures mode.CenterMode? && n <= xSize / width
      ==> raw == Wrap32(xPos + ((xSize / width - n) * width) / 2)
    ensures mode.RightMode? && n <= xSize / width && xPos <= (xSize / width - n) * width
      ==> raw == (xSize / width - n) * width - xPos
  {
    var perLine := xSize / width;
    assert n <= perLine ==> Wrap32(Wrap32(perLine - n) * width) == (perLine - n) * width by {
      if n <= perLine {
        LineFits(xSize, width, n);
      }
    }
    Wrap32AddWrapped(-(xPos as int), Wrap32(Wrap32(perLine - n) * width));
    match mode
    case CenterMode => Wrap32(xPos + Wrap32(Wrap32(perLine - n) * width) / 2)
    case RightMode => Wrap32(Wrap32(-(xPos as int)) + Wrap32(Wrap32(perLine - n) * width))
    case LeftMode => xPos
  }

  /** The start column of displayStringAt: the aligned column, replaced by 1
      when it is 0 or not below 0x8000. */
  function StartColumn(mode: AlignMode, xPos: u32, xSize: u32, width: u16, n: u32): (column: u32)
    requires width > 0
    ensures 1 <= column < 0x8000
    ensures 1 <= RawColumn(mode, xPos, xSize, width, n) < 0x8000 ==> column == RawColumn(mode, xPos, xSize, width, n)
    ensures !(1 <= RawColumn(mode, xPos, xSize, width, n) < 0x8000) ==> column == 1
  {
    var raw := RawColumn(mode, xPos, xSize, width, n);
    if raw < 1 || raw >= 0x8000 then 1 else raw
  }

  /** Left alignment starts at `xPos` when that is a valid column, else at 1. */
  lemma LeftColumn(xPos: u32, xSize: u32, width: u16, n: u32)
    requires width > 0
    ensures StartColumn(LeftMode, xPos, xSize, width, n) == if 1 <= xPos < 0x8000 then xPos else 1
  {
  }

  /** When the text fits on a line, centring adds half of the unused line width
      to `xPos` (rounded down), in plain integer arithmetic: the gaps left and
      right of the text within `[xPos, xPos + perLine * width)` differ by at most one. */
  lemma CenterColumn(xPos: u32, xSize: u32, width: u16, n: u32)
    requires width > 0 && n <= xSize / width
    requires 1 <= xPos + ((xSize / width - n) * width) / 2 < 0x8000
    ensures var column := StartColumn(CenterMode, xPos, xSize, width, n);
      var left := column - xPos;
      var right := (xSize / width) * width - n * width - left;
      && column == xPos + ((xSize / width - n) * width) / 2
      && left <= right <= left + 1
  {
    var perLine := xSize / width;
    LineFits(xSize, width, n);
    assert (perLine - n) * width == perLine * width - n * width;
  }

  /** When the text plus an `xPos` margin fits on a line, right alignment ends
      the text `xPos` pixels before the end of the last whole character cell. */
  lemma RightColumn(xPos: u32, xSize: u32, width: u16, n: u32)
    requires width > 0 && n <= xSize / width
    requires 1 <= (xSize / width - n) * width - xPos < 0x8000
    ensures StartColumn(RightMode, xPos, xSize, width, n) + n * width + xPos == (xSize / width) * width
  {
    var perLine := xSize / width;
    LineFits(xSize, width, n);
    var used := (perLine - n) * width;
    assert Wrap32(Wrap32(perLine - n) * width) == used;
    Wrap32AddWrapped(-(xPos as int), used);
    assert perLine * width == used + n * width;
  }

  /** Where the right-aligned column would be negative (a margin `xPos` wider
      than the free space), the unsigned result is huge and the range check puts
      the text at column 1. */
  lemma RightColumnUnderflow(xPos: u32, xSize: u32, width: u16, n: u32)
    requires width > 0 && n <= xSize / width
    requires (xSize / width - n) * width < xPos < 0xFFFF_8000
    ensures StartColumn(RightMode, xPos, xSize, width, n) == 1
  {
    var perLine := xSize / width;
    LineFits(xSize, width, n);
    var used := (perLine - n) * width;
    assert Wrap32(Wrap32(perLine - n) * width) == used;
    Wrap32AddWrapped(-(xPos as int), used);
    assert Wrap32(used - xPos) == TWO_TO_THE_32 + used - xPos;
  }

  /** Text longer than a line wraps `perLine - n` around in `uint32_t`; centring
      then yields a column of at least 0x8000, so the text starts at column 1. */
  lemma CenterColumnOverlong(xPos: u32, xSize: u32, width: u16, n: u32)
    requires width > 0 && xSize / width < n
    requires (n - xSize / width) * width <= 0x1_0000 && xPos < 0x7FFF_0000
    ensures StartColumn(CenterMode, xPos, xSize, width, n) == 1
  {
    var perLine := xSize / width;
    WrapNegativeProduct(n - perLine, width);
  }

  /** A negative count `-d` stored in `uint32_t` and multiplied by `w` wraps to
      `2^32 - d * w` when that product is small. */
  lemma WrapNegativeProduct(d: int, w: int)
    requires 1 <= d && 1 <= w && d * w <= 0x1_0000
    ensures Wrap32(Wrap32(-d) * w) == TWO_TO_THE_32 - d * w
  {
    MulAtMost(1, w, d);
    assert Wrap32(-d) == TWO_TO_THE_32 - d;
    assert (TWO_TO_THE_32 - d) * w == -(d * w) + w * TWO_TO_THE_32;
    ModShift(-(d * w), w);
  }

  /** `n` cells of `width` fit in `xSize` when `n <= xSize / width`. */
  lemma LineFits(xSize: u32, width: u16, n: nat)
    requires width > 0 && n <= xSize / width
    ensures n * width <= (xSize / width) * width <= xSize
    ensures (xSize / width - n) * width <= xSize
  {
    MulAtMost(n, xSize / width, width);
    MulAtMost(xSize / width - n, xSize / width, width);
  }

  // ---------------------------------------------------------------------------
  // Walking the string

  /** Length of a NUL-terminated string (the counting loop of displayStringAt). */
  function Strlen(text: seq<u8>): (n: nat)
    requires 0 in text
    ensures n < |text| && text[n] == 0
    ensures forall k :: 0 <= k < n ==> text[k] != 0
  {
    if text[0] == 0 then 0 else 1 + Strlen(text[1..])
  }

  /** The width guard of the drawing loop for character `i`:
      `((lcdXsize_ - i * width) & 0xFFFF) >= width` in `uint32_t`. For a
      character that starts within a surface narrower than 0x10000 pixels,
      the guard holds exactly when one more whole cell fits. */
  predicate RoomFor(xSize: u32, width: u16, i: nat): (room: bool)
    ensures 0 < width && xSize < 0x1_0000 && i <= xSize / width ==> (room <==> i < xSize / width)
  {
    var room := Wrap32(xSize - Wrap32(i * width)) % 0x1_0000 >= width;
    if 0 < width && xSize < 0x1_0000 && i <= xSize / width then
      RoomForNarrow(xSize, width, i);
      room
    else
      room
  }

  /** The index at which the drawing loop, started at character `i`, stops:
      the first index at which the text ends or the width guard fails. */
  function DrawnFrom(text: seq<u8>, xSize: u32, width: u16, i: nat): (stop: nat)
    requires 0 in text && i <= Strlen(text)
    ensures i <= stop <= Strlen(text)
    decreases Strlen(text) - i
  {
    if text[i] != 0 && RoomFor(xSize, width, i) then DrawnFrom(text, xSize, width, i + 1) else i
  }

  /** The loop passes the width guard at every index it draws, and stops
      either at the end of the text or at the first index that fails it. */
  lemma {:induction false} DrawnFromStops(text: seq<u8>, xSize: u32, width: u16, i: nat)
    requires 0 in text && i <= Strlen(text)
    ensures forall k :: i <= k < DrawnFrom(text, xSize, width, i) ==> RoomFor(xSize, width, k)
    ensures DrawnFrom(text, xSize, width, i) < Strlen(text) ==> !RoomFor(xSize, width, DrawnFrom(text, xSize, width, i))
    decreases Strlen(text) - i
  {
    if text[i] != 0 && RoomFor(xSize, width, i) {
      DrawnFromStops(text, xSize, width, i + 1);
    }
  }

  /** How many characters displayStringAt draws. */
  function DrawnCount(text: seq<u8>, xSize: u32, width: u16): (count: nat)
    requires 0 in text
    ensures count <= Strlen(text)
    ensures forall k :: 0 <= k < count ==> RoomFor(xSize, width, k)
    ensures count < Strlen(text) ==> !RoomFor(xSize, width, count)
  {
    DrawnFromStops(text, xSize, width, 0);
    DrawnFrom(text, xSize, width, 0)
  }

  /** On a surface narrower than 0x10000 pixels the masked guard is exact: the
      loop draws as many characters as the text has, but at most the number of
      whole cells `xSize / width` that fit. Longer text is cut, never wrapped. */
  lemma DrawnCountNarrowSurface(text: seq<u8>, xSize: u32, width: u16)
    requires 0 in text && 0 < width && xSize < 0x1_0000
    ensures DrawnCount(text, xSize, width) == Min(Strlen(text), xSize / width)
  {
    DrawnFromNarrow(text, xSize, width, 0);
  }

  function Min(a: nat, b: nat): nat {
    if a < b then a else b
  }

  lemma {:induction false} DrawnFromNarrow(text: seq<u8>, xSize: u32, width: u16, i: nat)
    requires 0 in text && 0 < width && xSize < 0x1_0000
    requires i <= Min(Strlen(text), xSize / width)
    ensures DrawnFrom(text, xSize, width, i) == Min(Strlen(text), xSize / width)
    decreases Strlen(text) - i
  {
    var bound := Min(Strlen(text), xSize / width);
    if i < bound {
      DrawnFromNarrow(text, xSize, width, i + 1);
    }
  }

  /** The masked guard on a surface narrower than 0x10000 pixels. */
  lemma RoomForNarrow(xSize: u32, width: u16, i: nat)
    requires 0 < width && xSize < 0x1_0000 && i <= xSize / width
    ensures Wrap32(xSize - Wrap32(i * width)) % 0x1_0000 >= width <==> i < xSize / width
  {
    var q := xSize / width;
    var r := xSize % width;
    LineFits(xSize, width, i);
    assert xSize == q * width + r;
    assert xSize - i * width == (q - i) * width + r;
    if i < q {
      MulAtMost(1, q - i, width);
    }
  }

  lemma MulStep(n: nat, h: nat)
    requires 0 < n
    ensures n * h == (n - 1) * h + h
  {
  }

  /** Position `i` of block `k` when every block holds `h` elements. */
  function At(k: nat, h: nat, i: nat): nat {
    k * h + i
  }

  /** Index arithmetic of row `k * h + i` among `n` blocks of `h` rows. */
  lemma RowIndex(k: nat, i: nat, n: nat, h: nat)
    requires k < n && i < h
    ensures n * h == (n - 1) * h + h
    ensures k * h + i < n * h
    ensures k < n - 1 ==> k * h + i < (n - 1) * h
  {
    MulAtMost(k + 1, n, h);
    assert (k + 1) * h == k * h + h;
    if k < n - 1 {
      MulAtMost(k + 1, n - 1, h);
    }
  }

  /** The first `n` characters of `text` all have a glyph in the font. */
  predicate PrintablePrefix(text: seq<u8>, n: nat)
    requires n <= |text|
  {
    forall k :: 0 <= k < n ==> IsPrintable(text[k])
  }

  /** The column of character `k` of a string started at `column`:
      `column + k * width` in `uint32_t`. */
  function CharColumn(column: u32, width: u16, k: nat): u32 {
    Wrap32(column + k * width)
  }

  /** The blits of the first `n` characters, in drawing order: character
      `k` is drawn at column `column + k * width` (in `uint32_t`), all at row `y`. */
  function StringRows(device: u32, text: seq<u8>, n: nat, column: u32, y: u32, font: Font, fg: bv32, bg: bv32): (rows: seq<Blit>)
    requires WellFormed(font) && n <= |text|
    requires PrintablePrefix(text, n)
    ensures |rows| == n * font.height  // one row per scanline of each character
  {
    if n == 0 then []
    else
      MulStep(n, font.height);
      StringRows(device, text, n - 1, column, y, font, fg, bg)
      + GlyphRows(device, CharColumn(column, font.width, n - 1), y, font, GlyphOffset(font, text[n - 1]), fg, bg)
  }

  /** Row `k * height + i` of the first `n` characters is scanline `i` of the
      glyph of character `k`, placed at its column. */
  lemma {:induction false} StringRowsAt(device: u32, text: seq<u8>, n: nat, column: u32, y: u32, font: Font, fg: bv32, bg: bv32, k: nat, i: nat)
    requires WellFormed(font) && n <= |text|
    requires PrintablePrefix(text, n)
    requires k < n && i < font.height
    ensures At(k, font.height, i) < n * font.height
    ensures StringRows(device, text, n, column, y, font, fg, bg)[At(k, font.height, i)]
         == GlyphRows(device, CharColumn(column, font.width, k), y, font, GlyphOffset(font, text[k]), fg, bg)[i]
  {
    RowIndex(k, i, n, font.height);
    if k < n - 1 {
      StringRowsAt(device, text, n - 1, column, y, font, fg, bg, k, i);
    }
  }

  /** Drawing more characters only appends: the rows of the first `m`
      characters are a prefix of those of the first `n`. */
  lemma {:induction false} StringRowsPrefix(device: u32, text: seq<u8>, m: nat, n: nat, column: u32, y: u32, font: Font, fg: bv32, bg: bv32)
    requires WellFormed(font) && m <= n <= |text|
    requires PrintablePrefix(text, n)
    ensures StringRows(device, text, m, column, y, font, fg, bg)
         <= StringRows(device, text, n, column, y, font, fg, bg)
  {
    if m < n {
      StringRowsPrefix(device, text, m, n - 1, column, y, font, fg, bg);
    }
  }
}
