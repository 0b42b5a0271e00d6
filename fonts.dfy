/** The bitmap font format read by the text rasterizer (Wrappers/fonts.hpp):
    a monospaced table of glyphs for the printable ASCII characters, starting
    at the space character; each glyph is `height` scanlines of
    `(width + 7) / 8` bytes, leftmost pixel in the most significant bit. */
module Fonts {
  import opened Types

  datatype Font = Font(table: seq<bv8>, width: u16, height: u16)

  const FIRST_GLYPH: u8 := 0x20  // ' '
  const LAST_GLYPH: u8 := 0x7E   // '~'
  const GLYPH_COUNT: nat := LAST_GLYPH - FIRST_GLYPH + 1

  predicate IsPrintable(ascii: u8) {
    FIRST_GLYPH <= ascii <= LAST_GLYPH
  }

  /** Bytes per scanline: the width rounded up to whole bytes. */
  function BytesPerLine(width: nat): (bpl: nat)
    ensures 8 * bpl - 8 < width <= 8 * bpl
  {
    (width + 7) / 8
  }

  /** Bytes per glyph. */
  function GlyphSize(font: Font): nat {
    font.height * BytesPerLine(font.width)
  }

  /** A font table that holds all printable glyphs and fits the 31-bit signed
      range in which the glyph offset is computed. */
  predicate WellFormed(font: Font) {
    GLYPH_COUNT * GlyphSize(font) <= |font.table| < 0x8000_0000
  }

  /** The glyph of `ascii` starts at `offset` and lies wholly inside the table. */
  predicate GlyphFits(font: Font, offset: nat) {
    offset + GlyphSize(font) <= |font.table|
  }

  /** Offset of the glyph of `ascii` in the table (displayChar's `offsetInTable`,
      computed in C++ `int` and stored into a `uint32_t`). */
  function GlyphOffset(font: Font, ascii: u8): (offset: u32)
    requires WellFormed(font) && IsPrintable(ascii)
    ensures offset == (ascii - FIRST_GLYPH) * GlyphSize(font)
    ensures GlyphFits(font, offset)
  {
    var index := ascii - FIRST_GLYPH;
    GlyphInTable(index, font.height, BytesPerLine(font.width), |font.table|);
    Wrap32(index * font.height * BytesPerLine(font.width))
  }

  /** Glyphs of distinct characters occupy disjoint byte ranges. */
  lemma GlyphsDisjoint(font: Font, a: u8, b: u8)
    requires WellFormed(font) && IsPrintable(a) && IsPrintable(b) && a < b
    ensures GlyphOffset(font, a) + GlyphSize(font) <= GlyphOffset(font, b)
  {
    var size := GlyphSize(font);
    MulAtMost(a - FIRST_GLYPH + 1, b - FIRST_GLYPH, size);
    assert (a - FIRST_GLYPH + 1) * size == (a - FIRST_GLYPH) * size + size;
  }

  /** Glyph `index` of `height * bpl` bytes ends within a table of `len` bytes
      that holds all glyphs. */
  lemma GlyphInTable(index: nat, height: nat, bpl: nat, len: nat)
    requires index < GLYPH_COUNT && GLYPH_COUNT * (height * bpl) <= len
    ensures index * height * bpl == index * (height * bpl)
    ensures index * (height * bpl) + height * bpl <= len
  {
    var size := height * bpl;
    MulAssoc(index, height, bpl);
    MulAtMost(index + 1, GLYPH_COUNT, size);
    assert (index + 1) * size == index * size + size;
  }

  lemma MulAssoc(a: nat, b: nat, c: nat)
    ensures a * b * c == a * (b * c)
  {
  }

  lemma MulAtMost(a: nat, b: nat, c: nat)
    requires a <= b
    ensures a * c <= b * c
  {
  }

  /** Pixel `j` of a scanline is on when bit `7 - j % 8` of byte `j / 8` is set:
      pixels run left to right from the most significant bit of the first byte. */
  predicate PixelOn(scanline: seq<bv8>, j: nat)
    requires j < 8 * |scanline|
  {
    scanline[j / 8] & ((1 as bv8) << ((7 - j % 8) as bv8)) != 0
  }
}
