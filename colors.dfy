/** The two colour conversion macros of the display wrapper
    (Wrappers/lcd_display.cpp, CONVERTARGB88882RGB565 and CONVERTRGB5652ARGB8888).
    A colour is a 32-bit word: alpha in bits 31..24, red 23..16, green 15..8,
    blue 7..0; an RGB565 value keeps red in bits 15..11, green 10..5, blue 4..0. */
module Colors {

  /** CONVERTARGB88882RGB565: truncates each 8-bit channel to its top 5/6/5 bits. */
  function ToRgb565(color: bv32): (r: bv32)
    ensures r < 0x1_0000
    ensures r & 0x1F == (color & 0xFF) >> 3
    ensures (r >> 5) & 0x3F == ((color >> 8) & 0xFF) >> 2
    ensures r >> 11 == ((color >> 16) & 0xFF) >> 3
  {
    (((color & 0xFF) >> 3) & 0x1F)
    | (((((color & 0xFF00) >> 8) >> 2) & 0x3F) << 5)
    | (((((color & 0xFF_0000) >> 16) >> 3) & 0x1F) << 11)
  }

  /** Widens a 5-bit channel to 8 bits: `(c * 527 + 23) >> 6`. */
  function Expand5(c: bv32): (r: bv32)
    requires c < 0x20
    ensures r < 0x100
    ensures r >> 3 == c
  {
    ((c * 527) + 23) >> 6
  }

  /** Widens a 6-bit channel to 8 bits: `(c * 259 + 33) >> 6`. */
  function Expand6(c: bv32): (r: bv32)
    requires c < 0x40
    ensures r < 0x100
    ensures r >> 2 == c
  {
    ((c * 259) + 33) >> 6
  }

  /** CONVERTRGB5652ARGB8888: widens the three fields of a 565 value and sets
      the alpha byte to 0xFF. */
  function ToArgb8888(color: bv32): (r: bv32)
    ensures r >> 24 == 0xFF
    ensures ((r >> 16) & 0xFF) >> 3 == (color >> 11) & 0x1F
    ensures ((r >> 8) & 0xFF) >> 2 == (color >> 5) & 0x3F
    ensures (r & 0xFF) >> 3 == color & 0x1F
  {
    (Expand5((color >> 11) & 0x1F) << 16)
    | (Expand6((color >> 5) & 0x3F) << 8)
    | Expand5(color & 0x1F)
    | 0xFF00_0000
  }

  /** Converting a 16-bit RGB565 value to ARGB8888 and back gives the value back, bit for bit. */
  lemma RoundTrip565(v: bv32)
    requires v < 0x1_0000
    ensures ToRgb565(ToArgb8888(v)) == v
  {
    BlueRoundTrip(v);
    GreenRoundTrip(v);
    RedRoundTrip(v);
    Same565(ToRgb565(ToArgb8888(v)), v);
  }

  lemma BlueRoundTrip(v: bv32)
    ensures ToRgb565(ToArgb8888(v)) & 0x1F == v & 0x1F
  {
  }

  lemma GreenRoundTrip(v: bv32)
    ensures (ToRgb565(ToArgb8888(v)) >> 5) & 0x3F == (v >> 5) & 0x3F
  {
  }

  lemma RedRoundTrip(v: bv32)
    ensures ToRgb565(ToArgb8888(v)) >> 11 == (v >> 11) & 0x1F
  {
  }

  /** Two 16-bit values with the same red, green and blue fields are equal. */
  lemma Same565(a: bv32, b: bv32)
    requires a < 0x1_0000 && b < 0x1_0000
    requires a & 0x1F == b & 0x1F
    requires (a >> 5) & 0x3F == (b >> 5) & 0x3F
    requires a >> 11 == (b >> 11) & 0x1F
    ensures a == b
  {
  }

  /** The alpha byte plays no part in the 565 truncation. */
  lemma ToRgb565IgnoresAlpha(color: bv32, alpha: bv32)
    requires alpha < 0x100
    ensures ToRgb565((color & 0x00FF_FFFF) | (alpha << 24)) == ToRgb565(color)
  {
  }

  /** Truncation is idempotent on what it produces: a 565 colour widened and
      truncated again is the same 565 colour. */
  lemma TruncateWidenTruncate(color: bv32)
    ensures ToRgb565(ToArgb8888(ToRgb565(color))) == ToRgb565(color)
  {
    RoundTrip565(ToRgb565(color));
  }
}
