# LCDDisplay text rasterizer

A Dafny model of the bitmap text path of the `LCDDisplay` wrapper for an
STM32H7 discovery board (`Wrappers/lcd_display.cpp`, `Wrappers/lcd_display.hpp`,
`Wrappers/fonts.hpp`). It covers:

- the two colour macros, ARGB8888 to RGB565 and back;
- the per-layer draw context (text colour, background colour, font) and its setters;
- glyph lookup in a monospaced, bit-packed font table;
- `drawChar`, which packs each scanline big-endian into a 64-bit word, tests one
  bit per pixel, fills a 48-entry row buffer and hands one row per scanline to the
  driver;
- `displayStringAt`, which counts the string, aligns it, clamps the start column
  and walks the characters until the text ends or the 16-bit width guard fails.

The driver's `FillRect`/`FillRGBRect` calls are recorded in a log of blits,
`LcdDisplay.sink`. Each drawing method is specified by what it appends to that log.

Modules:

- `Types`: the integer widths and the `uint32_t` wrap-around, `Wrap32`.
- `Colors`: the two colour macros, on `bv32`.
- `Fonts`: the font layout, the glyph offset and the MSB-first pixel order.
- `Raster`: the pure specification functions of the rasterizer.
  - Blit rows: scanline packing, glyph rows.
  - Layout: start column, number of characters drawn, rows of a string.
- `Lcd`: the `LcdDisplay` class.
  - Fields:
    - the two-entry `drawProp` array of `LcdContext`;
    - `currentLayer`, `device`, `xSize`, `ySize` and `pixelFormat`;
    - the blit log.
  - Methods: the setters, `fillRect`, `fillRGBRect`, `drawChar`, `displayChar`,
    `displayStringAt` and `displayStringAtLine`.
  - Each loop of the C++ is a `while` loop with its invariants.

Unsigned 32-bit arithmetic is written out with `Wrap32` wherever it matters: the
glyph offset, the alignment formulas, the column advance, `yPos++` and the line
number product. Colours and the packed scanline are bitvectors.

## Model

| member | source | states |
|---|---|---|
| Colors.ToRgb565 | Wrappers/lcd_display.cpp:53-56 | The result is below 0x10000 and holds the top 5/6/5 bits of the blue, green and red bytes in bits 4..0, 10..5 and 15..11 |
| Colors.Expand5 | Wrappers/lcd_display.cpp:58-61 | `(c * 527 + 23) >> 6` of a 5-bit channel fits in a byte and truncates back to `c` |
| Colors.Expand6 | Wrappers/lcd_display.cpp:58-61 | `(c * 259 + 33) >> 6` of a 6-bit channel fits in a byte and truncates back to `c` |
| Colors.ToArgb8888 | Wrappers/lcd_display.cpp:58-61 | Alpha is always 0xFF, and each widened channel's top 5/6/5 bits are the corresponding RGB565 field |
| Colors.RoundTrip565 | Wrappers/lcd_display.cpp:53-61 | For every 16-bit value, converting to ARGB8888 and back gives the value back |
| Colors.BlueRoundTrip | Wrappers/lcd_display.cpp:53-61 | The round trip keeps the blue field |
| Colors.GreenRoundTrip | Wrappers/lcd_display.cpp:53-61 | The round trip keeps the green field |
| Colors.RedRoundTrip | Wrappers/lcd_display.cpp:53-61 | The round trip keeps the red field |
| Colors.Same565 | Wrappers/lcd_display.cpp:53-56 | Two 16-bit values with equal red, green and blue fields are equal |
| Colors.ToRgb565IgnoresAlpha | Wrappers/lcd_display.cpp:53-56 | Replacing the alpha byte does not change the RGB565 value |
| Colors.TruncateWidenTruncate | Wrappers/lcd_display.cpp:53-61 | An RGB565 colour widened and truncated again is unchanged |
| Fonts.BytesPerLine | Wrappers/lcd_display.cpp:726 | `(width + 7) / 8` is the least number of bytes holding `width` bits |
| Fonts.GlyphOffset | Wrappers/lcd_display.cpp:709-713 | The `uint32_t` offset equals `(ascii - ' ') * height * bytesPerLine` without wrapping, and the whole glyph lies inside a well-formed table |
| Fonts.GlyphsDisjoint | Wrappers/lcd_display.cpp:710-711 | Glyphs of two different printable characters occupy disjoint byte ranges |
| Fonts.GlyphInTable | Wrappers/lcd_display.cpp:710-711 | The glyph of any index below 95 ends within a table that holds 95 glyphs |
| Raster.Pack | Wrappers/lcd_display.cpp:734-738 | The value `line` holds after the shift-in loop over a scanline's bytes; the last byte shifted in is its low eight bits |
| Raster.PackScanline | Wrappers/lcd_display.cpp:734-738 | The shift-in loop leaves in `line` the big-endian packing of the scanline's bytes |
| Raster.PackPrefix | Wrappers/lcd_display.cpp:736-737 | Packing one more byte shifts the word left by 8 and ors in the byte |
| Raster.PackBit | Wrappers/lcd_display.cpp:734-745 | Bit `8 * bpl - 1 - j` of the packed word is pixel `j` of the scanline (MSB of the first byte is pixel 0) |
| Raster.PackBits | Wrappers/lcd_display.cpp:734-745 | The same, for every pixel of a scanline |
| Raster.PackBitEarlier | Wrappers/lcd_display.cpp:734-738 | A pixel of an earlier byte keeps its bit after the last byte is shifted in |
| Raster.PackBitLast | Wrappers/lcd_display.cpp:734-738 | A pixel of the last byte is that byte's bit in the low eight bits |
| Raster.HighBitOfPack | Wrappers/lcd_display.cpp:736-737 | Bit `k >= 8` of a packing is bit `k - 8` of the packing without the last byte |
| Raster.LowBitOfPack | Wrappers/lcd_display.cpp:736-737 | Bit `k < 8` of a packing is bit `k` of the last byte |
| Raster.ShiftInHighBit | Wrappers/lcd_display.cpp:736-737 | After `line <<= 8; line \|= b`, bit `k >= 8` is the old bit `k - 8` |
| Raster.GlyphRows | Wrappers/lcd_display.cpp:729-769 | A glyph produces exactly `height` blits |
| Raster.GlyphRowAt | Wrappers/lcd_display.cpp:726-767 | Row `i` of a glyph: <br>• is a one-row `FillRGBRect` at column `x` and row `y + i` (in `uint32_t`), `width` pixels wide; <br>• its pixel `j` is the text colour exactly when bit `width - j + pad - 1` of the packed scanline is set, and the background colour otherwise |
| Raster.RowPixels | Wrappers/lcd_display.cpp:742-751 | The row the pixel loop writes has `width` entries |
| Raster.AlignMode.Code | Wrappers/lcd_display.hpp:61-65 | Each mode has its own enumerator value: centre 1, right 2, left 3 |
| Raster.RawColumn | Wrappers/lcd_display.cpp:658-680 | The aligned column before the range check, in `uint32_t`: left is `xPos`; for text that fits, centre is `xPos` plus half the unused width, and right is the unused width minus `xPos` when that is not negative |
| Raster.StartColumn | Wrappers/lcd_display.cpp:658-685 | The start column always lies in `[1, 0x7FFF]`; it is the aligned column exactly when that lies in `[1, 0x7FFF]`, and 1 otherwise |
| Raster.LeftColumn | Wrappers/lcd_display.cpp:667-685 | Left alignment starts at `xPos` when `1 <= xPos < 0x8000`, at 1 otherwise |
| Raster.CenterColumn | Wrappers/lcd_display.cpp:661-665 | For text that fits on a line, the column is `xPos` plus half the unused width, and the unused cells left and right of the text differ by at most one pixel |
| Raster.RightColumn | Wrappers/lcd_display.cpp:671-675 | For text that fits with margin `xPos`, the text ends `xPos` pixels before the end of the last whole cell |
| Raster.RightColumnUnderflow | Wrappers/lcd_display.cpp:671-685 | When `xPos` exceeds the free width, the `uint32_t` column wraps past 0x8000 and the text starts at column 1 |
| Raster.CenterColumnOverlong | Wrappers/lcd_display.cpp:661-685 | Text longer than a line makes `perLine - n` wrap, and centred text then starts at column 1 |
| Raster.WrapNegativeProduct | Wrappers/lcd_display.cpp:661-665 | A small negative count stored in `uint32_t` and multiplied by `w` is `2^32 - d * w` |
| Raster.LineFits | Wrappers/lcd_display.cpp:658 | `n <= xSize / width` whole cells fit within `xSize` |
| Raster.Strlen | Wrappers/lcd_display.cpp:650-655 | The length is the index of the first NUL; every earlier character is non-NUL |
| Raster.DrawnCount | Wrappers/lcd_display.cpp:688-699 | The number of characters displayStringAt draws: at most the string length, every drawn index passed the width guard, and the loop ended at the NUL or at the first index that fails the guard |
| Raster.DrawnFrom | Wrappers/lcd_display.cpp:688-699 | The drawing loop started at `i` stops at or after `i`, and no later than the end of the text |
| Raster.DrawnFromStops | Wrappers/lcd_display.cpp:688-699 | The width guard held for every character drawn, and the loop stops either at the NUL or at the first index where the guard fails |
| Raster.DrawnCountNarrowSurface | Wrappers/lcd_display.cpp:688-699 | On a surface narrower than 0x10000 pixels, the number drawn is `min(strlen, xSize / width)`: the text is cut, never wrapped |
| Raster.DrawnFromNarrow | Wrappers/lcd_display.cpp:688-699 | The same count for a loop started at any `i` up to that bound |
| Raster.RoomFor | Wrappers/lcd_display.cpp:689-690 | The masked width guard `((xSize - i * width) & 0xFFFF) >= width` in `uint32_t`; on a surface narrower than 0x10000 pixels, for a character that starts within it, the guard holds exactly when one more whole cell fits |
| Raster.RoomForNarrow | Wrappers/lcd_display.cpp:689-690 | The same narrow-surface fact, stated on the guard's expression |
| Raster.StringRows | Wrappers/lcd_display.cpp:688-699 | The blits that drawing the first `n` characters produces, in order; there are `n * height` of them |
| Raster.StringRowsAt | Wrappers/lcd_display.cpp:688-699 | Blit `k * height + i` of a string is scanline `i` of character `k`'s glyph, drawn at column `column + k * width` (in `uint32_t`) |
| Raster.StringRowsPrefix | Wrappers/lcd_display.cpp:688-699 | Drawing more characters only appends blits |
| Types.Wrap32 | Wrappers/lcd_display.hpp:132-136 | A `uint32_t` keeps any value in range and otherwise a value congruent to it modulo 2^32 |
| Types.Wrap32AddWrapped | Wrappers/lcd_display.cpp:693 | Adding to an already wrapped value wraps like adding to the unwrapped one |
| Lcd.Ink | Wrappers/lcd_display.cpp:740-767 | In RGB565 format, the written colour is a 16-bit value that survives the round trip. Its red, green and blue fields hold the top 5, 6 and 5 bits of the colour's channels. In any other format it is the colour itself |
| Lcd.LcdDisplay.constructor | Wrappers/lcd_display.hpp:120-136 | There are two draw contexts, both blue on white with a null font. Layer 0 is current, and the device, sizes and pixel format are 0 |
| Lcd.LcdDisplay.Context | Wrappers/lcd_display.hpp:129-132 | The current context is one of the two entries of `drawProp` |
| Lcd.LcdDisplay.GetFont | Wrappers/lcd_display.cpp:557 | Returns the font of the current layer |
| Lcd.LcdDisplay.GetWidth | Wrappers/lcd_display.cpp:563 | Returns the surface width |
| Lcd.LcdDisplay.GetHeight | Wrappers/lcd_display.cpp:569 | Returns the surface height |
| Lcd.LcdDisplay.InitSurface | Wrappers/lcd_display.cpp:253-255 | Records the width, height and pixel format the driver reports |
| Lcd.LcdDisplay.SetFont | Wrappers/lcd_display.cpp:551 | Only the current layer's font changes. The other fields and the other layer are unchanged |
| Lcd.LcdDisplay.SetTextColor | Wrappers/lcd_display.cpp:583-585 | Only the current layer's text colour changes. The other fields and the other layer are unchanged |
| Lcd.LcdDisplay.SetBackColor | Wrappers/lcd_display.cpp:591-593 | Only the current layer's background colour changes. The other fields and the other layer are unchanged |
| Lcd.LcdDisplay.ComputeDisplayLineNumber | Wrappers/lcd_display.cpp:575-577 | The row is `line * height`: exactly when the product fits `uint32_t`, and modulo 2^32 otherwise |
| Lcd.LcdDisplay.FillRect | Wrappers/lcd_display.cpp:603-612 | Appends one solid rectangle, coloured per the pixel-format rule of `Ink` |
| Lcd.LcdDisplay.FillRgbRect | Wrappers/lcd_display.cpp:620-624 | Appends one pixel-buffer rectangle |
| Lcd.LcdDisplay.DrawChar | Wrappers/lcd_display.cpp:721-770 | Appends exactly the glyph's rows (`GlyphRows`) in the current layer's colours and pixel format |
| Lcd.LcdDisplay.DrawScanline | Wrappers/lcd_display.cpp:731-767 | One pass of the scanline loop appends row `i` of the glyph |
| Lcd.LcdDisplay.UnpackRow | Wrappers/lcd_display.cpp:741-752 | The 48-entry buffer's first `width` entries are the text or background colour per the scanline's bits |
| Lcd.LcdDisplay.DisplayChar | Wrappers/lcd_display.cpp:709-713 | Appends the rows of the glyph of `ascii`, read at its table offset |
| Lcd.LcdDisplay.DisplayStringAt | Wrappers/lcd_display.cpp:646-700 | Appends the rows of the first `DrawnCount` characters, starting at `StartColumn` for the mode and the string length |
| Lcd.LcdDisplay.DrawChars | Wrappers/lcd_display.cpp:688-699 | The drawing loop appends the rows of exactly the characters the guard admits |
| Lcd.LcdDisplay.DisplayNextChar | Wrappers/lcd_display.cpp:692-694 | Drawing one character extends the string's rows by that character, and the next column is `column + (i + 1) * width` in `uint32_t` |
| Lcd.LcdDisplay.DisplayStringAtLine | Wrappers/lcd_display.cpp:631-633 | Draws from column 10 before alignment, on the row `line * height` |
| Lcd.CountChars | Wrappers/lcd_display.cpp:650-655 | The counting loop returns the string's length |
| Lcd.AlignColumn | Wrappers/lcd_display.cpp:658-685 | The alignment switch and range check compute `StartColumn` |
| Lcd.DrawnStep | Wrappers/lcd_display.cpp:689-690 | A character that passes the guard is drawn, and the loop's stopping index is unchanged |
| Lcd.DrawnStop | Wrappers/lcd_display.cpp:689-690 | Where the guard fails, the loop stops |
| Lcd.NextColumn | Wrappers/lcd_display.cpp:694 | `refcolumn += width` keeps `refcolumn == column + i * width` in `uint32_t` |
| Lcd.NextRow | Wrappers/lcd_display.cpp:754 | `yPos++` keeps the row at `yPos + i` in `uint32_t` |
| Lcd.ScanlineInGlyph | Wrappers/lcd_display.cpp:731-737 | Every byte of scanline `i` of a glyph that fits lies inside the table |
| Lcd.GlyphRowFromLine | Wrappers/lcd_display.cpp:731-754 | Row `i` of the glyph is the row the pixel loop writes for the packed scanline `i` |
| Lcd.ScanlineRow | Wrappers/lcd_display.cpp:742-751 | The bit-tested row of a packed scanline is the scanline's MSB-first pixel row |
| Lcd.RowPixelsOf | Wrappers/lcd_display.cpp:742-751 | A buffer whose every entry passed the bit test is that row |
| Lcd.PixelTest | Wrappers/lcd_display.cpp:743-745 | The mask `1 << (width - j + pad - 1)` selects pixel `j` of the scanline |

## Left out

- Initialisation and hardware access are not part of this model:
  - `init`, `MPU_Config`, `mspInit`, `ltdcInit`, `LCD_LayerInit`;
  - the DSI command helpers, `refreshLCD` and `displayPicture`.
  They are fixed HAL/BSP register and DMA sequences. `InitSurface` stands for the three driver queries in `init` that set the surface size and pixel format.
- `displayWelcome`, `fillDisplay` and `fillRectangle` are not modelled. They are fixed call sequences that end in DSI writes.
- `displayTitle`, `displayVerticalLine`, `displayHorizontalLine` and `getTitleHeight` are declared but have no definition in the source.
- The driver functions (`funcDriver_`) are a log of blits, not their effect on a frame buffer.
- The joystick wrapper is not part of this model.
- The font tables built by `createFont18` … `createFont36b` are not part of this model. A font is a value satisfying `WellFormed`: it holds all 95 printable glyphs, and its size fits a 31-bit signed range.
- Pixel buffers: the `uint16_t rgb565[48]` and `uint32_t argb8888[48]` buffers are one `bv32` array, and the bytes handed to `FillRGBRect` are the buffer's first `width` entries as a sequence. The byte layout in memory is not modelled.
- Lcd.LcdDisplay.DisplayChar: requires a printable character (0x20..0x7E) and a well-formed font, as the method's documentation demands. The C++ does not check this. For other codes it reads outside the glyph table (undefined behaviour), so the model cannot state any result. The code has no range check and raises no error for such codes; the model puts the range in the precondition.
- Lcd.LcdDisplay.DisplayStringAt: requires a font to be set, because the C++ dereferences the null font pointer otherwise. It requires a non-zero width, because the C++ divides by it when counting the characters per line (Wrappers/lcd_display.cpp:658). It requires the characters that are actually drawn to be printable (see above). It also requires a width of at most 48, the capacity of `drawChar`'s row buffers, since wider fonts overflow them in the C++. Finally it requires a text of at most 2^32 bytes, so that the `uint32_t` counter cannot wrap.
- Lcd.LcdDisplay.DrawChar: requires a font to be set, since the C++ dereferences the null font pointer otherwise. It also requires the glyph to lie inside the table and the width to be at most 48, for the same reasons as above.
- Lcd.LcdDisplay.ComputeDisplayLineNumber: requires a font to be set. The C++ dereferences the null font pointer otherwise.
- The `default` branch of the alignment switch is not modelled. It is reachable only by casting an undeclared value to `AlignMode`, and `AlignMode` has exactly the three declared values here.
- Raster.CenterColumnOverlong: the code computes `nbrOfCharPerLine - nbrOfChars` in `uint32_t`, so overlong text wraps and then starts at column 1. The model follows the code; it does not describe signed centring.
- The shift amount of the bit test is carried as an 8-bit value (`Raster.Bit`). This is exact, because every amount used is below 64.
- The value 2 for `LCD_PIXEL_FORMAT_RGB565` comes from the vendor BSP header, which is not part of this model.
