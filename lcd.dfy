/** The display object of Wrappers/lcd_display.hpp: two per-layer draw
    contexts (text colour, background colour, font), the current layer, the
    surface geometry read from the driver, and the text operations of
    Wrappers/lcd_display.cpp that draw through the driver's blit functions.
    The driver itself is a log of the blits it was asked to do. */
module Lcd {
  import opened Types
  import opened Colors
  import opened Fonts
  import opened Raster

  const MAX_NBR_OF_LAYERS: nat := 2

  const LCD_COLOR_BLUE: bv32 := 0xFF00_00FF
  const LCD_COLOR_WHITE: bv32 := 0xFFFF_FFFF

  /** The driver's code for the 16-bit RGB565 pixel format. */
  const LCD_PIXEL_FORMAT_RGB565: u32 := 2

  /** Capacity of drawChar's row buffers (`rgb565[48]`, `argb8888[48]`). */
  const ROW_CAPACITY: nat := 48

  /** The column displayStringAtLine passes to displayStringAt. */
  const LINE_MARGIN: u32 := 10

  /** LCDContext: a font of `None` is the null font pointer. */
  datatype LcdContext = LcdContext(textColor: bv32, backColor: bv32, font: Option<Font>)

  const DEFAULT_CONTEXT: LcdContext := LcdContext(LCD_COLOR_BLUE, LCD_COLOR_WHITE, None)

  /** The colour value written for `color` in pixel format `format`: the
      RGB565 truncation in RGB565 format, the colour itself otherwise. */
  function Ink(format: u32, color: bv32): (ink: bv32)
    ensures format == LCD_PIXEL_FORMAT_RGB565 ==> ink < 0x1_0000 && ToRgb565(ToArgb8888(ink)) == ink
    ensures format == LCD_PIXEL_FORMAT_RGB565 ==> ink >> 11 == ((color >> 16) & 0xFF) >> 3
    ensures format == LCD_PIXEL_FORMAT_RGB565 ==> (ink >> 5) & 0x3F == ((color >> 8) & 0xFF) >> 2
    ensures format == LCD_PIXEL_FORMAT_RGB565 ==> ink & 0x1F == (color & 0xFF) >> 3
    ensures format != LCD_PIXEL_FORMAT_RGB565 ==> ink == color
  {
    if format == LCD_PIXEL_FORMAT_RGB565 then
      TruncateWidenTruncate(color);
      ToRgb565(color)
    else
      color
  }

  class LcdDisplay {
    const drawProp: array<LcdContext>
    var currentLayer: u32
    var device: u32
    var xSize: u32
    var ySize: u32
    var pixelFormat: u32
    /** Every blit handed to the driver, oldest first. */
    var sink: seq<Blit>

    /** There is one draw context per layer and the current layer selects one. */
    ghost predicate Valid()
      reads this`currentLayer
    {
      drawProp.Length == MAX_NBR_OF_LAYERS && currentLayer < MAX_NBR_OF_LAYERS
    }

    /** The defaults of the member initialisers: both layers blue on white
        with no font, layer 0 current, a surface of size 0 in format 0. */
    constructor()
      ensures Valid() && fresh(drawProp)
      ensures drawProp[..] == [DEFAULT_CONTEXT, DEFAULT_CONTEXT]
      ensures currentLayer == 0 && device == 0
      ensures xSize == 0 && ySize == 0 && pixelFormat == 0
      ensures sink == []
    {
      drawProp := new LcdContext[MAX_NBR_OF_LAYERS](_ => DEFAULT_CONTEXT);
      currentLayer := 0;
      device := 0;
      xSize := 0;
      ySize := 0;
      pixelFormat := 0;
      sink := [];
    }

    /** `drawProp_[currentLCDLayer_]`. */
    function Context(): (context: LcdContext)
      requires Valid()
      reads this`currentLayer, drawProp
      ensures context in drawProp[..]
    {
      drawProp[currentLayer]
    }

    /** The font of the current layer. */
    function GetFont(): (font: Option<Font>)
      requires Valid()
      reads this`currentLayer, drawProp
      ensures font == Context().font
    {
      drawProp[currentLayer].font
    }

    function GetWidth(): (width: u32)
      reads this`xSize
      ensures width == xSize
    {
      xSize
    }

    function GetHeight(): (height: u32)
      reads this`ySize
      ensures height == ySize
    {
      ySize
    }

    /** The part of init that asks the driver for the surface size and pixel
        format; the values the driver reports are parameters. */
    method InitSurface(width: u32, height: u32, format: u32)
      modifies this`xSize, this`ySize, this`pixelFormat
      ensures xSize == width && ySize == height && pixelFormat == format
    {
      xSize := width;
      ySize := height;
      pixelFormat := format;
    }

    /** Changes the font of the current layer and nothing else. */
    method SetFont(font: Option<Font>)
      requires Valid()
      modifies drawProp
      ensures Valid()
      ensures GetFont() == font
      ensures drawProp[currentLayer] == old(drawProp[currentLayer]).(font := font)
      ensures forall layer :: 0 <= layer < drawProp.Length && layer != currentLayer ==>
        drawProp[layer] == old(drawProp[layer])
    {
      drawProp[currentLayer] := drawProp[currentLayer].(font := font);
    }

    /** Changes the text colour of the current layer and nothing else. */
    method SetTextColor(color: bv32)
      requires Valid()
      modifies drawProp
      ensures Valid()
      ensures Context().textColor == color
      ensures drawProp[currentLayer] == old(drawProp[currentLayer]).(textColor := color)
      ensures forall layer :: 0 <= layer < drawProp.Length && layer != currentLayer ==>
        drawProp[layer] == old(drawProp[layer])
    {
      drawProp[currentLayer] := drawProp[currentLayer].(textColor := color);
    }

    /** Changes the background colour of the current layer and nothing else. */
    method SetBackColor(color: bv32)
      requires Valid()
      modifies drawProp
      ensures Valid()
      ensures Context().backColor == color
      ensures drawProp[currentLayer] == old(drawProp[currentLayer]).(backColor := color)
      ensures forall layer :: 0 <= layer < drawProp.Length && layer != currentLayer ==>
        drawProp[layer] == old(drawProp[layer])
    {
      drawProp[currentLayer] := drawProp[currentLayer].(backColor := color);
    }

    /** The top row of text line `line`: `line` font heights down, as a
        `uint32_t` product. */
    function ComputeDisplayLineNumber(line: u32): (y: u32)
      requires Valid() && GetFont().Some?
      reads this`currentLayer, drawProp
      ensures (line * GetFont().value.height - y) % TWO_TO_THE_32 == 0
      ensures line * GetFont().value.height < TWO_TO_THE_32 ==> y == line * GetFont().value.height
    {
      Wrap32(line * drawProp[currentLayer].font.value.height)
    }

    /** Fills a rectangle with one colour, converted to the pixel format. */
    method FillRect(xPos: u32, yPos: u32, width: u32, height: u32, color: bv32)
      modifies this`sink
      ensures sink == old(sink) + [SolidRect(device, xPos, yPos, width, height, Ink(pixelFormat, color))]
    {
      if pixelFormat == LCD_PIXEL_FORMAT_RGB565 {
        sink := sink + [SolidRect(device, xPos, yPos, width, height, ToRgb565(color))];
      } else {
        sink := sink + [SolidRect(device, xPos, yPos, width, height, color)];
      }
    }

    /** Hands a buffer of pixels to the driver. */
    method FillRgbRect(xPos: u32, yPos: u32, pixels: seq<bv32>, width: u32, height: u32)
      modifies this`sink
      ensures sink == old(sink) + [RgbRect(device, xPos, yPos, pixels, width, height)]
    {
      sink := sink + [RgbRect(device, xPos, yPos, pixels, width, height)];
    }

    /** Draws the glyph whose bytes start at `offset` in the font table: one
        row of `width` pixels per scanline, at column `xPos` and rows `yPos`,
        `yPos + 1`, ..., in the text colour where the glyph bit is set and the
        background colour elsewhere. */
    method DrawChar(xPos: u32, yPos: u32, offset: nat)
      requires Valid() && GetFont().Some?
      requires GlyphFits(GetFont().value, offset) && GetFont().value.width <= ROW_CAPACITY
      modifies this`sink
      ensures sink == old(sink) + GlyphRows(device, xPos, yPos, GetFont().value, offset,
        Ink(pixelFormat, Context().textColor), Ink(pixelFormat, Context().backColor))
    {
      var height := drawProp[currentLayer].font.value.height;
      ghost var rows := GlyphRows(device, xPos, yPos, GetFont().value, offset,
        Ink(pixelFormat, Context().textColor), Ink(pixelFormat, Context().backColor));
      var y := yPos;
      var i := 0;
      while i < height
        invariant i <= height
        invariant y == Wrap32(yPos + i)
        invariant sink == old(sink) + rows[..i]
      {
        DrawScanline(xPos, yPos, y, offset, i);
        assert rows[..i + 1] == rows[..i] + [rows[i]];
        NextRow(yPos, i, y);
        y := Wrap32(y as int + 1);
        i := i + 1;
      }
      assert rows[..height] == rows;
    }

    /** One pass of drawChar's row loop: packs scanline `i` of the glyph into
        a 64-bit word, unpacks it into the row buffer and hands the row to the
        driver at row `y`, which is `yPos + i` in `uint32_t`. */
    method DrawScanline(xPos: u32, yPos: u32, y: u32, offset: nat, i: nat)
      requires Valid() && GetFont().Some?
      requires GlyphFits(GetFont().value, offset) && GetFont().value.width <= ROW_CAPACITY
      requires i < GetFont().value.height && y == Wrap32(yPos + i)
      modifies this`sink
      ensures sink == old(sink) + [GlyphRows(device, xPos, yPos, GetFont().value, offset,
        Ink(pixelFormat, Context().textColor), Ink(pixelFormat, Context().backColor))[i]]
    {
      var font := drawProp[currentLayer].font.value;
      var width := font.width;
      var bpl := (width + 7) / 8;
      var pad := 8 * bpl - width;
      ScanlineInGlyph(font, offset, i);
      var line := PackScanline(font.table, offset + bpl * i, bpl);
      assert line == Pack(ScanlineBytes(font, offset, i));
      var buf := UnpackRow(line, width, pad);
      var row := buf[..width];
      GlyphRowFromLine(device, xPos, yPos, font, offset,
        Ink(pixelFormat, Context().textColor), Ink(pixelFormat, Context().backColor), i);
      FillRgbRect(xPos, y, row, width, 1);
    }

    /** The pixel loop of drawChar: entry `j` of a fresh 48-entry row buffer
        is the text colour when bit `width - j + pad - 1` of `line` is set and
        the background colour otherwise, both in the surface's pixel format. */
    method UnpackRow(line: bv64, width: nat, pad: nat) returns (buf: array<bv32>)
      requires Valid() && width <= ROW_CAPACITY && width + pad <= 64
      ensures fresh(buf) && buf.Length == ROW_CAPACITY
      ensures buf[..width] == RowPixels(line, width, pad,
        Ink(pixelFormat, Context().textColor), Ink(pixelFormat, Context().backColor))
    {
      ghost var fg := Ink(pixelFormat, drawProp[currentLayer].textColor);
      ghost var bg := Ink(pixelFormat, drawProp[currentLayer].backColor);
      buf := new bv32[ROW_CAPACITY](_ => 0);
      var j := 0;
      while j < width
        invariant j <= width
        invariant forall m :: 0 <= m < j ==> buf[m] == PixelColor(line, width, pad, fg, bg, m)
      {
        if Bit(line, width - j + pad - 1) {
          buf[j] := Ink(pixelFormat, drawProp[currentLayer].textColor);
        } else {
          buf[j] := Ink(pixelFormat, drawProp[currentLayer].backColor);
        }
        j := j + 1;
      }
      RowPixelsOf(buf[..width], line, width, pad, fg, bg);
    }

    /** Draws the glyph of `ascii` at (`xPos`, `yPos`). */
    method DisplayChar(xPos: u32, yPos: u32, ascii: u8)
      requires Valid() && GetFont().Some?
      requires WellFormed(GetFont().value) && GetFont().value.width <= ROW_CAPACITY
      requires IsPrintable(ascii)
      modifies this`sink
      ensures sink == old(sink) + GlyphRows(device, xPos, yPos, GetFont().value,
        GlyphOffset(GetFont().value, ascii),
        Ink(pixelFormat, Context().textColor), Ink(pixelFormat, Context().backColor))
    {
      var offsetInTable := GlyphOffset(drawProp[currentLayer].font.value, ascii);
      DrawChar(xPos, yPos, offsetInTable);
    }

    /** Draws the NUL-terminated `text` on the row `yPos`, aligned per `mode`:
        the characters the width guard admits, left to right from the start
        column, one font width apart. */
    method DisplayStringAt(xPos: u32, yPos: u32, text: seq<u8>, mode: AlignMode)
      requires Valid() && GetFont().Some?
      requires WellFormed(GetFont().value) && 0 < GetFont().value.width <= ROW_CAPACITY
      requires 0 in text && |text| <= TWO_TO_THE_32
      requires PrintablePrefix(text, DrawnCount(text, xSize, GetFont().value.width))
      modifies this`sink
      ensures sink == old(sink) + StringRows(device, text,
        DrawnCount(text, xSize, GetFont().value.width),
        StartColumn(mode, xPos, xSize, GetFont().value.width, Strlen(text)), yPos, GetFont().value,
        Ink(pixelFormat, Context().textColor), Ink(pixelFormat, Context().backColor))
    {
      var nbrOfChars := CountChars(text);
      var font := drawProp[currentLayer].font.value;
      var width := font.width;
      var refcolumn := AlignColumn(mode, xPos, xSize, width, nbrOfChars);

      DrawChars(refcolumn, yPos, text);
    }

    /** The drawing loop of displayStringAt: draws characters from `column`
        on, one font width apart, until the text ends or the width guard
        fails. */
    method DrawChars(column: u32, yPos: u32, text: seq<u8>)
      requires Valid() && GetFont().Some?
      requires WellFormed(GetFont().value) && 0 < GetFont().value.width <= ROW_CAPACITY
      requires 0 in text && |text| <= TWO_TO_THE_32
      requires PrintablePrefix(text, DrawnCount(text, xSize, GetFont().value.width))
      modifies this`sink
      ensures sink == old(sink) + StringRows(device, text,
        DrawnCount(text, xSize, GetFont().value.width), column, yPos, GetFont().value,
        Ink(pixelFormat, Context().textColor), Ink(pixelFormat, Context().backColor))
    {
      var font := drawProp[currentLayer].font.value;
      var width := font.width;
      ghost var fg := Ink(pixelFormat, Context().textColor);
      ghost var bg := Ink(pixelFormat, Context().backColor);
      ghost var count := DrawnCount(text, xSize, width);
      ghost var before := sink;
      var refcolumn := column;
      var i: u32 := 0;
      while text[i] != 0 && RoomFor(xSize, width, i)
        invariant i <= count
        invariant DrawnFrom(text, xSize, width, i) == count
        invariant refcolumn == CharColumn(column, width, i)
        invariant sink == before + StringRows(device, text, i, column, yPos, font, fg, bg)
        decreases count - i
      {
        DrawnStep(text, xSize, width, i);
        refcolumn := DisplayNextChar(column, yPos, text, i, refcolumn, before);
        i := i + 1;
      }
      DrawnStop(text, xSize, width, i);
    }

    /** One pass of displayStringAt's drawing loop: draws character `i` at
        `refcolumn` and returns the column of the next character. */
    method DisplayNextChar(column: u32, yPos: u32, text: seq<u8>, i: nat, refcolumn: u32, ghost before: seq<Blit>)
      returns (next: u32)
      requires Valid() && GetFont().Some?
      requires WellFormed(GetFont().value) && GetFont().value.width <= ROW_CAPACITY
      requires i < |text| && PrintablePrefix(text, i + 1)
      requires refcolumn == CharColumn(column, GetFont().value.width, i)
      requires sink == before + StringRows(device, text, i, column, yPos, GetFont().value,
        Ink(pixelFormat, Context().textColor), Ink(pixelFormat, Context().backColor))
      modifies this`sink
      ensures next == CharColumn(column, GetFont().value.width, i + 1)
      ensures sink == before + StringRows(device, text, i + 1, column, yPos, GetFont().value,
        Ink(pixelFormat, Context().textColor), Ink(pixelFormat, Context().backColor))
    {
      var width := drawProp[currentLayer].font.value.width;
      ghost var font := GetFont().value;
      ghost var fg := Ink(pixelFormat, Context().textColor);
      ghost var bg := Ink(pixelFormat, Context().backColor);
      ghost var drawn := StringRows(device, text, i, column, yPos, font, fg, bg);
      DisplayChar(refcolumn, yPos, text[i]);
      assert before + drawn + GlyphRows(device, refcolumn, yPos, font, GlyphOffset(font, text[i]), fg, bg)
          == before + StringRows(device, text, i + 1, column, yPos, font, fg, bg);
      NextColumn(column, i, width, refcolumn);
      next := Wrap32(refcolumn as int + width);
    }

    /** Draws `text` on text line `line`, starting from column 10 before alignment. */
    method DisplayStringAtLine(line: u32, text: seq<u8>, mode: AlignMode)
      requires Valid() && GetFont().Some?
      requires WellFormed(GetFont().value) && 0 < GetFont().value.width <= ROW_CAPACITY
      requires 0 in text && |text| <= TWO_TO_THE_32
      requires PrintablePrefix(text, DrawnCount(text, xSize, GetFont().value.width))
      modifies this`sink
      ensures sink == old(sink) + StringRows(device, text,
        DrawnCount(text, xSize, GetFont().value.width),
        StartColumn(mode, LINE_MARGIN, xSize, GetFont().value.width, Strlen(text)),
        ComputeDisplayLineNumber(line), GetFont().value,
        Ink(pixelFormat, Context().textColor), Ink(pixelFormat, Context().backColor))
    {
      DisplayStringAt(LINE_MARGIN, ComputeDisplayLineNumber(line), text, mode);
    }
  }

  /** The counting loop of displayStringAt: the length of the NUL-terminated
      text, in `uint32_t`. */
  method CountChars(text: seq<u8>) returns (nbrOfChars: u32)
    requires 0 in text && |text| <= TWO_TO_THE_32
    ensures nbrOfChars == Strlen(text)
  {
    nbrOfChars := 0;
    while text[nbrOfChars] != 0
      invariant nbrOfChars <= Strlen(text)
      decreases Strlen(text) - nbrOfChars
    {
      nbrOfChars := nbrOfChars + 1;
    }
  }

  /** The alignment switch and range check of displayStringAt. */
  method AlignColumn(mode: AlignMode, xPos: u32, xSize: u32, width: u16, nbrOfChars: u32) returns (refcolumn: u32)
    requires width > 0
    ensures refcolumn == StartColumn(mode, xPos, xSize, width, nbrOfChars)
  {
    var nbrOfCharPerLine := xSize / width;
    match mode {
      case CenterMode =>
        refcolumn := Wrap32(xPos + Wrap32(Wrap32(nbrOfCharPerLine - nbrOfChars) * width) / 2);
      case LeftMode =>
        refcolumn := xPos;
      case RightMode =>
        refcolumn := Wrap32(Wrap32(-(xPos as int)) + Wrap32(Wrap32(nbrOfCharPerLine - nbrOfChars) * width));
    }
    if refcolumn < 1 || refcolumn >= 0x8000 {
      refcolumn := 1;
    }
  }

  /** A character the drawing loop admits is one of the drawn ones, and the
      loop stops at the same index from the next character on. */
  lemma DrawnStep(text: seq<u8>, xSize: u32, width: u16, i: nat)
    requires 0 in text && i <= Strlen(text)
    requires text[i] != 0 && RoomFor(xSize, width, i)
    ensures i < DrawnFrom(text, xSize, width, i)
    ensures i + 1 <= Strlen(text)
    ensures DrawnFrom(text, xSize, width, i + 1) == DrawnFrom(text, xSize, width, i)
  {
  }

  /** Where the drawing loop's guard fails, it stops. */
  lemma DrawnStop(text: seq<u8>, xSize: u32, width: u16, i: nat)
    requires 0 in text && i <= Strlen(text)
    requires !(text[i] != 0 && RoomFor(xSize, width, i))
    ensures DrawnFrom(text, xSize, width, i) == i
  {
  }

  /** `refcolumn += width` keeps the column at `column + i * width` in `uint32_t`. */
  lemma NextColumn(column: u32, i: nat, width: u16, refcolumn: u32)
    requires refcolumn == CharColumn(column, width, i)
    ensures Wrap32(refcolumn as int + width) == CharColumn(column, width, i + 1)
  {
    Wrap32AddWrapped(column + i * width, width);
    assert (i + 1) * width == i * width + width;
  }

  /** `yPos++` keeps the row at `yPos + i` in `uint32_t`. */
  lemma NextRow(yPos: u32, i: nat, y: u32)
    requires y == Wrap32(yPos + i)
    ensures Wrap32(y as int + 1) == Wrap32(yPos + (i + 1))
  {
    Wrap32AddWrapped(yPos + i, 1);
  }

  /** Scanline `i` of a glyph that fits lies inside the table. */
  lemma ScanlineInGlyph(font: Font, offset: nat, i: nat)
    requires GlyphFits(font, offset) && i < font.height
    ensures offset + BytesPerLine(font.width) * i + BytesPerLine(font.width) <= |font.table|
  {
    var bpl := BytesPerLine(font.width);
    MulAtMost(i + 1, font.height, bpl);
    assert (i + 1) * bpl == bpl * i + bpl;
  }

  /** Row `i` of the glyph is the row drawChar's pixel loop writes for the
      packed scanline `i`. */
  lemma GlyphRowFromLine(device: u32, x: u32, y: u32, font: Font, offset: nat, fg: bv32, bg: bv32, i: nat)
    requires GlyphFits(font, offset) && i < font.height && font.width <= ROW_CAPACITY
    ensures var pad := 8 * BytesPerLine(font.width) - font.width;
      GlyphRows(device, x, y, font, offset, fg, bg)[i]
      == RgbRect(device, x, Wrap32(y + i),
                 RowPixels(Pack(ScanlineBytes(font, offset, i)), font.width, pad, fg, bg), font.width, 1)
  {
    var bytes := ScanlineBytes(font, offset, i);
    ScanlineRow(bytes, font.width, 8 * |bytes| - font.width, fg, bg);
  }

  /** The row drawChar's bit test produces from a packed scanline is the
      scanline's pixel row. */
  lemma ScanlineRow(bytes: seq<bv8>, width: nat, pad: nat, fg: bv32, bg: bv32)
    requires |bytes| == BytesPerLine(width) <= 8 && pad == 8 * |bytes| - width
    ensures RowPixels(Pack(bytes), width, pad, fg, bg) == ScanlinePixels(bytes, width, fg, bg)
  {
    forall m | 0 <= m < width
      ensures RowPixels(Pack(bytes), width, pad, fg, bg)[m] == ScanlinePixels(bytes, width, fg, bg)[m]
    {
      PixelTest(bytes, width, pad, m);
    }
  }

  /** A row whose every pixel passed drawChar's bit test is `RowPixels`. */
  lemma RowPixelsOf(row: seq<bv32>, line: bv64, width: nat, pad: nat, fg: bv32, bg: bv32)
    requires width + pad <= 64 && |row| == width
    requires forall m :: 0 <= m < width ==> row[m] == PixelColor(line, width, pad, fg, bg, m)
    ensures row == RowPixels(line, width, pad, fg, bg)
  {
  }

  /** drawChar's test for pixel `j`, `line & ((uint64_t)1 << (width - j + pad - 1))`,
      on the packed scanline is that pixel of the glyph. */
  lemma PixelTest(bytes: seq<bv8>, width: nat, pad: nat, j: nat)
    requires |bytes| == BytesPerLine(width) <= 8 && pad == 8 * |bytes| - width && j < width
    ensures Bit(Pack(bytes), width - j + pad - 1) == PixelOn(bytes, j)
  {
    PackBit(bytes, j);
  }
}
