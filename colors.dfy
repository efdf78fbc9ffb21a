/** Colours of the framebuffer: four 32-bit channels and their packing into pixel words. */
module Colors {

  /** A colour as the framebuffer keeps it: every channel is a 32-bit unsigned word,
      nominally in 0..255 but never clamped. */
  datatype Color = Color(red: bv32, green: bv32, blue: bv32, alpha: bv32)
  {
    /** True when every colour channel fits in one byte (the packing is only meaningful then). */
    predicate IsByteColor() {
      red < 256 && green < 256 && blue < 256
    }

    /** The 24-bit RGB word `red << 16 | green << 8 | blue`, with 32-bit shifts. */
    function ToHexRgb(): (w: bv32)
      ensures IsByteColor() ==> w < 0x100_0000
      ensures IsByteColor() ==> (w >> 16) & 0xFF == red && (w >> 8) & 0xFF == green && w & 0xFF == blue
    {
      (red << 16) | (green << 8) | blue
    }

    /** The "RGBA" word: the RGB word with the alpha channel or-ed in unshifted, so that
        alpha lands on the blue byte rather than above the red one. */
    function ToHexRgba(): (w: bv32)
      ensures w & 0xFF == (blue | alpha) & 0xFF
      ensures alpha < 256 ==> w & 0xFFFF_FF00 == ToHexRgb() & 0xFFFF_FF00
    {
      var rgb := (red << 16) | (green << 8) | blue;
      OrLowByte(rgb, alpha);
      rgb | alpha
    }
  }

  /** A colour from three channels; alpha is always 255. */
  function FromRgb(r: bv32, g: bv32, b: bv32): (c: Color)
    ensures c.red == r && c.green == g && c.blue == b && c.alpha == 255
  {
    Color(r, g, b, 255)
  }

  /** A colour from four channels: the alpha argument is ignored and alpha is 255. */
  function FromRgba(r: bv32, g: bv32, b: bv32, a: bv32): (c: Color)
    ensures c == FromRgb(r, g, b)
  {
    Color(r, g, b, 255)
  }

  /** A colour from a packed 0xRRGGBB word; bits above 24 are ignored. */
  function FromHex(hex: bv32): (c: Color)
    ensures c.IsByteColor() && c.alpha == 255
    ensures c.ToHexRgb() == hex & 0xFF_FFFF
  {
    Color((hex >> 16) & 0xFF, (hex >> 8) & 0xFF, hex & 0xFF, 255)
  }

  function Red(): (c: Color)
    ensures c.IsByteColor() && c.alpha == 255 && c.ToHexRgb() == 0xFF_0000
  {
    FromRgb(255, 0, 0)
  }

  function Green(): (c: Color)
    ensures c.IsByteColor() && c.alpha == 255 && c.ToHexRgb() == 0x00_FF00
  {
    FromRgb(0, 255, 0)
  }

  function Blue(): (c: Color)
    ensures c.IsByteColor() && c.alpha == 255 && c.ToHexRgb() == 0x00_00FF
  {
    FromRgb(0, 0, 255)
  }

  /** Or-ing a byte into a word leaves the word's upper three bytes as they were. */
  lemma OrLowByte(x: bv32, a: bv32)
    ensures a < 256 ==> (x | a) & 0xFFFF_FF00 == x & 0xFFFF_FF00
  {
  }

  /** Packing a byte colour and reading it back with FromHex gives the colour again,
      with an opaque alpha. */
  lemma HexRoundTrip(c: Color)
    requires c.IsByteColor()
    ensures FromHex(c.ToHexRgb()) == FromRgb(c.red, c.green, c.blue)
  {
  }

  /** Every colour built by FromRgb or FromRgba packs to an RGBA word whose low byte is 0xFF,
      whatever its blue channel: the unshifted alpha overwrites blue. */
  lemma RgbaHidesBlue(r: bv32, g: bv32, b: bv32, a: bv32)
    ensures FromRgba(r, g, b, a).ToHexRgba() & 0xFF == 0xFF
    ensures FromRgba(r, g, b, a).ToHexRgba() == FromRgb(r, g, b).ToHexRgb() | 0xFF
  {
  }
}
