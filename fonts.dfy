/** The font as the rendering core sees it: a fixed pixel size and a glyph source.
    How glyphs are rasterized from font-file bytes is outside this model; the rasterizer
    is the function `raster`, which stands for any backend. */
module Fonts {

  /** A rasterized glyph: its bounding box, its vertical offset from the baseline and a
      row-major coverage bitmap (0 = no ink, anything else = ink). */
  datatype Glyph = Glyph(width: nat, height: nat, ymin: int, bitmap: seq<bv8>)
  {
    /** The glyph can be blitted: its offset is at or below the baseline and its bitmap
        holds a byte for every cell of the box. */
    predicate Drawable() {
      ymin <= 0 && width * height <= |bitmap|
    }

    /** The coverage byte of cell (col, row), or 0 outside the bitmap. */
    function Coverage(col: nat, row: nat): bv8 {
      if row * width + col < |bitmap| then bitmap[row * width + col] else 0
    }
  }

  /** A loaded font: the point size truncated to whole pixels and the glyph source that
      always rasterizes at that size. */
  datatype Font = Font(size: nat, raster: char -> Glyph)
}
