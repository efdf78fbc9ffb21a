# winitExperiment framebuffer and text console, modelled in Dafny

This project models the drawing core of `winitExperiment`. The core has four parts:

- **The software framebuffer, `ScreenBuffer`.** It is a flat, row-major list of packed
  `u32` pixels. It has a clipped pixel write and the drawing primitives built on that
  write: rectangles, clear, images, glyphs and bitmaps.
- **`Color`, with its packing into pixel words.**
- **The text console, `Cursor`.** It is a growing list of characters with a write
  position. It renders glyph by glyph into a framebuffer.
- **`Window`.** It binds a cursor to a screen region and splices a local framebuffer
  into the screen framebuffer.

Modules, one file each:

- `colors.dfy` (`Colors`): `Color` with `bv32` channels, so that `<<` and `|` are exact
  32-bit operations. It has the constructors and the RGB and RGBA packings.
  - The RGBA word ors alpha in *unshifted*, onto the blue byte (`RgbaHidesBlue`).
- `pixels.dfy` (`Pixels`): row-major positions (`BufPos`) and the clipped write `Put`.
  - A pixel lands when its flat index is below the buffer length, and is dropped otherwise.
  - `Apply` performs a list of clipped writes in order.
  - It holds the generic lemmas about `Apply`: untouched indices, indices all of whose
    writes carry one value, and concatenation.
- `fonts.dfy` (`Fonts`): a rasterized glyph, `(width, height, ymin, bitmap)`, and a font.
  - A font is a whole-pixel size plus a glyph source `raster: char -> Glyph`. The glyph
    source stands for the font engine.
- `screen.dfy` (`Screen`): the `ScreenBuffer` class and the specification of its nested
  drawing loops.
  - A `Pattern` says what a loop writes for cell `(c, r)`. `Grid` lists those writes row
    by row.
  - Each drawing method is proved to leave `buffer == Apply(old(buffer), Grid(...))`.
  - Lemmas turn that into per-pixel facts.
  - The loops are proved through `Drawn`, the buffer after a prefix of the loop.
- `cursors.dfy` (`Cursors`): `Char`, the `Cursor` class, and the render pen.
  - `Step` and `PenAt` describe the pen.
  - `RenderWrites` lists everything a render writes.
  - It also holds four keystroke scenarios.
- `window.dfy` (`Windows`): the `Window` class and `Splice`, which models `Vec::splice`
  over a clipped range with an unclipped insertion.

Integers of type `usize` are modelled as `nat`. Writes are clipped against the length of
the buffer, never against `width` and `height`. So an `x` past the end of a row lands in
the next row, exactly as in the source (`FillEffect`, `InRect`).

## Model

| member | source | states |
|---|---|---|
| Colors.FromRgb | winitExperiment/src/screen.rs:61-68 | the three channels are taken as given and alpha is 255 |
| Colors.FromRgba | winitExperiment/src/screen.rs:70-77 | the result is the FromRgb colour of the first three arguments: the alpha argument is ignored |
| Colors.FromHex | winitExperiment/src/screen.rs:79-86 | every channel is below 256, alpha is 255, and packing the colour back gives `hex & 0xFFFFFF` |
| Colors.Red | winitExperiment/src/screen.rs:97-99 | a byte colour with alpha 255 that packs to 0xFF0000 |
| Colors.Green | winitExperiment/src/screen.rs:101-103 | a byte colour with alpha 255 that packs to 0x00FF00 |
| Colors.Blue | winitExperiment/src/screen.rs:105-107 | a byte colour with alpha 255 that packs to 0x0000FF |
| Colors.Color.ToHexRgb | winitExperiment/src/screen.rs:109-111 | for byte channels the RGB word is below 2^24 and its three bytes are red, green and blue, high to low |
| Colors.HexRoundTrip | winitExperiment/src/screen.rs:79-86 | reading a byte colour's RGB word back with from_hex gives the same channels with alpha 255 |
| Colors.Color.ToHexRgba | winitExperiment/src/screen.rs:113-115 | the low byte of the RGBA word is blue or-ed with alpha, and for alpha below 256 the word agrees with the RGB word above the low byte |
| Colors.RgbaHidesBlue | winitExperiment/src/screen.rs:113-115 | every colour from from_rgb or from_rgba packs to an RGBA word with low byte 0xFF, whatever its blue channel; that word is the RGB word or 0xFF |
| Pixels.BufPos | winitExperiment/src/screen.rs:133-135 | the position of (x, y) lies at or after the start y*width of row y, and before the start of row y+1 when x < width |
| Pixels.BufPosInjective | winitExperiment/src/screen.rs:133-135 | within a row, position y*width+x decodes back to (x, y), and two pixels share a position iff they are the same pixel |
| Pixels.Put | winitExperiment/src/screen.rs:267-272 | a clipped write never changes the buffer length |
| Pixels.PutEffect | winitExperiment/src/screen.rs:267-272 | a clipped write stores its value at an in-range index, changes no other index, and changes nothing when the index is out of range |
| Pixels.RowMajorCover | winitExperiment/src/screen.rs:281-287 | the indices reached by x < width, y < height are exactly those below width*height |
| Screen.Pixel | winitExperiment/src/screen.rs:141-166 | pixel k of the image is an opaque byte colour whose channels are bytes 3k, 3k+1, 3k+2 (RGB) or 4k, 4k+1, 4k+2 (RGBA; byte 4k+3 is ignored) |
| Screen.Lift | winitExperiment/src/screen.rs:243-248 | for ymin <= 0 the glyph is lowered by at least -ymin; its bottom sits exactly at size - ymin below the pen iff the glyph is no taller than the font size, and a taller glyph is lowered by exactly -ymin |
| Screen.Resolve | winitExperiment/src/screen.rs:232-238 | the grey probe colour of a coverage byte resolves to the foreground when the byte is non-zero and to the background when it is zero |
| Screen.FillEffect | winitExperiment/src/screen.rs:197-213 | after filling a rectangle, an index holds the colour iff some pixel of the rectangle maps to it, row wrap included; every other index is unchanged |
| Screen.ClearEffect | winitExperiment/src/screen.rs:281-287 | after clearing, an index holds the colour iff it is below width*height; the rest are unchanged |
| Screen.PixelInImage | winitExperiment/src/screen.rs:137-175 | when the image holds 3wh (RGB) or 4wh (RGBA) bytes, every byte read for pixel (x, y) exists |
| Screen.ImageLands | winitExperiment/src/screen.rs:137-175 | when the image is no wider than the framebuffer, pixel k = y*w+x is decoded from bytes 3k.. and stored at (x, y) for RGB, or decoded from bytes 4k.. and stored at (x+1, y+1) for RGBA |
| Screen.GlyphLands | winitExperiment/src/screen.rs:228-255 | when the glyph is no wider than the framebuffer (it may start near a row end and wrap), cell (col, row) lands at (x+col, y+row+Lift), painted foreground on a non-zero coverage byte and background on zero |
| Screen.GlyphUntouched | winitExperiment/src/screen.rs:228-255 | a glyph blit leaves every index that no glyph cell maps to unchanged |
| Screen.StampSameTargets | winitExperiment/src/screen.rs:228-255 | the positions a glyph blit writes, and their order, do not depend on the two colours |
| Screen.BitmapLands | winitExperiment/src/screen.rs:258-265 | when the bitmap rows fit in the framebuffer row, bitmap cell (x, y) is stored at (x, y) |
| Screen.ScreenBuffer.constructor | winitExperiment/src/screen.rs:125-131 | width and height are as given and the buffer is width*height zeros |
| Screen.ScreenBuffer.PutPixel | winitExperiment/src/screen.rs:267-272 | the buffer becomes the clipped write of the RGB word at y*width+x |
| Screen.ScreenBuffer.PutPixelA | winitExperiment/src/screen.rs:274-279 | the buffer becomes the clipped write of the RGBA word at y*width+x |
| Screen.ScreenBuffer.DrawRect | winitExperiment/src/screen.rs:197-213 | the length is unchanged; index i holds the colour iff some pixel of the rectangle maps to i, and keeps its old value otherwise |
| Screen.ScreenBuffer.Clear | winitExperiment/src/screen.rs:281-287 | the length is unchanged; the indices below min(length, width*height) hold the colour and the rest keep their old values |
| Screen.ScreenBuffer.Resize | winitExperiment/src/screen.rs:289-293 | the new width and height are set and the buffer is width*height zeros: old contents are discarded |
| Screen.ScreenBuffer.DrawImage | winitExperiment/src/screen.rs:137-175 | the buffer is the old one after the image's cell writes in loop order (per-pixel meaning in ImageLands); the length is unchanged |
| Screen.ScreenBuffer.DrawImagePixel | winitExperiment/src/screen.rs:141-172 | the running offset gives byte 3k (RGB) or 4k (RGBA) for pixel k, and that pixel's clipped write is performed |
| Screen.ScreenBuffer.DrawChar | winitExperiment/src/screen.rs:215-256 | the buffer is the old one after the glyph's cell writes in loop order (per-cell meaning in GlyphLands); the length is unchanged |
| Screen.ScreenBuffer.DrawGlyphCell | winitExperiment/src/screen.rs:230-251 | one glyph cell is resolved to foreground or background and written lowered by the baseline offset |
| Screen.ScreenBuffer.DrawBitmap | winitExperiment/src/screen.rs:258-265 | the buffer is the old one after the bitmap's cell writes in loop order (per-cell meaning in BitmapLands); the length is unchanged |
| Screen.ScreenBuffer.Read | winitExperiment/src/screen.rs:26-35 | fills the whole byte array with the low bytes of the first pixels and returns its length |
| Screen.ScreenBuffer.Write | winitExperiment/src/screen.rs:37-45 | stores each byte, widened, over the first pixels, keeps the rest and the length, and returns the byte count |
| Cursors.Char.Build | winitExperiment/src/cursor.rs:55-62 | the character as given, not rendered, with no boundary |
| Cursors.Chars | winitExperiment/src/cursor.rs:100-104 | one built character per code point of the text, in order |
| Cursors.Step | winitExperiment/src/cursor.rs:133-153 | a newline sends the pen to column 0 and down by the font size, or back to row 0 once that reaches the region height; any other character moves it right by 15 on the same row |
| Cursors.PenAt | winitExperiment/src/cursor.rs:128-156 | the pen starts at (0, 0) and its column is always a multiple of 15 |
| Cursors.PenRowInside | winitExperiment/src/cursor.rs:133-141 | after every step the pen row is 0 or inside the region's height |
| Cursors.PenColumn | winitExperiment/src/cursor.rs:127-156 | the pen column is 15 times the number of characters since the last newline |
| Cursors.PenRow | winitExperiment/src/cursor.rs:133-141 | until the rows fill the region, the pen row is the font size times the newlines so far |
| Cursors.PenRowTop | winitExperiment/src/cursor.rs:136-140 | with a font at least as tall as the region every line is drawn on the top row |
| Cursors.ThirdLineWraps | winitExperiment/src/cursor.rs:136-140 | with font size 10 in a region 20 high, the third line of "a\nb\nc" is drawn over the first |
| Cursors.RenderOneColour | winitExperiment/src/cursor.rs:118-125 | the render inside clear, with the background as foreground, writes nothing but the background word |
| Cursors.EraseEffect | winitExperiment/src/cursor.rs:118-125 | after the erasing render every pixel either kept its value or holds the background |
| Cursors.EraseCovers | winitExperiment/src/cursor.rs:118-125 | every in-buffer index that a render of the same characters, in any colours, writes to holds the background after clear's erasing render |
| Cursors.RenderSameTargets | winitExperiment/src/cursor.rs:118-125 | the positions a render writes, and their order, do not depend on its colours, so the erasing render covers exactly what a normal render draws |
| Cursors.Cursor.constructor | winitExperiment/src/cursor.rs:77-88 | empty buffer, position 0, the given font and region, white on black |
| Cursors.Cursor.NewLine | winitExperiment/src/cursor.rs:90-93 | a newline character is appended and the position returns to 0 |
| Cursors.Cursor.Println | winitExperiment/src/cursor.rs:95-98 | the text's characters and a newline are appended and the position is 0 |
| Cursors.Cursor.Print | winitExperiment/src/cursor.rs:100-104 | the text's characters are appended in order and the position advances by their number; pos <= length is kept |
| Cursors.Cursor.PrintChar | winitExperiment/src/cursor.rs:106-109 | one built character is appended and the position advances by one |
| Cursors.Cursor.Backspace | winitExperiment/src/cursor.rs:111-116 | at position p > 0 exactly the element at p-1 is removed, the rest keep their order, and the position drops by one; at 0 nothing changes |
| Cursors.Cursor.BackspaceAtEnd | winitExperiment/src/cursor.rs:111-116 | corrected backspace: at position p > 0 the last element is removed and the position drops by one; at 0 nothing changes |
| Cursors.Cursor.Clear | winitExperiment/src/cursor.rs:118-125 | the screen receives the render of the old buffer with the background as both colours; then the buffer is empty, the position is 0 and the foreground is restored |
| Cursors.Cursor.RenderChar | winitExperiment/src/cursor.rs:131-154 | one loop pass: the pen moves as Step says and the screen receives that character's glyph writes at the pen (none for a newline) |
| Cursors.Cursor.Render | winitExperiment/src/cursor.rs:127-156 | the screen receives every character's glyph writes at the pen PenAt gives for it, in order; only the screen buffer changes and its length is kept |
| Cursors.TypeAndErase | winitExperiment/src/cursor.rs:100-116 | print "AB", backspace, print "C" leaves ['A','C'] with position 2 |
| Cursors.EraseAfterNewLine | winitExperiment/src/cursor.rs:90-116 | right after println the backspace does nothing |
| Cursors.EraseOnSecondLine | winitExperiment/src/cursor.rs:90-116 | after println "AB" and print "C", backspace removes the 'A', leaving ['B','\n','C'] with position 0 |
| Cursors.EraseOnSecondLineAtEnd | winitExperiment/src/cursor.rs:90-116 | with the corrected backspace the same keys remove the 'C', leaving ['A','B','\n'] |
| Windows.Splice | winitExperiment/src/window.rs:48-51 | the result length is the old length, or start + inserted length when the insertion runs past the end |
| Windows.SpliceFits | winitExperiment/src/window.rs:48-51 | when the insertion fits, exactly the range [start, start+len) is overwritten and the length is kept |
| Windows.SpliceGrows | winitExperiment/src/window.rs:48-51 | when it does not fit, the prefix before start is kept, the rest is the inserted data, and the buffer grows by the excess |
| Windows.SpliceKeepsLength | winitExperiment/src/window.rs:48-51 | the length is unchanged iff start + inserted length <= old length |
| Windows.Window.constructor | winitExperiment/src/window.rs:15-31 | height is taken before width; the cursor region is (position, width, height) and the local framebuffer is width*height zeros |
| Windows.Window.Resize | winitExperiment/src/window.rs:33-43 | new height and width; the cursor region keeps its corner at the position and takes the new size; the local framebuffer becomes width*height zeros |
| Windows.Window.RenderOnScreen | winitExperiment/src/window.rs:45-52 | the screen is the cursor's render followed by the splice of the local framebuffer at position.1*width+position.0; the window does not change |

## Left out

- `main.rs` is not part of this model: the event loop, surface presentation, locking,
  file reads and logging are I/O and concurrency.
- Font construction (`Font::new`, `Font::from_bytes`): reading font files and building the
  font engine are foreign. The rasterizer is the function `Font.raster`. The `f32` font
  size is the whole number `as usize` gives.
- `Color::rand`: ambient randomness.
- `draw_line`: it underflows when an end point is before the start and divides by zero
  for horizontal or vertical lines. Its second loop mixes `start_x` into the y formula,
  so there is no coherent behaviour to state.
- `ScreenBuffer::render`: an empty stub.
- `flush` of the `Write` impl: it does nothing.
- Overflow of `usize` arithmetic (positions, `y * width`, pen coordinates): integers are
  unbounded here.
- `Cursor.case` and `Cursor.blink`: they never affect behaviour. `Char.rendered` and
  `Char.boundaries` are kept but never updated, as in the source.
- Screen.ScreenBuffer.DrawChar: it requires `ymin <= 0` and a bitmap with at least
  `width * height` bytes (`Glyph.Drawable`). For `ymin > 0` the source casts a negative
  number to `usize`, and a short bitmap makes the source panic on indexing.
- Cursors.Cursor.Render, Cursors.Cursor.Clear and Windows.Window.RenderOnScreen: they require every
  non-newline character to have a drawable glyph, for the same reason.
- Screen.ScreenBuffer.DrawImage: it requires an image of at least 3wh (RGB) or 4wh (RGBA)
  bytes, where the source panics on indexing.
- Screen.ImageLands, Screen.GlyphLands and Screen.BitmapLands: they state where a pixel
  ends up only when the image or glyph is no wider than the framebuffer, or every bitmap
  row is. A wider one with two or more rows can put two of its own cells on the same index, and the later one
  overwrites the earlier. The write-list contracts of the methods hold without that
  condition.
- Screen.ScreenBuffer.DrawBitmap: it requires every bitmap position to be inside the
  buffer, where the source indexes without clipping and panics.
- Screen.ScreenBuffer.Read and Screen.ScreenBuffer.Write: they require the byte count to
  be at most the buffer length, where the source panics.
- Windows.Window.RenderOnScreen: it requires the screen to be a different object from the
  local framebuffer, which the source's borrows guarantee. It also requires the splice
  start to be within the screen buffer, where `Vec::splice` panics.
- Screen.ScreenBuffer.DrawImagePixel, Screen.ScreenBuffer.DrawGlyphCell and
  Cursors.Cursor.RenderChar: they are the bodies of the source's inner loops, written as
  methods of their own. The source has them inline.

## Findings

| source | as written | input that shows it | evidently intended | confidence | as-written member | corrected member |
|---|---|---|---|---|---|---|
| winitExperiment/src/cursor.rs:111-116 | backspace removes `buffer[pos - 1]`, but `pos` is reset to 0 by every newline while `buffer` holds every line, so `pos - 1` indexes the first line | `println("AB"); print("C"); backspace()` removes 'A' and leaves "B\nC" | remove the most recently typed character, the last element of the buffer, leaving "AB\n" | not executed | Cursors.EraseOnSecondLine | Cursors.Cursor.BackspaceAtEnd |
