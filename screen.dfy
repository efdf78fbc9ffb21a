/** The software framebuffer: a flat row-major sequence of packed pixels and the drawing
    primitives that write into it through clipped pixel writes. */
module Screen {

  import opened Colors
  import opened Pixels
  import opened Fonts

  /** The screen rectangle a character was drawn into; kept on each character but never filled in. */
  datatype CharBoundary = CharBoundary(startX: nat, startY: nat, endX: nat, endY: nat)

  /** What a nested drawing loop writes, cell by cell. Cell (c, r) is the c-th pixel of the
      r-th row the loop visits; `width` is the width of the framebuffer being drawn on. */
  datatype Pattern =
    | Fill(width: nat, sx: nat, sy: nat, w: nat, v: bv32)
    | Image(width: nat, img: seq<bv8>, w: nat, rgba: bool)
    | Stamp(width: nat, x: nat, y: nat, lift: nat, g: Glyph, fg: Color, bg: Color)
    | Bitmap(width: nat, rows: seq<seq<bv32>>)

  /** The number of cells in row r of a pattern. */
  function Cols(p: Pattern, r: nat): nat {
    match p
    case Fill(_, _, _, w, _) => w
    case Image(_, _, w, _) => w
    case Stamp(_, _, _, _, g, _, _) => g.width
    case Bitmap(_, rows) => if r < |rows| then |rows[r]| else 0
  }

  /** Byte i of an image, or 0 past its end. */
  function Byte(img: seq<bv8>, i: nat): bv32 {
    if i < |img| then img[i] as bv32 else 0
  }

  /** The k-th pixel of an interleaved image: bytes 3k..3k+2 for RGB, 4k..4k+3 for RGBA. */
  function Pixel(img: seq<bv8>, k: nat, rgba: bool): (c: Color)
    ensures c.IsByteColor() && c.alpha == 255
    ensures !rgba && 3 * k + 2 < |img| ==>
              c.red == img[3 * k] as bv32 && c.green == img[3 * k + 1] as bv32 && c.blue == img[3 * k + 2] as bv32
    ensures rgba && 4 * k + 3 < |img| ==>
              c.red == img[4 * k] as bv32 && c.green == img[4 * k + 1] as bv32 && c.blue == img[4 * k + 2] as bv32
  {
    if rgba then FromRgba(Byte(img, 4 * k), Byte(img, 4 * k + 1), Byte(img, 4 * k + 2), Byte(img, 4 * k + 3))
    else FromRgb(Byte(img, 3 * k), Byte(img, 3 * k + 1), Byte(img, 3 * k + 2))
  }

  /** The colour a glyph cell is painted with: the coverage byte is turned into a grey probe
      colour, which becomes the foreground when all its channels are non-zero and the
      background when all are zero. */
  function Resolve(s: bv8, fg: Color, bg: Color): (c: Color)
    ensures c == (if s != 0 then fg else bg)
  {
    var probe := FromRgb(s as bv32, s as bv32, s as bv32);
    if probe.red != 0 && probe.green != 0 && probe.blue != 0 then fg
    else if probe.red == 0 && probe.green == 0 && probe.blue == 0 then bg
    else probe
  }

  /** The write a pattern performs for cell (c, r). */
  function Cell(p: Pattern, c: nat, r: nat): Store {
    match p
    case Fill(width, sx, sy, _, v) => Store(BufPos(width, sx + c, sy + r), v)
    case Image(width, img, w, rgba) =>
      var k := r * w + c;
      if rgba then Store(BufPos(width, c + 1, r + 1), Pixel(img, k, true).ToHexRgba())
      else Store(BufPos(width, c, r), Pixel(img, k, false).ToHexRgb())
    case Stamp(width, x, y, lift, g, fg, bg) =>
      Store(GlyphPos(width, x, y, lift, c, r), Resolve(g.Coverage(c, r), fg, bg).ToHexRgb())
    case Bitmap(width, rows) =>
      Store(BufPos(width, c, r), if r < |rows| && c < |rows[r]| then rows[r][c] else 0)
  }

  /** The first n writes of row r. */
  function Row(p: Pattern, r: nat, n: nat): seq<Store> {
    if n == 0 then [] else Row(p, r, n - 1) + [Cell(p, n - 1, r)]
  }

  /** All writes of the first h rows, row after row. */
  function Grid(p: Pattern, h: nat): seq<Store> {
    if h == 0 then [] else Grid(p, h - 1) + Row(p, h - 1, Cols(p, h - 1))
  }

  /** The buffer once a nested drawing loop has completed rows 0..r-1 and cells 0..c-1 of row r. */
  function Drawn(buf: seq<bv32>, p: Pattern, r: nat, c: nat): (d: seq<bv32>)
    ensures |d| == |buf|
    decreases r, c
  {
    if c > 0 then Put(Drawn(buf, p, r, c - 1), Cell(p, c - 1, r).at, Cell(p, c - 1, r).val)
    else if r > 0 then Drawn(buf, p, r - 1, Cols(p, r - 1))
    else buf
  }

  /** The loop state is the write list performed so far. */
  lemma {:induction false} DrawnIsApply(buf: seq<bv32>, p: Pattern, r: nat, c: nat)
    ensures Drawn(buf, p, r, c) == Apply(buf, Grid(p, r) + Row(p, r, c))
    decreases r, c
  {
    if c > 0 {
      DrawnIsApply(buf, p, r, c - 1);
      GridPut(buf, p, r, c - 1, Drawn(buf, p, r, c - 1), Drawn(buf, p, r, c));
    } else if r > 0 {
      DrawnIsApply(buf, p, r - 1, Cols(p, r - 1));
      DrawnNextRow(buf, p, r);
    } else {
      assert Grid(p, r) + Row(p, r, c) == [];
    }
  }

  lemma DrawnNextRow(buf: seq<bv32>, p: Pattern, r: nat)
    requires r > 0
    requires Drawn(buf, p, r - 1, Cols(p, r - 1)) == Apply(buf, Grid(p, r - 1) + Row(p, r - 1, Cols(p, r - 1)))
    ensures Drawn(buf, p, r, 0) == Apply(buf, Grid(p, r) + Row(p, r, 0))
  {
    GridRowStart(buf, p, r);
  }

  /** A completed loop has performed the whole grid. */
  lemma DrawnGrid(buf: seq<bv32>, p: Pattern, h: nat)
    ensures Drawn(buf, p, h, 0) == Apply(buf, Grid(p, h))
  {
    DrawnIsApply(buf, p, h, 0);
    GridRowStart(buf, p, h);
  }

  /** Every cell of the first n of a row is among the row's writes. */
  lemma {:induction false} RowCellIn(p: Pattern, r: nat, n: nat, c: nat)
    requires c < n
    ensures Cell(p, c, r) in Row(p, r, n)
  {
    if c < n - 1 {
      RowCellIn(p, r, n - 1, c);
    }
  }

  /** Every write of a row is one of its cells. */
  lemma {:induction false} RowCellOf(p: Pattern, r: nat, n: nat, w: Store) returns (c: nat)
    requires w in Row(p, r, n)
    ensures c < n && w == Cell(p, c, r)
  {
    assert Row(p, r, n) == Row(p, r, n - 1) + [Cell(p, n - 1, r)];
    if w == Cell(p, n - 1, r) {
      c := n - 1;
    } else {
      assert w in Row(p, r, n - 1);
      c := RowCellOf(p, r, n - 1, w);
    }
  }

  /** Every cell of the first h rows is among the grid's writes. */
  lemma {:induction false} GridCellIn(p: Pattern, h: nat, c: nat, r: nat)
    requires r < h && c < Cols(p, r)
    ensures Cell(p, c, r) in Grid(p, h)
  {
    if r < h - 1 {
      GridCellIn(p, h - 1, c, r);
    } else {
      RowCellIn(p, r, Cols(p, r), c);
    }
  }

  /** Every write of the grid is the cell of one of its rows. */
  lemma {:induction false} GridCellOf(p: Pattern, h: nat, w: Store) returns (c: nat, r: nat)
    requires w in Grid(p, h)
    ensures r < h && c < Cols(p, r) && w == Cell(p, c, r)
  {
    if w in Grid(p, h - 1) {
      c, r := GridCellOf(p, h - 1, w);
    } else {
      c := RowCellOf(p, h - 1, Cols(p, h - 1), w);
      r := h - 1;
    }
  }

  /** Two write lists aim at the same indices, in the same order. */
  predicate SameTargets(a: seq<Store>, b: seq<Store>) {
    |a| == |b| && forall k | 0 <= k < |a| :: a[k].at == b[k].at
  }

  lemma SameTargetsConcat(a: seq<Store>, b: seq<Store>, a': seq<Store>, b': seq<Store>)
    requires SameTargets(a, a') && SameTargets(b, b')
    ensures SameTargets(a + b, a' + b')
  {
  }

  /** Rows whose cells aim at the same indices give write lists with the same targets. */
  lemma {:induction false} RowSameTargets(p: Pattern, q: Pattern, r: nat, n: nat)
    requires forall c: nat | c < n :: Cell(p, c, r).at == Cell(q, c, r).at
    ensures SameTargets(Row(p, r, n), Row(q, r, n))
  {
    if n > 0 {
      RowSameTargets(p, q, r, n - 1);
      SameTargetsConcat(Row(p, r, n - 1), [Cell(p, n - 1, r)], Row(q, r, n - 1), [Cell(q, n - 1, r)]);
    }
  }

  /** Glyph blits differing only in their colours write to the same indices in the same order. */
  lemma {:induction false} StampSameTargets(width: nat, x: nat, y: nat, lift: nat, g: Glyph,
                                            fg: Color, bg: Color, fg': Color, bg': Color, h: nat)
    ensures SameTargets(Grid(Stamp(width, x, y, lift, g, fg, bg), h), Grid(Stamp(width, x, y, lift, g, fg', bg'), h))
  {
    if h > 0 {
      var p := Stamp(width, x, y, lift, g, fg, bg);
      var q := Stamp(width, x, y, lift, g, fg', bg');
      StampSameTargets(width, x, y, lift, g, fg, bg, fg', bg', h - 1);
      RowSameTargets(p, q, h - 1, g.width);
      SameTargetsConcat(Grid(p, h - 1), Row(p, h - 1, g.width), Grid(q, h - 1), Row(q, h - 1, g.width));
    }
  }

  /** One more cell of the current row is one more clipped write. */
  lemma GridStep(buf: seq<bv32>, p: Pattern, r: nat, c: nat)
    ensures Apply(buf, Grid(p, r) + Row(p, r, c + 1))
         == Put(Apply(buf, Grid(p, r) + Row(p, r, c)), Cell(p, c, r).at, Cell(p, c, r).val)
  {
    var cell := Cell(p, c, r);
    assert Grid(p, r) + Row(p, r, c + 1) == (Grid(p, r) + Row(p, r, c)) + [cell];
    ApplySnoc(buf, Grid(p, r) + Row(p, r, c), cell);
  }

  /** Writing the next cell of the current row extends the performed prefix by that cell. */
  lemma GridPut(buf: seq<bv32>, p: Pattern, r: nat, c: nat, before: seq<bv32>, after: seq<bv32>)
    requires before == Apply(buf, Grid(p, r) + Row(p, r, c))
    requires after == Put(before, Cell(p, c, r).at, Cell(p, c, r).val)
    ensures after == Apply(buf, Grid(p, r) + Row(p, r, c + 1))
  {
    GridStep(buf, p, r, c);
  }

  lemma FillCellAt(width: nat, sx: nat, sy: nat, w: nat, v: bv32, c: nat, r: nat, x: nat, y: nat)
    requires x == sx + c && y == sy + r
    ensures Cell(Fill(width, sx, sy, w, v), c, r) == Store(BufPos(width, x, y), v)
  {
  }

  lemma ImageCellAt(width: nat, img: seq<bv8>, w: nat, rgba: bool, x: nat, y: nat)
    ensures rgba ==> Cell(Image(width, img, w, rgba), x, y) == Store(BufPos(width, x + 1, y + 1), Pixel(img, y * w + x, true).ToHexRgba())
    ensures !rgba ==> Cell(Image(width, img, w, rgba), x, y) == Store(BufPos(width, x, y), Pixel(img, y * w + x, false).ToHexRgb())
  {
  }

  /** The bytes of pixel (x, y) of a w x h image lie inside an image of the size draw_image needs. */
  lemma PixelInImage(img: seq<bv8>, w: nat, h: nat, rgba: bool, x: nat, y: nat)
    requires x < w && y < h
    requires !rgba ==> |img| >= 3 * (w * h)
    requires rgba ==> |img| >= 4 * (w * h)
    ensures !rgba ==> 3 * (y * w + x) + 2 < |img|
    ensures rgba ==> 4 * (y * w + x) + 3 < |img|
  {
    GridRankBound(x, y, w, h);
  }

  /** Pixel k of an image starts at byte `at` (3k or 4k) and is decoded from the bytes there. */
  lemma PixelBytes(img: seq<bv8>, k: nat, rgba: bool, at: nat)
    requires at == if rgba then 4 * k else 3 * k
    requires (if rgba then at + 3 else at + 2) < |img|
    ensures !rgba ==> Pixel(img, k, rgba) == FromRgb(img[at] as bv32, img[at + 1] as bv32, img[at + 2] as bv32)
    ensures rgba ==> Pixel(img, k, rgba)
                     == FromRgba(img[at] as bv32, img[at + 1] as bv32, img[at + 2] as bv32, img[at + 3] as bv32)
  {
  }

  lemma NextRowRank(y: nat, w: nat)
    ensures y * w + w == (y + 1) * w
  {
  }

  lemma GridRowStart(buf: seq<bv32>, p: Pattern, r: nat)
    ensures Apply(buf, Grid(p, r) + Row(p, r, 0)) == Apply(buf, Grid(p, r))
  {
    assert Grid(p, r) + Row(p, r, 0) == Grid(p, r);
  }

  /** An index that no cell of the grid aims at is left as it was. */
  lemma GridUntouched(buf: seq<bv32>, p: Pattern, h: nat, i: nat)
    requires i < |buf|
    requires forall c: nat, r: nat | r < h && c < Cols(p, r) :: Cell(p, c, r).at != i
    ensures Apply(buf, Grid(p, h))[i] == buf[i]
  {
    forall w | w in Grid(p, h) ensures w.at != i {
      var c, r := GridCellOf(p, h, w);
    }
    ApplyUntouched(buf, Grid(p, h), i);
  }

  /** A cell lands in the buffer when every cell aiming at the same index carries the same value. */
  lemma GridLands(buf: seq<bv32>, p: Pattern, h: nat, c: nat, r: nat)
    requires r < h && c < Cols(p, r) && Cell(p, c, r).at < |buf|
    requires forall c': nat, r': nat | r' < h && c' < Cols(p, r') && Cell(p, c', r').at == Cell(p, c, r).at
               :: Cell(p, c', r').val == Cell(p, c, r).val
    ensures Apply(buf, Grid(p, h))[Cell(p, c, r).at] == Cell(p, c, r).val
  {
    var cell := Cell(p, c, r);
    GridCellIn(p, h, c, r);
    forall w | w in Grid(p, h) && w.at == cell.at ensures w.val == cell.val {
      var c', r' := GridCellOf(p, h, w);
    }
    ApplyUniform(buf, Grid(p, h), cell.at, cell.val);
  }

  /** Index i is the position of some pixel of the rectangle [sx, sx+w) x [sy, sy+h). */
  ghost predicate InRect(width: nat, sx: nat, sy: nat, w: nat, h: nat, i: nat) {
    exists x: nat, y: nat :: sx <= x < sx + w && sy <= y < sy + h && BufPos(width, x, y) == i
  }

  /** Filling a rectangle paints exactly the in-buffer indices some pixel of the rectangle maps
      to, wrapping past the row end included, and leaves every other index alone. */
  lemma FillEffect(buf: seq<bv32>, width: nat, sx: nat, sy: nat, w: nat, h: nat, v: bv32, i: nat)
    requires i < |buf|
    ensures Apply(buf, Grid(Fill(width, sx, sy, w, v), h))[i] == if InRect(width, sx, sy, w, h, i) then v else buf[i]
  {
    var p := Fill(width, sx, sy, w, v);
    if InRect(width, sx, sy, w, h, i) {
      var x: nat, y: nat :| sx <= x < sx + w && sy <= y < sy + h && BufPos(width, x, y) == i;
      assert Cell(p, x - sx, y - sy).at == i;
      GridLands(buf, p, h, x - sx, y - sy);
    } else {
      forall c: nat, r: nat | r < h && c < Cols(p, r) ensures Cell(p, c, r).at != i {
        assert BufPos(width, sx + c, sy + r) != i;
      }
      GridUntouched(buf, p, h, i);
    }
  }

  /** FillEffect for every index at once. */
  lemma FillAll(buf: seq<bv32>, width: nat, sx: nat, sy: nat, w: nat, h: nat, v: bv32)
    ensures forall i | 0 <= i < |buf| ::
              Apply(buf, Grid(Fill(width, sx, sy, w, v), h))[i] == if InRect(width, sx, sy, w, h, i) then v else buf[i]
  {
    forall i | 0 <= i < |buf|
      ensures Apply(buf, Grid(Fill(width, sx, sy, w, v), h))[i] == if InRect(width, sx, sy, w, h, i) then v else buf[i]
    {
      FillEffect(buf, width, sx, sy, w, h, v, i);
    }
  }

  /** ClearEffect for every index at once. */
  lemma ClearAll(buf: seq<bv32>, width: nat, height: nat, v: bv32)
    ensures forall i | 0 <= i < |buf| ::
              Apply(buf, Grid(Fill(width, 0, 0, width, v), height))[i] == if i < width * height then v else buf[i]
  {
    forall i | 0 <= i < |buf|
      ensures Apply(buf, Grid(Fill(width, 0, 0, width, v), height))[i] == if i < width * height then v else buf[i]
    {
      ClearEffect(buf, width, height, v, i);
    }
  }

  /** Clearing paints exactly the first width * height indices that exist. */
  lemma ClearEffect(buf: seq<bv32>, width: nat, height: nat, v: bv32, i: nat)
    requires i < |buf|
    ensures Apply(buf, Grid(Fill(width, 0, 0, width, v), height))[i] == if i < width * height then v else buf[i]
  {
    FillEffect(buf, width, 0, 0, width, height, v, i);
    RowMajorCover(width, height, i);
  }

  /** When the image is no wider than the framebuffer (RGBA pixels, drawn one pixel right and
      down, wrap into the next row from the last column on), pixel (x, y) of the image ends up at its target,
      decoded from bytes 3k.. (RGB) or 4k.. (RGBA) with k = y * w + x. */
  lemma ImageLands(buf: seq<bv32>, width: nat, img: seq<bv8>, w: nat, h: nat, rgba: bool, x: nat, y: nat)
    requires x < w && y < h
    requires w <= width
    requires (if rgba then BufPos(width, x + 1, y + 1) else BufPos(width, x, y)) < |buf|
    ensures rgba ==> Apply(buf, Grid(Image(width, img, w, rgba), h))[BufPos(width, x + 1, y + 1)]
                     == Pixel(img, y * w + x, true).ToHexRgba()
    ensures !rgba ==> Apply(buf, Grid(Image(width, img, w, rgba), h))[BufPos(width, x, y)]
                      == Pixel(img, y * w + x, false).ToHexRgb()
  {
    var p := Image(width, img, w, rgba);
    forall c': nat, r': nat | r' < h && c' < Cols(p, r') && Cell(p, c', r').at == Cell(p, x, y).at
      ensures Cell(p, c', r').val == Cell(p, x, y).val
    {
      ImageTargetsDistinct(width, img, w, rgba, c', r', x, y);
    }
    ImageCellAt(width, img, w, rgba, x, y);
    GridLands(buf, p, h, x, y);
  }

  /** Two pixels of an image no wider than the framebuffer are stored at different positions. */
  lemma ImageTargetsDistinct(width: nat, img: seq<bv8>, w: nat, rgba: bool, c: nat, r: nat, x: nat, y: nat)
    requires c < w && x < w
    requires w <= width
    requires Cell(Image(width, img, w, rgba), c, r).at == Cell(Image(width, img, w, rgba), x, y).at
    ensures c == x && r == y
  {
    ImageCellAt(width, img, w, rgba, c, r);
    ImageCellAt(width, img, w, rgba, x, y);
    if rgba {
      ShiftedPosInjective(width, 1, c, r + 1, x, y + 1);
    } else {
      ShiftedPosInjective(width, 0, c, r, x, y);
    }
  }

  /** The vertical offset of a glyph inside its row: down by -ymin to the baseline, and down
      by the room the glyph leaves below the font size. Only meaningful for ymin <= 0. */
  function Lift(g: Glyph, size: nat): (r: nat)
    ensures g.ymin <= 0 ==> r >= -g.ymin
    ensures g.ymin <= 0 ==> (r + g.height == size - g.ymin <==> g.height <= size)
    ensures g.ymin <= 0 ==> r + g.height >= size - g.ymin
    ensures g.ymin <= 0 && size < g.height ==> r == -g.ymin
  {
    (if g.ymin <= 0 then -g.ymin else 0) + (if size < g.height then 0 else size - g.height)
  }

  /** Where glyph cell (col, row) goes when the glyph box is placed at (x, y) and lowered by `lift`. */
  function GlyphPos(width: nat, x: nat, y: nat, lift: nat, col: nat, row: nat): nat {
    BufPos(width, x + col, y + row + lift)
  }

  /** The writes of one glyph blitted with its top-left cell at (x, y). */
  function GlyphWrites(width: nat, x: nat, y: nat, g: Glyph, size: nat, fg: Color, bg: Color): seq<Store> {
    Grid(Stamp(width, x, y, Lift(g, size), g, fg, bg), g.height)
  }

  /** When the glyph is no wider than the framebuffer, each cell (col, row) lands at
      (x + col, y + row + Lift) painted foreground on ink and background elsewhere. */
  lemma GlyphLands(buf: seq<bv32>, width: nat, x: nat, y: nat, g: Glyph, size: nat, fg: Color, bg: Color,
                   col: nat, row: nat)
    requires g.Drawable() && g.width <= width
    requires col < g.width && row < g.height
    requires GlyphPos(width, x, y, Lift(g, size), col, row) < |buf|
    ensures row * g.width + col < |g.bitmap|
    ensures Apply(buf, GlyphWrites(width, x, y, g, size, fg, bg))[GlyphPos(width, x, y, Lift(g, size), col, row)]
         == (if g.bitmap[row * g.width + col] != 0 then fg else bg).ToHexRgb()
  {
    var p := Stamp(width, x, y, Lift(g, size), g, fg, bg);
    forall c': nat, r': nat | r' < g.height && c' < Cols(p, r') && Cell(p, c', r').at == Cell(p, col, row).at
      ensures Cell(p, c', r').val == Cell(p, col, row).val
    {
      StampTargetsDistinct(width, x, y, Lift(g, size), g, fg, bg, c', r', col, row);
    }
    GridLands(buf, p, g.height, col, row);
    StampCellAt(width, x, y, Lift(g, size), g, fg, bg, col, row);
  }

  /** Two cells of a glyph no wider than the framebuffer are stored at different positions, even
      when the glyph starts near the end of a row and wraps into the next. */
  lemma StampTargetsDistinct(width: nat, x: nat, y: nat, lift: nat, g: Glyph, fg: Color, bg: Color,
                             c: nat, r: nat, col: nat, row: nat)
    requires c < g.width && col < g.width && g.width <= width
    requires Cell(Stamp(width, x, y, lift, g, fg, bg), c, r).at == Cell(Stamp(width, x, y, lift, g, fg, bg), col, row).at
    ensures c == col && r == row
  {
    ShiftedPosInjective(width, x, c, y + r + lift, col, y + row + lift);
  }

  /** A drawable glyph's cell is painted from its own bitmap byte. */
  lemma StampCellAt(width: nat, x: nat, y: nat, lift: nat, g: Glyph, fg: Color, bg: Color, col: nat, row: nat)
    requires g.Drawable() && col < g.width && row < g.height
    ensures row * g.width + col < |g.bitmap|
    ensures Cell(Stamp(width, x, y, lift, g, fg, bg), col, row).val
         == (if g.bitmap[row * g.width + col] != 0 then fg else bg).ToHexRgb()
  {
    GridRankBound(col, row, g.width, g.height);
  }

  /** A glyph blit changes nothing outside its cells' positions. */
  lemma GlyphUntouched(buf: seq<bv32>, width: nat, x: nat, y: nat, g: Glyph, size: nat, fg: Color, bg: Color, i: nat)
    requires i < |buf|
    requires forall col: nat, row: nat | col < g.width && row < g.height :: GlyphPos(width, x, y, Lift(g, size), col, row) != i
    ensures Apply(buf, GlyphWrites(width, x, y, g, size, fg, bg))[i] == buf[i]
  {
    var p := Stamp(width, x, y, Lift(g, size), g, fg, bg);
    forall c: nat, r: nat | r < g.height && c < Cols(p, r) ensures Cell(p, c, r).at != i {
      assert GlyphPos(width, x, y, Lift(g, size), c, r) != i;
    }
    GridUntouched(buf, p, g.height, i);
  }

  /** With rows no longer than the framebuffer row, bitmap cell (x, y) is stored at (x, y). */
  lemma BitmapLands(buf: seq<bv32>, width: nat, rows: seq<seq<bv32>>, x: nat, y: nat)
    requires y < |rows| && x < |rows[y]| && BufPos(width, x, y) < |buf|
    requires forall r | 0 <= r < |rows| :: |rows[r]| <= width
    ensures Apply(buf, Grid(Bitmap(width, rows), |rows|))[BufPos(width, x, y)] == rows[y][x]
  {
    var p := Bitmap(width, rows);
    forall c': nat, r': nat | r' < |rows| && c' < Cols(p, r') && Cell(p, c', r').at == Cell(p, x, y).at
      ensures Cell(p, c', r').val == Cell(p, x, y).val
    {
      BufPosInjective(width, c', r', x, y);
    }
    GridLands(buf, p, |rows|, x, y);
  }

  /** A framebuffer of width x height packed pixels, stored row-major in `buffer`. Writes are
      clipped against the length of `buffer`, not against width and height. */
  class ScreenBuffer {
    var height: nat
    var width: nat
    var buffer: seq<bv32>

    /** A zero-filled framebuffer of the given size. */
    constructor (width: nat, height: nat)
      ensures this.width == width && this.height == height
      ensures |buffer| == width * height
      ensures forall i | 0 <= i < |buffer| :: buffer[i] == 0
    {
      this.width := width;
      this.height := height;
      buffer := seq(width * height, _ => 0);
    }

    /** Stores the RGB word of `color` at (x, y) when its row-major index is inside the buffer. */
    method PutPixel(x: nat, y: nat, color: Color)
      modifies this`buffer
      ensures buffer == Put(old(buffer), BufPos(width, x, y), color.ToHexRgb())
    {
      var pos := BufPos(width, x, y);
      if |buffer| > pos {
        buffer := buffer[pos := color.ToHexRgb()];
      }
    }

    /** As PutPixel, with the RGBA word. */
    method PutPixelA(x: nat, y: nat, color: Color)
      modifies this`buffer
      ensures buffer == Put(old(buffer), BufPos(width, x, y), color.ToHexRgba())
    {
      var pos := BufPos(width, x, y);
      if |buffer| > pos {
        buffer := buffer[pos := color.ToHexRgba()];
      }
    }

    /** Fills the rectangle of `w` x `h` pixels whose top-left corner is (startX, startY). */
    method DrawRect(startX: nat, startY: nat, w: nat, h: nat, color: Color)
      modifies this`buffer
      ensures buffer == Apply(old(buffer), Grid(Fill(width, startX, startY, w, color.ToHexRgb()), h))
      ensures |buffer| == |old(buffer)|
      ensures forall i | 0 <= i < |buffer| ::
                buffer[i] == if InRect(width, startX, startY, w, h, i) then color.ToHexRgb() else old(buffer[i])
    {
      ghost var p := Fill(width, startX, startY, w, color.ToHexRgb());
      var y := startY;
      ghost var r := 0;
      while y < startY + h
        invariant y == startY + r && r <= h
        invariant buffer == Drawn(old(buffer), p, r, 0)
      {
        var x := startX;
        ghost var c := 0;
        while x < startX + w
          invariant x == startX + c && c <= w
          invariant buffer == Drawn(old(buffer), p, r, c)
        {
          FillCellAt(width, startX, startY, w, color.ToHexRgb(), c, r, x, y);
          PutPixel(x, y, color);
          x, c := x + 1, c + 1;
        }
        y, r := y + 1, r + 1;
      }
      DrawnGrid(old(buffer), p, h);
      FillAll(old(buffer), width, startX, startY, w, h, color.ToHexRgb());
    }

    /** Paints every (x, y) with x < width and y < height; that is, the first width * height
        indices of the buffer, as far as it reaches. */
    method Clear(color: Color)
      modifies this`buffer
      ensures buffer == Apply(old(buffer), Grid(Fill(width, 0, 0, width, color.ToHexRgb()), height))
      ensures |buffer| == |old(buffer)|
      ensures forall i | 0 <= i < |buffer| :: buffer[i] == if i < width * height then color.ToHexRgb() else old(buffer[i])
    {
      ghost var p := Fill(width, 0, 0, width, color.ToHexRgb());
      var y := 0;
      while y < height
        invariant y <= height
        invariant buffer == Drawn(old(buffer), p, y, 0)
      {
        var x := 0;
        while x < width
          invariant x <= width
          invariant buffer == Drawn(old(buffer), p, y, x)
        {
          assert Cell(p, x, y) == Store(BufPos(width, x, y), color.ToHexRgb());
          PutPixel(x, y, color);
          x := x + 1;
        }
        y := y + 1;
      }
      DrawnGrid(old(buffer), p, height);
      ClearAll(old(buffer), width, height, color.ToHexRgb());
    }

    /** Changes the geometry; the contents are discarded and replaced by zeros. */
    method Resize(width: nat, height: nat)
      modifies this
      ensures this.width == width && this.height == height
      ensures |buffer| == width * height
      ensures forall i | 0 <= i < |buffer| :: buffer[i] == 0
    {
      this.width := width;
      this.height := height;
      buffer := seq(width * height, _ => 0);
    }

    /** Decodes a w x h interleaved image, 3 bytes per pixel when colorType is 0 and 4
        otherwise, and draws it at the origin (RGB) or one pixel right and down (RGBA). */
    method DrawImage(image: seq<bv8>, w: nat, h: nat, colorType: bv8)
      requires colorType == 0 ==> |image| >= 3 * (w * h)
      requires colorType != 0 ==> |image| >= 4 * (w * h)
      modifies this`buffer
      ensures buffer == Apply(old(buffer), Grid(Image(width, image, w, colorType != 0), h))
      ensures |buffer| == |old(buffer)|
    {
      ghost var p := Image(width, image, w, colorType != 0);
      var px := 0;
      var y := 0;
      while y < h
        invariant y <= h
        invariant px == if colorType == 0 then 2 * (y * w) else 3 * (y * w)
        invariant buffer == Drawn(old(buffer), p, y, 0)
      {
        var x := 0;
        ghost var k := y * w;
        while x < w
          invariant x <= w && k == y * w + x
          invariant px == if colorType == 0 then 2 * k else 3 * k
          invariant buffer == Drawn(old(buffer), p, y, x)
        {
          PixelInImage(image, w, h, colorType != 0, x, y);
          var idx := y * w;
          var idy := idx + x + px;
          assert idy == if colorType == 0 then 3 * k else 4 * k;
          px := px + if colorType == 0 then 2 else 3;
          DrawImagePixel(image, w, colorType, x, y, k, idy);
          x, k := x + 1, k + 1;
        }
        NextRowRank(y, w);
        y := y + 1;
      }
      DrawnGrid(old(buffer), p, h);
    }

    /** One pixel of DrawImage: decodes the bytes starting at `at` (r, g, b and, for RGBA, a)
        and stores the colour with PutPixel or PutPixelA. */
    method DrawImagePixel(image: seq<bv8>, w: nat, colorType: bv8, x: nat, y: nat, ghost k: nat, at: nat)
      requires k == y * w + x
      requires at == if colorType == 0 then 3 * k else 4 * k
      requires (if colorType == 0 then at + 2 else at + 3) < |image|
      modifies this`buffer
      ensures buffer == Put(old(buffer), Cell(Image(width, image, w, colorType != 0), x, y).at,
                            Cell(Image(width, image, w, colorType != 0), x, y).val)
    {
      ImageCellAt(width, image, w, colorType != 0, x, y);
      if colorType == 0 {
        var color := FromRgb(image[at] as bv32, image[at + 1] as bv32, image[at + 2] as bv32);
        PixelBytes(image, k, false, at);
        PutPixel(x, y, color);
      } else {
        var color := FromRgba(image[at] as bv32, image[at + 1] as bv32, image[at + 2] as bv32, image[at + 3] as bv32);
        PixelBytes(image, k, true, at);
        PutPixelA(x + 1, y + 1, color);
      }
    }

    /** Blits glyph `chr` of `font` with its box at (x, y): each coverage cell is painted with
        `color` on ink and `background` elsewhere, lowered to the baseline by Lift. */
    method DrawChar(chr: char, x: nat, y: nat, color: Color, background: Color, font: Font)
      requires font.raster(chr).Drawable()
      modifies this`buffer
      ensures buffer == Apply(old(buffer), GlyphWrites(width, x, y, font.raster(chr), font.size, color, background))
      ensures |buffer| == |old(buffer)|
    {
      var g := font.raster(chr);
      ghost var p := Stamp(width, x, y, Lift(g, font.size), g, color, background);
      var currentX := x;
      var currentY := y;
      var row := 0;
      while row < g.height
        invariant row <= g.height
        invariant currentX == x && currentY == y + row
        invariant buffer == Drawn(old(buffer), p, row, 0)
      {
        var col := 0;
        while col < g.width
          invariant col <= g.width
          invariant currentX == x + col && currentY == y + row
          invariant buffer == Drawn(old(buffer), p, row, col)
        {
          DrawGlyphCell(g, col, row, currentX, currentY, font.size, color, background, x, y);
          currentX := currentX + 1;
          col := col + 1;
        }
        currentY := currentY + 1;
        currentX := x;
        row := row + 1;
      }
      DrawnGrid(old(buffer), p, g.height);
    }

    /** One cell of DrawChar: the coverage byte, as a grey probe colour, picks the foreground
        or the background, which is stored lowered by the glyph's offset. */
    method DrawGlyphCell(g: Glyph, col: nat, row: nat, currentX: nat, currentY: nat, size: nat,
                         color: Color, background: Color, ghost x: nat, ghost y: nat)
      requires g.Drawable() && col < g.width && row < g.height
      requires currentX == x + col && currentY == y + row
      modifies this`buffer
      ensures buffer == Put(old(buffer), Cell(Stamp(width, x, y, Lift(g, size), g, color, background), col, row).at,
                            Cell(Stamp(width, x, y, Lift(g, size), g, color, background), col, row).val)
    {
      GridRankBound(col, row, g.width, g.height);
      var s := g.bitmap[col + row * g.width];
      var charColor := FromRgb(s as bv32, s as bv32, s as bv32);
      if charColor.red != 0 && charColor.green != 0 && charColor.blue != 0 {
        charColor := color;
      } else if charColor.red == 0 && charColor.green == 0 && charColor.blue == 0 {
        charColor := background;
      }
      assert charColor == Resolve(g.Coverage(col, row), color, background);
      PutPixel(currentX, currentY + -g.ymin + (if size < g.height then 0 else size - g.height), charColor);
    }

    /** Copies a bitmap of rows into the buffer at (column, row) positions, without clipping:
        every position must be inside the buffer. */
    method DrawBitmap(bitmap: seq<seq<bv32>>)
      requires forall y, x | 0 <= y < |bitmap| && 0 <= x < |bitmap[y]| :: BufPos(width, x, y) < |buffer|
      modifies this`buffer
      ensures buffer == Apply(old(buffer), Grid(Bitmap(width, bitmap), |bitmap|))
      ensures |buffer| == |old(buffer)|
    {
      ghost var p := Bitmap(width, bitmap);
      var y := 0;
      while y < |bitmap|
        invariant y <= |bitmap|
        invariant buffer == Drawn(old(buffer), p, y, 0)
      {
        var x := 0;
        while x < |bitmap[y]|
          invariant x <= |bitmap[y]|
          invariant buffer == Drawn(old(buffer), p, y, x)
        {
          var pos := BufPos(width, x, y);
          buffer := buffer[pos := bitmap[y][x]];
          x := x + 1;
        }
        y := y + 1;
      }
      DrawnGrid(old(buffer), p, |bitmap|);
    }

    /** Reading fills `buf` with the low bytes of the first buf.Length pixels. */
    method Read(buf: array<bv8>) returns (n: nat)
      requires buf.Length <= |buffer|
      modifies buf
      ensures n == buf.Length
      ensures forall i | 0 <= i < buf.Length :: buf[i] == (buffer[i] & 0xFF) as bv8
    {
      var i := 0;
      while i < buf.Length
        invariant i <= buf.Length
        invariant forall j | 0 <= j < i :: buf[j] == (buffer[j] & 0xFF) as bv8
      {
        buf[i] := (buffer[i] & 0xFF) as bv8;
        i := i + 1;
      }
      n := buf.Length;
    }

    /** Writing stores each byte, widened, over the first |bytes| pixels. */
    method Write(bytes: seq<bv8>) returns (n: nat)
      requires |bytes| <= |buffer|
      modifies this`buffer
      ensures n == |bytes|
      ensures |buffer| == |old(buffer)|
      ensures forall i | 0 <= i < |buffer| :: buffer[i] == if i < |bytes| then bytes[i] as bv32 else old(buffer[i])
    {
      var i := 0;
      while i < |bytes|
        invariant i <= |bytes|
        invariant |buffer| == |old(buffer)|
        invariant forall j | 0 <= j < |buffer| :: buffer[j] == if j < i then bytes[j] as bv32 else old(buffer[j])
      {
        buffer := buffer[i := bytes[i] as bv32];
        i := i + 1;
      }
      n := |bytes|;
    }
  }
}
