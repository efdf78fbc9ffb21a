/** The text console: a growing buffer of characters with a write position, printed by
    appending and erased by backspace, and rendered glyph by glyph into a framebuffer. */
module Cursors {

  import opened Colors
  import opened Pixels
  import opened Fonts
  import opened Screen

  datatype Option<T> = None | Some(value: T)

  /** One buffered character. `rendered` and `boundaries` are carried but never updated. */
  datatype Char = Char(ch: char, rendered: bool, boundaries: Option<CharBoundary>)
  {
    /** A fresh, not yet rendered character without a boundary. */
    static function Build(c: char): (r: Char)
      ensures r.ch == c && !r.rendered && r.boundaries == None
    {
      Char(c, false, None)
    }
  }

  /** The screen region a cursor renders into: its top-left corner and its size. */
  datatype Boundaries = Boundaries(startX: nat, startY: nat, width: nat, height: nat)

  /** The characters `text` prints, one per code point and in order. */
  function Chars(text: string): (cs: seq<Char>)
    ensures |cs| == |text|
    ensures forall i | 0 <= i < |text| :: cs[i] == Char.Build(text[i])
  {
    if text == [] then [] else Chars(text[..|text| - 1]) + [Char.Build(text[|text| - 1])]
  }

  /** The pen of the render loop: the offset of the next glyph from the region's corner. */
  datatype Pen = Pen(rx: nat, ry: nat)

  /** Horizontal advance of every printed character, in pixels. */
  const Advance: nat := 15

  /** One step of the pen: a newline returns to column 0 and moves down one font size,
      wrapping to the top once it reaches the region's height; any other character moves
      right by the fixed advance. */
  function Step(pen: Pen, c: char, size: nat, height: nat): (r: Pen)
    ensures c == '\n' ==> r.rx == 0 && (r.ry == 0 || r.ry < height)
    ensures c == '\n' && pen.ry + size < height ==> r.ry == pen.ry + size
    ensures c == '\n' && pen.ry + size >= height ==> r == Pen(0, 0)
    ensures c != '\n' ==> r.rx == pen.rx + Advance && r.ry == pen.ry
  {
    if c == '\n' then
      var ry := pen.ry + size;
      Pen(0, if ry >= height then 0 else ry)
    else Pen(pen.rx + Advance, pen.ry)
  }

  /** The pen after rendering the first n characters, starting from the corner. */
  function PenAt(chars: seq<Char>, n: nat, size: nat, height: nat): (r: Pen)
    requires n <= |chars|
    ensures r.rx % Advance == 0
    ensures n == 0 ==> r == Pen(0, 0)
  {
    if n == 0 then Pen(0, 0) else Step(PenAt(chars, n - 1, size, height), chars[n - 1].ch, size, height)
  }

  /** What rendering character `c` with the pen at `pen` writes: nothing for a newline, the
      glyph blit at the pen position otherwise. */
  function CharWrites(pen: Pen, c: Char, font: Font, b: Boundaries, fg: Color, bg: Color, width: nat): seq<Store> {
    if c.ch == '\n' then []
    else GlyphWrites(width, b.startX + pen.rx, b.startY + pen.ry, font.raster(c.ch), font.size, fg, bg)
  }

  /** What rendering the character at index i writes, with the pen where the characters before
      it left it. */
  function NthWrites(chars: seq<Char>, i: nat, font: Font, b: Boundaries, fg: Color, bg: Color, width: nat): seq<Store>
    requires i < |chars|
  {
    CharWrites(PenAt(chars, i, font.size, b.height), chars[i], font, b, fg, bg, width)
  }

  /** All writes of rendering the first n characters into a framebuffer `width` pixels wide. */
  function RenderWrites(chars: seq<Char>, n: nat, font: Font, b: Boundaries, fg: Color, bg: Color, width: nat): seq<Store>
    requires n <= |chars|
  {
    if n == 0 then []
    else RenderWrites(chars, n - 1, font, b, fg, bg, width)
           + NthWrites(chars, n - 1, font, b, fg, bg, width)
  }

  /** The framebuffer once the render loop has drawn the first n characters. */
  function Rendered(buf: seq<bv32>, chars: seq<Char>, n: nat, font: Font, b: Boundaries, fg: Color, bg: Color, width: nat)
    : (d: seq<bv32>)
    requires n <= |chars|
    ensures |d| == |buf|
  {
    if n == 0 then buf
    else Apply(Rendered(buf, chars, n - 1, font, b, fg, bg, width), NthWrites(chars, n - 1, font, b, fg, bg, width))
  }

  /** The render loop's state is the render write list performed so far. */
  lemma {:induction false} RenderedIsApply(buf: seq<bv32>, chars: seq<Char>, n: nat, font: Font, b: Boundaries,
                                           fg: Color, bg: Color, width: nat)
    requires n <= |chars|
    ensures Rendered(buf, chars, n, font, b, fg, bg, width) == Apply(buf, RenderWrites(chars, n, font, b, fg, bg, width))
  {
    if n > 0 {
      var prev := RenderWrites(chars, n - 1, font, b, fg, bg, width);
      var last := NthWrites(chars, n - 1, font, b, fg, bg, width);
      RenderedIsApply(buf, chars, n - 1, font, b, fg, bg, width);
      ApplyConcat(buf, prev, last);
      calc {
        Rendered(buf, chars, n, font, b, fg, bg, width);
        Apply(Rendered(buf, chars, n - 1, font, b, fg, bg, width), last);
        Apply(Apply(buf, prev), last);
        Apply(buf, prev + last);
      }
    }
  }

  /** Every character that is not a newline has a glyph the framebuffer can blit. */
  predicate Printable(chars: seq<Char>, font: Font) {
    forall i | 0 <= i < |chars| && chars[i].ch != '\n' :: font.raster(chars[i].ch).Drawable()
  }

  /** The number of characters among the first n since the last newline. */
  function Column(chars: seq<Char>, n: nat): nat
    requires n <= |chars|
  {
    if n == 0 || chars[n - 1].ch == '\n' then 0 else Column(chars, n - 1) + 1
  }

  /** The number of newlines among the first n characters. */
  function Lines(chars: seq<Char>, n: nat): nat
    requires n <= |chars|
  {
    if n == 0 then 0 else Lines(chars, n - 1) + if chars[n - 1].ch == '\n' then 1 else 0
  }

  /** The pen row is always the top row or strictly inside the region. */
  lemma {:induction false} PenRowInside(chars: seq<Char>, n: nat, size: nat, height: nat)
    requires n <= |chars|
    ensures PenAt(chars, n, size, height).ry == 0 || PenAt(chars, n, size, height).ry < height
  {
    if n > 0 {
      PenRowInside(chars, n - 1, size, height);
    }
  }

  /** The pen column is the fixed advance times the characters printed since the last newline. */
  lemma {:induction false} PenColumn(chars: seq<Char>, n: nat, size: nat, height: nat)
    requires n <= |chars|
    ensures PenAt(chars, n, size, height).rx == Advance * Column(chars, n)
  {
    if n > 0 {
      PenColumn(chars, n - 1, size, height);
    }
  }

  /** Until the rows fill the region, the pen row is the font size times the newlines so far. */
  lemma {:induction false} PenRow(chars: seq<Char>, n: nat, size: nat, height: nat)
    requires n <= |chars|
    requires Lines(chars, n) * size < height
    ensures PenAt(chars, n, size, height).ry == Lines(chars, n) * size
  {
    if n > 0 {
      var prev := PenAt(chars, n - 1, size, height);
      var k := Lines(chars, n - 1);
      MulMono(k, Lines(chars, n), size);
      PenRow(chars, n - 1, size, height);
      assert prev.ry == k * size;
      if chars[n - 1].ch == '\n' {
        assert Lines(chars, n) == k + 1;
        assert (k + 1) * size == k * size + size;
        assert prev.ry + size < height;
      } else {
        assert Lines(chars, n) == k;
      }
    }
  }

  /** With a font at least as tall as the region, every line is drawn at the top. */
  lemma {:induction false} PenRowTop(chars: seq<Char>, n: nat, size: nat, height: nat)
    requires n <= |chars|
    requires size >= height
    ensures PenAt(chars, n, size, height).ry == 0
  {
    if n > 0 {
      PenRowTop(chars, n - 1, size, height);
    }
  }

  /** A glyph blitted with the same colour on ink and off ink writes only that colour. */
  lemma GlyphWritesOneColour(width: nat, x: nat, y: nat, g: Glyph, size: nat, bg: Color, w: Store)
    requires w in GlyphWrites(width, x, y, g, size, bg, bg)
    ensures w.val == bg.ToHexRgb()
  {
    var c, r := GridCellOf(Stamp(width, x, y, Lift(g, size), g, bg, bg), g.height, w);
  }

  /** Rendering with the background as the foreground writes nothing but the background. */
  lemma {:induction false} RenderOneColour(chars: seq<Char>, n: nat, font: Font, b: Boundaries, bg: Color, width: nat)
    requires n <= |chars|
    ensures forall w | w in RenderWrites(chars, n, font, b, bg, bg, width) :: w.val == bg.ToHexRgb()
  {
    if n > 0 {
      RenderOneColour(chars, n - 1, font, b, bg, width);
      var pen := PenAt(chars, n - 1, font.size, b.height);
      var c := chars[n - 1];
      forall w | w in CharWrites(pen, c, font, b, bg, bg, width) ensures w.val == bg.ToHexRgb() {
        GlyphWritesOneColour(width, b.startX + pen.rx, b.startY + pen.ry, font.raster(c.ch), font.size, bg, w);
      }
    }
  }

  /** The indices a render writes to, and their order, do not depend on its colours. */
  lemma {:induction false} RenderSameTargets(chars: seq<Char>, n: nat, font: Font, b: Boundaries,
                                             fg: Color, bg: Color, fg': Color, bg': Color, width: nat)
    requires n <= |chars|
    ensures SameTargets(RenderWrites(chars, n, font, b, fg, bg, width), RenderWrites(chars, n, font, b, fg', bg', width))
  {
    if n > 0 {
      var pen := PenAt(chars, n - 1, font.size, b.height);
      var c := chars[n - 1];
      RenderSameTargets(chars, n - 1, font, b, fg, bg, fg', bg', width);
      if c.ch != '\n' {
        var g := font.raster(c.ch);
        StampSameTargets(width, b.startX + pen.rx, b.startY + pen.ry, Lift(g, font.size), g, fg, bg, fg', bg', g.height);
      }
      SameTargetsConcat(RenderWrites(chars, n - 1, font, b, fg, bg, width), CharWrites(pen, c, font, b, fg, bg, width),
                        RenderWrites(chars, n - 1, font, b, fg', bg', width), CharWrites(pen, c, font, b, fg', bg', width));
    }
  }

  /** The erasing render inside clear paints with the background every in-buffer index that a
      render of the same characters with any colours writes to. */
  lemma EraseCovers(buf: seq<bv32>, chars: seq<Char>, font: Font, b: Boundaries, fg: Color, bg: Color,
                    width: nat, i: nat)
    requires i < |buf|
    requires exists w :: w in RenderWrites(chars, |chars|, font, b, fg, bg, width) && w.at == i
    ensures Apply(buf, RenderWrites(chars, |chars|, font, b, bg, bg, width))[i] == bg.ToHexRgb()
  {
    var ds := RenderWrites(chars, |chars|, font, b, fg, bg, width);
    var es := RenderWrites(chars, |chars|, font, b, bg, bg, width);
    var w :| w in ds && w.at == i;
    var k :| 0 <= k < |ds| && ds[k] == w;
    RenderSameTargets(chars, |chars|, font, b, fg, bg, bg, bg, width);
    assert es[k] in es && es[k].at == i;
    RenderOneColour(chars, |chars|, font, b, bg, width);
    ApplyUniform(buf, es, i, bg.ToHexRgb());
  }

  /** With a font 10 pixels high in a region 20 pixels high, the third line of "a\nb\nc" is
      drawn on the first: the second newline wraps the pen to the top. */
  lemma ThirdLineWraps()
    ensures PenAt(Chars("a\nb\nc"), 5, 10, 20) == Pen(Advance, 0)
  {
    var cs := Chars("a\nb\nc");
    assert cs[0].ch == 'a' && cs[1].ch == '\n' && cs[2].ch == 'b' && cs[3].ch == '\n' && cs[4].ch == 'c';
    assert PenAt(cs, 2, 10, 20) == Pen(0, 10);
    assert PenAt(cs, 4, 10, 20) == Pen(0, 0);
  }

  /** After an erasing render every pixel either kept its value or holds the background. */
  lemma EraseEffect(buf: seq<bv32>, chars: seq<Char>, font: Font, b: Boundaries, bg: Color, width: nat, i: nat)
    requires i < |buf|
    ensures Apply(buf, RenderWrites(chars, |chars|, font, b, bg, bg, width))[i] == buf[i]
         || Apply(buf, RenderWrites(chars, |chars|, font, b, bg, bg, width))[i] == bg.ToHexRgb()
  {
    RenderOneColour(chars, |chars|, font, b, bg, width);
    ApplyOnly(buf, RenderWrites(chars, |chars|, font, b, bg, bg, width), bg.ToHexRgb(), i);
  }

  /** A text console over a region of the screen. Characters are only ever appended at the
      end of `buffer`; `pos` counts the characters typed on the current line, and is used
      by backspace as an index into the whole buffer. */
  class Cursor {
    var font: Font
    var buffer: seq<Char>
    var pos: nat
    var boundaries: Boundaries
    var color: Color
    var background: Color

    /** The write position never passes the end of the buffer. */
    ghost predicate Valid()
      reads this
    {
      pos <= |buffer|
    }

    /** An empty console, white on black. */
    constructor (font: Font, boundaries: Boundaries)
      ensures Valid()
      ensures this.font == font && this.boundaries == boundaries
      ensures buffer == [] && pos == 0
      ensures color == FromRgb(255, 255, 255) && background == FromRgb(0, 0, 0)
    {
      this.font := font;
      buffer := [];
      pos := 0;
      this.boundaries := boundaries;
      color := FromRgb(255, 255, 255);
      background := FromRgb(0, 0, 0);
    }

    /** Appends a newline and returns the write position to the start of the line. */
    method NewLine()
      modifies this`buffer, this`pos
      ensures Valid()
      ensures buffer == old(buffer) + [Char.Build('\n')] && pos == 0
    {
      pos := 0;
      buffer := buffer + [Char.Build('\n')];
    }

    /** Prints `text` and then a newline. */
    method Println(text: string)
      requires Valid()
      modifies this`buffer, this`pos
      ensures Valid()
      ensures buffer == old(buffer) + Chars(text) + [Char.Build('\n')] && pos == 0
    {
      Print(text);
      NewLine();
    }

    /** Appends one character per code point of `text`, advancing the write position by each. */
    method Print(text: string)
      requires Valid()
      modifies this`buffer, this`pos
      ensures Valid()
      ensures buffer == old(buffer) + Chars(text) && pos == old(pos) + |text|
    {
      var i := 0;
      while i < |text|
        invariant i <= |text| && Valid()
        invariant buffer == old(buffer) + Chars(text[..i]) && pos == old(pos) + i
      {
        PrintChar(text[i]);
        assert text[..i + 1][..i] == text[..i];
        i := i + 1;
      }
      assert text[..|text|] == text;
    }

    /** Appends one character and advances the write position. */
    method PrintChar(c: char)
      requires Valid()
      modifies this`buffer, this`pos
      ensures Valid()
      ensures buffer == old(buffer) + [Char.Build(c)] && pos == old(pos) + 1
    {
      buffer := buffer + [Char.Build(c)];
      pos := pos + 1;
    }

    /** Removes the character at index pos - 1 of the whole buffer and steps back, or does
        nothing at the start of a line. */
    method Backspace()
      requires Valid()
      modifies this`buffer, this`pos
      ensures Valid()
      ensures old(pos) > 0 ==> buffer == old(buffer[..pos - 1] + buffer[pos..]) && pos == old(pos) - 1
      ensures old(pos) == 0 ==> buffer == old(buffer) && pos == 0
    {
      if pos > 0 {
        buffer := buffer[..pos - 1] + buffer[pos..];
        pos := pos - 1;
      }
    }

    /** Backspace as evidently intended: removes the most recently typed character, which is
        the last one of the buffer, or does nothing at the start of a line. */
    method BackspaceAtEnd()
      requires Valid()
      modifies this`buffer, this`pos
      ensures Valid()
      ensures old(pos) > 0 ==> buffer == old(buffer[..|buffer| - 1]) && pos == old(pos) - 1
      ensures old(pos) == 0 ==> buffer == old(buffer) && pos == 0
    {
      if pos > 0 {
        buffer := buffer[..|buffer| - 1];
        pos := pos - 1;
      }
    }

    /** Renders the buffer once more with the background as the foreground, so that every
        glyph cell it draws is painted with the background, then empties the buffer. */
    method Clear(screen: ScreenBuffer)
      requires Printable(buffer, font)
      modifies this`buffer, this`pos, this`color, screen`buffer
      ensures Valid()
      ensures buffer == [] && pos == 0 && color == old(color)
      ensures screen.buffer == Apply(old(screen.buffer), RenderWrites(old(buffer), |old(buffer)|, font, boundaries, background, background, screen.width))
      ensures |screen.buffer| == |old(screen.buffer)|
    {
      var oldColor := color;
      color := background;
      Render(screen);
      color := oldColor;
      buffer := [];
      pos := 0;
    }

    /** One pass of the render loop: a newline moves the pen to the next row, wrapping to the
        top at the region's height; any other character is drawn at the pen and moves it right
        by the advance. */
    method RenderChar(screen: ScreenBuffer, c: Char, rx: nat, ry: nat) returns (nx: nat, ny: nat)
      requires c.ch != '\n' ==> font.raster(c.ch).Drawable()
      modifies screen`buffer
      ensures Pen(nx, ny) == Step(Pen(rx, ry), c.ch, font.size, boundaries.height)
      ensures screen.buffer == Apply(old(screen.buffer), CharWrites(Pen(rx, ry), c, font, boundaries, color, background, screen.width))
    {
      if c.ch == '\n' {
        nx := 0;
        ny := ry + font.size;
        if ny >= boundaries.height {
          ny := 0;
        }
      } else {
        screen.DrawChar(c.ch, boundaries.startX + rx, boundaries.startY + ry, color, background, font);
        nx := rx + Advance;
        ny := ry;
      }
    }

    /** Draws every character that is not a newline at the pen position, advancing the pen as
        Step says; the cursor itself does not change. */
    method Render(screen: ScreenBuffer)
      requires Printable(buffer, font)
      modifies screen`buffer
      ensures screen.buffer == Apply(old(screen.buffer), RenderWrites(buffer, |buffer|, font, boundaries, color, background, screen.width))
      ensures |screen.buffer| == |old(screen.buffer)|
    {
      var rx: nat := 0;
      var ry: nat := 0;
      var i := 0;
      while i < |buffer|
        invariant i <= |buffer|
        invariant Pen(rx, ry) == PenAt(buffer, i, font.size, boundaries.height)
        invariant screen.buffer == Rendered(old(screen.buffer), buffer, i, font, boundaries, color, background, screen.width)
      {
        rx, ry := RenderChar(screen, buffer[i], rx, ry);
        i := i + 1;
      }
      RenderedIsApply(old(screen.buffer), buffer, i, font, boundaries, color, background, screen.width);
    }
  }

  /** Printing "AB", erasing once and printing "C" leaves "AC" with the write position after it. */
  method TypeAndErase(font: Font, b: Boundaries) returns (cursor: Cursor)
    ensures cursor.buffer == [Char.Build('A'), Char.Build('C')] && cursor.pos == 2
  {
    cursor := new Cursor(font, b);
    cursor.Print("AB");
    cursor.Backspace();
    cursor.Print("C");
  }

  /** Right after a newline backspace does nothing: the newline cannot be erased. */
  method EraseAfterNewLine(font: Font, b: Boundaries) returns (cursor: Cursor)
    ensures cursor.buffer == [Char.Build('A'), Char.Build('B'), Char.Build('\n')] && cursor.pos == 0
  {
    cursor := new Cursor(font, b);
    cursor.Println("AB");
    cursor.Backspace();
  }

  /** Backspace on the second line erases from the first: after "AB", a newline and "C",
      it removes the 'A' and keeps the 'C'. */
  method EraseOnSecondLine(font: Font, b: Boundaries) returns (cursor: Cursor)
    ensures cursor.buffer == [Char.Build('B'), Char.Build('\n'), Char.Build('C')] && cursor.pos == 0
  {
    cursor := new Cursor(font, b);
    cursor.Println("AB");
    cursor.Print("C");
    cursor.Backspace();
  }

  /** With the corrected backspace the same keystrokes erase the 'C'. */
  method EraseOnSecondLineAtEnd(font: Font, b: Boundaries) returns (cursor: Cursor)
    ensures cursor.buffer == [Char.Build('A'), Char.Build('B'), Char.Build('\n')] && cursor.pos == 0
  {
    cursor := new Cursor(font, b);
    cursor.Println("AB");
    cursor.Print("C");
    cursor.BackspaceAtEnd();
  }
}
