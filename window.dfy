/** A window: a cursor bound to a screen region plus a local framebuffer that is spliced into
    the screen framebuffer when the window is shown. */
module Windows {

  import opened Colors
  import opened Pixels
  import opened Fonts
  import opened Screen
  import opened Cursors

  /** Replaces s[start .. min(start + |ins|, |s|)] by `ins`: the replaced range is clipped to
      the end of `s`, the inserted data is not. */
  function Splice(s: seq<bv32>, start: nat, ins: seq<bv32>): (r: seq<bv32>)
    requires start <= |s|
    ensures |r| == if start + |ins| <= |s| then |s| else start + |ins|
  {
    var end := if start + |ins| <= |s| then start + |ins| else |s|;
    s[..start] + ins + s[end..]
  }

  /** When the inserted data fits, splicing overwrites exactly its range and keeps the length. */
  lemma SpliceFits(s: seq<bv32>, start: nat, ins: seq<bv32>)
    requires start + |ins| <= |s|
    ensures |Splice(s, start, ins)| == |s|
    ensures forall i | 0 <= i < |s| :: Splice(s, start, ins)[i] == if start <= i < start + |ins| then ins[i - start] else s[i]
  {
    var r := Splice(s, start, ins);
    forall i | 0 <= i < |s| ensures r[i] == if start <= i < start + |ins| then ins[i - start] else s[i] {
      if i < start {
        assert r[i] == s[..start][i];
      } else if i < start + |ins| {
        assert r[i] == (s[..start] + ins)[i];
      } else {
        assert r[i] == s[start + |ins|..][i - start - |ins|];
      }
    }
  }

  /** When the inserted data runs past the end, the prefix before `start` is kept and the rest
      is the inserted data: the buffer grows by the excess. */
  lemma SpliceGrows(s: seq<bv32>, start: nat, ins: seq<bv32>)
    requires start <= |s| < start + |ins|
    ensures |Splice(s, start, ins)| == |s| + (start + |ins| - |s|)
    ensures Splice(s, start, ins)[..start] == s[..start]
    ensures Splice(s, start, ins)[start..] == ins
  {
    var r := Splice(s, start, ins);
    assert r == s[..start] + ins + [];
  }

  /** Splicing keeps the length exactly when the inserted data fits. */
  lemma SpliceKeepsLength(s: seq<bv32>, start: nat, ins: seq<bv32>)
    requires start <= |s|
    ensures |Splice(s, start, ins)| == |s| <==> start + |ins| <= |s|
  {
  }

  /** A window at `position` of the screen, `width` x `height` pixels, with its own cursor
      and its own framebuffer. */
  class Window {
    var cursor: Cursor
    var drawBuffer: ScreenBuffer
    var position: (nat, nat)
    var height: nat
    var width: nat

    /** Height comes before width. The cursor covers the window's rectangle of the screen and
        the local framebuffer is all zero. */
    constructor (font: Font, position: (nat, nat), height: nat, width: nat)
      ensures this.position == position && this.height == height && this.width == width
      ensures fresh(cursor) && fresh(drawBuffer)
      ensures cursor.Valid() && cursor.font == font && cursor.buffer == [] && cursor.pos == 0
      ensures cursor.boundaries == Boundaries(position.0, position.1, width, height)
      ensures cursor.color == FromRgb(255, 255, 255) && cursor.background == FromRgb(0, 0, 0)
      ensures drawBuffer.width == width && drawBuffer.height == height
      ensures |drawBuffer.buffer| == width * height
      ensures forall i | 0 <= i < |drawBuffer.buffer| :: drawBuffer.buffer[i] == 0
    {
      cursor := new Cursor(font, Boundaries(position.0, position.1, width, height));
      this.position := position;
      drawBuffer := new ScreenBuffer(width, height);
      this.height := height;
      this.width := width;
    }

    /** New size, height first: the cursor region keeps its corner at `position` and takes the
        new size, and the local framebuffer is replaced by zeros. */
    method Resize(height: nat, width: nat)
      modifies this`height, this`width, cursor`boundaries, drawBuffer
      ensures this.height == height && this.width == width
      ensures cursor.boundaries == Boundaries(position.0, position.1, width, height)
      ensures drawBuffer.width == width && drawBuffer.height == height
      ensures |drawBuffer.buffer| == width * height
      ensures forall i | 0 <= i < |drawBuffer.buffer| :: drawBuffer.buffer[i] == 0
    {
      this.height := height;
      this.width := width;
      cursor.boundaries := Boundaries(position.0, position.1, width, height);
      drawBuffer.Resize(width, height);
    }

    /** Renders the cursor straight into the screen framebuffer, then splices the local
        framebuffer in at the window position. The splice range must start inside the screen
        framebuffer. */
    method RenderOnScreen(screen: ScreenBuffer)
      requires screen != drawBuffer
      requires BufPos(screen.width, position.0, position.1) <= |screen.buffer|
      requires Printable(cursor.buffer, cursor.font)
      modifies screen`buffer
      ensures screen.buffer
           == Splice(Apply(old(screen.buffer), RenderWrites(cursor.buffer, |cursor.buffer|, cursor.font, cursor.boundaries,
                                                            cursor.color, cursor.background, screen.width)),
                     BufPos(screen.width, position.0, position.1), drawBuffer.buffer)
    {
      cursor.Render(screen);
      var startPos := BufPos(screen.width, position.0, position.1);
      var end := if startPos + |drawBuffer.buffer| <= |screen.buffer| then startPos + |drawBuffer.buffer| else |screen.buffer|;
      screen.buffer := screen.buffer[..startPos] + drawBuffer.buffer + screen.buffer[end..];
    }
  }
}
