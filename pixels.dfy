/** Pixel words, row-major positions and the clipped write that every drawing primitive is built on. */
module Pixels {

  /** The row-major position of pixel (x, y) in a framebuffer `width` pixels wide. */
  function BufPos(width: nat, x: nat, y: nat): (p: nat)
    ensures p >= y * width
    ensures x < width ==> p < y * width + width
  {
    y * width + x
  }

  /** Within a row, distinct pixels have distinct positions, and a position gives back its pixel. */
  lemma BufPosInjective(width: nat, x1: nat, y1: nat, x2: nat, y2: nat)
    requires x1 < width && x2 < width
    ensures BufPos(width, x1, y1) / width == y1 && BufPos(width, x1, y1) % width == x1
    ensures BufPos(width, x1, y1) == BufPos(width, x2, y2) <==> x1 == x2 && y1 == y2
  {
    RowMajorDecode(width, x1, y1);
    RowMajorDecode(width, x2, y2);
  }

  /** One pending pixel write: store `val` at flat index `at`. */
  datatype Store = Store(at: nat, val: bv32)

  /** A clipped write: `v` lands at `at` when `at` is inside the buffer, otherwise nothing happens. */
  function Put(buf: seq<bv32>, at: nat, v: bv32): (r: seq<bv32>)
    ensures |r| == |buf|
  {
    if at < |buf| then buf[at := v] else buf
  }

  /** A clipped write stores `v` at `at` when `at` is inside the buffer, changes no other index,
      and changes nothing at all when `at` is outside. */
  lemma PutEffect(buf: seq<bv32>, at: nat, v: bv32)
    ensures at < |buf| ==> Put(buf, at, v)[at] == v
    ensures forall i | 0 <= i < |buf| && i != at :: Put(buf, at, v)[i] == buf[i]
    ensures at >= |buf| ==> Put(buf, at, v) == buf
  {
  }

  /** The buffer after performing the clipped writes `ws` in order, first to last. */
  function Apply(buf: seq<bv32>, ws: seq<Store>): (r: seq<bv32>)
    ensures |r| == |buf|
    decreases |ws|
  {
    if ws == [] then buf
    else
      var last := ws[|ws| - 1];
      Put(Apply(buf, ws[..|ws| - 1]), last.at, last.val)
  }

  lemma ApplySnoc(buf: seq<bv32>, ws: seq<Store>, w: Store)
    ensures Apply(buf, ws + [w]) == Put(Apply(buf, ws), w.at, w.val)
  {
    assert (ws + [w])[..|ws|] == ws;
  }

  /** Performing two lists of writes one after the other is performing their concatenation. */
  lemma {:induction false} ApplyConcat(buf: seq<bv32>, a: seq<Store>, b: seq<Store>)
    ensures Apply(Apply(buf, a), b) == Apply(buf, a + b)
    decreases |b|
  {
    if b == [] {
      assert a + b == a;
    } else {
      var n := |b| - 1;
      ApplyConcat(buf, a, b[..n]);
      assert (a + b)[..|a + b| - 1] == a + b[..n];
    }
  }

  /** An index that no write aims at keeps its value. */
  lemma {:induction false} ApplyUntouched(buf: seq<bv32>, ws: seq<Store>, i: nat)
    requires i < |buf|
    requires forall w | w in ws :: w.at != i
    ensures Apply(buf, ws)[i] == buf[i]
    decreases |ws|
  {
    if ws != [] {
      var n := |ws| - 1;
      assert forall w | w in ws[..n] :: w in ws;
      ApplyUntouched(buf, ws[..n], i);
    }
  }

  /** An index that some write aims at, where every write aiming at it carries `v`, ends up holding `v`. */
  lemma {:induction false} ApplyUniform(buf: seq<bv32>, ws: seq<Store>, i: nat, v: bv32)
    requires i < |buf|
    requires exists w :: w in ws && w.at == i
    requires forall w | w in ws && w.at == i :: w.val == v
    ensures Apply(buf, ws)[i] == v
    decreases |ws|
  {
    var n := |ws| - 1;
    var last := ws[n];
    if last.at != i {
      var w :| w in ws && w.at == i;
      assert ws == ws[..n] + [last];
      assert w in ws[..n];
      assert forall w' | w' in ws[..n] :: w' in ws;
      ApplyUniform(buf, ws[..n], i, v);
    }
  }

  /** When every write carries `v`, each index ends up either as it was or holding `v`. */
  lemma {:induction false} ApplyOnly(buf: seq<bv32>, ws: seq<Store>, v: bv32, i: nat)
    requires i < |buf|
    requires forall w | w in ws :: w.val == v
    ensures Apply(buf, ws)[i] == buf[i] || Apply(buf, ws)[i] == v
    decreases |ws|
  {
    if ws != [] {
      var n := |ws| - 1;
      assert forall w | w in ws[..n] :: w in ws;
      ApplyOnly(buf, ws[..n], v, i);
      assert ws[n] in ws;
    }
  }

  /** Row-major positions inside a row of `width` pixels decode back to their coordinates. */
  lemma RowMajorDecode(width: nat, x: nat, y: nat)
    requires x < width
    ensures (y * width + x) / width == y && (y * width + x) % width == x
  {
    var p := y * width + x;
    var q, m := p / width, p % width;
    assert p == q * width + m;
    if q < y {
      assert (y - q) * width == m - x;
      MulAtLeast(y - q, width);
    } else if q > y {
      assert (q - y) * width == x - m;
      MulAtLeast(q - y, width);
    }
  }

  /** Two positions shifted by the same `x` coincide only for the same row and column, as long
      as both columns are narrower than the row: a run starting near the row end may wrap into
      the next row, but never onto itself. */
  lemma ShiftedPosInjective(width: nat, x: nat, c1: nat, y1: nat, c2: nat, y2: nat)
    requires c1 < width && c2 < width
    requires y1 * width + x + c1 == y2 * width + x + c2
    ensures c1 == c2 && y1 == y2
  {
    if y1 < y2 {
      assert (y2 - y1) * width == c1 - c2;
      MulAtLeast(y2 - y1, width);
    } else if y1 > y2 {
      assert (y1 - y2) * width == c2 - c1;
      MulAtLeast(y1 - y2, width);
    }
  }

  lemma MulAtLeast(k: nat, width: nat)
    requires k >= 1
    ensures k * width >= width
  {
  }

  /** A cell of a w-by-h grid has a row-major rank below w * h. */
  lemma GridRankBound(x: nat, y: nat, w: nat, h: nat)
    requires x < w && y < h
    ensures y * w + x < w * h
    ensures y * w + x + 1 <= w * h
  {
    assert (y + 1) * w <= h * w by { MulMono(y + 1, h, w); }
  }

  lemma MulMono(a: nat, b: nat, w: nat)
    requires a <= b
    ensures a * w <= b * w
  {
  }

  /** The flat indices covered by the first `height` rows of a `width`-wide buffer are exactly
      those below `width * height`. */
  lemma RowMajorCover(width: nat, height: nat, i: nat)
    ensures (exists x: nat, y: nat :: x < width && y < height && BufPos(width, x, y) == i) <==> i < width * height
  {
    if i < width * height {
      assert width > 0;
      var x, y := i % width, i / width;
      assert i == y * width + x;
      if y >= height {
        MulMono(height, y, width);
      }
      assert BufPos(width, x, y) == i;
    }
    if exists x: nat, y: nat :: x < width && y < height && BufPos(width, x, y) == i {
      var x: nat, y: nat :| x < width && y < height && BufPos(width, x, y) == i;
      GridRankBound(x, y, width, height);
    }
  }
}
