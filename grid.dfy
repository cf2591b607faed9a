/** Row-major addressing of a `width*height` pixel buffer, and the effect of
    writing one colour over a set of points with per-pixel clipping. */
module Grid {
  import opened Colors

  /** An `SDL_Point`. */
  datatype Point = Point(x: int, y: int)

  predicate InBounds(w: int, h: int, x: int, y: int)
  {
    0 <= x < w && 0 <= y < h
  }

  /** The slot of `(x, y)` in a row-major buffer of row length `w`. */
  function Index(w: int, x: int, y: int): int
  {
    x + y * w
  }

  /** Every in-bounds coordinate addresses a slot of the buffer. */
  lemma IndexInRange(w: nat, h: nat, x: int, y: int)
    requires InBounds(w, h, x, y)
    ensures 0 <= Index(w, x, y) < w * h
  {
    assert y * w <= (h - 1) * w by {
      MulMonotone(y, h - 1, w);
    }
    assert (h - 1) * w + w == h * w;
  }

  /** A slot is read back as the coordinate that addresses it. */
  lemma IndexCell(w: nat, x: int, y: int)
    requires 0 <= x < w
    ensures Index(w, x, y) % w == x && Index(w, x, y) / w == y
  {
    var n := Index(w, x, y);
    var q, r := n / w, n % w;
    assert n == q * w + r && 0 <= r < w;
    var k := q - y;
    assert k * w == x - r by {
      assert q * w - y * w == k * w;
    }
    if k > 0 {
      MulMonotone(1, k, w);
      assert false;
    } else if k < 0 {
      MulMonotone(1, -k, w);
      assert false;
    }
  }

  /** Every slot of a `w*h` buffer is addressed by an in-bounds coordinate. */
  lemma CellOfIndex(w: nat, h: nat, i: int)
    requires 0 <= i < w * h
    ensures w > 0
    ensures InBounds(w, h, i % w, i / w) && Index(w, i % w, i / w) == i
  {
    assert i == (i / w) * w + i % w;
    if i / w >= h {
      MulMonotone(h, i / w, w);
      assert false;
    }
  }

  lemma MulMonotone(a: int, b: int, w: nat)
    requires a <= b
    ensures a * w <= b * w
  {
    assert b * w - a * w == (b - a) * w;
  }

  /** Two in-bounds coordinates share a slot only when they are equal. */
  lemma IndexInjective(w: nat, x1: int, y1: int, x2: int, y2: int)
    requires 0 <= x1 < w && 0 <= x2 < w
    requires Index(w, x1, y1) == Index(w, x2, y2)
    ensures x1 == x2 && y1 == y2
  {
    IndexCell(w, x1, y1);
    IndexCell(w, x2, y2);
  }

  /** The buffer `s` (of row length `w`) after writing pixel `p` at every
      point of `pts`, points outside the buffer being skipped. Slot `i` is the
      cell `(i % w, i / w)`. */
  ghost function Paint(s: seq<Pixel>, w: nat, pts: set<Point>, p: Pixel): seq<Pixel>
  {
    if w == 0 then s
    else seq(|s|, i requires 0 <= i < |s| => if Point(i % w, i / w) in pts then p else s[i])
  }

  /** Reading a painted buffer by coordinate: a cell holds `p` exactly when it
      is one of the points, and its old value otherwise. */
  lemma PaintAt(s: seq<Pixel>, w: nat, h: nat, pts: set<Point>, p: Pixel, x: int, y: int)
    requires |s| == w * h && InBounds(w, h, x, y)
    ensures |Paint(s, w, pts, p)| == |s| && 0 <= Index(w, x, y) < |s|
    ensures Paint(s, w, pts, p)[Index(w, x, y)] == if Point(x, y) in pts then p else s[Index(w, x, y)]
  {
    IndexInRange(w, h, x, y);
    IndexCell(w, x, y);
  }

  /** Painting the empty set changes nothing. */
  lemma PaintNothing(s: seq<Pixel>, w: nat, p: Pixel)
    ensures Paint(s, w, {}, p) == s
  {
  }

  /** Painting two sets one after the other is painting their union. */
  lemma PaintUnion(s: seq<Pixel>, w: nat, a: set<Point>, b: set<Point>, p: Pixel)
    ensures Paint(Paint(s, w, a, p), w, b, p) == Paint(s, w, a + b, p)
  {
  }

  /** Points outside the buffer never reach it: painting only them leaves
      the buffer as it was. */
  lemma PaintOutside(s: seq<Pixel>, w: nat, h: nat, pts: set<Point>, p: Pixel)
    requires |s| == w * h
    requires forall q :: q in pts ==> !InBounds(w, h, q.x, q.y)
    ensures Paint(s, w, pts, p) == s
  {
    if w > 0 {
      forall i | 0 <= i < |s|
        ensures Paint(s, w, pts, p)[i] == s[i]
      {
        CellOfIndex(w, h, i);
      }
    }
  }

  /** Painting one in-bounds point writes exactly its slot. */
  lemma PaintPoint(s: seq<Pixel>, w: nat, h: nat, x: int, y: int, p: Pixel)
    requires |s| == w * h && InBounds(w, h, x, y)
    ensures 0 <= Index(w, x, y) < |s|
    ensures Paint(s, w, {Point(x, y)}, p) == s[Index(w, x, y) := p]
  {
    IndexInRange(w, h, x, y);
    forall i | 0 <= i < |s|
      ensures Paint(s, w, {Point(x, y)}, p)[i] == s[Index(w, x, y) := p][i]
    {
      CellOfIndex(w, h, i);
      if i == Index(w, x, y) {
        IndexCell(w, x, y);
      }
    }
  }
}
