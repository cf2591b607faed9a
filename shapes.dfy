/** The sets of points the canvas's outline primitives plot: lines,
    polylines, triangles, filled rectangles and midpoint circles. Every
    primitive writes a single colour, so what it does to the buffer is fixed
    by the set of points it visits (see `Grid.Paint`). */
module Shapes {
  import opened Grid

  function Min(a: int, b: int): int { if a <= b then a else b }
  function Max(a: int, b: int): int { if a <= b then b else a }

  // ---------------------------------------------------------------- lines

  /** C's `round`: to the nearest integer, halves away from zero. */
  function Round(v: real): (n: int)
    ensures n as real - 0.5 <= v <= n as real + 0.5
  {
    if v >= 0.0 then (v + 0.5).Floor else -((-v + 0.5).Floor)
  }

  lemma RoundInteger(n: int)
    ensures Round(n as real) == n
  {
  }

  /** `m = dy / dx`, computed exactly. */
  function Slope(p1: Point, p2: Point): real
    requires p1.x != p2.x
  {
    (p2.y - p1.y) as real / (p2.x - p1.x) as real
  }

  /** `b = p1.y - m * p1.x`, computed exactly. */
  function Intercept(p1: Point, p2: Point): real
    requires p1.x != p2.x
  {
    p1.y as real - Slope(p1, p2) * p1.x as real
  }

  /** The branch that steps along x: `-1 <= m <= 1`. */
  predicate Shallow(p1: Point, p2: Point)
    requires p1.x != p2.x
  {
    -1.0 <= Slope(p1, p2) <= 1.0
  }

  /** The row plotted in column `x` of a shallow line: `round(m * x + b)`. */
  function RowAt(p1: Point, p2: Point, x: int): int
    requires p1.x != p2.x
  {
    Round(Slope(p1, p2) * x as real + Intercept(p1, p2))
  }

  /** `RowAt` is the rounded value of the line `m * x + b` through both points. */
  lemma RowAtSlope(p1: Point, p2: Point, m: real, b: real, x: int)
    requires p1.x != p2.x && m == Slope(p1, p2) && b == Intercept(p1, p2)
    ensures Round(m * x as real + b) == RowAt(p1, p2, x)
  {
  }

  /** The column plotted in row `y` of a steep line: `round((y - b) / m)`. */
  function ColumnAt(p1: Point, p2: Point, y: int): int
    requires p1.x != p2.x && !Shallow(p1, p2)
  {
    Round((y as real - Intercept(p1, p2)) / Slope(p1, p2))
  }

  /** `ColumnAt` is the rounded solution for x of `y == m * x + b`. */
  lemma ColumnAtSlope(p1: Point, p2: Point, m: real, b: real, y: int)
    requires p1.x != p2.x && !Shallow(p1, p2) && m == Slope(p1, p2) && b == Intercept(p1, p2)
    ensures Round((y as real - b) / m) == ColumnAt(p1, p2, y)
  {
  }

  /** Column `x`, rows `lo` up to but excluding `hi`. */
  ghost function Column(x: int, lo: int, hi: int): set<Point>
  {
    set y | lo <= y < hi :: Point(x, y)
  }

  /** The points of a shallow line for columns `lo` up to but excluding `hi`. */
  ghost function ShallowRun(p1: Point, p2: Point, lo: int, hi: int): set<Point>
    requires p1.x != p2.x
  {
    set x | lo <= x < hi :: Point(x, RowAt(p1, p2, x))
  }

  /** The points of a steep line for rows `lo` up to but excluding `hi`. */
  ghost function SteepRun(p1: Point, p2: Point, lo: int, hi: int): set<Point>
    requires p1.x != p2.x && !Shallow(p1, p2)
  {
    set y | lo <= y < hi :: Point(ColumnAt(p1, p2, y), y)
  }

  /** The points `DrawLine(p1, p2)` visits. The loop runs along y for a
      vertical or steep line and along x for a shallow one, from the smaller
      coordinate up to but excluding the larger. */
  ghost function LinePoints(p1: Point, p2: Point): set<Point>
  {
    if p1.x == p2.x then Column(p1.x, Min(p1.y, p2.y), Max(p1.y, p2.y))
    else if Shallow(p1, p2) then ShallowRun(p1, p2, Min(p1.x, p2.x), Max(p1.x, p2.x))
    else SteepRun(p1, p2, Min(p1.y, p2.y), Max(p1.y, p2.y))
  }

  lemma ColumnSnoc(x: int, lo: int, hi: int)
    ensures Column(x, lo, hi + 1) == if lo <= hi then Column(x, lo, hi) + {Point(x, hi)} else {}
  {
    if lo <= hi {
      assert Point(x, hi) in Column(x, lo, hi + 1);
    }
  }

  lemma ShallowRunSnoc(p1: Point, p2: Point, lo: int, hi: int)
    requires p1.x != p2.x && lo <= hi
    ensures ShallowRun(p1, p2, lo, hi + 1) == ShallowRun(p1, p2, lo, hi) + {Point(hi, RowAt(p1, p2, hi))}
  {
    assert Point(hi, RowAt(p1, p2, hi)) in ShallowRun(p1, p2, lo, hi + 1);
  }

  lemma SteepRunSnoc(p1: Point, p2: Point, lo: int, hi: int)
    requires p1.x != p2.x && !Shallow(p1, p2) && lo <= hi
    ensures SteepRun(p1, p2, lo, hi + 1) == SteepRun(p1, p2, lo, hi) + {Point(ColumnAt(p1, p2, hi), hi)}
  {
    assert Point(ColumnAt(p1, p2, hi), hi) in SteepRun(p1, p2, lo, hi + 1);
  }

  /** A vertical line is column `p1.x` for `y` in `[min(y1,y2), max(y1,y2))`:
      the far endpoint is left out, and a zero-length line plots nothing. */
  lemma VerticalLine(p1: Point, p2: Point, q: Point)
    requires p1.x == p2.x
    ensures q in LinePoints(p1, p2) <==> q.x == p1.x && Min(p1.y, p2.y) <= q.y < Max(p1.y, p2.y)
  {
  }

  /** A horizontal line is row `p1.y` for `x` in `[min(x1,x2), max(x1,x2))`:
      the slope is 0, the intercept is `p1.y` and rounding is exact. */
  lemma HorizontalLine(p1: Point, p2: Point, q: Point)
    requires p1.y == p2.y
    ensures q in LinePoints(p1, p2) <==> q.y == p1.y && Min(p1.x, p2.x) <= q.x < Max(p1.x, p2.x)
  {
    if p1.x != p2.x {
      assert Slope(p1, p2) == 0.0;
      assert Shallow(p1, p2);
      forall x ensures RowAt(p1, p2, x) == p1.y {
        RoundInteger(p1.y);
      }
      if q.y == p1.y && Min(p1.x, p2.x) <= q.x < Max(p1.x, p2.x) {
        assert q == Point(q.x, RowAt(p1, p2, q.x));
      }
    }
  }

  /** A line whose endpoints coincide plots nothing. */
  lemma ZeroLengthLine(p: Point)
    ensures LinePoints(p, p) == {}
  {
    if Point(p.x, p.y) in LinePoints(p, p) {
      VerticalLine(p, p, Point(p.x, p.y));
    }
  }

  /** `m * dx == dy`: the exact slope reproduces the rise over the run. */
  lemma SlopeTimesRun(p1: Point, p2: Point)
    requires p1.x != p2.x
    ensures Slope(p1, p2) * (p2.x - p1.x) as real == (p2.y - p1.y) as real
  {
  }

  /** The exact line `m * x + b` passes through both endpoints. */
  lemma LineThroughEndpoints(p1: Point, p2: Point)
    requires p1.x != p2.x
    ensures Slope(p1, p2) * p1.x as real + Intercept(p1, p2) == p1.y as real
    ensures Slope(p1, p2) * p2.x as real + Intercept(p1, p2) == p2.y as real
  {
    SlopeTimesRun(p1, p2);
    var m := Slope(p1, p2);
    assert m * p2.x as real == m * p1.x as real + m * (p2.x - p1.x) as real;
  }

  /** The slope does not depend on the order of the endpoints. */
  lemma SlopeSwap(p1: Point, p2: Point)
    requires p1.x != p2.x
    ensures Slope(p2, p1) == Slope(p1, p2)
  {
    var dy, dx := (p2.y - p1.y) as real, (p2.x - p1.x) as real;
    assert (p1.y - p2.y) as real == -dy && (p1.x - p2.x) as real == -dx;
    assert (-dy) / (-dx) == dy / dx;
  }

  /** Drawing from `p2` to `p1` plots the same points as from `p1` to `p2`. */
  lemma LineSymmetric(p1: Point, p2: Point)
    ensures LinePoints(p1, p2) == LinePoints(p2, p1)
  {
    if p1.x != p2.x {
      var m := Slope(p1, p2);
      SlopeSwap(p1, p2);
      LineThroughEndpoints(p1, p2);
      assert Intercept(p2, p1) == Intercept(p1, p2);
      if Shallow(p1, p2) {
        var b := Intercept(p1, p2);
        forall x ensures RowAt(p1, p2, x) == RowAt(p2, p1, x) {
          RowAtSlope(p1, p2, m, b, x);
          RowAtSlope(p2, p1, m, b, x);
        }
        assert ShallowRun(p1, p2, Min(p1.x, p2.x), Max(p1.x, p2.x))
            == ShallowRun(p2, p1, Min(p2.x, p1.x), Max(p2.x, p1.x));
      } else {
        var b := Intercept(p1, p2);
        forall y ensures ColumnAt(p1, p2, y) == ColumnAt(p2, p1, y) {
          ColumnAtSlope(p1, p2, m, b, y);
          ColumnAtSlope(p2, p1, m, b, y);
        }
        assert SteepRun(p1, p2, Min(p1.y, p2.y), Max(p1.y, p2.y))
            == SteepRun(p2, p1, Min(p2.y, p1.y), Max(p2.y, p1.y));
      }
    }
  }

  /** The endpoint a line starts from: the one with the smaller x for a
      shallow line, the one with the smaller y otherwise. */
  function Near(p1: Point, p2: Point): Point
  {
    if p1.x != p2.x && Shallow(p1, p2) then (if p1.x <= p2.x then p1 else p2)
    else (if p1.y <= p2.y then p1 else p2)
  }

  /** The endpoint a line runs towards. */
  function Far(p1: Point, p2: Point): Point
  {
    if p1.x != p2.x && Shallow(p1, p2) then (if p1.x <= p2.x then p2 else p1)
    else (if p1.y <= p2.y then p2 else p1)
  }

  /** A line between two distinct points plots its near endpoint exactly and
      never its far endpoint. */
  lemma LineEndpoints(p1: Point, p2: Point)
    requires p1 != p2
    ensures Near(p1, p2) in LinePoints(p1, p2)
    ensures Far(p1, p2) !in LinePoints(p1, p2)
  {
    var n := Near(p1, p2);
    if p1.x == p2.x {
      VerticalLine(p1, p2, n);
      VerticalLine(p1, p2, Far(p1, p2));
    } else if Shallow(p1, p2) {
      LineThroughEndpoints(p1, p2);
      var m, b := Slope(p1, p2), Intercept(p1, p2);
      assert m * n.x as real + b == n.y as real;
      RowAtSlope(p1, p2, m, b, n.x);
      RoundInteger(n.y);
      assert RowAt(p1, p2, n.x) == n.y;
    } else {
      LineThroughEndpoints(p1, p2);
      var m, b := Slope(p1, p2), Intercept(p1, p2);
      assert m != 0.0;
      assert (n.y as real - b) / m == n.x as real by {
        assert n.y as real - b == m * n.x as real;
      }
      RoundInteger(n.x);
      ColumnAtSlope(p1, p2, m, b, n.y);
      assert ColumnAt(p1, p2, n.y) == n.x;
      assert p1.y != p2.y;
    }
  }

  /** A shallow line plots exactly one point in each column of
      `[min(x1,x2), max(x1,x2))`, and that point is the nearest pixel to the
      exact line. */
  lemma ShallowLineColumns(p1: Point, p2: Point, q: Point)
    requires p1.x != p2.x && Shallow(p1, p2)
    ensures q in LinePoints(p1, p2) <==>
      Min(p1.x, p2.x) <= q.x < Max(p1.x, p2.x) && q.y == RowAt(p1, p2, q.x)
    ensures q in LinePoints(p1, p2) ==>
      var exact := Slope(p1, p2) * q.x as real + Intercept(p1, p2);
      q.y as real - 0.5 <= exact <= q.y as real + 0.5
  {
  }

  /** A steep line plots exactly one point in each row of
      `[min(y1,y2), max(y1,y2))`, the nearest pixel to the exact line. */
  lemma SteepLineRows(p1: Point, p2: Point, q: Point)
    requires p1.x != p2.x && !Shallow(p1, p2)
    ensures q in LinePoints(p1, p2) <==>
      Min(p1.y, p2.y) <= q.y < Max(p1.y, p2.y) && q.x == ColumnAt(p1, p2, q.y)
  {
  }

  // ------------------------------------------------ polylines and triangles

  /** The points `DrawLineList` visits: the lines between consecutive points. */
  ghost function PolylinePoints(pts: seq<Point>): set<Point>
  {
    if |pts| < 2 then {}
    else PolylinePoints(pts[..|pts| - 1]) + LinePoints(pts[|pts| - 2], pts[|pts| - 1])
  }

  /** A point is on a polyline exactly when it is on one of its segments. */
  lemma {:induction false} PolylineSegments(pts: seq<Point>, q: Point)
    ensures q in PolylinePoints(pts) <==>
      exists i :: 0 <= i < |pts| - 1 && q in LinePoints(pts[i], pts[i + 1])
  {
    if |pts| >= 2 {
      var front := pts[..|pts| - 1];
      PolylineSegments(front, q);
      assert forall i :: 0 <= i < |front| ==> front[i] == pts[i];
      if q in LinePoints(pts[|pts| - 2], pts[|pts| - 1]) {
        assert 0 <= |pts| - 2 < |pts| - 1;
      }
    }
  }

  /** The points `DrawTriangle` visits: its three edges, unfilled. */
  ghost function TrianglePoints(p1: Point, p2: Point, p3: Point): set<Point>
  {
    LinePoints(p1, p2) + LinePoints(p1, p3) + LinePoints(p2, p3)
  }

  /** A triangle's outline is the closed polyline `p1, p2, p3, p1`. */
  lemma TriangleIsClosedPolyline(p1: Point, p2: Point, p3: Point)
    ensures TrianglePoints(p1, p2, p3) == PolylinePoints([p1, p2, p3, p1])
  {
    var pts := [p1, p2, p3, p1];
    assert pts[..3] == [p1, p2, p3] && [p1, p2, p3][..2] == [p1, p2] && [p1, p2][..1] == [p1];
    assert PolylinePoints([p1, p2]) == LinePoints(p1, p2);
    assert PolylinePoints([p1, p2, p3]) == LinePoints(p1, p2) + LinePoints(p2, p3);
    assert PolylinePoints(pts) == PolylinePoints([p1, p2, p3]) + LinePoints(p3, p1);
    LineSymmetric(p3, p1);
  }

  /** With every edge in the direction `DrawTriangle` draws it, the outline
      is the open polyline `p1, p2, p3` plus the closing edge drawn from
      `p1` to `p3`. */
  lemma TriangleAsPolyline(p1: Point, p2: Point, p3: Point)
    ensures TrianglePoints(p1, p2, p3) == PolylinePoints([p1, p2, p3]) + LinePoints(p1, p3)
  {
    assert [p1, p2, p3][..2] == [p1, p2] && [p1, p2][..1] == [p1];
    assert PolylinePoints([p1, p2]) == LinePoints(p1, p2);
    assert PolylinePoints([p1, p2, p3]) == LinePoints(p1, p2) + LinePoints(p2, p3);
  }

  // ------------------------------------------------------------ rectangles

  /** An `SDL_Rect`. */
  datatype Rect = Rect(x: int, y: int, w: int, h: int)

  /** The horizontal lines `(r.x, y)`-`(r.x + r.w, y)` for `y` in
      `[r.y, yEnd)`. */
  ghost function Rows(r: Rect, yEnd: int): set<Point>
    decreases yEnd - r.y
  {
    if yEnd <= r.y then {}
    else Rows(r, yEnd - 1) + LinePoints(Point(r.x, yEnd - 1), Point(r.x + r.w, yEnd - 1))
  }

  /** The points `DrawRect` visits on a `width*height` canvas: nothing when
      the origin is at or beyond the right or bottom edge, else its rows. */
  ghost function RectPoints(r: Rect, width: int, height: int): set<Point>
  {
    if r.x >= width || r.y >= height then {} else Rows(r, r.y + r.h)
  }

  /** The rows of a rectangle cover `[min(x, x+w), max(x, x+w))` by
      `[y, yEnd)`: right and bottom edges excluded. */
  lemma {:induction false} RowsCells(r: Rect, yEnd: int, q: Point)
    ensures q in Rows(r, yEnd) <==>
      Min(r.x, r.x + r.w) <= q.x < Max(r.x, r.x + r.w) && r.y <= q.y < yEnd
    decreases yEnd - r.y
  {
    if yEnd > r.y {
      RowsCells(r, yEnd - 1, q);
      HorizontalLine(Point(r.x, yEnd - 1), Point(r.x + r.w, yEnd - 1), q);
    }
  }

  /** `DrawRect` fills `[rect.x, rect.x+rect.w)` by `[rect.y, rect.y+rect.h)`
      (for a negative width, `[rect.x+rect.w, rect.x)`), unless its origin is
      at or beyond the canvas's width or height, when it draws nothing. */
  lemma RectCells(r: Rect, width: int, height: int, q: Point)
    ensures q in RectPoints(r, width, height) <==>
      r.x < width && r.y < height &&
      Min(r.x, r.x + r.w) <= q.x < Max(r.x, r.x + r.w) && r.y <= q.y < r.y + r.h
  {
    RowsCells(r, r.y + r.h, q);
  }

  // --------------------------------------------------------------- circles

  /** The state of the midpoint circle loop: `px`, `py` and `distance`. */
  datatype CircleState = CircleState(px: int, py: int, d: int)

  function CircleStart(radius: int): CircleState
  {
    CircleState(0, radius, 3 - 2 * radius)
  }

  /** One pass of the loop body: step x, and step y down when the decision
      variable is positive. */
  function CircleStep(s: CircleState): CircleState
  {
    var px := s.px + 1;
    if s.d > 0 then CircleState(px, s.py - 1, s.d + 4 * (px - (s.py - 1)) + 10)
    else CircleState(px, s.py, s.d + 4 * px + 6)
  }

  /** `py - px` strictly decreases at every step, so the loop terminates. */
  lemma CircleStepProgress(s: CircleState)
    ensures CircleStep(s).py - CircleStep(s).px < s.py - s.px
    ensures CircleStep(s).px == s.px + 1
  {
  }

  /** The eight reflections of `(p.x, p.y)` about `c` that `DrawCirclePoint`
      plots. */
  ghost function Octants(c: Point, p: Point): set<Point>
  {
    {Point(c.x + p.x, c.y + p.y), Point(c.x + p.x, c.y - p.y),
     Point(c.x - p.x, c.y + p.y), Point(c.x - p.x, c.y - p.y),
     Point(c.x + p.y, c.y + p.x), Point(c.x + p.y, c.y - p.x),
     Point(c.x - p.y, c.y + p.x), Point(c.x - p.y, c.y - p.x)}
  }

  /** The four reflections of `(p.x, p.y)` about `c` through its two axes. */
  ghost function Quadrants(c: Point, p: Point): set<Point>
  {
    {Point(c.x + p.x, c.y + p.y), Point(c.x + p.x, c.y - p.y),
     Point(c.x - p.x, c.y + p.y), Point(c.x - p.x, c.y - p.y)}
  }

  /** The eight reflections are the quadrant reflections of the point and of
      the point with its coordinates swapped. */
  lemma OctantsAreQuadrants(c: Point, p: Point)
    ensures Octants(c, p) == Quadrants(c, p) + Quadrants(c, Point(p.y, p.x))
  {
  }

  /** The points the loop still plots from state `s`: each pass that starts
      with `py >= px` steps and then plots the new state's reflections. */
  ghost function TrailPoints(c: Point, s: CircleState): set<Point>
    decreases s.py - s.px
  {
    if s.py >= s.px then Octants(c, Point(CircleStep(s).px, CircleStep(s).py)) + TrailPoints(c, CircleStep(s))
    else {}
  }

  /** One pass of the loop plots the next state's reflections and leaves
      the rest to that state; once `py < px` nothing is left. */
  lemma TrailStep(c: Point, s: CircleState)
    ensures s.py >= s.px ==>
      TrailPoints(c, s) == Octants(c, Point(CircleStep(s).px, CircleStep(s).py)) + TrailPoints(c, CircleStep(s))
    ensures s.py < s.px ==> TrailPoints(c, s) == {}
  {
  }

  /** The points `DrawCircle(center, radius)` plots. */
  ghost function CirclePoints(center: Point, radius: int): set<Point>
  {
    var s := CircleStart(radius);
    Octants(center, Point(s.px, s.py)) + TrailPoints(center, s)
  }

  /** The number of passes through the loop from state `s`. */
  function Passes(s: CircleState): nat
    decreases s.py - s.px
  {
    if s.py >= s.px then 1 + Passes(CircleStep(s)) else 0
  }

  /** The loop runs at most `py - px + 1` more times: at most `radius + 1`
      times from the start, and not at all for a negative radius. */
  lemma {:induction false} PassesBound(s: CircleState)
    ensures Passes(s) <= if s.py >= s.px then s.py - s.px + 1 else 0
    decreases s.py - s.px
  {
    if s.py >= s.px {
      PassesBound(CircleStep(s));
    }
  }

  /** A reflection of a plotted point about the vertical axis, the
      horizontal axis or the diagonal through `c`. */
  predicate MirrorsOf(c: Point, q: Point, m: Point)
  {
    m == Point(2 * c.x - q.x, q.y) || m == Point(q.x, 2 * c.y - q.y) ||
    m == Point(c.x + (q.y - c.y), c.y + (q.x - c.x))
  }

  lemma OctantsSymmetric(c: Point, p: Point, q: Point, m: Point)
    requires q in Octants(c, p) && MirrorsOf(c, q, m)
    ensures m in Octants(c, p)
  {
  }

  lemma {:induction false} TrailSymmetric(c: Point, s: CircleState, q: Point, m: Point)
    requires q in TrailPoints(c, s) && MirrorsOf(c, q, m)
    ensures m in TrailPoints(c, s)
    decreases s.py - s.px
  {
    var t := CircleStep(s);
    if q in Octants(c, Point(t.px, t.py)) {
      OctantsSymmetric(c, Point(t.px, t.py), q, m);
    } else {
      TrailSymmetric(c, t, q, m);
    }
  }

  /** The plotted circle is symmetric under reflection about the vertical,
      horizontal and diagonal axes through its centre. */
  lemma CircleSymmetric(c: Point, radius: int, q: Point, m: Point)
    requires q in CirclePoints(c, radius) && MirrorsOf(c, q, m)
    ensures m in CirclePoints(c, radius)
  {
    var s := CircleStart(radius);
    if q in Octants(c, Point(s.px, s.py)) {
      OctantsSymmetric(c, Point(s.px, s.py), q, m);
    } else {
      TrailSymmetric(c, s, q, m);
    }
  }

  /** Radius 0 plots the centre and its four diagonal neighbours: the plot
      after the last step, at `(1, -1)`, runs before the loop test. */
  lemma CircleRadiusZero(c: Point)
    ensures CirclePoints(c, 0) ==
      {c, Point(c.x + 1, c.y + 1), Point(c.x + 1, c.y - 1),
       Point(c.x - 1, c.y + 1), Point(c.x - 1, c.y - 1)}
  {
    var s := CircleStart(0);
    var t := CircleStep(s);
    assert t == CircleState(1, -1, 21);
    assert TrailPoints(c, t) == {};
    assert Octants(c, Point(0, 0)) == {c};
  }
}
