/** The canvas: a row-major buffer of `width*height` packed pixels, slot
    `x + y*width` holding pixel `(x, y)`, drawn into in place. */
module Raster {
  import opened Colors
  import opened Grid
  import opened Shapes
  import opened Filters
  import opened Compositing
  import Bitmap

  /** An image loaded from a well-formed file into an empty buffer fits its
      own dimensions, so `DrawImage` may draw it; so does one loaded on top of
      earlier pixels, whose buffer only grows. */
  lemma LoadedImageFits(prev: seq<Pixel>, file: seq<Bitmap.Byte>, alpha: Channel)
    requires Bitmap.Loadable(file) && Bitmap.HasSignature(file)
    ensures Fits(Bitmap.Reversed(prev + Bitmap.FilePixels(file, alpha)), Bitmap.Width(file), Bitmap.Height(file))
  {
    Bitmap.LoadedPixelAt(file, alpha, 0);
  }

  class Canvas {
    const width: nat
    const height: nat
    const buffer: array<Pixel>

    /** The buffer always holds exactly `width*height` pixels. */
    ghost predicate Valid()
    {
      buffer.Length == width * height
    }

    /** The buffer part of the constructor: `m_buffer.resize(width * height)`,
        every pixel value-initialised to 0. */
    constructor (width: nat, height: nat)
      ensures Valid() && this.width == width && this.height == height && fresh(buffer)
      ensures forall i :: 0 <= i < buffer.Length ==> buffer[i] == 0
    {
      this.width := width;
      this.height := height;
      buffer := new Pixel[width * height](_ => 0);
    }

    /** `Clear`: every slot becomes the packed colour. */
    method Clear(color: Color)
      requires Valid()
      modifies buffer
      ensures forall i :: 0 <= i < buffer.Length ==> buffer[i] == Pack(color)
      ensures forall i :: 0 <= i < buffer.Length ==> Unpack(buffer[i]) == color
    {
      var p := Pack(color);
      var i := 0;
      while i < buffer.Length
        invariant 0 <= i <= buffer.Length
        invariant forall k :: 0 <= k < i ==> buffer[k] == p
      {
        buffer[i] := p;
        i := i + 1;
      }
      UnpackPack(color);
    }

    /** `DrawPoint`: off the canvas nothing changes; on it, exactly slot
        `x + y*width` becomes the packed colour. */
    method DrawPoint(point: Point, color: Color)
      requires Valid()
      modifies buffer
      ensures buffer[..] == Paint(old(buffer[..]), width, {point}, Pack(color))
      ensures !InBounds(width, height, point.x, point.y) ==> buffer[..] == old(buffer[..])
      ensures InBounds(width, height, point.x, point.y) ==>
        0 <= Index(width, point.x, point.y) < buffer.Length &&
        buffer[..] == old(buffer[..])[Index(width, point.x, point.y) := Pack(color)]
    {
      if point.x < 0 || point.x >= width || point.y < 0 || point.y >= height {
        PaintOutside(buffer[..], width, height, {point}, Pack(color));
        return;
      }
      PaintPoint(buffer[..], width, height, point.x, point.y, Pack(color));
      buffer[point.x + point.y * width] := Pack(color);
    }

    /** `DrawLine`: the points of the line from `v1` to `v2`, far endpoint
        excluded, each drawn with `DrawPoint`. */
    method DrawLine(v1: Point, v2: Point, color: Color)
      requires Valid()
      modifies buffer
      ensures buffer[..] == Paint(old(buffer[..]), width, LinePoints(v1, v2), Pack(color))
    {
      var p1, p2 := v1, v2;
      var dy := p2.y - p1.y;
      var dx := p2.x - p1.x;
      if dx == 0 {
        if p1.y > p2.y {
          p1, p2 := p1.(y := p2.y), p2.(y := p1.y);
        }
        DrawColumn(p1.x, p1.y, p2.y, color);
      } else {
        var m := dy as real / dx as real;
        var b := p1.y as real - m * p1.x as real;
        if m <= 1.0 && m >= -1.0 {
          if p1.x > p2.x {
            p1, p2 := p1.(x := p2.x), p2.(x := p1.x);
          }
          DrawShallowRun(v1, v2, m, b, p1.x, p2.x, color);
        } else {
          if p1.y > p2.y {
            p1, p2 := p1.(y := p2.y), p2.(y := p1.y);
          }
          DrawSteepRun(v1, v2, m, b, p1.y, p2.y, color);
        }
      }
    }

    /** The vertical branch of `DrawLine`: rows `lo` up to `hi` of column `x`. */
    method DrawColumn(x: int, lo: int, hi: int, color: Color)
      requires Valid() && lo <= hi
      modifies buffer
      ensures buffer[..] == Paint(old(buffer[..]), width, Column(x, lo, hi), Pack(color))
    {
      for y := lo to hi
        invariant buffer[..] == Paint(old(buffer[..]), width, Column(x, lo, y), Pack(color))
      {
        DrawPoint(Point(x, y), color);
        PaintUnion(old(buffer[..]), width, Column(x, lo, y), {Point(x, y)}, Pack(color));
        ColumnSnoc(x, lo, y);
      }
    }

    /** The shallow branch of `DrawLine`: for each column from `lo` up to
        `hi`, the row `round(m * x + b)`. */
    method DrawShallowRun(v1: Point, v2: Point, m: real, b: real, lo: int, hi: int, color: Color)
      requires Valid() && v1.x != v2.x && m == Slope(v1, v2) && b == Intercept(v1, v2) && lo <= hi
      modifies buffer
      ensures buffer[..] == Paint(old(buffer[..]), width, ShallowRun(v1, v2, lo, hi), Pack(color))
    {
      for x := lo to hi
        invariant buffer[..] == Paint(old(buffer[..]), width, ShallowRun(v1, v2, lo, x), Pack(color))
      {
        var y := Round(m * x as real + b);
        RowAtSlope(v1, v2, m, b, x);
        DrawPoint(Point(x, y), color);
        PaintUnion(old(buffer[..]), width, ShallowRun(v1, v2, lo, x), {Point(x, y)}, Pack(color));
        ShallowRunSnoc(v1, v2, lo, x);
      }
    }

    /** The steep branch of `DrawLine`: for each row from `lo` up to `hi`,
        the column `round((y - b) / m)`. */
    method DrawSteepRun(v1: Point, v2: Point, m: real, b: real, lo: int, hi: int, color: Color)
      requires Valid() && v1.x != v2.x && !Shallow(v1, v2)
      requires m == Slope(v1, v2) && b == Intercept(v1, v2) && lo <= hi
      modifies buffer
      ensures buffer[..] == Paint(old(buffer[..]), width, SteepRun(v1, v2, lo, hi), Pack(color))
    {
      for y := lo to hi
        invariant buffer[..] == Paint(old(buffer[..]), width, SteepRun(v1, v2, lo, y), Pack(color))
      {
        var x := Round((y as real - b) / m);
        ColumnAtSlope(v1, v2, m, b, y);
        DrawPoint(Point(x, y), color);
        PaintUnion(old(buffer[..]), width, SteepRun(v1, v2, lo, y), {Point(x, y)}, Pack(color));
        SteepRunSnoc(v1, v2, lo, y);
      }
    }

    /** `DrawLineList`: a line between each consecutive pair of points; a
        single point draws nothing. The source's loop bound
        `points.size() - 1` wraps around for an empty vector, so the points
        must not be empty. */
    method DrawLineList(points: seq<Point>, color: Color)
      requires Valid() && |points| > 0
      modifies buffer
      ensures buffer[..] == Paint(old(buffer[..]), width, PolylinePoints(points), Pack(color))
    {
      var i := 0;
      while i < |points| - 1
        invariant 0 <= i <= |points| - 1
        invariant buffer[..] == Paint(old(buffer[..]), width, PolylinePoints(points[..i + 1]), Pack(color))
      {
        DrawLine(points[i], points[i + 1], color);
        PaintUnion(old(buffer[..]), width, PolylinePoints(points[..i + 1]),
                   LinePoints(points[i], points[i + 1]), Pack(color));
        assert points[..i + 2][..i + 1] == points[..i + 1];
        i := i + 1;
      }
      assert points[..i + 1] == points;
    }

    /** `DrawTriangle`: the three edges `p1-p2`, `p1-p3`, `p2-p3`. */
    method DrawTriangle(p1: Point, p2: Point, p3: Point, color: Color)
      requires Valid()
      modifies buffer
      ensures buffer[..] == Paint(old(buffer[..]), width, TrianglePoints(p1, p2, p3), Pack(color))
    {
      DrawLine(p1, p2, color);
      DrawLine(p1, p3, color);
      PaintUnion(old(buffer[..]), width, LinePoints(p1, p2), LinePoints(p1, p3), Pack(color));
      DrawLine(p2, p3, color);
      PaintUnion(old(buffer[..]), width, LinePoints(p1, p2) + LinePoints(p1, p3), LinePoints(p2, p3), Pack(color));
    }

    /** `DrawRect`: skipped when the origin is at or past the right or bottom
        edge; otherwise one horizontal line per row. */
    method DrawRect(rect: Rect, color: Color)
      requires Valid()
      modifies buffer
      ensures buffer[..] == Paint(old(buffer[..]), width, RectPoints(rect, width, height), Pack(color))
    {
      if rect.x >= width || rect.y >= height {
        PaintNothing(buffer[..], width, Pack(color));
        return;
      }
      var y := rect.y;
      while y < rect.y + rect.h
        invariant rect.y <= y <= Max(rect.y, rect.y + rect.h)
        invariant buffer[..] == Paint(old(buffer[..]), width, Rows(rect, y), Pack(color))
      {
        var xs := rect.x;
        var xe := rect.x + rect.w;
        DrawLine(Point(xs, y), Point(xe, y), color);
        PaintUnion(old(buffer[..]), width, Rows(rect, y), LinePoints(Point(xs, y), Point(xe, y)), Pack(color));
        y := y + 1;
      }
    }

    /** `DrawCirclePoint`: the eight reflections of `point` about `center`,
        as the four quadrant reflections of `point` and then those of `point`
        with its coordinates swapped. */
    method DrawCirclePoint(center: Point, point: Point, color: Color)
      requires Valid()
      modifies buffer
      ensures buffer[..] == Paint(old(buffer[..]), width, Octants(center, point), Pack(color))
    {
      DrawQuadrants(center, point, color);
      DrawQuadrants(center, Point(point.y, point.x), color);
      PaintUnion(old(buffer[..]), width, Quadrants(center, point), Quadrants(center, Point(point.y, point.x)), Pack(color));
      OctantsAreQuadrants(center, point);
    }

    /** Four `DrawPoint` calls: `(±p.x, ±p.y)` about `center`. */
    method DrawQuadrants(center: Point, p: Point, color: Color)
      requires Valid()
      modifies buffer
      ensures buffer[..] == Paint(old(buffer[..]), width, Quadrants(center, p), Pack(color))
    {
      var c := Pack(color);
      var q1, q2 := Point(center.x + p.x, center.y + p.y), Point(center.x + p.x, center.y - p.y);
      var q3, q4 := Point(center.x - p.x, center.y + p.y), Point(center.x - p.x, center.y - p.y);
      DrawPoint(q1, color);
      ghost var drawn := {q1};
      DrawPoint(q2, color);
      PaintUnion(old(buffer[..]), width, drawn, {q2}, c);
      drawn := drawn + {q2};
      DrawPoint(q3, color);
      PaintUnion(old(buffer[..]), width, drawn, {q3}, c);
      drawn := drawn + {q3};
      DrawPoint(q4, color);
      PaintUnion(old(buffer[..]), width, drawn, {q4}, c);
      drawn := drawn + {q4};
      assert drawn == Quadrants(center, p);
    }

    /** `DrawCircle`: the midpoint circle, plotting the reflections of the
        start `(0, radius)` and then of each state the loop steps to. */
    method DrawCircle(center: Point, radius: int, color: Color) returns (ghost passes: nat)
      requires Valid()
      modifies buffer
      ensures buffer[..] == Paint(old(buffer[..]), width, CirclePoints(center, radius), Pack(color))
      ensures passes == Passes(CircleStart(radius))
    {
      var px, py := 0, radius;
      var distance := 3 - 2 * radius;
      DrawCirclePoint(Point(center.x, center.y), Point(px, py), color);
      ghost var drawn := Octants(center, Point(px, py));
      passes := 0;
      while py >= px
        invariant buffer[..] == Paint(old(buffer[..]), width, drawn, Pack(color))
        invariant drawn + TrailPoints(center, CircleState(px, py, distance)) == CirclePoints(center, radius)
        invariant passes + Passes(CircleState(px, py, distance)) == Passes(CircleStart(radius))
        decreases py - px
      {
        ghost var s := CircleState(px, py, distance);
        px := px + 1;
        if distance > 0 {
          py := py - 1;
          distance := distance + 4 * (px - py) + 10;
        } else {
          distance := distance + 4 * px + 6;
        }
        assert CircleState(px, py, distance) == CircleStep(s);
        assert Passes(s) == 1 + Passes(CircleState(px, py, distance));
        TrailStep(center, s);
        DrawCirclePoint(Point(center.x, center.y), Point(px, py), color);
        PaintUnion(old(buffer[..]), width, drawn, Octants(center, Point(px, py)), Pack(color));
        drawn := drawn + Octants(center, Point(px, py));
        passes := passes + 1;
      }
      TrailStep(center, CircleState(px, py, distance));
    }

    /** Alpha-blend `DrawImage`: each image pixel whose destination is on the
        canvas is blended over it and made opaque. */
    method DrawImage(image: Bitmap.Image, point: Point)
      requires Valid() && Fits(image.buffer, image.width, image.height)
      modifies buffer
      ensures buffer[..] == Composite(old(buffer[..]), width, image.buffer, image.width, image.height,
                                      point, AlphaBlend, image.width * image.height)
    {
      var img, iw, ih := image.buffer, image.width, image.height;
      if iw <= 0 || ih <= 0 {
        CompositeNone(buffer[..], width, img, iw, ih, point, AlphaBlend, iw * ih);
        return;
      }
      CompositeNone(buffer[..], width, img, iw, ih, point, AlphaBlend, 0);
      var y := 0;
      while y < ih
        invariant 0 <= y <= ih
        invariant buffer[..] == Composite(old(buffer[..]), width, img, iw, ih, point, AlphaBlend, y * iw)
      {
        BlendRow(old(buffer[..]), img, iw, ih, point, y);
        y := y + 1;
      }
      assert y * iw == iw * ih;
    }

    /** One image row of alpha-blend `DrawImage`, continuing the compositing
        of the whole image onto the canvas `base`. */
    method BlendRow(ghost base: seq<Pixel>, img: seq<Pixel>, iw: int, ih: int, point: Point, y: int)
      requires Valid() && |base| == width * height && Fits(img, iw, ih) && 0 < iw && 0 <= y < ih
      requires buffer[..] == Composite(base, width, img, iw, ih, point, AlphaBlend, y * iw)
      modifies buffer
      ensures buffer[..] == Composite(base, width, img, iw, ih, point, AlphaBlend, (y + 1) * iw)
    {
      var sy := point.y + y;
      var x := 0;
      while x < iw
        invariant 0 <= x <= iw
        invariant buffer[..] == Composite(base, width, img, iw, ih, point, AlphaBlend, Index(iw, x, y))
      {
        var sx := point.x + x;
        CompositeStep(base, width, height, img, iw, ih, point, AlphaBlend, x, y);
        if sx < 0 || sx >= width || sy < 0 || sy >= height {
          x := x + 1;
          continue;
        }
        var blended := BlendPixel(img[x + y * iw], buffer[sx + sy * width]);
        buffer[sx + sy * width] := blended;
        x := x + 1;
      }
      assert Index(iw, x, y) == (y + 1) * iw;
    }

    /** Colour-key `DrawImage`: each image pixel whose destination is on the
        canvas is copied over it verbatim, unless its packed value is the
        packed key. */
    method DrawImageKeyed(image: Bitmap.Image, point: Point, key: Color)
      requires Valid() && Fits(image.buffer, image.width, image.height)
      modifies buffer
      ensures buffer[..] == Composite(old(buffer[..]), width, image.buffer, image.width, image.height,
                                      point, ColorKey(Pack(key)), image.width * image.height)
    {
      var pixelKey := Pack(key);
      var img, iw, ih := image.buffer, image.width, image.height;
      if iw <= 0 || ih <= 0 {
        CompositeNone(buffer[..], width, img, iw, ih, point, ColorKey(pixelKey), iw * ih);
        return;
      }
      CompositeNone(buffer[..], width, img, iw, ih, point, ColorKey(pixelKey), 0);
      var y := 0;
      while y < ih
        invariant 0 <= y <= ih
        invariant buffer[..] == Composite(old(buffer[..]), width, img, iw, ih, point, ColorKey(pixelKey), y * iw)
      {
        KeyedRow(old(buffer[..]), img, iw, ih, point, pixelKey, y);
        y := y + 1;
      }
      assert y * iw == iw * ih;
    }

    /** The body of alpha-blend `DrawImage` for one pixel: unpack both
        pixels, weight the source by its alpha and the destination by the
        rest, and pack the sum as an opaque pixel. */
    static method BlendPixel(src: Pixel, dst: Pixel) returns (p: Pixel)
      ensures p == Combine(AlphaBlend, src, dst)
      ensures Unpack(p).a == 255
    {
      var dstColor := Unpack(dst);
      var srcColor := Unpack(src);
      p := Pack(Blend(srcColor, dstColor));
      UnpackPack(Blend(srcColor, dstColor));
    }

    /** One image row of colour-key `DrawImage`, continuing the compositing
        of the whole image onto the canvas `base`. */
    method KeyedRow(ghost base: seq<Pixel>, img: seq<Pixel>, iw: int, ih: int, point: Point, pixelKey: Pixel, y: int)
      requires Valid() && |base| == width * height && Fits(img, iw, ih) && 0 < iw && 0 <= y < ih
      requires buffer[..] == Composite(base, width, img, iw, ih, point, ColorKey(pixelKey), y * iw)
      modifies buffer
      ensures buffer[..] == Composite(base, width, img, iw, ih, point, ColorKey(pixelKey), (y + 1) * iw)
    {
      var sy := point.y + y;
      var x := 0;
      while x < iw
        invariant 0 <= x <= iw
        invariant buffer[..] == Composite(base, width, img, iw, ih, point, ColorKey(pixelKey), Index(iw, x, y))
      {
        var sx := point.x + x;
        CompositeStep(base, width, height, img, iw, ih, point, ColorKey(pixelKey), x, y);
        if sx < 0 || sx >= width || sy < 0 || sy >= height {
          x := x + 1;
          continue;
        }
        var pixel := img[x + y * iw];
        if pixel == pixelKey {
          x := x + 1;
          continue;
        }
        buffer[sx + sy * width] := pixel;
        x := x + 1;
      }
      assert Index(iw, x, y) == (y + 1) * iw;
    }

    /** The loop shared by the filters: rewrite every pixel in place. */
    method Process(f: Filter)
      requires Valid()
      modifies buffer
      ensures buffer[..] == Filtered(f, old(buffer[..]))
    {
      var i := 0;
      while i < buffer.Length
        invariant 0 <= i <= buffer.Length
        invariant forall k :: 0 <= k < i ==> buffer[k] == ApplyPixel(f, old(buffer[k]))
        invariant forall k :: i <= k < buffer.Length ==> buffer[k] == old(buffer[k])
      {
        buffer[i] := ApplyPixel(f, buffer[i]);
        i := i + 1;
      }
    }

    /** `ProcessInvert`: R, G, B become `255 - channel`. */
    method ProcessInvert()
      requires Valid()
      modifies buffer
      ensures buffer[..] == Filtered(Invert, old(buffer[..]))
    {
      Process(Invert);
    }

    /** `ProcessMonochrome`: R, G, B become the floor of their mean. */
    method ProcessMonochrome()
      requires Valid()
      modifies buffer
      ensures buffer[..] == Filtered(Monochrome, old(buffer[..]))
    {
      Process(Monochrome);
    }

    /** `ProcessNightvision`: G becomes the floor of the mean; R and B 0. */
    method ProcessNightvision()
      requires Valid()
      modifies buffer
      ensures buffer[..] == Filtered(Nightvision, old(buffer[..]))
    {
      Process(Nightvision);
    }

    /** `ProcessThreshold`: channels below the threshold's become 0. */
    method ProcessThreshold(threshold: Color)
      requires Valid()
      modifies buffer
      ensures buffer[..] == Filtered(Threshold(threshold), old(buffer[..]))
    {
      Process(Threshold(threshold));
    }

    /** `ProcessBrightness`: R, G, B shifted by `brightness`, clamped. */
    method ProcessBrightness(brightness: int)
      requires Valid()
      modifies buffer
      ensures buffer[..] == Filtered(Brightness(brightness), old(buffer[..]))
    {
      Process(Brightness(brightness));
    }

    /** `ProcessColor`: R, G, B shifted by `r`, `g`, `b`, clamped. */
    method ProcessColor(r: int, g: int, b: int)
      requires Valid()
      modifies buffer
      ensures buffer[..] == Filtered(ColorShift(r, g, b), old(buffer[..]))
    {
      Process(ColorShift(r, g, b));
    }
  }
}
