/** Drawing an image onto the canvas: the per-pixel alpha blend and colour-key
    rules, and the buffer that results from applying one of them at every
    image pixel whose destination lies on the canvas. */
module Compositing {
  import opened Colors
  import opened Grid

  /** `(Uint8)(c * (w / 255.0f))`: a channel scaled by a weight out of 255
      and truncated. */
  function Weighted(c: Channel, w: Channel): (v: Channel)
    ensures v <= w
    ensures w == 255 ==> v == c
    ensures w == 0 ==> v == 0
  {
    WeightedBound(c, w);
    c * w / 255
  }

  lemma WeightedBound(c: Channel, w: Channel)
    ensures c * w / 255 <= w
  {
    assert c * w <= 255 * w;
  }

  /** The alpha-blend colour: each of R, G, B is the source weighted by its
      alpha plus the destination weighted by the rest; alpha is forced to 255. */
  function Blend(src: Color, dst: Color): (c: Color)
    ensures c.a == 255
    ensures src.a == 255 ==> c == src
    ensures src.a == 0 ==> c == dst.(a := 255)
  {
    Color(Weighted(src.r, src.a) + Weighted(dst.r, 255 - src.a),
          Weighted(src.g, src.a) + Weighted(dst.g, 255 - src.a),
          Weighted(src.b, src.a) + Weighted(dst.b, 255 - src.a),
          255)
  }

  /** The two ways of drawing an image: alpha blending, or copying every pixel
      except those equal to a packed key colour. */
  datatype Mode = AlphaBlend | ColorKey(key: Pixel)

  /** What an image pixel `src` makes of the canvas pixel `dst` under it. */
  function Combine(mode: Mode, src: Pixel, dst: Pixel): Pixel
  {
    match mode
    case AlphaBlend => Pack(Blend(Unpack(src), Unpack(dst)))
    case ColorKey(key) => if src == key then dst else src
  }

  /** Every blended pixel is opaque; an opaque source pixel is copied exactly;
      a fully transparent one keeps the destination's R, G and B. */
  lemma BlendEndpoints(src: Pixel, dst: Pixel)
    ensures Unpack(Combine(AlphaBlend, src, dst)).a == 255
    ensures Unpack(src).a == 255 ==> Combine(AlphaBlend, src, dst) == src
    ensures Unpack(src).a == 0 ==> Unpack(Combine(AlphaBlend, src, dst)) == Unpack(dst).(a := 255)
  {
    var s, d := Unpack(src), Unpack(dst);
    UnpackPack(Blend(s, d));
    if s.a == 255 {
      PackUnpack(src);
    }
  }

  /** An image of `iw` by `ih` pixels whose buffer holds at least its rows. */
  predicate Fits(img: seq<Pixel>, iw: int, ih: int)
  {
    iw <= 0 || ih <= 0 || iw * ih <= |img|
  }

  /** Whether image pixel `(ix, iy)` exists. */
  predicate InImage(iw: int, ih: int, ix: int, iy: int)
  {
    0 <= ix < iw && 0 <= iy < ih
  }

  /** The canvas `s` (row length `w`) after drawing the first `done` pixels
      (in row-major order) of the `iw*ih` image `img` with its top-left corner
      at `o`: canvas cell `(x, y)` is covered by image pixel
      `(x - o.x, y - o.y)`. */
  ghost function Composite(s: seq<Pixel>, w: nat, img: seq<Pixel>, iw: int, ih: int,
                           o: Point, mode: Mode, done: int): seq<Pixel>
    requires Fits(img, iw, ih)
  {
    if w == 0 then s
    else
      seq(|s|, i requires 0 <= i < |s| =>
        var ix, iy := i % w - o.x, i / w - o.y;
        if InImage(iw, ih, ix, iy) && Index(iw, ix, iy) < done then
          IndexInRange(iw, ih, ix, iy);
          Combine(mode, img[Index(iw, ix, iy)], s[i])
        else s[i])
  }

  /** Reading a composited canvas by coordinate: a cell under the image holds
      its image pixel combined with the old cell; every other cell, and every
      image pixel whose destination is off the canvas, changes nothing. */
  lemma CompositeAt(s: seq<Pixel>, w: nat, h: nat, img: seq<Pixel>, iw: int, ih: int,
                    o: Point, mode: Mode, x: int, y: int)
    requires |s| == w * h && Fits(img, iw, ih) && InBounds(w, h, x, y)
    ensures 0 <= Index(w, x, y) < |s|
    ensures var ix, iy := x - o.x, y - o.y;
      var r := Composite(s, w, img, iw, ih, o, mode, iw * ih);
      |r| == |s| &&
      if InImage(iw, ih, ix, iy) then
        0 <= Index(iw, ix, iy) < |img| && r[Index(w, x, y)] == Combine(mode, img[Index(iw, ix, iy)], s[Index(w, x, y)])
      else r[Index(w, x, y)] == s[Index(w, x, y)]
  {
    IndexInRange(w, h, x, y);
    IndexCell(w, x, y);
    if InImage(iw, ih, x - o.x, y - o.y) {
      IndexInRange(iw, ih, x - o.x, y - o.y);
    }
  }

  /** Alpha-blend drawing: every cell under the image becomes opaque; under an
      opaque image pixel it is that pixel, under a transparent one it keeps its
      R, G and B. */
  lemma BlendedCells(s: seq<Pixel>, w: nat, h: nat, img: seq<Pixel>, iw: int, ih: int,
                     o: Point, x: int, y: int)
    requires |s| == w * h && Fits(img, iw, ih) && InBounds(w, h, x, y)
    requires InImage(iw, ih, x - o.x, y - o.y)
    ensures 0 <= Index(w, x, y) < |s| && 0 <= Index(iw, x - o.x, y - o.y) < |img|
    ensures var src, dst := img[Index(iw, x - o.x, y - o.y)], s[Index(w, x, y)];
      var r := Composite(s, w, img, iw, ih, o, AlphaBlend, iw * ih)[Index(w, x, y)];
      Unpack(r).a == 255 &&
      (Unpack(src).a == 255 ==> r == src) &&
      (Unpack(src).a == 0 ==> Unpack(r) == Unpack(dst).(a := 255))
  {
    CompositeAt(s, w, h, img, iw, ih, o, AlphaBlend, x, y);
    BlendEndpoints(img[Index(iw, x - o.x, y - o.y)], s[Index(w, x, y)]);
  }

  /** Colour-key drawing: a cell under the image takes the image pixel
      verbatim unless that pixel's full 32-bit value is the key, in which
      case the cell keeps its old value. */
  lemma KeyedCells(s: seq<Pixel>, w: nat, h: nat, img: seq<Pixel>, iw: int, ih: int,
                   o: Point, key: Color, x: int, y: int)
    requires |s| == w * h && Fits(img, iw, ih) && InBounds(w, h, x, y)
    requires InImage(iw, ih, x - o.x, y - o.y)
    ensures 0 <= Index(w, x, y) < |s| && 0 <= Index(iw, x - o.x, y - o.y) < |img|
    ensures var src := img[Index(iw, x - o.x, y - o.y)];
      Composite(s, w, img, iw, ih, o, ColorKey(Pack(key)), iw * ih)[Index(w, x, y)] ==
        if src == Pack(key) then s[Index(w, x, y)] else src
  {
    CompositeAt(s, w, h, img, iw, ih, o, ColorKey(Pack(key)), x, y);
  }

  /** Nothing is drawn before the first image pixel, nor by an image with no
      pixels at all. */
  lemma CompositeNone(s: seq<Pixel>, w: nat, img: seq<Pixel>, iw: int, ih: int, o: Point, mode: Mode, done: int)
    requires Fits(img, iw, ih) && (done <= 0 || iw <= 0 || ih <= 0)
    ensures Composite(s, w, img, iw, ih, o, mode, done) == s
  {
    if w > 0 {
      var r := Composite(s, w, img, iw, ih, o, mode, done);
      forall i | 0 <= i < |s| ensures r[i] == s[i] {
        var ix, iy := i % w - o.x, i / w - o.y;
        if InImage(iw, ih, ix, iy) {
          IndexInRange(iw, ih, ix, iy);
        }
      }
    }
  }

  /** Drawing image pixel `(ix, iy)`, the next in row-major order, writes at
      most the one canvas cell under it, which still holds its old value. */
  lemma CompositeStep(s: seq<Pixel>, w: nat, h: nat, img: seq<Pixel>, iw: int, ih: int,
                      o: Point, mode: Mode, ix: int, iy: int)
    requires |s| == w * h && Fits(img, iw, ih) && InImage(iw, ih, ix, iy)
    ensures 0 <= Index(iw, ix, iy) < |img|
    ensures var before := Composite(s, w, img, iw, ih, o, mode, Index(iw, ix, iy));
      var after := Composite(s, w, img, iw, ih, o, mode, Index(iw, ix, iy) + 1);
      var x, y := o.x + ix, o.y + iy;
      |before| == |s| &&
      if InBounds(w, h, x, y) then
        0 <= Index(w, x, y) < |s| && before[Index(w, x, y)] == s[Index(w, x, y)] &&
        after == before[Index(w, x, y) := Combine(mode, img[Index(iw, ix, iy)], before[Index(w, x, y)])]
      else after == before
  {
    IndexInRange(iw, ih, ix, iy);
    var k := Index(iw, ix, iy);
    var before := Composite(s, w, img, iw, ih, o, mode, k);
    var after := Composite(s, w, img, iw, ih, o, mode, k + 1);
    var x, y := o.x + ix, o.y + iy;
    if w > 0 {
      forall i | 0 <= i < |s|
        ensures after[i] == (if InBounds(w, h, x, y) && i == Index(w, x, y)
                             then Combine(mode, img[k], s[i]) else before[i])
        ensures InBounds(w, h, x, y) && i == Index(w, x, y) ==> before[i] == s[i]
      {
        CellOfIndex(w, h, i);
        var jx, jy := i % w - o.x, i / w - o.y;
        if InImage(iw, ih, jx, jy) && Index(iw, jx, jy) == k {
          IndexInjective(iw, jx, jy, ix, iy);
        }
        if InBounds(w, h, x, y) && i == Index(w, x, y) {
          IndexCell(w, x, y);
        }
      }
    }
    if InBounds(w, h, x, y) {
      IndexInRange(w, h, x, y);
    }
  }
}
