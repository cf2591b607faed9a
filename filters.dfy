/** The whole-buffer colour filters of the canvas, as pure functions on one
    colour, on one pixel and on a whole buffer. All arithmetic is on
    non-negative integers, so C's truncating division is floor division. */
module Filters {
  import opened Colors

  /** The six filters (`ProcessInvert`, `ProcessMonochrome`,
      `ProcessNightvision`, `ProcessThreshold`, `ProcessBrightness`,
      `ProcessColor`). */
  datatype Filter =
    | Invert
    | Monochrome
    | Nightvision
    | Threshold(t: Color)
    | Brightness(d: int)
    | ColorShift(dr: int, dg: int, db: int)

  /** `std::min(std::max(v, 0), 255)`. */
  function Clamp(v: int): (r: Channel)
    ensures r == v <==> 0 <= v <= 255
    ensures v < 0 ==> r == 0
    ensures v > 255 ==> r == 255
  {
    if v < 0 then 0 else if v > 255 then 255 else v
  }

  /** `(r + g + b) / 3`: the floor of the mean of the three colour channels. */
  function Average(c: Color): (m: Channel)
    ensures 3 * m <= c.r + c.g + c.b < 3 * m + 3
  {
    (c.r + c.g + c.b) / 3
  }

  /** The filter applied to one unpacked colour; alpha is never touched. */
  function Apply(f: Filter, c: Color): (k: Color)
    ensures k.a == c.a
  {
    match f
    case Invert => c.(r := 255 - c.r, g := 255 - c.g, b := 255 - c.b)
    case Monochrome => var m := Average(c); c.(r := m, g := m, b := m)
    case Nightvision => c.(r := 0, g := Average(c), b := 0)
    case Threshold(t) =>
      c.(r := if c.r >= t.r then c.r else 0,
         g := if c.g >= t.g then c.g else 0,
         b := if c.b >= t.b then c.b else 0)
    case Brightness(d) => c.(r := Clamp(c.r + d), g := Clamp(c.g + d), b := Clamp(c.b + d))
    case ColorShift(dr, dg, db) => c.(r := Clamp(c.r + dr), g := Clamp(c.g + dg), b := Clamp(c.b + db))
  }

  /** One iteration of a filter loop: unpack, filter, pack back. */
  function ApplyPixel(f: Filter, p: Pixel): Pixel
  {
    Pack(Apply(f, Unpack(p)))
  }

  /** The buffer after a filter has rewritten each of its pixels. */
  function Filtered(f: Filter, s: seq<Pixel>): (t: seq<Pixel>)
    ensures |t| == |s|
  {
    seq(|s|, i requires 0 <= i < |s| => ApplyPixel(f, s[i]))
  }

  /** Unpacking a filtered pixel gives the filtered colour. */
  lemma ApplyPixelColor(f: Filter, p: Pixel)
    ensures Unpack(ApplyPixel(f, p)) == Apply(f, Unpack(p))
  {
    UnpackPack(Apply(f, Unpack(p)));
  }

  /** No filter changes any pixel's alpha. */
  lemma FilterKeepsAlpha(f: Filter, s: seq<Pixel>)
    ensures |Filtered(f, s)| == |s|
    ensures forall i :: 0 <= i < |s| ==> Unpack(Filtered(f, s)[i]).a == Unpack(s[i]).a
  {
    forall i | 0 <= i < |s|
      ensures Unpack(Filtered(f, s)[i]).a == Unpack(s[i]).a
    {
      ApplyPixelColor(f, s[i]);
    }
  }

  /** Inverting twice restores every pixel exactly, alpha included. */
  lemma InvertTwice(s: seq<Pixel>)
    ensures Filtered(Invert, Filtered(Invert, s)) == s
  {
    forall i | 0 <= i < |s|
      ensures Filtered(Invert, Filtered(Invert, s))[i] == s[i]
    {
      ApplyPixelColor(Invert, s[i]);
      PackUnpack(s[i]);
    }
  }

  /** Monochrome sets R, G and B to the floor of their mean, so no channel
      exceeds 255 and the pixel becomes grey. */
  lemma MonochromePixel(p: Pixel)
    ensures var c, m := Unpack(p), Unpack(ApplyPixel(Monochrome, p));
      m.r == m.g == m.b && 3 * m.r <= c.r + c.g + c.b < 3 * m.r + 3 && m.a == c.a
  {
    ApplyPixelColor(Monochrome, p);
  }

  /** Nightvision zeroes R and B and puts the floor of the mean of the
      original R, G and B in G. */
  lemma NightvisionPixel(p: Pixel)
    ensures var c, n := Unpack(p), Unpack(ApplyPixel(Nightvision, p));
      n.r == 0 && n.b == 0 && 3 * n.g <= c.r + c.g + c.b < 3 * n.g + 3 && n.a == c.a
  {
    ApplyPixelColor(Nightvision, p);
  }

  /** Threshold keeps a channel exactly when it is at least the threshold's
      matching channel, and sets it to 0 otherwise. */
  lemma ThresholdPixel(t: Color, p: Pixel)
    ensures var c, k := Unpack(p), Unpack(ApplyPixel(Threshold(t), p));
      (k.r == if c.r >= t.r then c.r else 0) &&
      (k.g == if c.g >= t.g then c.g else 0) &&
      (k.b == if c.b >= t.b then c.b else 0) &&
      k.a == c.a
  {
    ApplyPixelColor(Threshold(t), p);
  }

  /** A channel that does not saturate under a shift `d` is restored by the
      opposite shift. */
  predicate Unsaturated(v: Channel, d: int)
  {
    0 <= v + d <= 255
  }

  /** Brightness `d` followed by brightness `-d` restores each channel that
      stays within [0, 255] under the shift ([0, 255-d] for `d >= 0`, [-d, 255]
      for `d < 0`), whatever the other channels do; alpha always comes back,
      so a pixel none of whose channels saturates comes back exactly. */
  lemma BrightnessRoundTrip(d: int, p: Pixel)
    ensures var c, k := Unpack(p), Unpack(ApplyPixel(Brightness(-d), ApplyPixel(Brightness(d), p)));
      (Unsaturated(c.r, d) ==> k.r == c.r) &&
      (Unsaturated(c.g, d) ==> k.g == c.g) &&
      (Unsaturated(c.b, d) ==> k.b == c.b) &&
      k.a == c.a
    ensures var c := Unpack(p);
      Unsaturated(c.r, d) && Unsaturated(c.g, d) && Unsaturated(c.b, d) ==>
      ApplyPixel(Brightness(-d), ApplyPixel(Brightness(d), p)) == p
  {
    ApplyPixelColor(Brightness(d), p);
    ApplyPixelColor(Brightness(-d), ApplyPixel(Brightness(d), p));
    PackUnpack(p);
  }

  /** Brightness and colour shift clamp the shifted channel into [0, 255],
      and leave it unshifted only where the shift would leave that range. */
  lemma ShiftPixel(dr: int, dg: int, db: int, p: Pixel)
    ensures var c, k := Unpack(p), Unpack(ApplyPixel(ColorShift(dr, dg, db), p));
      (Unsaturated(c.r, dr) ==> k.r == c.r + dr) && (c.r + dr < 0 ==> k.r == 0) && (c.r + dr > 255 ==> k.r == 255) &&
      (Unsaturated(c.g, dg) ==> k.g == c.g + dg) && (c.g + dg < 0 ==> k.g == 0) && (c.g + dg > 255 ==> k.g == 255) &&
      (Unsaturated(c.b, db) ==> k.b == c.b + db) && (c.b + db < 0 ==> k.b == 0) && (c.b + db > 255 ==> k.b == 255) &&
      k.a == c.a
  {
    ApplyPixelColor(ColorShift(dr, dg, db), p);
  }

  /** Brightness `d` is the colour shift `(d, d, d)`. */
  lemma BrightnessIsUniformShift(d: int, p: Pixel)
    ensures ApplyPixel(Brightness(d), p) == ApplyPixel(ColorShift(d, d, d), p)
  {
  }
}
