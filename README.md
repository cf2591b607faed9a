# A verified model of a 2D software rasterizer

The system is a small 2D software renderer. A `Canvas` owns a row-major
buffer of `width*height` packed 32-bit RGBA pixels: pixel `(x, y)` lives in
slot `x + y*width`, with R in the top byte and A in the bottom one. The canvas
can be cleared, and points, lines, polylines, triangle outlines, filled
rectangles and midpoint circles can be drawn on it, each with per-pixel
clipping. Images can be drawn on it with alpha blending or with a colour key,
and six whole-buffer colour filters rewrite it in place. An `Image` is filled
from an uncompressed 24-bit bitmap file by `Image::Load`.

The Dafny project keeps the source's shape:

- `colors.dfy` (`Colors`): the channel and pixel types and the colour codec
  `PixelToColor` / `ColorToPixel`, shown to be inverse bijections.
- `grid.dfy` (`Grid`): row-major addressing. It also defines `Paint`, the
  buffer after one colour has been written at a set of points, with the
  points off the canvas skipped. Every drawing primitive writes a single
  colour, so each one is specified as `Paint` of the set of points it visits.
- `shapes.dfy` (`Shapes`): those point sets (line, polyline, triangle,
  rectangle, circle) as functions, with the geometric facts proved about them.
- `compositing.dfy` (`Compositing`): the blend and colour-key rules, and
  `Composite`, the canvas after the first `n` image pixels have been drawn in
  row-major order.
- `filters.dfy` (`Filters`): the six filters as functions on one colour.
- `bitmap.dfy` (`Bitmap`): the header fields and pixel decoding. `Image` is
  a class whose `Load` updates its width, height and pixel sequence.
- `canvas.dfy` (`Raster`): `Canvas` is a class over an `array` of pixels.
  Its methods keep the source's loops, and each one is proved to leave
  `buffer[..]` equal to the specification function applied to the old
  buffer.

Three behaviours of the code are easy to miss:

- **Radius-0 circle.** `DrawCircle` with radius 0 plots the centre and its
  four diagonal neighbours, not only the centre (`Shapes.CircleRadiusZero`).
  The loop plots its first step, to `(1, -1)`, before it tests the loop
  condition again.
- **Short pixel data.** A file shorter than its declared dimensions is not
  rejected. The pixel data is read into a zero-initialised vector and the
  load succeeds, so the missing bytes decode as 0 (`Bitmap.Payload`).
- **Mirrored rows.** The whole decoded pixel sequence is reversed end to end.
  This turns the image upside down and also mirrors every row
  (`Bitmap.LoadMirrorsRows`).

## Model

| member | source | states |
|---|---|---|
| Colors.UnpackPack | Canvas.cpp:5-19 | unpacking a packed colour returns every channel unchanged |
| Colors.PackUnpack | Canvas.cpp:5-19 | packing an unpacked pixel returns the same 32-bit value, so the codec is a bijection |
| Colors.PackInjective | Canvas.cpp:16-19 | two colours pack to the same pixel if and only if they are equal |
| Compositing.Blend | Canvas.cpp:165-185 | the blended colour is opaque; an opaque source colour is the result; a transparent source leaves the destination's R, G and B |
| Raster.Canvas.constructor | Canvas.cpp:21-31 | the buffer holds `width*height` pixels, all 0 |
| Raster.Canvas.Clear | Canvas.cpp:48-51 | every slot holds the packed colour and unpacks to that colour |
| Grid.IndexInRange | Canvas.cpp:55-57 | every in-bounds coordinate addresses a slot inside the buffer |
| Grid.IndexInjective | Canvas.cpp:57 | two in-bounds coordinates never share a slot |
| Grid.CellOfIndex | Canvas.cpp:57 | every slot is addressed by exactly the in-bounds coordinate `(i % w, i / w)` |
| Raster.Canvas.DrawPoint | Canvas.cpp:53-58 | off the canvas nothing changes; on it exactly slot `x + y*width` becomes the packed colour |
| Grid.PaintPoint | Canvas.cpp:53-58 | painting one in-bounds point is the update of its one slot |
| Grid.PaintAt | Canvas.cpp:55-57 | a painted cell holds the colour if it is one of the points, and keeps its old value otherwise |
| Grid.PaintOutside | Canvas.cpp:55 | points off the canvas leave the buffer unchanged |
| Grid.PaintUnion | Canvas.cpp:112-117 | drawing two point sets in sequence in one colour is drawing their union |
| Shapes.Round | Canvas.cpp:86 | `round` gives an integer within one half of its argument |
| Raster.Canvas.DrawLine | Canvas.cpp:60-100 | the buffer is the old buffer painted at `LinePoints(v1, v2)` |
| Raster.Canvas.DrawColumn | Canvas.cpp:70-74 | the vertical branch paints column `x` for rows `[lo, hi)` |
| Raster.Canvas.DrawShallowRun | Canvas.cpp:83-88 | the shallow branch paints `(x, round(m*x + b))` for columns `[lo, hi)` |
| Raster.Canvas.DrawSteepRun | Canvas.cpp:92-97 | the steep branch paints `(round((y - b)/m), y)` for rows `[lo, hi)` |
| Shapes.VerticalLine | Canvas.cpp:68-75 | a vertical line is its column over `[min(y1,y2), max(y1,y2))`, in both directions of the iff |
| Shapes.HorizontalLine | Canvas.cpp:78-89 | a horizontal line is its row over `[min(x1,x2), max(x1,x2))`, in both directions of the iff |
| Shapes.ZeroLengthLine | Canvas.cpp:65-75 | a line whose endpoints coincide plots nothing |
| Shapes.SlopeTimesRun | Canvas.cpp:78 | the exact slope times the run is the rise |
| Shapes.SlopeSwap | Canvas.cpp:65-78 | the slope is the same whichever endpoint comes first |
| Shapes.LineThroughEndpoints | Canvas.cpp:78-79 | `m*x + b` passes through both endpoints |
| Shapes.LineSymmetric | Canvas.cpp:60-100 | swapping the endpoints plots the same set of points |
| Shapes.LineEndpoints | Canvas.cpp:68-98 | the near endpoint is plotted and the far endpoint never is |
| Shapes.ShallowLineColumns | Canvas.cpp:81-89 | a shallow line has exactly one point per column of its x-range, at most half a pixel from the exact line |
| Shapes.SteepLineRows | Canvas.cpp:90-98 | a steep line has exactly one point per row of its y-range |
| Raster.Canvas.DrawLineList | Canvas.cpp:102-110 | the buffer is the old buffer painted at the polyline's points |
| Shapes.PolylineSegments | Canvas.cpp:102-110 | a point is on the polyline if and only if it is on one of its consecutive segments |
| Raster.Canvas.DrawTriangle | Canvas.cpp:112-117 | the buffer is the old buffer painted at the three edges |
| Shapes.TriangleIsClosedPolyline | Canvas.cpp:112-117 | the triangle outline is the closed polyline `p1, p2, p3, p1` |
| Shapes.TriangleAsPolyline | Canvas.cpp:112-117 | the triangle outline is the open polyline `p1, p2, p3` together with the line drawn from `p1` to `p3` |
| Raster.Canvas.DrawRect | Canvas.cpp:119-129 | the buffer is the old buffer painted at the rectangle's points |
| Shapes.RowsCells | Canvas.cpp:123-128 | the drawn rows cover exactly `[min(x, x+w), max(x, x+w))` by `[y, yEnd)` |
| Shapes.RectCells | Canvas.cpp:119-129 | a rectangle fills its half-open area unless its origin is at or past the right or bottom edge, when nothing is drawn |
| Raster.Canvas.DrawCirclePoint | Canvas.cpp:296-307 | the buffer is the old buffer painted at the eight reflections of the point |
| Raster.Canvas.DrawQuadrants | Canvas.cpp:298-301 | the buffer is the old buffer painted at the four reflections `(±p.x, ±p.y)` about the centre |
| Shapes.OctantsAreQuadrants | Canvas.cpp:296-307 | the eight reflections are the four of the point and the four of the point with its coordinates swapped |
| Raster.Canvas.DrawCircle | Canvas.cpp:131-153 | the buffer is the old buffer painted at the start's reflections and those of every state the loop steps to, and the loop body runs `Passes` of the starting state times, so at most `radius + 1` times |
| Shapes.CircleStepProgress | Canvas.cpp:136-150 | every pass increments `px` and strictly decreases `py - px`, so the loop ends |
| Shapes.PassesBound | Canvas.cpp:136-152 | the loop runs at most `py - px + 1` times |
| Shapes.OctantsSymmetric | Canvas.cpp:296-307 | the eight reflections are closed under the vertical, horizontal and diagonal mirrors through the centre |
| Shapes.TrailSymmetric | Canvas.cpp:136-152 | the points plotted by the loop are closed under those mirrors |
| Shapes.CircleSymmetric | Canvas.cpp:131-153 | the plotted circle is symmetric about the vertical, horizontal and diagonal axes through its centre |
| Shapes.CircleRadiusZero | Canvas.cpp:131-153 | radius 0 plots the centre and its four diagonal neighbours |
| Compositing.Weighted | Canvas.cpp:169-177 | a channel weighted by `w/255` is at most `w`, is the channel itself at 255 and is 0 at 0 |
| Compositing.BlendEndpoints | Canvas.cpp:165-185 | a blended pixel is opaque; an opaque source is copied exactly; a transparent one keeps the destination's R, G and B |
| Compositing.CompositeAt | Canvas.cpp:155-188 | after drawing, a cell under the image holds its pixel combined with the old cell, and every other cell is unchanged |
| Compositing.BlendedCells | Canvas.cpp:155-188 | alpha-blend drawing makes every covered cell opaque, copies opaque pixels and keeps the colour under transparent ones |
| Compositing.KeyedCells | Canvas.cpp:190-208 | colour-key drawing copies each covered pixel unless its full 32-bit value equals the packed key |
| Compositing.CompositeNone | Canvas.cpp:157-160 | nothing is drawn before the first pixel, nor by an image with no rows or no columns |
| Compositing.CompositeStep | Canvas.cpp:160-186 | drawing the next image pixel writes at most the one cell under it, which still held its original value |
| Raster.Canvas.DrawImage | Canvas.cpp:155-188 | the buffer is the old buffer with the whole image alpha-blended at `point` |
| Raster.Canvas.BlendRow | Canvas.cpp:160-186 | one pass of the inner loop composites one more image row |
| Raster.Canvas.BlendPixel | Canvas.cpp:165-185 | one blended pixel is the blend rule applied to the source and destination, and is opaque |
| Raster.Canvas.DrawImageKeyed | Canvas.cpp:190-208 | the buffer is the old buffer with the whole image colour-keyed at `point` |
| Raster.Canvas.KeyedRow | Canvas.cpp:197-206 | one pass of the inner loop composites one more image row |
| Raster.LoadedImageFits | Image.cpp:29-44 | a loaded image's buffer holds at least `width*height` pixels, so drawing it stays inside it |
| Filters.Clamp | Canvas.cpp:274-276 | a value is kept exactly when it is a channel value; below 0 it becomes 0 and above 255 it becomes 255 |
| Filters.Apply | Canvas.cpp:210-294 | every filter keeps the colour's alpha |
| Filters.Filtered | Canvas.cpp:210-294 | a filter pass rewrites the buffer without changing its length |
| Filters.Average | Canvas.cpp:230 | the average is the floor of the mean of R, G and B |
| Filters.ApplyPixelColor | Canvas.cpp:210-294 | unpacking a filtered pixel gives the filtered colour |
| Filters.FilterKeepsAlpha | Canvas.cpp:210-294 | no filter changes the buffer's length or any pixel's alpha |
| Filters.InvertTwice | Canvas.cpp:210-222 | inverting twice restores every pixel exactly |
| Filters.MonochromePixel | Canvas.cpp:224-237 | monochrome makes R, G and B equal to the floor of their mean and keeps alpha |
| Filters.NightvisionPixel | Canvas.cpp:239-252 | nightvision zeroes R and B, puts the floor of the mean in G and keeps alpha |
| Filters.ThresholdPixel | Canvas.cpp:254-266 | each channel is kept if and only if it is at least the threshold's, and is 0 otherwise |
| Filters.BrightnessRoundTrip | Canvas.cpp:268-280 | brightness `d` then `-d` restores each of R, G and B that `+d` does not push out of `[0, 255]`, always restores alpha, and restores the whole pixel when no channel saturates |
| Filters.ShiftPixel | Canvas.cpp:282-294 | each channel is shifted exactly when the result is in range, and is clamped to 0 or 255 otherwise |
| Filters.BrightnessIsUniformShift | Canvas.cpp:268-294 | brightness `d` equals the colour shift `(d, d, d)` |
| Raster.Canvas.Process | Canvas.cpp:210-294 | every slot is rewritten by the filter applied to its old value |
| Raster.Canvas.ProcessInvert | Canvas.cpp:210-222 | the buffer is the inverted old buffer |
| Raster.Canvas.ProcessMonochrome | Canvas.cpp:224-237 | the buffer is the monochrome old buffer |
| Raster.Canvas.ProcessNightvision | Canvas.cpp:239-252 | the buffer is the nightvision old buffer |
| Raster.Canvas.ProcessThreshold | Canvas.cpp:254-266 | the buffer is the thresholded old buffer |
| Raster.Canvas.ProcessBrightness | Canvas.cpp:268-280 | the buffer is the old buffer shifted and clamped by `brightness` |
| Raster.Canvas.ProcessColor | Canvas.cpp:282-294 | the buffer is the old buffer shifted and clamped per channel |
| Bitmap.Image.constructor | Image.cpp:24-44 | a new image has width and height 0 and no pixels, the state `Load` appends to |
| Bitmap.U16At | Image.cpp:17 | range only: the signature field is an unsigned 16-bit value (which bytes it is made of is stated by `Bitmap.SignatureBytes`) |
| Bitmap.SignatureBytes | Image.cpp:17-22 | the format check accepts a file if and only if it starts with the bytes `B`, `M` |
| Bitmap.I32At | Image.cpp:24-25 | range only: a header field read as `int` is a signed 32-bit value (its byte layout is stated by `Bitmap.I32RoundTrip`) |
| Bitmap.I32RoundTrip | Image.cpp:24-25 | reading back the four little-endian bytes of a 32-bit integer gives the integer |
| Bitmap.Width | Image.cpp:24 | range only: the width read from the header is a signed 32-bit value |
| Bitmap.Height | Image.cpp:25 | range only: the height read from the header is a signed 32-bit value |
| Bitmap.ShortFileLoadable | Image.cpp:14-22 | a file shorter than the 54-byte header is within the model exactly when it lacks the signature, and `Load` then rejects it |
| Bitmap.Payload | Image.cpp:29-32 | the data holds `n = width*height*3` bytes: the `n` bytes after the header when the file has them; the bytes after the header followed by zeros when the file ends early; all zeros when the file has no bytes after the header |
| Bitmap.TripletColor | Image.cpp:36-42 | a triplet's pixel unpacks to red from its third byte, green from its second, blue from its first and the given alpha |
| Bitmap.Decoded | Image.cpp:34-43 | the data decodes to one pixel per whole triplet |
| Bitmap.DecodedSnoc | Image.cpp:34-43 | each pass decodes the next B, G, R triplet and appends its pixel |
| Bitmap.FilePixels | Image.cpp:29-43 | a load decodes exactly `width*height` pixels |
| Bitmap.Reversed | Image.cpp:44 | the reversed sequence has the same length |
| Bitmap.ReversedTwice | Image.cpp:44 | reversing twice restores the sequence |
| Bitmap.ReversedAppend | Image.cpp:42-44 | pixels appended by a second load end up in front of the reversed older pixels |
| Bitmap.LoadedPixelAt | Image.cpp:29-44 | a load decodes exactly `width*height` pixels, and pixel `k` comes from the `k`-th triplet from the end |
| Bitmap.LoadMirrorsRows | Image.cpp:34-44 | loaded pixel `(x, y)` is the pixel decoded for `(w-1-x, h-1-y)`, so the image is flipped vertically and every row is mirrored |
| Bitmap.TwoByOne | Image.cpp:14-48 | a 2-by-1 file yields its two pixels in reverse order |
| Bitmap.Image.Load | Image.cpp:5-49 | it returns false and changes nothing if the file cannot be opened or lacks the signature; otherwise it sets the header's width and height and appends the decoded pixels before reversing the buffer |
| Bitmap.Image.ReverseBuffer | Image.cpp:44 | the buffer is reversed in place and the dimensions are unchanged |

## Left out

- The SDL side of the canvas is left out: the texture, `Update`, `Draw`, the destructor and the renderer argument of the constructor. It is a foreign API and does not touch the pixel buffer.
- The demo program `main.cpp` is left out. It sets up SDL and runs an event loop; the modelled operations it calls (`Load` at main.cpp:35-41, `Clear` at main.cpp:55, `DrawImage` at main.cpp:84-86) take fixed arguments.
- Console output in `Image::Load` is left out. Opening the file becomes an `Option` of its bytes, with `None` for a file that cannot be opened.
- `Image.h` is not part of this model. The default `alpha` argument of `Load` and the initial field values are assumed: the constructor here zeroes them.
- Raster.Canvas.DrawShallowRun: computes `m`, `b` and the rounded coordinate in exact rationals, not in `float`. Rounding error is not modelled, and neither is a slope that is exactly ±1 in `float` but not in exact arithmetic, which changes the branch taken.
- Raster.Canvas.DrawSteepRun: the same exact-arithmetic simplification as the shallow branch.
- Compositing.Blend, Raster.Canvas.BlendPixel and Raster.Canvas.DrawImage: compute each blended channel as `c * a / 255 + d * (255 - a) / 255` with exact integer truncation. The source multiplies by the `float` `a / 255.0f` and `1 - a / 255.0f`, which gives the same value at alpha 0 and 255 but can be one lower at other alphas (255 over 255 at alpha 128, or 0 over 255 at alpha 65).
- Raster.Canvas.constructor: width and height are naturals. The source takes `int`, and a negative or overflowing `width * height` (Canvas.cpp:30) is not modelled.
- Coordinates, dimensions and `radius` are unbounded integers. Overflow of `int` sums such as `point.x + x`, `rect.y + rect.h` or `x + y*width` is not modelled.
- Raster.Canvas.DrawLineList: requires a non-empty list. For an empty vector the source's `points.size() - 1` wraps around and it reads out of bounds.
- Raster.Canvas.DrawImage and Raster.Canvas.DrawImageKeyed: require the image's buffer to hold at least `width*height` pixels. The source reads out of bounds otherwise.
- Bitmap.Image.Load: excludes only a file under 2 bytes, whose signature would be read from uninitialised header bytes, and a file with the signature under 54 bytes, whose width and height would be. A shorter file without the signature is rejected as in the source. For a file with the signature it also requires `width*height*3` to fit in an `int`, since overflow of that product is undefined, and to be non-negative, since otherwise the vector constructor at Image.cpp:31 throws, after Image.cpp:24-25 have already overwritten the width and height. Exceptions are not modelled.
- Bitmap row padding and other bit depths are not decoded, and neither does the source decode them.
- Shapes.LineSymmetric: holds of the exact-rational model only. In `float` the two directions of a sloped line can round differently: `DrawLine((1,0),(7,1))` plots `(4,1)` at column 4, where `m*x + b` evaluates to exactly 0.5 and rounds up, while `DrawLine((7,1),(1,0))` evaluates it to 0.49999994 there and plots `(4,0)`.
- Shapes.TriangleIsClosedPolyline: holds of the exact-rational model only, for the same reason. `DrawTriangle((1,0),(1,5),(7,1))` draws its third edge from `(1,0)` to `(7,1)`, which in `float` differs at column 4 from the closing edge `(7,1)` to `(1,0)`. `Shapes.TriangleAsPolyline` keeps the drawn orientation instead.
- Raster.Canvas.DrawLine: its points are computed in exact rationals, so the float rounding differences above are not modelled.
