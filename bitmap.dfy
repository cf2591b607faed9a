/** The image and its bitmap decoder (`Image::Load`): a 54-byte header
    (the Windows BITMAPFILEHEADER followed by the BITMAPINFOHEADER), the
    "BM" signature, the width and height at offsets 18 and 22, then
    `width*height` B,G,R byte triplets with no row padding. The decoded
    pixels are appended to the image's buffer, which is then reversed end to
    end. The file is given as its bytes; `None` stands for a file that cannot
    be opened. */
module Bitmap {
  import opened Colors
  import Grid

  datatype Option<T> = None | Some(value: T)

  /** One file byte. */
  type Byte = Channel

  const HeaderSize := 54

  /** The multi-character literal `'MB'`, `('M' << 8) | 'B'`. */
  const Signature := 0x4D42

  /** The `Uint16` at `off`, read little-endian. */
  function U16At(s: seq<Byte>, off: nat): (v: int)
    requires off + 2 <= |s|
    ensures 0 <= v < 0x1_0000
  {
    s[off] as int + s[off + 1] as int * 0x100
  }

  /** The `int` (32-bit, two's complement) at `off`, read little-endian. */
  function I32At(s: seq<Byte>, off: nat): (v: int)
    requires off + 4 <= |s|
    ensures -0x8000_0000 <= v < 0x8000_0000
  {
    var u := s[off] as int + s[off + 1] as int * 0x100 + s[off + 2] as int * 0x1_0000 + s[off + 3] as int * 0x100_0000;
    if u < 0x8000_0000 then u else u - 0x1_0000_0000
  }

  /** The four little-endian bytes of a 32-bit signed integer. */
  function I32Bytes(v: int): seq<Byte>
    requires -0x8000_0000 <= v < 0x8000_0000
  {
    var u := if v < 0 then v + 0x1_0000_0000 else v;
    [u % 0x100, (u / 0x100) % 0x100, (u / 0x1_0000) % 0x100, u / 0x100_0000]
  }

  /** Reading back the bytes of a 32-bit integer gives the integer. */
  lemma I32RoundTrip(v: int)
    requires -0x8000_0000 <= v < 0x8000_0000
    ensures |I32Bytes(v)| == 4 && I32At(I32Bytes(v), 0) == v
  {
    var u := if v < 0 then v + 0x1_0000_0000 else v;
    var q := u / 0x100;
    var q2 := q / 0x100;
    assert u == q * 0x100 + u % 0x100;
    assert q == q2 * 0x100 + q % 0x100;
    assert q2 == (q2 / 0x100) * 0x100 + q2 % 0x100;
    assert u / 0x1_0000 == q2;
    assert u / 0x100_0000 == q2 / 0x100;
  }

  predicate HasSignature(h: seq<Byte>)
    requires |h| >= 2
  {
    U16At(h, 0) == Signature
  }

  /** The signature check accepts exactly the files that start with the
      bytes `'B'`, `'M'` (0x42, 0x4D). */
  lemma SignatureBytes(h: seq<Byte>)
    requires |h| >= 2
    ensures HasSignature(h) <==> h[0] == 0x42 && h[1] == 0x4D
  {
    if HasSignature(h) {
      assert h[0] == 0x42 by {
        assert h[0] == U16At(h, 0) - h[1] as int * 0x100;
      }
    }
  }

  function Width(file: seq<Byte>): (w: int)
    requires |file| >= HeaderSize
    ensures -0x8000_0000 <= w < 0x8000_0000
  {
    I32At(file, 18)
  }

  function Height(file: seq<Byte>): (h: int)
    requires |file| >= HeaderSize
    ensures -0x8000_0000 <= h < 0x8000_0000
  {
    I32At(file, 22)
  }

  /** What `Load` needs for its behaviour to be defined: the two signature
      bytes, and for a file with the signature, a whole header and a
      `width*height*3` that is a valid vector size and does not overflow an
      `int`. */
  predicate Loadable(file: seq<Byte>)
  {
    |file| >= 2 &&
    (HasSignature(file) ==> |file| >= HeaderSize && 0 <= Width(file) * Height(file) * 3 < 0x8000_0000)
  }

  /** A file shorter than a header can be loaded exactly when it lacks the
      signature: `Load` then rejects it from its first two bytes. */
  lemma ShortFileLoadable(file: seq<Byte>)
    requires 2 <= |file| < HeaderSize
    ensures Loadable(file) <==> !HasSignature(file)
  {
  }

  /** The `n` bytes read after the header into a zero-initialised vector:
      bytes past the end of the file stay 0. */
  function Payload(file: seq<Byte>, n: nat): (data: seq<Byte>)
    ensures |data| == n
    ensures HeaderSize + n <= |file| ==> data == file[HeaderSize..HeaderSize + n]
    ensures HeaderSize <= |file| < HeaderSize + n ==>
      data == file[HeaderSize..] + seq(HeaderSize + n - |file|, _ => 0)
    ensures |file| <= HeaderSize ==> data == seq(n, _ => 0)
  {
    seq(n, j requires 0 <= j < n => if HeaderSize + j < |file| then file[HeaderSize + j] else 0)
  }

  /** The pixel of the triplet at `i`: R from `i+2`, G from `i+1`, B from `i`. */
  function TripletPixel(data: seq<Byte>, i: nat, alpha: Channel): Pixel
    requires i + 3 <= |data|
  {
    Pack(Color(data[i + 2], data[i + 1], data[i], alpha))
  }

  /** A triplet is stored blue first: its pixel has red from the third byte and blue from the first. */
  lemma TripletColor(data: seq<Byte>, i: nat, alpha: Channel)
    requires i + 3 <= |data|
    ensures Unpack(TripletPixel(data, i, alpha)) == Color(data[i + 2], data[i + 1], data[i], alpha)
  {
    UnpackPack(Color(data[i + 2], data[i + 1], data[i], alpha));
  }

  /** The pixels of consecutive triplets, in file order. */
  function Decoded(data: seq<Byte>, alpha: Channel): (pixels: seq<Pixel>)
    ensures |pixels| == |data| / 3
  {
    seq(|data| / 3, k requires 0 <= k < |data| / 3 => TripletPixel(data, 3 * k, alpha))
  }

  /** Decoding one more triplet appends its pixel. */
  lemma DecodedSnoc(data: seq<Byte>, i: nat, alpha: Channel)
    requires i % 3 == 0 && i + 3 <= |data|
    ensures Decoded(data[..i + 3], alpha) == Decoded(data[..i], alpha) + [TripletPixel(data, i, alpha)]
  {
    var q := i / 3;
    assert i == 3 * q && (i + 3) / 3 == q + 1;
    var a, b := Decoded(data[..i + 3], alpha), Decoded(data[..i], alpha) + [TripletPixel(data, i, alpha)];
    assert |a| == q + 1 == |b|;
    forall k | 0 <= k <= q ensures a[k] == b[k] {
      assert 3 * k + 3 <= i + 3;
      if k < q {
        assert 3 * k + 3 <= i;
      }
    }
  }

  /** `std::reverse`: the sequence read from its end. */
  function Reversed<T>(s: seq<T>): (r: seq<T>)
    ensures |r| == |s|
  {
    seq(|s|, k requires 0 <= k < |s| => s[|s| - 1 - k])
  }

  /** Reversing twice restores the sequence. */
  lemma ReversedTwice<T>(s: seq<T>)
    ensures Reversed(Reversed(s)) == s
  {
  }

  /** Reversing a concatenation reverses each part and swaps them: pixels
      appended by a second `Load` end up before the reversed older pixels. */
  lemma ReversedAppend<T>(a: seq<T>, b: seq<T>)
    ensures Reversed(a + b) == Reversed(b) + Reversed(a)
  {
    var l, r := Reversed(a + b), Reversed(b) + Reversed(a);
    forall k | 0 <= k < |l| ensures l[k] == r[k] {
      if k < |b| {
        assert l[k] == b[|b| - 1 - k];
      } else {
        assert l[k] == a[|a| - 1 - (k - |b|)];
      }
    }
  }

  /** The pixels of a loaded file, before reversal. */
  function FilePixels(file: seq<Byte>, alpha: Channel): (pixels: seq<Pixel>)
    requires Loadable(file) && HasSignature(file)
    ensures |pixels| == Width(file) * Height(file)
  {
    var n := Width(file) * Height(file);
    assert n * 3 / 3 == n;
    Decoded(Payload(file, n * 3), alpha)
  }

  /** A load decodes exactly `width*height` pixels, and pixel `k` of the
      reversed result is the triplet `k`-th from the end of the data. */
  lemma LoadedPixelAt(file: seq<Byte>, alpha: Channel, k: int)
    requires Loadable(file) && HasSignature(file)
    ensures |FilePixels(file, alpha)| == Width(file) * Height(file)
    ensures 0 <= k < Width(file) * Height(file) ==>
      var data, j := Payload(file, Width(file) * Height(file) * 3), Width(file) * Height(file) - 1 - k;
      Reversed(FilePixels(file, alpha))[k] == Pack(Color(data[3 * j + 2], data[3 * j + 1], data[3 * j], alpha))
  {
  }

  /** The flat reversal turns the image upside down AND mirrors every row:
      pixel `(x, y)` of a loaded `w*h` image is file pixel `(w-1-x, h-1-y)`,
      file pixel `(fx, fy)` being the one decoded from the triplet at
      `3 * (fx + fy * w)`. */
  lemma LoadMirrorsRows(file: seq<Byte>, alpha: Channel, x: int, y: int)
    requires Loadable(file) && HasSignature(file)
    requires 0 <= x < Width(file) && 0 <= y < Height(file)
    ensures var w, h, pixels := Width(file), Height(file), FilePixels(file, alpha);
      0 <= x + y * w < w * h && 0 <= (w - 1 - x) + (h - 1 - y) * w < w * h &&
      Reversed(pixels)[x + y * w] == pixels[(w - 1 - x) + (h - 1 - y) * w]
  {
    var w, h := Width(file), Height(file);
    Grid.IndexInRange(w, h, x, y);
    Grid.IndexInRange(w, h, w - 1 - x, h - 1 - y);
    MirroredIndex(w, h, x, y);
  }

  /** Counting `x + y * w` slots back from the end of a `w*h` buffer lands
      on `(w-1-x) + (h-1-y) * w`. */
  lemma MirroredIndex(w: int, h: int, x: int, y: int)
    ensures w * h - 1 - (x + y * w) == (w - 1 - x) + (h - 1 - y) * w
  {
    assert (h - 1 - y) * w == h * w - w - y * w;
  }

  /** A well-formed 2x1 file yields its two pixels in reverse order. */
  lemma TwoByOne(file: seq<Byte>, alpha: Channel)
    requires |file| == HeaderSize + 6 && HasSignature(file)
    requires Width(file) == 2 && Height(file) == 1
    ensures Loadable(file)
    ensures Reversed(FilePixels(file, alpha)) ==
      [Pack(Color(file[59], file[58], file[57], alpha)), Pack(Color(file[56], file[55], file[54], alpha))]
  {
  }

  /** An image: its dimensions and its pixel buffer, which `Load` appends to. */
  class Image {
    var width: int
    var height: int
    var buffer: seq<Pixel>

    constructor ()
      ensures width == 0 && height == 0 && buffer == []
    {
      width, height, buffer := 0, 0, [];
    }

    /** `Image::Load`: false, with nothing changed, when the file cannot be
        opened or lacks the signature; otherwise the header's dimensions, and
        the buffer with the decoded pixels appended and then reversed. */
    method Load(file: Option<seq<Byte>>, alpha: Channel) returns (ok: bool)
      requires file.Some? ==> Loadable(file.value)
      modifies this
      ensures ok <==> file.Some? && HasSignature(file.value)
      ensures !ok ==> width == old(width) && height == old(height) && buffer == old(buffer)
      ensures ok ==> width == Width(file.value) && height == Height(file.value)
      ensures ok ==> buffer == Reversed(old(buffer) + FilePixels(file.value, alpha))
    {
      if file.None? {
        return false;
      }
      var bytes := file.value;
      if U16At(bytes, 0) != Signature {
        return false;
      }
      width := I32At(bytes, 18);
      height := I32At(bytes, 22);
      var dataSize := width * height * 3;
      var data := Payload(bytes, dataSize);
      var i := 0;
      while i < dataSize
        invariant 0 <= i <= dataSize && i % 3 == 0
        invariant width == Width(bytes) && height == Height(bytes)
        invariant buffer == old(buffer) + Decoded(data[..i], alpha)
      {
        DecodedSnoc(data, i, alpha);
        buffer := buffer + [TripletPixel(data, i, alpha)];
        i := i + 3;
      }
      assert data[..i] == data;
      ReverseBuffer();
      return true;
    }

    /** `std::reverse(m_buffer.begin(), m_buffer.end())`, swapping from both
        ends towards the middle. */
    method ReverseBuffer()
      modifies this
      ensures buffer == Reversed(old(buffer))
      ensures width == old(width) && height == old(height)
    {
      var n := |buffer|;
      var i := 0;
      while i < n / 2
        invariant 0 <= i <= n / 2 && |buffer| == n
        invariant forall k :: 0 <= k < i ==> buffer[k] == old(buffer)[n - 1 - k]
        invariant forall k :: 0 <= k < i ==> buffer[n - 1 - k] == old(buffer)[k]
        invariant forall k :: i <= k < n - i ==> buffer[k] == old(buffer)[k]
        invariant width == old(width) && height == old(height)
      {
        buffer := buffer[i := buffer[n - 1 - i]][n - 1 - i := buffer[i]];
        i := i + 1;
      }
    }
  }
}
