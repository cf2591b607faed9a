/** The colour codec: a colour of four 8-bit channels packed into one 32-bit
    pixel, R in bits 31-24, G in 23-16, B in 15-8 and A in 7-0. */
module Colors {

  /** One 8-bit channel (a `Uint8`); also the type of one file byte. */
  type Channel = x: int | 0 <= x < 0x100

  /** A packed pixel, read as an unsigned 32-bit value. */
  type Pixel = x: int | 0 <= x < 0x1_0000_0000

  datatype Color = Color(r: Channel, g: Channel, b: Channel, a: Channel)

  /** `ColorToPixel`: the shift-or of the four channels, read unsigned. */
  function Pack(c: Color): Pixel
  {
    c.r * 0x100_0000 + c.g * 0x1_0000 + c.b * 0x100 + c.a
  }

  /** `PixelToColor`: shift each channel down and mask it to 8 bits. */
  function Unpack(p: Pixel): Color
  {
    Color(p / 0x100_0000, (p / 0x1_0000) % 0x100, (p / 0x100) % 0x100, p % 0x100)
  }

  /** Unpacking a packed colour gives back every channel. */
  lemma UnpackPack(c: Color)
    ensures Unpack(Pack(c)) == c
  {
    var low := c.g * 0x1_0000 + c.b * 0x100 + c.a;
    assert Pack(c) == c.r * 0x100_0000 + low && low < 0x100_0000;
    var mid := c.b * 0x100 + c.a;
    assert Pack(c) / 0x1_0000 == c.r * 0x100 + c.g by {
      assert Pack(c) == (c.r * 0x100 + c.g) * 0x1_0000 + mid && mid < 0x1_0000;
    }
    assert Pack(c) / 0x100 == (c.r * 0x100 + c.g) * 0x100 + c.b;
  }

  /** Packing an unpacked pixel gives back the same 32-bit value, so the two
      are inverse bijections between colours and pixels. */
  lemma PackUnpack(p: Pixel)
    ensures Pack(Unpack(p)) == p
  {
    var q := p / 0x100;
    var q2 := q / 0x100;
    assert p == q * 0x100 + p % 0x100;
    assert q == q2 * 0x100 + q % 0x100;
    assert q2 == (q2 / 0x100) * 0x100 + q2 % 0x100;
    assert p / 0x1_0000 == q2;
    assert p / 0x100_0000 == q2 / 0x100;
  }

  /** Two colours pack to the same pixel exactly when they are equal. */
  lemma PackInjective(c: Color, d: Color)
    ensures Pack(c) == Pack(d) <==> c == d
  {
    if Pack(c) == Pack(d) {
      UnpackPack(c);
      UnpackPack(d);
    }
  }
}
