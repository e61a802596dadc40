/**
 * Packed 32-bit colours: four bytes, red in the low byte and alpha in the high
 * byte. Shifting left by `k` bits is multiplication by `2^k`, shifting right is
 * division by `2^k`, and masking with 255 is the remainder modulo 256.
 */
module Color {
  import opened Arith

  /** An `uint8_t`. */
  type Byte = x: int | 0 <= x < 0x100

  /** An `uint32_t`. */
  type Word = x: int | 0 <= x < 0x1_0000_0000

  /** The four channels that `unpack_color` writes to its out-parameters. */
  datatype Rgba = Rgba(r: Byte, g: Byte, b: Byte, a: Byte)

  /** Alpha used when the caller of `pack_color` leaves it out. */
  const DefaultAlpha: Byte := 255

  /**
   * `pack_color`: the shifted channels are summed and the sum is converted to
   * `uint32_t`, which keeps it modulo 2^32. The sum never reaches 2^32, so the
   * conversion loses nothing and the packed value is the plain positional sum.
   */
  function Pack(r: Byte, g: Byte, b: Byte, a: Byte := DefaultAlpha): (c: Word)
    ensures c == a * 0x100_0000 + b * 0x1_0000 + g * 0x100 + r
    ensures c % 0x100 == r
  {
    DivModUnique(a * 0x100_0000 + b * 0x1_0000 + g * 0x100 + r, 0x1_0000_0000, 0, a * 0x100_0000 + b * 0x1_0000 + g * 0x100 + r);
    (a * 0x100_0000 + b * 0x1_0000 + g * 0x100 + r) % 0x1_0000_0000
  }

  /** The four bytes of a word, weighted by their positions, add back up to the word. */
  lemma ByteDigits(c: Word)
    ensures c == ((c / 0x100_0000) % 0x100) * 0x100_0000 + ((c / 0x1_0000) % 0x100) * 0x1_0000
                 + ((c / 0x100) % 0x100) * 0x100 + c % 0x100
  {
    var q1, q2, q3 := c / 0x100, c / 0x1_0000, c / 0x100_0000;
    assert q2 == q1 / 0x100;
    assert q3 == q2 / 0x100;
    assert q3 < 0x100;
    assert c == q1 * 0x100 + c % 0x100;
    assert q1 == q2 * 0x100 + q1 % 0x100;
    assert q2 == q3 * 0x100 + q2 % 0x100;
  }

  /** `unpack_color`: each channel is one byte of the packed word. */
  function Unpack(c: Word): (px: Rgba)
    ensures Pack(px.r, px.g, px.b, px.a) == c
  {
    ByteDigits(c);
    Rgba(c % 0x100, (c / 0x100) % 0x100, (c / 0x1_0000) % 0x100, (c / 0x100_0000) % 0x100)
  }

  /** Unpacking a packed colour gives back the four bytes that went in. */
  lemma UnpackPack(r: Byte, g: Byte, b: Byte, a: Byte)
    ensures Unpack(Pack(r, g, b, a)) == Rgba(r, g, b, a)
  {
    var c := Pack(r, g, b, a);
    DivModUnique(c, 0x100, a * 0x1_0000 + b * 0x100 + g, r);
    DivModUnique(c / 0x100, 0x100, a * 0x100 + b, g);
    DivModUnique(c, 0x1_0000, a * 0x100 + b, g * 0x100 + r);
    DivModUnique(c / 0x1_0000, 0x100, a, b);
    DivModUnique(c, 0x100_0000, a, b * 0x1_0000 + g * 0x100 + r);
    DivModUnique(c / 0x100_0000, 0x100, 0, a);
  }

  /** With alpha left out, the packed colour is opaque. */
  lemma DefaultAlphaOpaque(r: Byte, g: Byte, b: Byte)
    ensures Unpack(Pack(r, g, b)).a == 255
    ensures Pack(r, g, b) >= 0xFF00_0000
  {
    UnpackPack(r, g, b, DefaultAlpha);
  }

  /** Two byte tuples that pack to the same word are the same tuple. */
  lemma PackInjective(p: Rgba, q: Rgba)
    requires Pack(p.r, p.g, p.b, p.a) == Pack(q.r, q.g, q.b, q.a)
    ensures p == q
  {
    UnpackPack(p.r, p.g, p.b, p.a);
    UnpackPack(q.r, q.g, q.b, q.a);
  }
}
