/**
 * The frame buffer: `img_w * img_h` pixels of 3 bytes (red, green, blue),
 * row-major, in one flat byte array. Byte `k` belongs to pixel `k / 3`, which
 * sits in column `(k / 3) % img_w` and row `(k / 3) / img_w`.
 */
module Frame {
  import opened Arith
  import opened Color

  /** `CHANNEL_NUM`: bytes per pixel. */
  const Channels: nat := 3

  /** Channel `k` of a pixel in the buffer: 0 is red, 1 green, 2 blue. */
  function Channel(px: Rgba, k: int): Byte
    requires 0 <= k < Channels
  {
    if k == 0 then px.r else if k == 1 then px.g else px.b
  }

  /** The byte the code writes for channel `c` of pixel (cx, cy): `(cx + cy * img_w) * 3 + c`. */
  function ByteIndex(cx: int, cy: int, imgW: int, c: int): int
  {
    RowMajor(cx, cy, imgW) * Channels + c
  }

  /** Column of the pixel that byte `k` belongs to. */
  function PixelX(k: nat, imgW: nat): nat
    requires imgW > 0
  {
    (k / Channels) % imgW
  }

  /** Row of the pixel that byte `k` belongs to. */
  function PixelY(k: nat, imgW: nat): nat
    requires imgW > 0
  {
    (k / Channels) / imgW
  }

  /** A buffer of the size the frame needs. */
  predicate FrameSized(len: int, imgW: nat, imgH: nat)
  {
    len == imgW * imgH * Channels
  }

  /** The index formula names exactly the pixel and channel it is given, inside the buffer. */
  lemma ByteIndexInverse(cx: nat, cy: nat, imgW: nat, imgH: nat, c: nat)
    requires cx < imgW && cy < imgH && c < Channels
    ensures 0 <= ByteIndex(cx, cy, imgW, c) < imgW * imgH * Channels
    ensures PixelX(ByteIndex(cx, cy, imgW, c), imgW) == cx
    ensures PixelY(ByteIndex(cx, cy, imgW, c), imgW) == cy
    ensures ByteIndex(cx, cy, imgW, c) % Channels == c
  {
    var p := RowMajor(cx, cy, imgW);
    RowMajorBound(cx, cy, imgW, imgH);
    DivModUnique(ByteIndex(cx, cy, imgW, c), Channels, p, c);
    RowMajorSplit(cx, cy, imgW);
  }

  /** Every byte of the buffer is the index-formula byte of its own pixel and channel. */
  lemma ByteOfPixel(k: nat, imgW: nat, imgH: nat)
    requires k < imgW * imgH * Channels
    ensures imgW > 0
    ensures PixelX(k, imgW) < imgW && PixelY(k, imgW) < imgH
    ensures k == ByteIndex(PixelX(k, imgW), PixelY(k, imgW), imgW, k % Channels)
  {
    var p := k / Channels;
    assert k == p * Channels + k % Channels;
    RowMajorOfDivMod(p, imgW);
    assert p < imgW * imgH by {
      if p >= imgW * imgH {
        MulMonotone(imgW * imgH, p, Channels);
        assert false;
      }
    }
    RowOfIndexBound(p, imgW, imgH);
  }

  /**
   * Writes pixel (cx, cy): the three bytes the code writes one after another
   * at `(cx + cy * img_w) * 3 + 0, 1, 2`. Nothing else changes.
   */
  method PutPixel(pixels: array<Byte>, imgW: nat, imgH: nat, cx: nat, cy: nat, px: Rgba)
    requires FrameSized(pixels.Length, imgW, imgH) && cx < imgW && cy < imgH
    modifies pixels
    ensures forall k :: 0 <= k < pixels.Length ==>
              pixels[k] == if PixelX(k, imgW) == cx && PixelY(k, imgW) == cy
                           then Channel(px, k % Channels) else old(pixels[k])
  {
    ByteIndexInverse(cx, cy, imgW, imgH, 0);
    ByteIndexInverse(cx, cy, imgW, imgH, 1);
    ByteIndexInverse(cx, cy, imgW, imgH, 2);
    var base := ByteIndex(cx, cy, imgW, 0);
    pixels[base + 0] := px.r;
    pixels[base + 1] := px.g;
    pixels[base + 2] := px.b;
    forall k | 0 <= k < pixels.Length
      ensures pixels[k] == if PixelX(k, imgW) == cx && PixelY(k, imgW) == cy
                           then Channel(px, k % Channels) else old(pixels[k])
    {
      ByteOfPixel(k, imgW, imgH);
    }
  }

  /** Pixel (cx, cy) lies in the `w` by `h` rectangle whose top-left corner is (x, y). */
  predicate InRect(cx: int, cy: int, x: int, y: int, w: int, h: int)
  {
    x <= cx < x + w && y <= cy < y + h
  }

  /**
   * The buffer after `draw_rectangle`: every byte of a pixel inside the
   * rectangle holds that channel of `px`; every other byte keeps its value.
   * Parts of the rectangle beyond the image have no bytes and so change nothing.
   */
  function RectFill(buf: seq<Byte>, imgW: nat, x: nat, y: nat, w: nat, h: nat, px: Rgba): (r: seq<Byte>)
  {
    seq(|buf|, k requires 0 <= k < |buf| =>
      if imgW > 0 && InRect(PixelX(k, imgW), PixelY(k, imgW), x, y, w, h)
      then Channel(px, k % Channels) else buf[k])
  }

  /** Inside the rectangle and the image, each pixel gets the colour's red, green and blue. */
  lemma RectFillInside(buf: seq<Byte>, imgW: nat, imgH: nat, x: nat, y: nat, w: nat, h: nat,
                       px: Rgba, cx: nat, cy: nat, c: nat)
    requires FrameSized(|buf|, imgW, imgH)
    requires cx < imgW && cy < imgH && c < Channels && InRect(cx, cy, x, y, w, h)
    ensures 0 <= ByteIndex(cx, cy, imgW, c) < |buf|
    ensures RectFill(buf, imgW, x, y, w, h, px)[ByteIndex(cx, cy, imgW, c)] == Channel(px, c)
  {
    ByteIndexInverse(cx, cy, imgW, imgH, c);
  }

  /**
   * Outside the rectangle every byte is unchanged. In particular a rectangle
   * that runs past the right edge does not wrap into the next row.
   */
  lemma RectFillOutside(buf: seq<Byte>, imgW: nat, imgH: nat, x: nat, y: nat, w: nat, h: nat,
                        px: Rgba, cx: nat, cy: nat, c: nat)
    requires FrameSized(|buf|, imgW, imgH)
    requires cx < imgW && cy < imgH && c < Channels && !InRect(cx, cy, x, y, w, h)
    ensures 0 <= ByteIndex(cx, cy, imgW, c) < |buf|
    ensures RectFill(buf, imgW, x, y, w, h, px)[ByteIndex(cx, cy, imgW, c)] == buf[ByteIndex(cx, cy, imgW, c)]
  {
    ByteIndexInverse(cx, cy, imgW, imgH, c);
  }

  /** A rectangle with no width or no height leaves the buffer as it was. */
  lemma RectFillEmpty(buf: seq<Byte>, imgW: nat, x: nat, y: nat, w: nat, h: nat, px: Rgba)
    requires w == 0 || h == 0
    ensures RectFill(buf, imgW, x, y, w, h, px) == buf
  {
  }

  /** Drawing the same rectangle twice is the same as drawing it once. */
  lemma RectFillIdempotent(buf: seq<Byte>, imgW: nat, x: nat, y: nat, w: nat, h: nat, px: Rgba)
    ensures RectFill(RectFill(buf, imgW, x, y, w, h, px), imgW, x, y, w, h, px) == RectFill(buf, imgW, x, y, w, h, px)
  {
  }

  /**
   * `draw_rectangle`: fills the `w` by `h` rectangle at (x, y) with the red,
   * green and blue of `color`, skipping pixels past the right or bottom edge.
   */
  method DrawRectangle(pixels: array<Byte>, imgW: nat, imgH: nat, x: nat, y: nat, w: nat, h: nat, color: Word)
    requires FrameSized(pixels.Length, imgW, imgH)
    modifies pixels
    ensures pixels[..] == RectFill(old(pixels[..]), imgW, x, y, w, h, Unpack(color))
  {
    var px := Unpack(color);
    ghost var before := pixels[..];
    for i := 0 to w
      invariant forall k :: 0 <= k < pixels.Length ==>
                  pixels[k] == if imgW > 0 && InRect(PixelX(k, imgW), PixelY(k, imgW), x, y, i, h)
                               then Channel(px, k % Channels) else before[k]
    {
      for j := 0 to h
        invariant forall k :: 0 <= k < pixels.Length ==>
                    pixels[k] == if imgW > 0 && (InRect(PixelX(k, imgW), PixelY(k, imgW), x, y, i, h) ||
                                                 InRect(PixelX(k, imgW), PixelY(k, imgW), x + i, y, 1, j))
                                 then Channel(px, k % Channels) else before[k]
      {
        var cx := x + i;
        var cy := y + j;
        if cx >= imgW || cy >= imgH {
          forall k | 0 <= k < pixels.Length
            ensures PixelX(k, imgW) < imgW && PixelY(k, imgW) < imgH
          {
            ByteOfPixel(k, imgW, imgH);
          }
          continue;
        }
        PutPixel(pixels, imgW, imgH, cx, cy, px);
      }
    }
    assert forall k :: 0 <= k < pixels.Length ==> pixels[..][k] == RectFill(before, imgW, x, y, w, h, px)[k];
  }
}
