/**
 * The wall-texture atlas: N square textures of side S packed side by side in
 * one image S*N pixels wide and S pixels high, one packed colour per pixel,
 * row-major. `load_texture` builds it from the decoded RGBA bytes and
 * `texture_column` resamples one texel column to a wall slice of any height.
 */
module Texture {
  import opened Arith
  import opened Color

  datatype Result<T, E> = Ok(value: T) | Err(error: E)

  /** The two ways `load_texture` rejects a decoded image. */
  datatype LoadError =
    | NotRgba          // the image does not have exactly 4 channels
    | NotSquarePacked  // the width is not a whole number of heights

  /** The three out-parameters of a successful `load_texture`. */
  datatype Atlas = Atlas(texels: seq<Word>, size: nat, count: nat)

  /** The atlas shape that `texture_column` asserts: S*N by S texels. */
  predicate AtlasShape(img: seq<Word>, texsize: nat, ntextures: nat)
  {
    |img| == texsize * ntextures * texsize
  }

  predicate ValidAtlas(atlas: Atlas)
  {
    atlas.size > 0 && atlas.count > 0 && AtlasShape(atlas.texels, atlas.size, atlas.count)
  }

  /** Packed colour of decoded pixel `k`: the four bytes starting at `4 * k`. */
  function PixmapColor(pixmap: seq<Byte>, k: nat): Word
    requires 4 * k + 3 < |pixmap|
  {
    Pack(pixmap[4 * k], pixmap[4 * k + 1], pixmap[4 * k + 2], pixmap[4 * k + 3])
  }

  /**
   * The packed colours of the first `n` decoded pixels, in the decoder's flat
   * pixel order. The loop of `load_texture` fills the buffer in two dimensions
   * (row `j`, then column `i`); this states the same buffer in one dimension,
   * independently of the loop, and `PackTexels` proves that the two agree.
   */
  function PackedPrefix(pixmap: seq<Byte>, n: nat): (texels: seq<Word>)
    requires 4 * n <= |pixmap|
    ensures |texels| == n
    ensures forall k :: 0 <= k < n ==> texels[k] == PixmapColor(pixmap, k)
  {
    if n == 0 then [] else PackedPrefix(pixmap, n - 1) + [PixmapColor(pixmap, n - 1)]
  }

  /** Packed prefixes are the only sequences holding each pixel's packed colour at its index. */
  lemma PackedPrefixUnique(pixmap: seq<Byte>, texels: seq<Word>)
    requires 4 * |texels| <= |pixmap|
    requires forall k :: 0 <= k < |texels| ==> texels[k] == PixmapColor(pixmap, k)
    ensures texels == PackedPrefix(pixmap, |texels|)
  {
    var spec := PackedPrefix(pixmap, |texels|);
    assert forall k :: 0 <= k < |texels| ==> texels[k] == spec[k];
  }

  /**
   * `load_texture` after decoding. `pixmap` holds `w * h * nchannels` bytes,
   * which the decoder guarantees together with `w > 0` and `h > 0`. The
   * divisibility test is made before `text_cnt` is used as a divisor; see
   * `LoadStepsAsWritten` for the order in which the code makes them.
   */
  method LoadTexture(pixmap: seq<Byte>, w: int, h: int, nchannels: int) returns (res: Result<Atlas, LoadError>)
    requires w > 0 && h > 0 && nchannels > 0
    requires |pixmap| == w * h * nchannels
    ensures nchannels != 4 ==> res == Err(NotRgba)
    ensures nchannels == 4 && w % h != 0 ==> res == Err(NotSquarePacked)
    ensures res.Ok? <==> nchannels == 4 && w % h == 0
    ensures res.Err? ==> LoadSteps(w, h, nchannels) == Rejected(res.error)
    ensures res.Ok? ==> LoadSteps(w, h, nchannels) == Accepted(res.value.size, res.value.count)
    ensures res.Ok? ==> ValidAtlas(res.value)
    ensures res.Ok? ==> res.value.count * res.value.size == w && res.value.size == h
    ensures res.Ok? ==> |res.value.texels| == w * h && res.value.texels == PackedPrefix(pixmap, w * h)
    ensures res.Ok? ==> forall i, j :: 0 <= i < w && 0 <= j < h ==>
              4 * RowMajor(i, j, w) + 3 < |pixmap| &&
              res.value.texels[RowMajor(i, j, w)] == PixmapColor(pixmap, RowMajor(i, j, w))
  {
    if nchannels != 4 {
      return Err(NotRgba);
    }
    if w != h * (w / h) {
      assert w % h != 0;
      return Err(NotSquarePacked);
    }
    var textCnt := w / h;
    assert w == textCnt * h;
    assert textCnt > 0;
    var textSize := w / textCnt;
    DivModUnique(w, textCnt, h, 0);
    var texels := PackTexels(pixmap, w, h);
    SquaresArea(w, h, textCnt);
    res := Ok(Atlas(texels, textSize, textCnt));
  }

  /** The first `m` entries of `texture` are the packed colours of the first `m` decoded pixels. */
  predicate Filled(texture: seq<Word>, pixmap: seq<Byte>, m: nat)
  {
    m <= |texture| && 4 * |texture| <= |pixmap| &&
    forall k :: 0 <= k < m ==> texture[k] == PixmapColor(pixmap, k)
  }

  /**
   * The nested `j`/`i` loop of `load_texture`: texel `i + j * w` is the packed
   * colour of the four bytes of pixel `i + j * w`.
   */
  method PackTexels(pixmap: seq<Byte>, w: nat, h: nat) returns (texels: seq<Word>)
    requires |pixmap| == w * h * 4
    ensures |texels| == w * h
    ensures texels == PackedPrefix(pixmap, w * h)
    ensures forall i, j :: 0 <= i < w && 0 <= j < h ==>
              4 * RowMajor(i, j, w) + 3 < |pixmap| &&
              texels[RowMajor(i, j, w)] == PixmapColor(pixmap, RowMajor(i, j, w))
  {
    var n := w * h;
    ScaledArea(w, h, 4);
    var texture := new Word[n];
    for j := 0 to h
      invariant Filled(texture[..], pixmap, j * w)
    {
      RowEnd(j, w, h);
      PackRow(texture, pixmap, RowMajor(0, j, w), w);
      assert j * w + w == (j + 1) * w;
    }
    texels := texture[..];
    FilledTexels(texels, pixmap, w, h);
  }

  /** A buffer of `w * h` texels filled to its end is the reference buffer, read in either order. */
  lemma FilledTexels(texels: seq<Word>, pixmap: seq<Byte>, w: nat, h: nat)
    requires |texels| == w * h && h * w == w * h && Filled(texels, pixmap, h * w)
    ensures texels == PackedPrefix(pixmap, w * h)
    ensures forall i, j :: 0 <= i < w && 0 <= j < h ==>
              0 <= RowMajor(i, j, w) < |texels| &&
              texels[RowMajor(i, j, w)] == PixmapColor(pixmap, RowMajor(i, j, w))
  {
    PackedPrefixUnique(pixmap, texels);
    forall i, j | 0 <= i < w && 0 <= j < h
      ensures 0 <= RowMajor(i, j, w) < |texels|
      ensures texels[RowMajor(i, j, w)] == PixmapColor(pixmap, RowMajor(i, j, w))
    {
      RowMajorBound(i, j, w, h);
    }
  }

  /**
   * One pass of the outer loop of `load_texture`: packs the `w` pixels of the
   * row that starts at pixel `rowStart`, which is `j * w` for row `j`.
   */
  method PackRow(texture: array<Word>, pixmap: seq<Byte>, rowStart: nat, w: nat)
    requires rowStart + w <= texture.Length
    requires Filled(texture[..], pixmap, rowStart)
    modifies texture
    ensures Filled(texture[..], pixmap, rowStart + w)
    ensures forall k :: rowStart + w <= k < texture.Length ==> texture[k] == old(texture[k])
  {
    for i := 0 to w
      invariant 4 * texture.Length <= |pixmap|
      invariant forall k :: 0 <= k < rowStart + i ==> texture[k] == PixmapColor(pixmap, k)
      invariant forall k :: rowStart + i <= k < texture.Length ==> texture[k] == old(texture[k])
    {
      var k := rowStart + i;
      var r := pixmap[k * 4 + 0];
      var g := pixmap[k * 4 + 1];
      var b := pixmap[k * 4 + 2];
      var a := pixmap[k * 4 + 3];
      texture[k] := Pack(r, g, b, a);
    }
  }

  /** How the checks of `load_texture` end for a decoded image, in the order it makes them. */
  datatype LoadOutcome =
    | Rejected(error: LoadError)
    | Accepted(size: nat, count: nat)
    | DivisionByZero  // `w / text_cnt` with `text_cnt == 0`: undefined behaviour

  /**
   * The checks of `load_texture` as written: `text_cnt = w / h` and
   * `text_size = w / text_cnt` are computed before the divisibility test, so a
   * 4-channel image narrower than it is high divides by zero.
   */
  function LoadStepsAsWritten(w: int, h: int, nchannels: int): (o: LoadOutcome)
    requires w > 0 && h > 0
    ensures o == DivisionByZero <==> nchannels == 4 && w < h
  {
    TileOf(w, 0, h);
    if nchannels != 4 then Rejected(NotRgba)
    else
      var textCnt := w / h;
      if textCnt == 0 then DivisionByZero
      else
        var textSize := w / textCnt;
        if w != h * textCnt then Rejected(NotSquarePacked)
        else Accepted(textSize, textCnt)
  }

  /** A 1-by-2 RGBA image makes the code as written divide by zero. */
  lemma NarrowImageDividesByZero()
    ensures LoadStepsAsWritten(1, 2, 4) == DivisionByZero
  {
  }

  /**
   * The intended order of checks: every decoded image is either rejected or
   * accepted, never a division by zero, and the images accepted are exactly
   * those the code as written accepts.
   */
  function LoadSteps(w: int, h: int, nchannels: int): (o: LoadOutcome)
    requires w > 0 && h > 0
    ensures o != DivisionByZero
    ensures o.Accepted? <==> nchannels == 4 && w % h == 0
    ensures o.Accepted? ==> o.size == h && o.count * h == w && o == LoadStepsAsWritten(w, h, nchannels)
    ensures LoadStepsAsWritten(w, h, nchannels) != DivisionByZero ==> o == LoadStepsAsWritten(w, h, nchannels)
  {
    TileOf(w, 0, h);
    if nchannels != 4 then Rejected(NotRgba)
    else if w != h * (w / h) then Rejected(NotSquarePacked)
    else
      var textCnt := w / h;
      assert textCnt > 0;
      DivModUnique(w, textCnt, h, 0);
      Accepted(w / textCnt, textCnt)
  }

  /** Index of texel (u, v) of texture `texid` in the atlas image, which is S*N wide. */
  function TexelIndex(texsize: nat, ntextures: nat, texid: nat, u: nat, v: nat): (k: nat)
    requires u < texsize && v < texsize && texid < ntextures
    ensures k < texsize * ntextures * texsize
  {
    BlockIndexBound(texsize, ntextures, texid, u, v);
    RowMajor(texid * texsize + u, v, texsize * ntextures)
  }

  /** Source row for output row `y` of a column `columnHeight` high (nearest neighbour). */
  function SourceRow(y: nat, texsize: nat, columnHeight: nat): nat
    requires columnHeight > 0
  {
    (y * texsize) / columnHeight
  }

  /** Every output row samples a row of the texture. */
  lemma SourceRowInTexture(y: nat, texsize: nat, columnHeight: nat)
    requires y < columnHeight && texsize > 0
    ensures SourceRow(y, texsize, columnHeight) < texsize
  {
    ScaledBound(y, texsize, columnHeight);
  }

  /** Going down the column never goes up the texture. */
  lemma SourceRowMonotone(y1: nat, y2: nat, texsize: nat, columnHeight: nat)
    requires y1 <= y2 && columnHeight > 0
    ensures SourceRow(y1, texsize, columnHeight) <= SourceRow(y2, texsize, columnHeight)
  {
    MulMonotone(y1, y2, texsize);
    DivMonotone(y1 * texsize, y2 * texsize, columnHeight);
  }

  /** A column exactly as high as the texture copies it row for row. */
  lemma SourceRowIdentity(y: nat, texsize: nat)
    requires y < texsize
    ensures SourceRow(y, texsize, texsize) == y
  {
    DivModUnique(y * texsize, texsize, y, 0);
  }

  /**
   * `texture_column`: column `texcoord` of texture `texid`, stretched or
   * shrunk to `columnHeight` rows. The shape requirements are the assert at
   * the top of the function; under them every index read is in bounds.
   */
  method TextureColumn(img: seq<Word>, texsize: nat, ntextures: nat, texid: nat, texcoord: nat, columnHeight: nat)
    returns (column: seq<Word>)
    requires AtlasShape(img, texsize, ntextures) && texcoord < texsize && texid < ntextures
    ensures |column| == columnHeight
    ensures forall y :: 0 <= y < columnHeight ==>
              SourceRow(y, texsize, columnHeight) < texsize &&
              column[y] == img[TexelIndex(texsize, ntextures, texid, texcoord, SourceRow(y, texsize, columnHeight))]
  {
    var imgW := texsize * ntextures;
    var out := new Word[columnHeight];
    for y := 0 to columnHeight
      invariant forall y' :: 0 <= y' < y ==>
                  SourceRow(y', texsize, columnHeight) < texsize &&
                  out[y'] == img[TexelIndex(texsize, ntextures, texid, texcoord, SourceRow(y', texsize, columnHeight))]
    {
      var pixX := texid * texsize + texcoord;
      var pixY := (y * texsize) / columnHeight;
      SourceRowInTexture(y, texsize, columnHeight);
      out[y] := img[TexelIndex(texsize, ntextures, texid, texcoord, pixY)];
      assert TexelIndex(texsize, ntextures, texid, texcoord, pixY) == pixX + pixY * imgW;
    }
    column := out[..];
  }
}
