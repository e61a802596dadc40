/**
 * The integer compositing steps of one frame: the minimap tiles, the fold of
 * a signed texture coordinate into the texture, and the blit of a resampled
 * wall column into the right half of the frame.
 */
module Render {
  import opened Arith
  import opened Color
  import opened Texture
  import opened Frame

  datatype Option<T> = None | Some(value: T)

  /** The game map: `w * h` characters, row-major; a space is an empty cell. */
  datatype GameMap = GameMap(cells: seq<char>, w: nat, h: nat)

  /** The character of map cell (i, j): `map[i + j * map_w]`. */
  function CellAt(m: GameMap, i: nat, j: nat): char
    requires |m.cells| == m.w * m.h && i < m.w && j < m.h
  {
    RowMajorBound(i, j, m.w, m.h);
    m.cells[RowMajor(i, j, m.w)]
  }

  /** Texture id of a wall character: its distance from the digit `0`. */
  function TexId(ch: char): int
  {
    ch as int - '0' as int
  }

  /**
   * A map the renderer accepts: it has `w * h` cells, and every wall cell
   * names a texture of the atlas (the asserts next to the map and in the
   * minimap loop).
   */
  predicate ValidMap(m: GameMap, texCount: nat)
  {
    m.w > 0 && m.h > 0 && |m.cells| == m.w * m.h &&
    forall k :: 0 <= k < |m.cells| && m.cells[k] != ' ' ==> 0 <= TexId(m.cells[k]) < texCount
  }

  /** A wall cell of a valid map names a texture of the atlas. */
  lemma WallTexId(m: GameMap, texCount: nat, i: nat, j: nat)
    requires ValidMap(m, texCount) && i < m.w && j < m.h && CellAt(m, i, j) != ' '
    ensures 0 <= TexId(CellAt(m, i, j)) < texCount
  {
    RowMajorBound(i, j, m.w, m.h);
    assert m.cells[RowMajor(i, j, m.w)] == CellAt(m, i, j);
  }

  /** Minimap tile width: the minimap takes the left half of the frame. */
  function TileW(winW: nat, m: GameMap): nat
    requires m.w > 0
  {
    DivBounds(winW, m.w * 2);
    winW / (m.w * 2)
  }

  /** Minimap tile height. */
  function TileH(winH: nat, m: GameMap): nat
    requires m.h > 0
  {
    DivBounds(winH, m.h);
    winH / m.h
  }

  /** The top-left texel of texture `texid` of the atlas. */
  function TopLeftTexel(atlas: Atlas, texid: nat): Word
    requires ValidAtlas(atlas) && texid < atlas.count
  {
    atlas.texels[TexelIndex(atlas.size, atlas.count, texid, 0, 0)]
  }

  /** The colour of the top-left texel sits at `texid * size` in the atlas. */
  lemma TopLeftTexelIndex(atlas: Atlas, texid: nat)
    requires ValidAtlas(atlas) && texid < atlas.count
    ensures texid * atlas.size < |atlas.texels|
    ensures TopLeftTexel(atlas, texid) == atlas.texels[texid * atlas.size]
  {
    BlockIndexBound(atlas.size, atlas.count, texid, 0, 0);
  }

  /**
   * What the minimap loop draws for map cell (i, j): nothing for a space,
   * otherwise the top-left texel of the wall's texture.
   */
  function TileColor(m: GameMap, atlas: Atlas, i: nat, j: nat): Option<Word>
    requires ValidMap(m, atlas.count) && ValidAtlas(atlas) && i < m.w && j < m.h
  {
    if CellAt(m, i, j) == ' ' then None
    else
      WallTexId(m, atlas.count, i, j);
      Some(TopLeftTexel(atlas, TexId(CellAt(m, i, j))))
  }

  /**
   * The minimap colour of screen pixel (px, py): the tile it falls in is map
   * cell (px / tileW, py / tileH); a pixel beyond the map gets nothing.
   */
  function MinimapColor(m: GameMap, atlas: Atlas, tileW: nat, tileH: nat, px: nat, py: nat): Option<Word>
    requires ValidMap(m, atlas.count) && ValidAtlas(atlas)
  {
    if tileW == 0 || tileH == 0 then None
    else
      DivBounds(px, tileW);
      DivBounds(py, tileH);
      var i, j := px / tileW, py / tileH;
      if i < m.w && j < m.h then TileColor(m, atlas, i, j) else None
  }

  /** The frame after the minimap loop: each pixel of a wall tile holds its tile's colour. */
  function MinimapFill(buf: seq<Byte>, winW: nat, m: GameMap, atlas: Atlas, tileW: nat, tileH: nat): (r: seq<Byte>)
    requires ValidMap(m, atlas.count) && ValidAtlas(atlas)
  {
    seq(|buf|, k requires 0 <= k < |buf| =>
      if winW == 0 then buf[k]
      else match MinimapColor(m, atlas, tileW, tileH, PixelX(k, winW), PixelY(k, winW))
        case Some(c) => Channel(Unpack(c), k % Channels)
        case None => buf[k])
  }

  /**
   * Minimap tiling: every pixel of the tile of wall cell (i, j), that is of
   * the rectangle at (i * tileW, j * tileH) of size tileW by tileH, gets the
   * top-left texel of the cell's texture.
   */
  lemma MinimapWallTile(m: GameMap, atlas: Atlas, tileW: nat, tileH: nat, i: nat, j: nat, px: nat, py: nat)
    requires ValidMap(m, atlas.count) && ValidAtlas(atlas)
    requires i < m.w && j < m.h && InRect(px, py, i * tileW, j * tileH, tileW, tileH)
    requires CellAt(m, i, j) != ' '
    ensures 0 <= TexId(CellAt(m, i, j)) < atlas.count
    ensures MinimapColor(m, atlas, tileW, tileH, px, py) == Some(TopLeftTexel(atlas, TexId(CellAt(m, i, j))))
  {
    WallTexId(m, atlas.count, i, j);
    MinimapTileStep(m, atlas, tileW, tileH, i, j, px, py);
  }

  /** An empty cell's tile is left as it was. */
  lemma MinimapEmptyTile(m: GameMap, atlas: Atlas, tileW: nat, tileH: nat, i: nat, j: nat, px: nat, py: nat)
    requires ValidMap(m, atlas.count) && ValidAtlas(atlas)
    requires i < m.w && j < m.h && InRect(px, py, i * tileW, j * tileH, tileW, tileH)
    requires CellAt(m, i, j) == ' '
    ensures MinimapColor(m, atlas, tileW, tileH, px, py) == None
  {
    MinimapTileStep(m, atlas, tileW, tileH, i, j, px, py);
  }

  /** Pixels right of or below the map's tiles are not touched. */
  lemma MinimapBeyondMap(m: GameMap, atlas: Atlas, tileW: nat, tileH: nat, px: nat, py: nat)
    requires ValidMap(m, atlas.count) && ValidAtlas(atlas)
    requires px >= m.w * tileW || py >= m.h * tileH
    ensures MinimapColor(m, atlas, tileW, tileH, px, py) == None
  {
    if tileW > 0 && tileH > 0 {
      if px >= m.w * tileW {
        DivMonotone(m.w * tileW, px, tileW);
        DivModUnique(m.w * tileW, tileW, m.w, 0);
      } else {
        DivMonotone(m.h * tileH, py, tileH);
        DivModUnique(m.h * tileH, tileH, m.h, 0);
      }
    }
  }

  /**
   * The minimap loop of one frame (map rows `j`, then columns `i`): every wall
   * cell draws its tile with `draw_rectangle` in the top-left texel colour of
   * its texture; spaces are skipped.
   */
  method DrawMinimap(pixels: array<Byte>, winW: nat, winH: nat, m: GameMap, atlas: Atlas)
    requires FrameSized(pixels.Length, winW, winH)
    requires ValidMap(m, atlas.count) && ValidAtlas(atlas)
    modifies pixels
    ensures pixels[..] == MinimapFill(old(pixels[..]), winW, m, atlas, TileW(winW, m), TileH(winH, m))
  {
    var rectW := TileW(winW, m);
    var rectH := TileH(winH, m);
    ghost var before := pixels[..];
    MinimapStart(before, winW, winH, m, atlas, rectW, rectH);
    for j := 0 to m.h
      invariant MinimapProgress(pixels[..], before, winW, winH, m, atlas, rectW, rectH, j, 0)
    {
      for i := 0 to m.w
        invariant MinimapProgress(pixels[..], before, winW, winH, m, atlas, rectW, rectH, j, i)
      {
        ghost var prev := pixels[..];
        DrawMapCell(pixels, winW, winH, m, atlas, rectW, rectH, i, j);
        MinimapCellStep(prev, pixels[..], before, winW, winH, m, atlas, rectW, rectH, j, i);
      }
      MinimapRowStep(pixels[..], before, winW, winH, m, atlas, rectW, rectH, j);
    }
    MinimapDone(pixels[..], before, winW, winH, m, atlas, rectW, rectH);
  }

  /**
   * One pass of the minimap loop body for map cell (i, j): a space is
   * skipped; a wall draws the cell's tile, a `tileW` by `tileH` rectangle at
   * (i * tileW, j * tileH), in the top-left texel colour of its texture.
   */
  method DrawMapCell(pixels: array<Byte>, winW: nat, winH: nat, m: GameMap, atlas: Atlas,
                     tileW: nat, tileH: nat, i: nat, j: nat)
    requires FrameSized(pixels.Length, winW, winH)
    requires ValidMap(m, atlas.count) && ValidAtlas(atlas) && i < m.w && j < m.h
    modifies pixels
    ensures TileColor(m, atlas, i, j).None? ==> pixels[..] == old(pixels[..])
    ensures TileColor(m, atlas, i, j).Some? ==>
              pixels[..] == RectFill(old(pixels[..]), winW, i * tileW, j * tileH, tileW, tileH,
                                     Unpack(TileColor(m, atlas, i, j).value))
  {
    if CellAt(m, i, j) == ' ' {
      return;
    }
    var rectX := i * tileW;
    var rectY := j * tileH;
    var texid := TexId(CellAt(m, i, j));
    WallTexId(m, atlas.count, i, j);
    TopLeftTexelIndex(atlas, texid);
    DrawRectangle(pixels, winW, winH, rectX, rectY, tileW, tileH, atlas.texels[texid * atlas.size]);
  }

  /**
   * Byte `k` lies in the tile of a map cell that the loop has already visited
   * when it is at column `i` of row `j`.
   */
  predicate Drawn(k: nat, winW: nat, tileW: nat, tileH: nat, mapW: nat, j: nat, i: nat)
  {
    winW > 0 && tileW > 0 && tileH > 0 &&
    var ci, cj := PixelX(k, winW) / tileW, PixelY(k, winW) / tileH;
    ci < mapW && (cj < j || (cj == j && ci < i))
  }

  /** The loop invariant of the minimap loop: visited tiles are drawn, the rest untouched. */
  ghost predicate MinimapProgress(cur: seq<Byte>, before: seq<Byte>, winW: nat, winH: nat, m: GameMap, atlas: Atlas,
                                  tileW: nat, tileH: nat, j: nat, i: nat)
    requires ValidMap(m, atlas.count) && ValidAtlas(atlas)
  {
    FrameSized(|before|, winW, winH) && |cur| == |before| &&
    forall k :: 0 <= k < |cur| ==>
      cur[k] == if Drawn(k, winW, tileW, tileH, m.w, j, i)
                then MinimapFill(before, winW, m, atlas, tileW, tileH)[k] else before[k]
  }

  lemma MinimapStart(before: seq<Byte>, winW: nat, winH: nat, m: GameMap, atlas: Atlas, tileW: nat, tileH: nat)
    requires ValidMap(m, atlas.count) && ValidAtlas(atlas) && FrameSized(|before|, winW, winH)
    ensures MinimapProgress(before, before, winW, winH, m, atlas, tileW, tileH, 0, 0)
  {
    forall k | 0 <= k < |before| && winW > 0 && tileW > 0 && tileH > 0
      ensures !Drawn(k, winW, tileW, tileH, m.w, 0, 0)
    {
      DivBounds(PixelX(k, winW), tileW);
      DivBounds(PixelY(k, winW), tileH);
    }
  }

  lemma MinimapCellStep(prev: seq<Byte>, cur: seq<Byte>, before: seq<Byte>, winW: nat, winH: nat, m: GameMap,
                        atlas: Atlas, tileW: nat, tileH: nat, j: nat, i: nat)
    requires ValidMap(m, atlas.count) && ValidAtlas(atlas) && i < m.w && j < m.h
    requires MinimapProgress(prev, before, winW, winH, m, atlas, tileW, tileH, j, i)
    requires TileColor(m, atlas, i, j).None? ==> cur == prev
    requires TileColor(m, atlas, i, j).Some? ==>
               cur == RectFill(prev, winW, i * tileW, j * tileH, tileW, tileH, Unpack(TileColor(m, atlas, i, j).value))
    ensures MinimapProgress(cur, before, winW, winH, m, atlas, tileW, tileH, j, i + 1)
  {
    forall k | 0 <= k < |cur|
      ensures cur[k] == if Drawn(k, winW, tileW, tileH, m.w, j, i + 1)
                        then MinimapFill(before, winW, m, atlas, tileW, tileH)[k] else before[k]
    {
      ByteOfPixel(k, winW, winH);
      MinimapTileStep(m, atlas, tileW, tileH, i, j, PixelX(k, winW), PixelY(k, winW));
    }
  }

  lemma MinimapRowStep(cur: seq<Byte>, before: seq<Byte>, winW: nat, winH: nat, m: GameMap, atlas: Atlas,
                       tileW: nat, tileH: nat, j: nat)
    requires ValidMap(m, atlas.count) && ValidAtlas(atlas)
    requires MinimapProgress(cur, before, winW, winH, m, atlas, tileW, tileH, j, m.w)
    ensures MinimapProgress(cur, before, winW, winH, m, atlas, tileW, tileH, j + 1, 0)
  {
    forall k | 0 <= k < |cur|
      ensures Drawn(k, winW, tileW, tileH, m.w, j, m.w) == Drawn(k, winW, tileW, tileH, m.w, j + 1, 0)
    {
      if winW > 0 && tileW > 0 && tileH > 0 {
        DivBounds(PixelX(k, winW), tileW);
        DivBounds(PixelY(k, winW), tileH);
      }
    }
  }

  lemma MinimapDone(cur: seq<Byte>, before: seq<Byte>, winW: nat, winH: nat, m: GameMap, atlas: Atlas,
                    tileW: nat, tileH: nat)
    requires ValidMap(m, atlas.count) && ValidAtlas(atlas)
    requires MinimapProgress(cur, before, winW, winH, m, atlas, tileW, tileH, m.h, 0)
    ensures cur == MinimapFill(before, winW, m, atlas, tileW, tileH)
  {
    forall k | 0 <= k < |cur|
      ensures cur[k] == MinimapFill(before, winW, m, atlas, tileW, tileH)[k]
    {
      ByteOfPixel(k, winW, winH);
    }
  }

  /** How visiting cell (i, j) changes one pixel: it is in that cell's tile or in none the visit affects. */
  lemma MinimapTileStep(m: GameMap, atlas: Atlas, tileW: nat, tileH: nat, i: nat, j: nat, px: nat, py: nat)
    requires ValidMap(m, atlas.count) && ValidAtlas(atlas) && i < m.w && j < m.h
    ensures tileW > 0 && tileH > 0 ==>
              (InRect(px, py, i * tileW, j * tileH, tileW, tileH) <==> px / tileW == i && py / tileH == j)
    ensures InRect(px, py, i * tileW, j * tileH, tileW, tileH) ==>
              MinimapColor(m, atlas, tileW, tileH, px, py) == TileColor(m, atlas, i, j)
  {
    if tileW > 0 && tileH > 0 {
      TileOf(px, i, tileW);
      TileOf(py, j, tileH);
    }
  }

  /**
   * The fold of the texture coordinate: a negative coordinate gets the
   * texture size added. The result lies in the texture exactly when the
   * coordinate was within one texture size of zero, and then it is the
   * coordinate modulo the size.
   */
  function FoldTexcoord(x: int, size: nat): (u: int)
    ensures (0 <= u < size) <==> (-(size as int) <= x < size)
    ensures -(size as int) <= x < size ==> u == x % size
  {
    if x < 0 then x + size else x
  }

  /** Screen row of the top of a wall column: the column is centred on the middle row. */
  function ColumnTop(winH: nat, columnHeight: nat): int
  {
    winH / 2 - columnHeight / 2
  }

  /** A column no taller than the frame fits on screen entirely, so no row is clipped. */
  lemma ColumnCentred(winH: nat, columnHeight: nat)
    requires columnHeight <= winH
    ensures 0 <= ColumnTop(winH, columnHeight)
    ensures ColumnTop(winH, columnHeight) + columnHeight <= winH
  {
  }

  /**
   * The frame after one wall column is blitted: in screen column `pixX`, the
   * pixel at row `top + j` gets entry `j` of the column; rows the column does
   * not reach, and every other screen column, keep their bytes.
   */
  function BlitFill(buf: seq<Byte>, winW: nat, pixX: nat, top: int, column: seq<Word>): (r: seq<Byte>)
  {
    seq(|buf|, k requires 0 <= k < |buf| =>
      if winW > 0 && PixelX(k, winW) == pixX && 0 <= PixelY(k, winW) - top < |column|
      then Channel(Unpack(column[PixelY(k, winW) - top]), k % Channels) else buf[k])
  }

  /** Row `j` of the column lands at screen row `top + j` when that row is on screen. */
  lemma BlitRow(buf: seq<Byte>, winW: nat, winH: nat, pixX: nat, top: int, column: seq<Word>, j: nat, c: nat)
    requires FrameSized(|buf|, winW, winH) && pixX < winW && c < Channels
    requires j < |column| && 0 <= top + j < winH
    ensures 0 <= ByteIndex(pixX, top + j, winW, c) < |buf|
    ensures BlitFill(buf, winW, pixX, top, column)[ByteIndex(pixX, top + j, winW, c)] == Channel(Unpack(column[j]), c)
  {
    ByteIndexInverse(pixX, top + j, winW, winH, c);
  }

  /** Only the one screen column changes. */
  lemma BlitOtherColumns(buf: seq<Byte>, winW: nat, winH: nat, pixX: nat, top: int, column: seq<Word>,
                         cx: nat, cy: nat, c: nat)
    requires FrameSized(|buf|, winW, winH) && cx < winW && cy < winH && c < Channels
    requires cx != pixX || cy < top || cy >= top + |column|
    ensures 0 <= ByteIndex(cx, cy, winW, c) < |buf|
    ensures BlitFill(buf, winW, pixX, top, column)[ByteIndex(cx, cy, winW, c)] == buf[ByteIndex(cx, cy, winW, c)]
  {
    ByteIndexInverse(cx, cy, winW, winH, c);
  }

  /**
   * The column blit of one screen column `i` of the 3D view: row `j` of the
   * column goes to screen row `j + win_h / 2 - column_height / 2` of screen
   * column `win_w / 2 + i`; rows above or below the frame are skipped.
   */
  method BlitColumn(pixels: array<Byte>, winW: nat, winH: nat, i: nat, column: seq<Word>, columnHeight: nat)
    requires FrameSized(pixels.Length, winW, winH)
    requires winW / 2 + i < winW
    requires |column| == columnHeight
    modifies pixels
    ensures pixels[..] == BlitFill(old(pixels[..]), winW, winW / 2 + i, ColumnTop(winH, columnHeight), column)
  {
    var pixX := winW / 2 + i;
    ghost var top := ColumnTop(winH, columnHeight);
    ghost var before := pixels[..];
    for j := 0 to columnHeight
      invariant forall k :: 0 <= k < pixels.Length ==>
                  pixels[k] == if PixelX(k, winW) == pixX && 0 <= PixelY(k, winW) - top < j
                               then Channel(Unpack(column[PixelY(k, winW) - top]), k % Channels) else before[k]
    {
      var pixY := j + winH / 2 - columnHeight / 2;
      if pixY < 0 || pixY >= winH {
        forall k | 0 <= k < pixels.Length
          ensures PixelY(k, winW) < winH
        {
          ByteOfPixel(k, winW, winH);
        }
        continue;
      }
      PutPixel(pixels, winW, winH, pixX, pixY, Unpack(column[j]));
    }
    assert forall k :: 0 <= k < pixels.Length ==>
      pixels[..][k] == BlitFill(before, winW, pixX, top, column)[k];
  }
}
