# TinyRayCaster pixel and texture core in Dafny

TinyRayCaster renders a 2D tile map as a minimap plus a textured
pseudo-3D view. It writes the result into a flat RGB byte buffer. This
project models the integer part of that renderer and proves properties of it:

- **Colours** (`color.dfy`, module `Color`): `pack_color` and
  `unpack_color` between four bytes and a 32-bit word. Red is in the low byte
  and alpha in the high byte; alpha defaults to 255.
- **Texture atlas** (`texture.dfy`, module `Texture`): `load_texture` after
  the image is decoded. It does the channel check, splits the image into
  N square textures and packs the RGBA bytes into words. `texture_column`
  resamples one texel column to a wall slice of any height by nearest
  neighbour.
- **Frame buffer** (`frame.dfy`, module `Frame`): pixel (x, y) owns bytes
  `(x + y * img_w) * 3 + 0..2`. `draw_rectangle` fills a rectangle and clips
  it at the right and bottom edges.
- **Frame compositing** (`render.dfy`, module `Render`): the loop that draws
  a tile for each wall cell in the colour of the top-left texel of its
  texture, the fold of a negative texture coordinate, and the blit of one
  resampled column into the 3D half of the frame.
- **Arithmetic** (`arith.dfy`, module `Arith`): division and remainder facts
  that the index formulas use.

Shifts are modelled as multiplication or division by powers of two, and
`& 255` as `% 256`. Every operand of `/` and `%` in the modelled code is
non-negative, so Dafny's Euclidean `/` and `%` agree with the C++ ones there.
The two signed quantities, the raw texture coordinate and the screen row of
the wall column, are `int` in the model. Negative values are handled
explicitly by `FoldTexcoord` and by the clipping in `BlitColumn`. Byte buffers are
`array<Byte>`. Each method that draws into them is specified by a function
over the sequence of bytes, and lemmas state what that function does to
each pixel.

## Model

| member | source | states |
|---|---|---|
| Color.Pack | TinyRayCaster/TinyRayCaster.cpp:20-22 | The packed word is the positional sum a·2^24 + b·2^16 + g·2^8 + r. The uint32 conversion never truncates. The low byte is red. |
| Color.Unpack | TinyRayCaster/TinyRayCaster.cpp:24-29 | Packing the four unpacked channels gives back the original word, so unpack is a right inverse of pack. |
| Color.UnpackPack | TinyRayCaster/TinyRayCaster.cpp:20-29 | Unpacking a packed colour returns exactly the four bytes that went in. |
| Color.DefaultAlphaOpaque | TinyRayCaster/TinyRayCaster.cpp:20-22 | With alpha left out, the colour is opaque: alpha unpacks to 255 and the word is at least 0xFF000000. |
| Color.PackInjective | TinyRayCaster/TinyRayCaster.cpp:20-29 | Different channel tuples pack to different words. |
| Texture.LoadTexture | TinyRayCaster/TinyRayCaster.cpp:39-62 | A non-4-channel image is rejected as NotRgba. A width that is not a multiple of the height is rejected as NotSquarePacked. Otherwise it succeeds with size == h, count·size == w and the w·h texels of the reference buffer. Texel i + j·w is the packed colour of the four bytes of pixel i + j·w. |
| Texture.PackedPrefix | TinyRayCaster/TinyRayCaster.cpp:53-62 | Reference definition of the texel buffer: the first n texels, where texel k is the packed colour of the four bytes of pixel k. |
| Texture.PackedPrefixUnique | TinyRayCaster/TinyRayCaster.cpp:53-62 | Any sequence holding each pixel's packed colour at its own index is exactly that reference buffer. |
| Texture.PackRow | TinyRayCaster/TinyRayCaster.cpp:55-61 | One pass of the outer loop: after the inner loop over the w pixels of a row, every texel up to the end of that row holds its pixel's packed colour, and every texel past the row keeps its value. |
| Texture.FilledTexels | TinyRayCaster/TinyRayCaster.cpp:53-62 | A buffer of w·h texels, each holding its pixel's packed colour, is the reference buffer. Read at i + j·w, it gives pixel (i, j)'s packed colour. |
| Texture.PackTexels | TinyRayCaster/TinyRayCaster.cpp:53-62 | The nested j/i loop yields exactly the reference buffer of w·h texels, each the packed colour of its own pixel's four bytes. |
| Texture.LoadStepsAsWritten | TinyRayCaster/TinyRayCaster.cpp:39-51 | In the order the code runs, the checks divide by zero exactly when the image has 4 channels and is narrower than it is high. |
| Texture.NarrowImageDividesByZero | TinyRayCaster/TinyRayCaster.cpp:45-47 | A 1-by-2 RGBA image reaches `w / text_cnt` with `text_cnt == 0`. |
| Texture.LoadSteps | TinyRayCaster/TinyRayCaster.cpp:39-51 | With the divisibility test first, the checks never divide by zero. They accept exactly the 4-channel images whose width is a multiple of the height, with size h and count w/h. On every image where the code as written does not divide by zero, the outcome is the same as the code's: only the division by zero changes. |
| Texture.TexelIndex | TinyRayCaster/TinyRayCaster.cpp:68-75 | The atlas index of texel (u, v) of texture texid lies inside the S·N-by-S atlas. |
| Texture.SourceRowInTexture | TinyRayCaster/TinyRayCaster.cpp:72-75 | Each output row y < column_height samples a texture row below texsize. |
| Texture.SourceRowMonotone | TinyRayCaster/TinyRayCaster.cpp:72-75 | Going down the column never goes back up the texture. |
| Texture.SourceRowIdentity | TinyRayCaster/TinyRayCaster.cpp:74 | A column exactly texsize high copies the texture column row for row. |
| Texture.TextureColumn | TinyRayCaster/TinyRayCaster.cpp:67-78 | The column has column_height entries. Entry y is the atlas texel at column texid·S + texcoord and row (y·S)/column_height, and that row is inside the texture. |
| Frame.ByteIndexInverse | TinyRayCaster/TinyRayCaster.cpp:89-91 | The byte index (cx + cy·img_w)·3 + c of an in-image pixel is inside the buffer and decodes back to column cx, row cy and channel c. |
| Frame.ByteOfPixel | TinyRayCaster/TinyRayCaster.cpp:89-91 | Every buffer byte is the index-formula byte of an in-image pixel and its channel. |
| Frame.PutPixel | TinyRayCaster/TinyRayCaster.cpp:89-91 | The three channel writes set exactly the bytes of pixel (cx, cy) to red, green and blue. Nothing else changes. |
| Frame.RectFillInside | TinyRayCaster/TinyRayCaster.cpp:84-91 | Every channel byte of an in-image pixel inside the rectangle holds that channel of the colour. |
| Frame.RectFillOutside | TinyRayCaster/TinyRayCaster.cpp:84-93 | Every byte of a pixel outside the rectangle keeps its value. A rectangle past the right edge does not wrap into the next row. |
| Frame.RectFillEmpty | TinyRayCaster/TinyRayCaster.cpp:84-85 | A rectangle with zero width or height changes nothing. |
| Frame.RectFillIdempotent | TinyRayCaster/TinyRayCaster.cpp:80-94 | Drawing the same rectangle twice gives the same buffer as drawing it once. |
| Frame.DrawRectangle | TinyRayCaster/TinyRayCaster.cpp:80-94 | The new buffer is the old one with the clipped rectangle filled by the unpacked colour's red, green and blue. |
| Render.WallTexId | TinyRayCaster/TinyRayCaster.cpp:162-163 | On a valid map, every wall cell's character names a texture of the atlas. |
| Render.TopLeftTexelIndex | TinyRayCaster/TinyRayCaster.cpp:164 | `walltext[texid * walltext_size]` is in bounds and is texel (0, 0) of texture texid. |
| Render.MinimapWallTile | TinyRayCaster/TinyRayCaster.cpp:157-165 | Every pixel of the tile of wall cell (i, j) gets the top-left texel of that cell's texture. |
| Render.MinimapEmptyTile | TinyRayCaster/TinyRayCaster.cpp:159 | The tile of a space cell is not drawn. |
| Render.MinimapBeyondMap | TinyRayCaster/TinyRayCaster.cpp:146-165 | Pixels right of or below the map's tiles are not drawn. |
| Render.MinimapTileStep | TinyRayCaster/TinyRayCaster.cpp:160-164 | A pixel is in the tile of cell (i, j) exactly when px / rect_w == i and py / rect_h == j. Every pixel of that tile takes the cell's colour. |
| Render.DrawMapCell | TinyRayCaster/TinyRayCaster.cpp:159-164 | A space cell leaves the buffer unchanged. A wall cell fills its tile with the unpacked top-left texel of its texture. |
| Render.DrawMinimap | TinyRayCaster/TinyRayCaster.cpp:157-165 | After the loop, every byte of a wall tile holds its tile's colour channel and every other byte is unchanged. |
| Render.FoldTexcoord | TinyRayCaster/TinyRayCaster.cpp:190-191 | The folded coordinate lies in [0, size) exactly when the raw coordinate lies in [-size, size), and there it equals the raw coordinate modulo size. |
| Render.ColumnCentred | TinyRayCaster/TinyRayCaster.cpp:194-197 | A column no taller than the frame starts at a row ≥ 0 and ends at a row ≤ win_h, so no row is clipped. |
| Render.BlitRow | TinyRayCaster/TinyRayCaster.cpp:194-203 | Row j of the column lands at screen row top + j of screen column win_w/2 + i when that row is on screen. |
| Render.BlitOtherColumns | TinyRayCaster/TinyRayCaster.cpp:194-203 | Pixels in other screen columns, or above or below the column, keep their bytes. |
| Render.BlitColumn | TinyRayCaster/TinyRayCaster.cpp:194-203 | The new buffer is the old one with column entry j written at row j + win_h/2 − column_height/2 of screen column win_w/2 + i. Rows outside the frame are skipped. |

## Left out

- Decoding and writing images (`stbi_load`, `stbi_image_free`, `stbi_write_jpg`) and the error messages on `std::cerr` are I/O. `LoadTexture` takes the decoded bytes, width, height and channel count as parameters, with `w > 0`, `h > 0` and a buffer of `w * h * nchannels` bytes, which the decoder guarantees. A failed decode is not modelled.
- The floating-point ray march (lines 168-189) is left out: the view angle, the march in steps of 0.01, the hit test and `column_height = win_h / (t * cos(...))`. `column_height`, `texid` and the raw texture coordinate are inputs to `TextureColumn`, `FoldTexcoord` and `BlitColumn`.
- The visibility-cone writes (lines 174-178) use float coordinates and are not modelled.
- `to_cstr`, the frame file names, `printf`, the 360-frame loop, and `new`/`delete` of the buffer are not modelled.
- Clearing the buffer to white with `std::fill_n` (lines 110 and 155) is not modelled. The minimap and blit methods take the buffer as it is.
- The commented-out texture preview (lines 209-218) is not modelled.
- The map itself is a parameter. The `sizeof(map)` assert (line 131) and the `texid < walltext_cnt` asserts (lines 163 and 182) become the `ValidMap` precondition.
- The assert at the top of `texture_column` (line 70) becomes the `requires` of `TextureColumn`. The atlas shape, `texcoord < texsize` and `texid < ntextures`, are what its caller at line 193 guarantees after `load_texture` succeeded and the coordinate was folded.
- Color.Pack: the sum is computed in unbounded integers. In the code, `a << 24` is an `int` shift, and for alpha ≥ 128 its value does not fit in `int`. Under C++11 that is undefined behaviour. From C++14 (core issue 1457) the value is representable in `unsigned int`, so the shift yields an implementation-defined negative `int`, and the conversion of the sum to `uint32_t` gives back exactly the positional sum the model states. The C++11 reading is not modelled.
- Frame.DrawRectangle: does not model `size_t` wrap-around of `x + i` and `y + j` for rectangles near 2^64. Coordinates are unbounded naturals.
- Render.BlitColumn: screen rows are mathematical integers. The code computes `pix_y` in `size_t` and narrows it to `int`. The two agree while `column_height` and `win_h` stay below 2^31.
- Texture.LoadTexture: does not model `int` overflow of `w * h`. On rejection it returns no atlas, while the code has already assigned `text_cnt` and `text_size` before the check at line 47.

## Findings

| source | as written | input that shows it | evidently intended | confidence | as-written member | corrected member |
|---|---|---|---|---|---|---|
| TinyRayCaster/TinyRayCaster.cpp:45-47 | `text_cnt = w / h` and `text_size = w / text_cnt` are computed before the test `w != h * text_cnt`. An RGBA image narrower than it is high makes `text_cnt` zero, and the next line divides by it. | w = 1, h = 2, nchannels = 4 | Reject the image as not N square textures packed horizontally, before dividing. | not executed | Texture.LoadStepsAsWritten (with Texture.NarrowImageDividesByZero) | Texture.LoadSteps (used by Texture.LoadTexture) |
