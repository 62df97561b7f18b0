# Raycaster buffers and map loading, modelled in Dafny

This project models the integer data handling of a small grid raycaster
(a C/OpenGL program that draws a first-person view and a top-down view of a
tile map). The floating-point ray marching around it is not modelled. Three
parts of the program are covered:

- **The pixel canvas** (`src/texture_buffer.h`), class
  `TextureBuffer.TextureBuffer`. It is a width-by-height buffer of RGB byte
  pixels, stored row-major, so that pixel (x, y) sits at `x + y * width`. It
  also carries a dirty flag, `updatedThisFrame`, and the GL texture
  bookkeeping. `Init` and `Reset` allocate the buffer and paint it magenta,
  `Clear` paints every pixel one colour, and `SetPixel` is a bounds-checked
  write that silently drops coordinates off the canvas. Each method is
  specified against a function on the buffer's contents: `Cleared`, or
  `Plot` for a single write.
- **The map loader** (`src/game_map.h`), class `TileMap.GameMap`. The map
  file is a dimension `dim` followed by `dim * dim` cell values. It is
  modelled as its token sequence:
  - `Some(v)` is a token that reads as the integer `v`;
  - `None` is a token that does not read as an integer;
  - the end of the sequence is the end of the file;
  - a file that cannot be opened is `None` in place of the sequence.

  `Load` is the specification. It gives the dimension and the cells, or the
  point where reading stopped. The method `Init` fills the tile array with
  the same nested row/column loops and running counter as the source. It
  returns 0 on success and -1 on any failure. It sets `initialized` only on
  success, and a failed load leaves whatever it had already read in place.
- **The window-sized texture** (`src/main.c`), class `Screen.Globals`. This
  class holds the program's globals: `SCR_WIDTH`, `SCR_HEIGHT`, `TEX_DATA`
  and the 64-by-64 `checkImage`.
  - `Align` is the alignment rule `update_tex_data` applies to each
    dimension. A requested size that differs from the current one and is
    not a multiple of 4 is rounded up when growing and down when shrinking.
  - C's truncating `%` is written out as `CRem`. With it, the rule
    misbehaves on negative sizes (`AlignNegative`). Window sizes are never
    negative, so this is recorded as behaviour, not as a defect.
  - `UpdateTexData` sets the aligned size and replaces the texture with a
    magenta one of that size.
  - `MakeCheckImage` fills the check image: red and blue are full
    everywhere, and green is full on the diagonal only.

Module `RowMajor` holds the index arithmetic that all three parts share:
every in-grid coordinate maps into the buffer, distinct coordinates map to
distinct indices, and an index splits back into its row and column.

The files follow the code where the general description of the program
differs from it. The loader does not reject a dimension that is zero or
negative: its loops then read no cells, and the load succeeds
(`LoadNonPositiveDim`). Tokens after the `dim * dim` cells are never read,
so a longer file is not an error (`LoadIgnoresTrailing`).

## Model

| member | source | states |
|---|---|---|
| `RowMajor.IndexInBounds` | src/texture_buffer.h:114-117 | an in-bounds (x, y) gives an index `x + y * width` in `[0, width * height)` |
| `RowMajor.IndexInjective` | src/texture_buffer.h:117 | two in-grid coordinates share an index exactly when they are the same coordinate, so a write at (x, y) touches no other pixel |
| `RowMajor.DivModSplit` | src/game_map.h:33-39 | the running counter `i = row * dim + col` splits back into the row and column being read |
| `TextureBuffer.PlotReadBack` | src/texture_buffer.h:108-119 | after a bounds-checked write, the written coordinate reads `p` and every other coordinate reads its old value; an off-canvas write changes no pixel |
| `TextureBuffer.ClearIdempotent` | src/texture_buffer.h:66-72 | clearing yields a buffer of the same length, all of one colour; clearing again with that colour changes nothing |
| `TextureBuffer.TextureBuffer.Init` | src/texture_buffer.h:40-64 | the dimensions are those given, the buffer holds `width * height` pixels and all are magenta, and the GL id, unit, init flag and dirty flag are 0/false |
| `TextureBuffer.TextureBuffer.Clear` | src/texture_buffer.h:66-72 | every one of the `width * height` pixels becomes `col`; only the pixel array is modified, so the dimensions and the dirty flag are untouched |
| `TextureBuffer.TextureBuffer.Reset` | src/texture_buffer.h:75-90 | the new dimensions are set, the reallocated buffer has `width * height` pixels and all are magenta, and the GL fields and dirty flag keep their values |
| `TextureBuffer.TextureBuffer.SetPixel` | src/texture_buffer.h:108-119 | off the canvas nothing changes; on it, only `data[x + y * width]` changes, it becomes `p`, and the dirty flag is set |
| `TileMap.FirstBad` | src/game_map.h:33-42 | the position of the first cell token that cannot be read: every earlier one reads as an integer, and that one is missing or malformed |
| `TileMap.LoadRowMajor` | src/game_map.h:31-42 | a successful load keeps the first token as `dim` and stores the token for (col, row) at `col + row * dim` |
| `TileMap.LoadIgnoresTrailing` | src/game_map.h:33-42 | once the dimension and its `dim * dim` cells are present, appending any tokens leaves the outcome unchanged |
| `TileMap.LoadShortFails` | src/game_map.h:35-39 | a file with fewer than `dim * dim` cell tokens fails, at a (row, col) that lies on the grid |
| `TileMap.LoadNonPositiveDim` | src/game_map.h:20-42 | a dimension of zero or less is accepted and reads no cells |
| `TileMap.LoadAllPresent` | src/game_map.h:20-42 | when the dimension and all `dim * dim` cell tokens read as integers, the map holds exactly those cells |
| `TileMap.LoadExample` | src/game_map.h:13-55 | a 5-by-5 example file loads as its 25 cells: (0, 0) is a wall, while (1, 0) and (4, 4) are open |
| `TileMap.GameMap.Init` | src/game_map.h:13-55 | returns 0 exactly when `Load` succeeds. On success, `dim` and the tile array match `Load` and `initialized` is set. On failure it returns -1 and `initialized` is untouched. A missing first token leaves `dim` as it was. A missing cell leaves `dim` read and the cells before it stored |
| `Screen.CRem` | src/main.c:76 | C's `%` by 4: a remainder within (-4, 4) that takes the dividend's sign and is 0 exactly for multiples of 4 |
| `Screen.Align` | src/main.c:76-90 | the size is kept exactly when it equals the current size or is a multiple of 4; any changed size is a multiple of 4 |
| `Screen.AlignRoundsUp` | src/main.c:77-78 | a non-negative unaligned size larger than the current one becomes the next multiple of 4 above it |
| `Screen.AlignRoundsDown` | src/main.c:79-80 | a non-negative unaligned size smaller than the current one becomes the previous multiple of 4 below it, never negative |
| `Screen.AlignNonNegative` | src/main.c:76-90 | a non-negative request stays non-negative |
| `Screen.AlignStable` | src/main.c:76-90 | requesting the size just set again changes nothing |
| `Screen.AlignNegative` | src/main.c:76-81 | for an unaligned negative request, growing overshoots to between 4 and 8 above it, and shrinking moves it up toward zero |
| `Screen.Globals.constructor` | src/main.c:32-46 | static storage: both sizes 0, no texture data, and a zeroed 64 by 64 by 3 check image |
| `Screen.Globals.UpdateTexData` | src/main.c:71-116 | `SCR_WIDTH` and `SCR_HEIGHT` become the aligned request, `TEX_DATA` is a fresh buffer of `SCR_WIDTH * SCR_HEIGHT` pixels, all magenta, and the check image is untouched |
| `Screen.Globals.MakeCheckImage` | src/main.c:48-62 | for all i, j below 64, channels 0 and 2 are 255, and channel 1 is 255 when i == j and 0 otherwise |

## Left out

- `src/vec2.h`, the ray march, player movement and collision stop in `src/app.cpp`, and `pixel_mulf` (src/texture_buffer.h:16-22): all are floating-point arithmetic.
- `textureBuffer_loadTexData` and the `glActiveTexture`/`glTexImage2D` tail of `textureBuffer_reset`: these are GPU uploads.
- `main`, `framebuffer_size_callback` (it calls `glViewport` and then `update_tex_data`), `processInput`, `glfw_error_callback` and `readShaderSource` in src/main.c: these are windowing, shader and file I/O glue.
- The `printf` output of `gameMap_init` and `update_tex_data` is not modelled, and neither is the map's echo to the console.
- Lexing by `fscanf("%d")` is abstracted: the file is already a token sequence. Integer values outside C's `int` range are not modelled.
- Allocation failure (`malloc`/`realloc` returning NULL, then `exit`, `assert` or -1) is not modelled: allocation always succeeds.
- The unclosed file and the leaked cell array on the loader's failure paths are not modelled.
- `realloc` is modelled as a fresh array. The model does not capture a reallocation that keeps the same storage.
- The 32-bit `int` arithmetic is not modelled: `width * height`, `dim * dim` and `width + 4 - width % 4` are unbounded integers, so the model has no overflow or wrap-around. `gl_tex_id` and `gl_tex_unit` (`unsigned int`) are `nat`.
- `TextureBuffer.TextureBuffer.Init`: requires non-negative dimensions. With a negative dimension the source would either fail to allocate or leave the buffer unpainted, and Dafny arrays cannot have a negative length.
- `TextureBuffer.TextureBuffer.Reset`: requires non-negative dimensions, for the same reason as `Init`.
- `TextureBuffer.TextureBuffer.Clear`: requires the buffer to hold `width * height` pixels. Every caller in the source keeps to this, and the source would write out of bounds otherwise.
- `TextureBuffer.TextureBuffer.SetPixel`: requires the same buffer size as `Clear`.
- `Screen.Globals.UpdateTexData`: requires non-negative requested sizes, as window sizes always are. The alignment rule itself, `Screen.Align`, is modelled for every integer.
- `Screen.Globals.UpdateTexData`: computes the aligned sizes through `Screen.Align` rather than repeating its branches inline.
