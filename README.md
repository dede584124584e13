# isovoxel: the discrete core of an isometric voxel renderer, in Dafny

isovoxel renders a landscape from a heightmap. For every screen pixel it
projects onto a ground tile, samples a blocky height there and draws a vertical
bar of that height into an `Image` buffer. `main` (isovoxel.cpp:139-152) then
writes the buffer as a PNG. The program never calls `applyTonemap`, so the
saved bytes are the rendered colours as they are. The floating-point geometry
lies outside this model. What it covers is the discrete part around them:

- `Images` (image.h, image.cpp). The `Image` class holds a `width x height`
  array of colours, zero-filled at construction. `setPixel` stores row
  `height-1-y`, so logical (0, 0) is the bottom-left corner. `getPixel` reads
  row `y` without that flip. `setLine` fills an inclusive vertical span clamped
  at the top row. `saveToFile` packs the buffer into interleaved RGB bytes,
  clamping each channel at 255. The class has `const` fields `width`, `height`
  and `pixels`: in the source these are private and set only by the
  constructor. Methods that change pixels `modifies pixels`. The ghost function
  `At(x, y)` is the logical image that `setPixel` addresses.
- `Heightmap` (isovoxel.cpp, `sampleHeightmap`). A ground point is folded to
  its cell on a 32 x 32 grid. A Gaussian bump is then evaluated at the cell's
  lower corner. The exponential is a parameter.
- `Isovoxel` (isovoxel.cpp, `fillColumn`, `render`). A ground point outside the
  tile `[0,4] x [0,4]` paints exactly one sky pixel. Otherwise rows
  `y <= yp < y_end` of column `x` inside `[0, height)` get the colour
  `min(vec3(h), vec3(1))`. `render` calls `fillColumn` once per pixel, taking
  columns left to right and rows from `height-1` down to 0. For each pixel, the
  ground point `p` and the end row `y_end` come from floating-point code that
  is not modelled. They are supplied as a `Probe`.
- `Vectors`: the `vec3` value the buffer stores (vec.h is not part of this
  model). Its `min` is taken to be componentwise `std::min`.

Details of the code that the model follows:

- The sky test uses the fixed bounds `[0, 4]`.
- `render` calls `fillColumn` once per pixel of each column.
- `fillColumn` skips rows outside `[0, height)`; it does not clamp them.
- A byte is `int(c * 255)`, which truncates toward zero. Only the top is
  clamped, and `uint8` wraps negative values.
- `setLine` clamps with `max(y0, 0)` and `min(y1, height - 1)`. These are
  taken as exact `uint32` max and min, so the first changes nothing and
  `height - 1` wraps to 2^32 - 1 when `height == 0`.

## Model

| member | source | states |
|---|---|---|
| `Vectors.Splat` | isovoxel.cpp:101 | `vec3(s)` has all three channels equal to `s` |
| `Vectors.MinReal` | isovoxel.cpp:101 | `std::min` returns a value no larger than either argument and equal to one of them |
| `Vectors.Min` | isovoxel.cpp:101 | each channel of the componentwise min is at most both inputs' channels and equals one of them |
| `Images.Wrap32` | image.cpp:133 | uint32 arithmetic is the identity in range and adds 2^32 to a value just below zero (`height - 1` with `height == 0`) |
| `Images.ReadIndex` | image.cpp:120 | the slot `getPixel` reads, `y*width+x`, lies in `[0, width*height)` for in-range coordinates |
| `Images.WriteIndex` | image.cpp:127 | the slot `setPixel` writes, `(height-1-y)*width+x`, lies in `[0, width*height)` for in-range coordinates |
| `Images.RowMajorInBounds` | image.cpp:118-128 | row-major addressing of an in-range pixel stays inside the buffer |
| `Images.RowMajorInjective` | image.cpp:118-128 | two distinct pixels never share a storage slot |
| `Images.WriteIndexCovers` | image.cpp:123-128 | every slot of the buffer is the `setPixel` slot of some in-range logical pixel, so the logical image `At` covers the whole buffer |
| `Images.Trunc` | image.cpp:102 | `int(f)` truncates toward zero: within 1 of `f`, on the zero side |
| `Images.ChannelByte` | image.cpp:102-104 | for a channel in `[0,1]` the byte is `floor(255*c)`; from 1 upwards it is 255 |
| `Images.ChannelByteMonotone` | image.cpp:102-104 | for non-negative channels a larger channel never gives a smaller byte |
| `Images.NegativeChannelWraps` | image.cpp:101-104 | there is no lower clamp. A negative channel with `-1 < 255*c` gives byte 0. With `-256 < 255*c <= -1` it wraps to `256 + int(255*c)`, at least 1, so `-1/255` packs to byte 255 |
| `Images.PixelBytes` | image.cpp:106-110 | one pixel packs into exactly three bytes, R, G, B in order |
| `Images.Packed` | image.cpp:97-111 | the byte stream `saveToFile` builds, pixel by pixel in storage order; its properties are stated by `PackedLength`, `PackedAt` and `PackedRowOrder` |
| `Images.PackedLength` | image.cpp:93-97 | the packed buffer of `n` pixels has `3*n` bytes |
| `Images.PackedAt` | image.cpp:97-111 | channel `k` of pixel `i` lands at byte `3*i+k`, in storage order |
| `Images.StrideOffset` | image.cpp:92-107 | byte `3*i+k` of pixel `(x,y)`'s slot is byte `3*x+k` of byte row `height-1-y` with stride `3*width` |
| `Images.PackedRowOrder` | image.cpp:92-113 | with row stride `3*width`, the PNG's byte row `height-1-y` holds logical row `y`, so the top row comes first |
| `Images.Image.constructor` | image.cpp:32-38 | the buffer has exactly `width*height` fresh pixels, all `(0,0,0)`, and the dimensions are the arguments |
| `Images.Image.GetWidth` | image.h:20 | returns the width fixed at construction, a `const` field nothing else can change |
| `Images.Image.GetHeight` | image.h:21 | returns the height fixed at construction, a `const` field nothing else can change |
| `Images.Image.GetPixel` | image.cpp:118-121 | a pure read, so it changes nothing, and it applies no flip: `getPixel(x,y)` is logical pixel `(x, height-1-y)` |
| `Images.Image.SetPixel` | image.cpp:123-128 | only slot `(height-1-y)*width+x` changes, to `c`. Logical pixel `(x,y)` becomes `c` and every other pixel is unchanged. Afterwards `getPixel(x, height-1-y)` returns `c` |
| `Images.Image.LineTop` | image.cpp:133 | the clamped top row is at most `y1`. When `height >= 1` it is below `height`: it is `y1` if `y1 < height` and `height-1` otherwise. When `height == 0`, `height-1` wraps to 2^32-1 and the top row stays `y1` |
| `Images.Image.SetLine` | image.cpp:130-136 | rows `y0..min(y1,height-1)` of column `x`, inclusive, become `c` and every other pixel is unchanged. When `y0` is above the clamped top nothing changes |
| `Images.Image.SaveToFile` | image.cpp:89-111 | a read-only pass. It returns `width*height*3` bytes, with channel `k` of pixel `i` at byte `3*i+k` as `ChannelByte`, and the stride `width*3` |
| `Heightmap.Cell` | isovoxel.cpp:54-55 | the cell index is the floor of `0.25*coord*res` |
| `Heightmap.Centred` | isovoxel.cpp:68-69 | `2*(i/res)-1` maps a cell index in `[0, res]` into `[-1, 1]`, and the lower half of the cells to non-positive values |
| `Heightmap.ExpArgument` | isovoxel.cpp:68-70 | the argument `-(a*a+b*b)` handed to `exp`, from the two centred cell indices; `TileArgumentRange` bounds it to `[-2, 0]` on the tile and `CornerHeight` shows it depends only on the cells |
| `Heightmap.SampleHeightmap` | isovoxel.cpp:52-71 | `exp` of `ExpArgument`; `SameCellSameHeight` and `CornerHeight` state that the height is constant on each grid cell |
| `Heightmap.CellOf` | isovoxel.cpp:54-55 | cell `k` is exactly the interval `[k/8, (k+1)/8)` of a ground coordinate |
| `Heightmap.SameCellSameHeight` | isovoxel.cpp:52-71 | two points in the same grid cell get the same height |
| `Heightmap.CornerHeight` | isovoxel.cpp:54-70 | every point gets the height of its cell's lower-left corner |
| `Heightmap.TileArgumentRange` | isovoxel.cpp:52-71 | on the tile the cells run from 0 to 32 and `exp` is only evaluated in `[-2, 0]` |
| `Isovoxel.InTile` | isovoxel.cpp:80-81 | the negation of `fillColumn`'s sky test; `Stroke` states the two branches it selects and `ColumnColourIsHeight` what the on-tile colour is |
| `Isovoxel.ColumnColour` | isovoxel.cpp:87-101 | the column colour is a grey whose level never exceeds 1 |
| `Isovoxel.ColumnColourIsHeight` | isovoxel.cpp:87-101 | on the tile, given an exponential with values in `[0,1]` on `[-2,0]`, the colour is `vec3(h)` with `0 <= h <= hmap_height` |
| `Isovoxel.Stroke` | isovoxel.cpp:80-102 | `fillColumn(x,y)` writes nothing outside column `x`. Off the tile it writes exactly pixel `(x,y)`, with the sky colour. On the tile it writes exactly the rows `y <= yp < y_end` with `0 <= yp < height`, none when `y_end <= y`, each with the column colour `min(vec3(h), vec3(1))` of `ColumnColour`, and each channel is at most 1 |
| `Isovoxel.FillColumn` | isovoxel.cpp:73-103 | every logical pixel afterwards is what `Stroke` says `fillColumn` writes there, or its old value |
| `Isovoxel.CallOrder` | isovoxel.cpp:130-136 | the calls `render` makes, in order; `CallOrderLength`, `CallOrderAt` and `CallOrderEntry` state that each pixel is visited exactly once and in which position |
| `Isovoxel.CallOrderLength` | isovoxel.cpp:130-136 | render makes `width*height` calls |
| `Isovoxel.CallOrderAt` | isovoxel.cpp:126-137 | every pixel `(x,y)` is visited, as call number `x*height + (height-1-y)`: columns ascending, rows descending |
| `Isovoxel.CallOrderEntry` | isovoxel.cpp:126-137 | every call is for an in-range pixel, and the pixel fixes the call's position, so no pixel is visited twice |
| `Isovoxel.Render` | isovoxel.cpp:126-137 | the calls made are exactly `CallOrder(width, height)`. Afterwards every pixel of column `x` is the fold, over the calls of column `x` alone, of what each call writes |
| `Isovoxel.ColumnAfter` | isovoxel.cpp:130-136 | a pixel of column `x` after the first `n` calls of that column: each call's `Stroke` overwrites it or leaves it; `ColumnUntouched`, `LowestWriterWins` and `ColumnOwnsItsPixels` state what this fold yields |
| `Isovoxel.ColumnUntouched` | isovoxel.cpp:126-137 | a pixel that no call of its column writes keeps its value through render |
| `Isovoxel.LowestWriterWins` | isovoxel.cpp:126-137 | among the calls of a column that write a pixel, the one for the lowest row runs last, and its colour is what remains |
| `Isovoxel.ColumnOwnsItsPixels` | isovoxel.cpp:126-137 | what column `x` holds after render depends only on the calls made with that `x` |

## Left out

- Tonemapping is not modelled: `toLuminance`, `logAverageLuminance` and `applyTonemap` (image.cpp:7-30, 53-87), which `main` never calls. These are `logf`/`expf`/`pow` float numerics. The same goes for `applyTonemap`'s in-place pass, which reads rows unflipped but writes them flipped.
- Floating-point geometry is not modelled: `toSpherical`, `setViewpoint`, `project` and the `sqrt`-based `y_end` computation in `fillColumn`. Their per-pixel results are inputs (`Probe`). NaN and infinity cannot arise, and neither can their effect on the tile test.
- All arithmetic on channel values and heights is exact over the reals. Float rounding is not modelled. The exponential in `sampleHeightmap` is a parameter.
- The `stbi_write_png` call and the status `saveToFile` returns are not modelled. `SaveToFile` returns the byte buffer and stride it would pass on.
- Allocation and freeing are not modelled: the destructor, `delete[]`, and `new` failing.
- `unproject` is not modelled, because it is a stub returning (0, 0). `computeFragment` is not modelled, because `render` never calls it. `main` (camera constants, printing) is not modelled. main.cpp is unrelated to the renderer.
- vec.h and types.h are not part of this model. `min` on `vec3` is taken to be componentwise `std::min`. The unqualified `max(y0, 0)` and `min(y1, height - 1)` in `setLine` (image.cpp:132-133) resolve to overloads in those headers; `LineTop` and `SetLine` take them to be exact unsigned max and min. An overload through `float`, say, would round rows above 2^24, which the model does not capture.
- Images.Image.constructor: requires `width*height < 2^31`. Beyond that the `uint32` product wraps or the `int` index of the zero-fill loop overflows.
- Images.Image.GetPixel: requires `x < width` and `y < height`. The source does no check, so other coordinates read outside the row layout, or outside the buffer.
- Images.Image.SetPixel: requires `x < width` and `y < height`. The source does no check. With `y < height` and `x >= width` the slot `(height-1-y)*width+x` overwrites a pixel of a later storage row, such as logical pixel `(0, 0)` for `setPixel(width, 1, c)` when `height >= 2`, or runs past the buffer. With `y >= height`, `height-1-y` wraps in `uint32` and the slot is taken modulo 2^32.
- Images.Image.SetLine: requires column `x` and the clamped top row to be in range whenever the span is non-empty. With `height == 0` and `y0 <= y1` the source loops past the buffer.
- Images.Image.SaveToFile: requires `width*height*3 < 2^32`, so the byte buffer's size does not wrap. Float-to-int conversion of very large channels, undefined in C++, is taken as exact truncation.
- Isovoxel.FillColumn: drops the `width` argument, which only feeds the projection. It requires the pixel `(x, y)` to be in the image and `height <= image.height`, as `render` guarantees by passing the image's own height.
