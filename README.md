# SimplePBM in Dafny

A verified model of `SimplePBM`, a small image writer. It keeps a fixed
width x height raster of RGB pixels (`PBM_RGB`, three 8-bit channels) in
row-major order. Pixel access is bounds-checked. The encoder writes the
raster as a binary PPM ("P6") file: the ASCII header
`"P6\n" <width> " " <height> "\n255\n"`, then every pixel as three bytes
(red, green, blue). Rows go from top to bottom and each row from left to right.

The model has three modules:

- `grid.dfy`, module `Grid`: pixels, channels, the row-major index map
  `row * width + col`, and pixel reads and writes on a pixel sequence.
- `ppm.dfy`, module `Ppm`: the P6 byte layout. It has the decimal text of the
  header numbers, the header, the body, and `EncodeP6`. `DecodeP6` reads back
  exactly that layout. It is not part of the source. It is the inverse against
  which the round-trip lemmas are proved.
- `simplepbm.dfy`, module `Pbm`: the class `SimplePbm`. Its `const` fields are
  `width`, `height` and `raster`, an `array<Rgb>`. `GetPixel` reads a pixel,
  `SetChannel` writes one channel through the bounds-checked access, and
  `WriteToFile` produces the file's bytes: the header first, then the raster,
  which `WriteRaster` produces with the source's nested row/column loops.
  `WriteToFile` is proved equal to `EncodeP6`.

In the source, `getPixel` returns a mutable reference, and callers write a
channel through it (`getPixel(row, col).r = v`). Dafny has no references into
arrays, so the model splits this in two. `GetPixel` returns the pixel's value.
`SetChannel` performs the write. Both fail with `OutOfBounds(row, col)` where
the source throws.

## Model

| member | source | states |
|---|---|---|
| `Grid.DefaultPixel` | simplepbm.hpp:37-40 | a default-constructed pixel has every channel 0 |
| `Grid.WithChannel` | simplepbm.hpp:34-41 | assigning a channel sets that channel to the new value and leaves the other two unchanged |
| `Grid.Index` | simplepbm.hpp:65 | the row-major cell of (row, col): for col < width it lies in row `row`'s stretch of `width` cells, `[row*width, (row+1)*width)` |
| `Grid.PixelAt` | simplepbm.hpp:65 | the pixel at (row, col) of a width*height raster is entry `col` of the stretch that holds row `row` |
| `Grid.IndexBounds` | simplepbm.hpp:65 | for row < height and col < width, the cell `row * width + col` lies in `[0, width*height)` |
| `Grid.IndexInjective` | simplepbm.hpp:65 | distinct in-range coordinates address distinct cells |
| `Grid.WritePixel` | simplepbm.hpp:56-66 | a write through the pixel reference keeps the raster's size (its effect is stated by `Grid.WriteThenRead`) |
| `Grid.WriteThenRead` | simplepbm.hpp:56-66 | after a channel write at (row, col), that pixel is the old one with that channel replaced, and every other pixel reads as before |
| `Pbm.SimplePbm.constructor` | simplepbm.hpp:46-49 | the raster is fresh, holds exactly width*height pixels, and every pixel is default-constructed; width and height are the arguments and never change (`const`) |
| `Pbm.SimplePbm.Locate` | simplepbm.hpp:56-65 | access fails with `OutOfBounds(row, col)` exactly when row >= height or col >= width; otherwise it yields a cell inside the raster equal to the 32-bit `row * width + col` |
| `Pbm.SimplePbm.GetPixel` | simplepbm.hpp:56-66 | fails exactly when row >= height or col >= width, naming the coordinate; otherwise returns the pixel at (row, col) of the row-major raster |
| `Pbm.SimplePbm.SetChannel` | simplepbm.hpp:56-66 | fails exactly out of bounds and then changes nothing; otherwise the new raster is the old one with that channel of that pixel replaced |
| `Pbm.SimplePbm.WriteToFile` | simplepbm.hpp:68-119 | the header is written first and the raster after it; the bytes written equal `EncodeP6(width, height, pixels)`; the method has no `modifies` clause, so the raster is unchanged |
| `Pbm.SimplePbm.WriteRaster` | simplepbm.hpp:101-117 | the binary part equals `Body(pixels)`: rows top to bottom, each left to right, each pixel as red, green, blue; each pixel is fetched through the bounds-checked access, which never fails inside the loops |
| `Pbm.IndexAsWritten` | simplepbm.hpp:65 | the index as computed in `uint32_t`: below 2^32, and equal to the row-major cell exactly when that cell is below 2^32 |
| `Pbm.CellsAsWritten` | simplepbm.hpp:48 | the pixel count as computed in `uint32_t`: equal to width*height when the product is below 2^32, and strictly smaller than width*height otherwise |
| `Ppm.Decimal` | simplepbm.hpp:81-93 | an unsigned number is written as at least one ASCII digit, with no leading zero |
| `Ppm.DecimalValue` | simplepbm.hpp:81-93 | reading back the decimal text of n gives n |
| `Ppm.ValueDecimal` | simplepbm.hpp:81-93 | digit strings without a leading zero are the decimal text of their value (the text is canonical) |
| `Ppm.Header` | simplepbm.hpp:75-96 | the header starts with the line `P6\n` and ends with the line `255\n` |
| `Ppm.HeaderFields` | simplepbm.hpp:81-93 | between those two lines the header holds the width, a space, the height and a newline, which read back as the width and the height |
| `Ppm.Triple` | simplepbm.hpp:113-115 | a pixel is written as three bytes, channel c at offset 0, 1 or 2 for red, green, blue |
| `Ppm.Body` | simplepbm.hpp:104-117 | the raster part has exactly 3 bytes per pixel |
| `Ppm.BodyAppend` | simplepbm.hpp:104-117 | the pixels are emitted one after another: the body of a concatenation is the concatenation of the bodies |
| `Ppm.BodyAt` | simplepbm.hpp:109-115 | byte `3*i + k` of the body is the red, green or blue channel of pixel i, for k = 0, 1, 2 |
| `Ppm.TriplesBody` | simplepbm.hpp:109-115 | regrouping the body into triples gives the pixel sequence back |
| `Ppm.EncodeP6` | simplepbm.hpp:75-117 | the file is the header followed by 3 bytes per pixel, and regrouping those bytes into triples gives the pixels back |
| `Ppm.HeaderExample` | simplepbm.hpp:75-96 | the header of a 100x50 raster is exactly the 14 bytes of `P6\n100 50\n255\n` |
| `Ppm.EncodeLayout` | simplepbm.hpp:75-117 | the file is the header followed by exactly `3*width*height` bytes, and the byte at body offset `3*(row*width + col) + k` is channel k of the pixel at (row, col) |
| `Ppm.SmallRasterExample` | simplepbm.hpp:75-117 | a 2x2 raster with pixels (10,20,30), (0,0,0), (255,255,255), (1,2,3) is written as `P6\n2 2\n255\n` followed by those 12 bytes in row-major order |
| `Ppm.DecodeP6` | simplepbm.hpp:75-117 | a reader of exactly the written layout; an image it returns has width*height pixels |
| `Ppm.DecodeEncode` | simplepbm.hpp:75-117 | decoding the encoding of a width x height raster gives back the same width, height and pixel sequence |
| `Ppm.EncodeDecode` | simplepbm.hpp:75-117 | every byte string the reader accepts is exactly the encoding of the image it reads, so each image has exactly one encoding the reader accepts |
| `Pbm.OutOfRange` | simplepbm.hpp:58 | a coordinate is rejected exactly when row >= height or col >= width; every coordinate it accepts addresses a cell below width*height |
| `Pbm.AllocationOverflow` | simplepbm.hpp:46-65 | with 32-bit arithmetic, every image with width*height >= 2^32 has a coordinate that passes the bounds check of line 58 yet whose computed index is not below the computed allocation size |
| `Pbm.AllocationOverflowExample` | simplepbm.hpp:46-65 | a 65536 x 65536 image allocates no pixels, yet (0, 0) passes the bounds check and addresses a cell outside the allocation |

## Findings

| source | as written | input that shows it | evidently intended | confidence | as-written member | corrected member |
|---|---|---|---|---|---|---|
| simplepbm.hpp:48 | `new PBM_RGB[width * height]` computes the pixel count in `uint32_t`, which wraps; `getPixel` (line 58) checks only `row < height` and `col < width` | width = height = 65536: the product wraps to 0, no pixel is allocated, `getPixel(0, 0)` passes the check and reads `raster[0]` out of bounds | allocate width*height pixels so that every coordinate the check accepts lies inside the raster | high, not executed | `Pbm.AllocationOverflow` (and the instance `Pbm.AllocationOverflowExample`) | `Pbm.SimplePbm.constructor` (requires `width * height < 2^32`; with `Grid.IndexBounds`, `Pbm.SimplePbm.Locate` shows that every accepted index is inside the raster and that the 32-bit index does not wrap) |

## Left out

- File I/O. The stream is opened with `trunc`, closed and reopened in append/binary mode, then closed (simplepbm.hpp:70, 99-101, 118). `WriteToFile` returns the bytes the file would receive, under the newline assumption of the next line. The source never checks the stream state, so it reports no I/O failure, and the model has none.
- Newline translation. The header stream (simplepbm.hpp:70) is opened without `std::ios::binary`; only the raster stream (line 101) is binary. The model assumes a text mode that writes each of the header's three `'\n'` (lines 78, 90, 96) as the single byte 10, as on POSIX systems. On a platform whose text mode writes `"\r\n"` instead, the header grows by three bytes, and a reader that takes one whitespace byte after `255` reads the final 10 as the first raster sample, shifting every sample by one. The model does not cover that output.
- Pbm.SimplePbm.constructor: requires `width * height < 2^32`. The source accepts any pair of `uint32_t` values and then wraps (see Findings). The model covers only sizes where the multiplication does not overflow.
- Memory management: `new[]`/`delete[]` in the constructor and destructor (simplepbm.hpp:48, 53). Dafny arrays are garbage-collected.
- The text of the thrown message, "Pixel (col.row) is out of bounds" (simplepbm.hpp:60-62). The model raises the structured error `OutOfBounds(row, col)` carrying the same coordinate.
- Aliasing of the reference `getPixel` returns. The model has separate read (`GetPixel`) and channel write (`SetChannel`) operations. A caller cannot keep a reference and write through it later.
- `writeToFile` calls `getPixel` three times per pixel, once per channel. `WriteRaster` calls `GetPixel` once per pixel and writes its three channels. The calls do not change state, so the bytes are the same.
- `example.cpp` is a demo `main`: it fills the red channel and writes `test.ppm`. It is not part of this model.
- The fractal programs' histogram accumulation, coordinate mapping and two normalisation policies are not part of this model. Their source files are not among the modelled files, and they rely on floating point and random numbers.
- The error carries only the coordinate, as the source's message does, not the raster's dimensions.
