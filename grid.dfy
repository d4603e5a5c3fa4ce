/**
 * Pixels, channels and the row-major layout of a SimplePBM raster.
 *
 * A raster of `width` columns and `height` rows keeps its pixels in one
 * sequence; the pixel at (row, col) lives in cell `row * width + col`.
 */
module Grid {

  /** An unsigned 8-bit value (`uint8_t`). */
  type uint8 = x: int | 0 <= x < 0x100

  /** An unsigned 32-bit value (`uint32_t`). */
  type uint32 = x: int | 0 <= x < 0x1_0000_0000

  /** The first value that no longer fits in a `uint32_t`. */
  const UINT32_LIMIT: int := 0x1_0000_0000

  datatype Option<T> = None | Some(value: T)

  datatype Result<T, E> = Ok(value: T) | Err(error: E)

  /** The error getPixel raises: the requested coordinate is outside the raster. */
  datatype PixelError = OutOfBounds(row: uint32, col: uint32)

  /** One pixel: three independent 8-bit channels. */
  datatype Rgb = Rgb(r: uint8, g: uint8, b: uint8)

  datatype Channel = Red | Green | Blue

  /** Position of a channel in the triple a pixel is written as. */
  function Offset(c: Channel): (k: nat)
    ensures k < 3
  {
    match c
    case Red => 0
    case Green => 1
    case Blue => 2
  }

  function ChannelOf(p: Rgb, c: Channel): uint8
  {
    match c
    case Red => p.r
    case Green => p.g
    case Blue => p.b
  }

  /** What the default constructor of a pixel produces: black, every channel 0. */
  function DefaultPixel(): (p: Rgb)
    ensures forall c :: ChannelOf(p, c) == 0
  {
    Rgb(0, 0, 0)
  }

  /** The pixel after one of its channels is assigned `v`. */
  function WithChannel(p: Rgb, c: Channel, v: uint8): (q: Rgb)
    ensures ChannelOf(q, c) == v
    ensures forall d :: d != c ==> ChannelOf(q, d) == ChannelOf(p, d)
  {
    match c
    case Red => p.(r := v)
    case Green => p.(g := v)
    case Blue => p.(b := v)
  }

  /**
   * The cell that holds the pixel at (row, col). Row `row` occupies the
   * `width` consecutive cells that start at `row * width`.
   */
  function Index(width: nat, row: nat, col: nat): (i: nat)
    ensures col < width ==> row * width <= i < (row + 1) * width
  {
    row * width + col
  }

  /** Multiplication by a natural number is monotone. */
  lemma MulMonotone(a: nat, b: nat, w: nat)
    requires a <= b
    ensures a * w <= b * w
  {
  }

  /** Every in-range coordinate addresses a cell of the width*height grid. */
  lemma IndexBounds(width: nat, height: nat, row: nat, col: nat)
    requires row < height && col < width
    ensures Index(width, row, col) < width * height
  {
    MulMonotone(row + 1, height, width);
  }

  /** A strict product inequality orders the factors. */
  lemma MulStrict(a: nat, b: nat, w: nat)
    requires a * w < b * w
    ensures a < b
  {
    if b <= a {
      MulMonotone(b, a, w);
    }
  }

  /** Distinct in-range coordinates address distinct cells. */
  lemma IndexInjective(width: nat, row: nat, col: nat, row': nat, col': nat)
    requires col < width && col' < width
    requires Index(width, row, col) == Index(width, row', col')
    ensures row == row' && col == col'
  {
    assert row * width < (row' + 1) * width;
    MulStrict(row, row' + 1, width);
    assert row' * width < (row + 1) * width;
    MulStrict(row', row + 1, width);
  }

  /** The pixel at (row, col) of a width*height raster: entry `col` of the stretch that holds row `row`. */
  function PixelAt(pixels: seq<Rgb>, width: nat, height: nat, row: nat, col: nat): (p: Rgb)
    requires |pixels| == width * height
    requires row < height && col < width
    ensures (MulMonotone(row + 1, height, width);
             p == pixels[row * width..(row + 1) * width][col])
  {
    IndexBounds(width, height, row, col);
    pixels[Index(width, row, col)]
  }

  /** The raster after channel `c` of the pixel at (row, col) is assigned `v`. */
  function WritePixel(pixels: seq<Rgb>, width: nat, height: nat, row: nat, col: nat, c: Channel, v: uint8): (q: seq<Rgb>)
    requires |pixels| == width * height
    requires row < height && col < width
    ensures |q| == |pixels|
  {
    IndexBounds(width, height, row, col);
    var i := Index(width, row, col);
    pixels[i := WithChannel(pixels[i], c, v)]
  }

  /**
   * Writing one channel of one pixel and then reading any pixel back: the
   * written pixel is the old one with that channel replaced; every other
   * pixel is unchanged.
   */
  lemma WriteThenRead(pixels: seq<Rgb>, width: nat, height: nat, row: nat, col: nat, c: Channel, v: uint8,
                      row': nat, col': nat)
    requires |pixels| == width * height
    requires row < height && col < width
    requires row' < height && col' < width
    ensures PixelAt(WritePixel(pixels, width, height, row, col, c, v), width, height, row', col') ==
      if row' == row && col' == col then WithChannel(PixelAt(pixels, width, height, row, col), c, v)
      else PixelAt(pixels, width, height, row', col')
  {
    var i, j := Index(width, row, col), Index(width, row', col');
    IndexBounds(width, height, row, col);
    IndexBounds(width, height, row', col');
    var q := WritePixel(pixels, width, height, row, col, c, v);
    assert q == pixels[i := WithChannel(pixels[i], c, v)];
    assert PixelAt(q, width, height, row', col') == q[j];
    if i == j {
      IndexInjective(width, row, col, row', col');
    }
  }
}
