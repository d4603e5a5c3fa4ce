/**
 * The SimplePBM image: a fixed width x height raster of RGB pixels with
 * bounds-checked pixel access and a binary PPM encoder.
 */
module Pbm {
  import opened Grid
  import opened Ppm

  class SimplePbm {
    const width: uint32
    const height: uint32
    /** The pixels in row-major order. */
    const raster: array<Rgb>

    /**
     * The raster holds exactly width*height pixels, and that count fits in a
     * `uint32_t`, so neither the allocation size nor any index wraps.
     */
    ghost predicate Valid()
    {
      raster.Length == width * height && width * height < UINT32_LIMIT
    }

    /** The current pixels, in row-major order. */
    ghost function Pixels(): (p: seq<Rgb>)
      reads raster
      ensures |p| == raster.Length
    {
      raster[..]
    }

    /** A raster of the given dimensions whose every pixel is default-constructed (black). */
    constructor (width: uint32, height: uint32)
      requires width * height < UINT32_LIMIT
      ensures this.width == width && this.height == height
      ensures Valid() && fresh(raster)
      ensures |Pixels()| == width * height
      ensures forall i :: 0 <= i < |Pixels()| ==> Pixels()[i] == DefaultPixel()
    {
      this.width := width;
      this.height := height;
      raster := new Rgb[width * height](_ => DefaultPixel());
    }

    /**
     * The bounds check and the address computation of pixel access: the cell
     * of (row, col), or the error naming the coordinate.
     */
    function Locate(row: uint32, col: uint32): (r: Result<nat, PixelError>)
      requires Valid()
      ensures r.Err? <==> OutOfRange(width, height, row, col)
      ensures r.Err? ==> r.error == OutOfBounds(row, col)
      ensures r.Ok? ==> r.value < raster.Length && r.value == IndexAsWritten(width, row, col)
    {
      if OutOfRange(width, height, row, col) then
        Err(OutOfBounds(row, col))
      else
        IndexBounds(width, height, row, col);
        Ok(Index(width, row, col))
    }

    /** Reads the pixel at (row, col). */
    method GetPixel(row: uint32, col: uint32) returns (r: Result<Rgb, PixelError>)
      requires Valid()
      ensures r.Err? <==> OutOfRange(width, height, row, col)
      ensures r.Err? ==> r.error == OutOfBounds(row, col)
      ensures r.Ok? ==> r.value == PixelAt(Pixels(), width, height, row, col)
    {
      match Locate(row, col)
      case Err(e) =>
        r := Err(e);
      case Ok(i) =>
        r := Ok(raster[i]);
    }

    /** Assigns `v` to channel `c` of the pixel at (row, col). */
    method SetChannel(row: uint32, col: uint32, c: Channel, v: uint8) returns (r: Result<(), PixelError>)
      requires Valid()
      modifies raster
      ensures r.Err? <==> OutOfRange(width, height, row, col)
      ensures r.Err? ==> r.error == OutOfBounds(row, col) && Pixels() == old(Pixels())
      ensures r.Ok? ==> Pixels() == WritePixel(old(Pixels()), width, height, row, col, c, v)
    {
      match Locate(row, col)
      case Err(e) =>
        r := Err(e);
      case Ok(i) =>
        raster[i] := WithChannel(raster[i], c, v);
        r := Ok(());
    }

    /**
     * The bytes the image file receives: the header, then the raster. The
     * header is written first, as text; the raster follows on a stream
     * reopened in binary append mode.
     */
    method WriteToFile() returns (bytes: seq<uint8>)
      requires Valid()
      ensures bytes == EncodeP6(width, height, Pixels())
    {
      bytes := Header(width, height);
      var body := WriteRaster();
      bytes := bytes + body;
    }

    /**
     * The raster part of the file: the pixels row by row from the top, each
     * row left to right, each pixel as red, green, blue. Every pixel is
     * fetched through the bounds-checked access, which never fails because
     * the loops stay inside the raster.
     */
    method WriteRaster() returns (bytes: seq<uint8>)
      requires Valid()
      ensures bytes == Body(Pixels())
    {
      ghost var pixels := Pixels();
      // `done` counts the pixels written so far.
      bytes := [];
      ghost var done: nat := 0;
      var row: nat := 0;
      while row < height
        invariant row <= height && done == row * width && done <= |pixels|
        invariant bytes == Body(pixels[..done])
      {
        var col: nat := 0;
        while col < width
          invariant col <= width && done == row * width + col && done <= |pixels|
          invariant bytes == Body(pixels[..done])
        {
          var pixel := GetPixel(row, col);
          assert pixel.Ok?;
          assert done < |pixels| && pixel.value == pixels[done] by {
            IndexBounds(width, height, row, col);
          }
          BodyStep(pixels, done);
          bytes := bytes + [pixel.value.r, pixel.value.g, pixel.value.b];
          done := done + 1;
          col := col + 1;
        }
        assert done == (row + 1) * width;
        row := row + 1;
      }
      assert pixels[..done] == pixels;
    }
  }

  /**
   * The bounds check of pixel access: a coordinate is rejected when it lies
   * outside the raster. Every coordinate it accepts addresses a cell of the
   * width*height grid.
   */
  function OutOfRange(width: nat, height: nat, row: nat, col: nat): (out: bool)
    ensures !out ==> Index(width, row, col) < width * height
  {
    if row >= height || col >= width then true
    else
      IndexBounds(width, height, row, col);
      false
  }

  /**
   * The address computation as written with 32-bit unsigned arithmetic:
   * `row * width + col` reduced modulo 2^32. It agrees with the row-major
   * cell exactly as long as that cell fits in 32 bits.
   */
  function IndexAsWritten(width: uint32, row: uint32, col: uint32): (i: nat)
    ensures i < UINT32_LIMIT
    ensures Index(width, row, col) < UINT32_LIMIT <==> i == Index(width, row, col)
  {
    (row * width + col) % UINT32_LIMIT
  }

  /**
   * The number of pixels allocated as written: `width * height` modulo 2^32.
   * Once the product reaches 2^32 the allocation is smaller than the raster.
   */
  function CellsAsWritten(width: uint32, height: uint32): (n: nat)
    ensures n < UINT32_LIMIT
    ensures width * height < UINT32_LIMIT ==> n == width * height
    ensures width * height >= UINT32_LIMIT ==> n < width * height
  {
    var cells: nat := width * height;
    cells % UINT32_LIMIT
  }

  /**
   * With 32-bit arithmetic, every image whose pixel count reaches 2^32 has a
   * coordinate that passes the bounds check yet addresses a cell outside the
   * allocation: the cell numbered by the allocation size itself.
   */
  lemma AllocationOverflow(width: uint32, height: uint32)
    requires width * height >= UINT32_LIMIT
    ensures exists row: uint32, col: uint32 ::
      !OutOfRange(width, height, row, col) && IndexAsWritten(width, row, col) >= CellsAsWritten(width, height)
  {
    var k := CellsAsWritten(width, height);
    var row, col := k / width, k % width;
    assert row * width + col == k;
    MulStrict(row, height, width);
    assert IndexAsWritten(width, row, col) == k;
  }

  /**
   * The smallest square instance: a 65536 x 65536 image allocates no pixels
   * at all, yet the bounds check accepts (0, 0).
   */
  lemma AllocationOverflowExample()
    ensures var w, h := 0x1_0000, 0x1_0000;
      !OutOfRange(w, h, 0, 0) &&
      CellsAsWritten(w, h) == 0 &&
      IndexAsWritten(w, 0, 0) >= CellsAsWritten(w, h)
  {
  }
}
