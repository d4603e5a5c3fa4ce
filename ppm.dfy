/**
 * The binary PPM ("P6") image format as SimplePBM writes it: an ASCII header
 * "P6\n<width> <height>\n255\n" followed by the raster, row by row from the
 * top, each row left to right, each pixel as its red, green and blue byte.
 *
 * EncodeP6 is what the encoder produces. DecodeP6 is an independent reader
 * of exactly that layout; the two round-trip lemmas at the end show that the
 * encoding loses nothing and that every byte string the reader accepts is
 * the encoding of the image it reads.
 */
module Ppm {
  import opened Grid

  const Newline: uint8 := 10
  const Space: uint8 := 32
  /** The byte of the digit '0'. */
  const Zero: uint8 := 48

  /** The magic number of a binary PPM file: the two characters "P6". */
  const Magic: seq<uint8> := [80, 54]

  /** The maximum channel value the header announces. */
  const MaxVal: nat := 255

  predicate IsDigit(b: uint8)
  {
    Zero <= b <= Zero + 9
  }

  predicate AllDigits(s: seq<uint8>)
  {
    forall i :: 0 <= i < |s| ==> IsDigit(s[i])
  }

  /**
   * ASCII decimal text of `n`, as a stream writes an unsigned integer: only
   * digits, at least one, and no leading zero.
   */
  function Decimal(n: nat): (s: seq<uint8>)
    ensures |s| > 0 && AllDigits(s)
    ensures |s| > 1 ==> s[0] != Zero
  {
    if n < 10 then [Zero + n] else Decimal(n / 10) + [Zero + n % 10]
  }

  /** The number a string of decimal digits denotes. */
  function DigitsValue(s: seq<uint8>): nat
    requires AllDigits(s)
  {
    if s == [] then 0 else DigitsValue(s[..|s| - 1]) * 10 + (s[|s| - 1] - Zero)
  }

  /** Reading back the decimal text of `n` gives `n`. */
  lemma {:induction false} DecimalValue(n: nat)
    ensures DigitsValue(Decimal(n)) == n
  {
    if n >= 10 {
      var d := Decimal(n);
      assert d[..|d| - 1] == Decimal(n / 10);
      DecimalValue(n / 10);
    }
  }

  /** A string of digits with no leading zero is a positive number once it has two digits. */
  lemma {:induction false} DigitsValueLowerBound(s: seq<uint8>)
    requires |s| > 0 && AllDigits(s) && s[0] != Zero
    ensures DigitsValue(s) > 0
  {
    if |s| > 1 {
      assert s[..|s| - 1][0] == s[0];
      DigitsValueLowerBound(s[..|s| - 1]);
    }
  }

  /** Decimal text is canonical: digits without a leading zero are the decimal text of their value. */
  lemma {:induction false} ValueDecimal(s: seq<uint8>)
    requires |s| > 0 && AllDigits(s)
    requires |s| > 1 ==> s[0] != Zero
    ensures Decimal(DigitsValue(s)) == s
  {
    if |s| > 1 {
      var p := s[..|s| - 1];
      assert p[0] == s[0];
      DigitsValueLowerBound(p);
      ValueDecimal(p);
      assert s == p + [s[|s| - 1]];
    }
  }

  /** Length of the run of digits that starts `s`. */
  function DigitRun(s: seq<uint8>): (k: nat)
    ensures k <= |s|
    ensures AllDigits(s[..k])
    ensures k < |s| ==> !IsDigit(s[k])
  {
    if s == [] || !IsDigit(s[0]) then 0 else 1 + DigitRun(s[1..])
  }

  /** The digit run of digits followed by a non-digit is exactly those digits. */
  lemma {:induction false} DigitRunPrefix(d: seq<uint8>, rest: seq<uint8>)
    requires AllDigits(d)
    requires rest == [] || !IsDigit(rest[0])
    ensures DigitRun(d + rest) == |d|
  {
    if d != [] {
      assert (d + rest)[0] == d[0];
      assert (d + rest)[1..] == d[1..] + rest;
      DigitRunPrefix(d[1..], rest);
    } else {
      assert d + rest == rest;
    }
  }

  /**
   * Reads a decimal number that ends with the byte `t`; gives the number and
   * the bytes after `t`, or None when `s` does not start that way.
   */
  function ParseField(s: seq<uint8>, t: uint8): Option<(nat, seq<uint8>)>
  {
    var k := DigitRun(s);
    if 0 < k < |s| && s[k] == t && (k > 1 ==> s[0] != Zero) then
      Some((DigitsValue(s[..k]), s[k + 1..]))
    else
      None
  }

  /** The decimal text of `n` followed by the terminator reads back as `n`. */
  lemma ParseFieldDecimal(n: nat, t: uint8, rest: seq<uint8>)
    requires !IsDigit(t)
    ensures ParseField(Decimal(n) + [t] + rest, t) == Some((n, rest))
  {
    var d := Decimal(n);
    var s := d + [t] + rest;
    assert s[..|d|] == d;
    assert s[|d|] == t;
    assert s[|d| + 1..] == rest;
    assert s == d + ([t] + rest);
    DigitRunPrefix(d, [t] + rest);
    DecimalValue(n);
  }

  /** What ParseField accepts is the decimal text of the number it reads. */
  lemma ParseFieldCanonical(s: seq<uint8>, t: uint8, n: nat, rest: seq<uint8>)
    requires ParseField(s, t) == Some((n, rest))
    ensures s == Decimal(n) + [t] + rest
  {
    var k := DigitRun(s);
    ValueDecimal(s[..k]);
    assert s == s[..k] + [s[k]] + s[k + 1..];
  }

  /** The first header line: the magic number and a newline. */
  const Lead: seq<uint8> := Magic + [Newline]

  /** The last header line: the maximum channel value in decimal and a newline. */
  const MaxValLine: seq<uint8> := Decimal(MaxVal) + [Newline]

  /** The header written before the raster: the line "P6\n" first, the line "255\n" last. */
  function Header(width: nat, height: nat): (hd: seq<uint8>)
    ensures |hd| >= |Lead| + |MaxValLine| && hd[..|Lead|] == Lead && hd[|hd| - |MaxValLine|..] == MaxValLine
  {
    Lead + Decimal(width) + [Space] + Decimal(height) + [Newline] + MaxValLine
  }

  /**
   * Between its first and last line the header holds the width, a space, the
   * height and a newline, and these read back as `width` and `height`.
   */
  lemma HeaderFields(width: nat, height: nat)
    ensures var hd := Header(width, height);
      var fields := hd[|Lead|..|hd| - |MaxValLine|];
      ParseField(fields, Space).Some? && ParseField(fields, Space).value.0 == width &&
      ParseField(ParseField(fields, Space).value.1, Newline) == Some((height, []))
  {
    var d, e := Decimal(width), Decimal(height);
    var hd := Header(width, height);
    assert hd[|Lead|..|hd| - |MaxValLine|] == d + [Space] + (e + [Newline] + []);
    ParseFieldDecimal(width, Space, e + [Newline] + []);
    ParseFieldDecimal(height, Newline, []);
  }

  /** The three bytes a pixel is written as: red, green, blue. */
  function Triple(p: Rgb): (t: seq<uint8>)
    ensures |t| == 3 && forall c :: t[Offset(c)] == ChannelOf(p, c)
  {
    [p.r, p.g, p.b]
  }

  /** The raster part of the file: every pixel as its triple, in sequence order. */
  function Body(pixels: seq<Rgb>): (b: seq<uint8>)
    ensures |b| == 3 * |pixels|
  {
    if pixels == [] then [] else Triple(pixels[0]) + Body(pixels[1..])
  }

  /**
   * The whole file for a raster of the given dimensions: the header, then
   * three bytes per pixel from which the pixels regroup exactly.
   */
  function EncodeP6(width: nat, height: nat, pixels: seq<Rgb>): (bytes: seq<uint8>)
    ensures var h := |Header(width, height)|;
      |bytes| == h + 3 * |pixels| && bytes[..h] == Header(width, height) &&
      (TriplesBody(pixels); Triples(bytes[h..]) == pixels)
  {
    var h, b := Header(width, height), Body(pixels);
    assert (h + b)[|h|..] == b;
    TriplesBody(pixels);
    h + b
  }

  /** Encoding pixel by pixel: the body of a concatenation is the concatenation of the bodies. */
  lemma {:induction false} BodyAppend(s: seq<Rgb>, t: seq<Rgb>)
    ensures Body(s + t) == Body(s) + Body(t)
  {
    if s != [] {
      calc {
        Body(s + t);
      ==  { assert (s + t)[0] == s[0]; assert (s + t)[1..] == s[1..] + t; }
        Triple(s[0]) + Body(s[1..] + t);
      ==  { BodyAppend(s[1..], t); }
        Triple(s[0]) + (Body(s[1..]) + Body(t));
      ==
        Body(s) + Body(t);
      }
    } else {
      assert s + t == t;
    }
  }

  /** Encoding one more pixel appends its triple. */
  lemma BodyStep(pixels: seq<Rgb>, k: nat)
    requires k < |pixels|
    ensures Body(pixels[..k + 1]) == Body(pixels[..k]) + Triple(pixels[k])
  {
    assert pixels[..k + 1] == pixels[..k] + [pixels[k]];
    BodyAppend(pixels[..k], [pixels[k]]);
  }

  /** The byte at offset 3*i + Offset(c) of the body is channel `c` of pixel `i`. */
  lemma {:induction false} BodyAt(pixels: seq<Rgb>, i: nat, c: Channel)
    requires i < |pixels|
    ensures Body(pixels)[3 * i + Offset(c)] == ChannelOf(pixels[i], c)
  {
    if i > 0 {
      BodyAt(pixels[1..], i - 1, c);
    }
  }

  /** Regroups a body into pixels, three bytes at a time. */
  function Triples(b: seq<uint8>): (p: seq<Rgb>)
    requires |b| % 3 == 0
    ensures 3 * |p| == |b|
  {
    if b == [] then [] else [Rgb(b[0], b[1], b[2])] + Triples(b[3..])
  }

  /** Regrouping an encoded body gives the pixels back. */
  lemma {:induction false} TriplesBody(pixels: seq<Rgb>)
    ensures Triples(Body(pixels)) == pixels
  {
    if pixels != [] {
      assert Body(pixels)[3..] == Body(pixels[1..]);
      TriplesBody(pixels[1..]);
    }
  }

  /** Encoding regrouped bytes gives the bytes back. */
  lemma {:induction false} BodyTriples(b: seq<uint8>)
    requires |b| % 3 == 0
    ensures Body(Triples(b)) == b
  {
    if b != [] {
      BodyTriples(b[3..]);
      assert Triples(b)[1..] == Triples(b[3..]);
    }
  }

  datatype Image = Image(width: nat, height: nat, pixels: seq<Rgb>)

  /** Reads back a file in exactly the layout EncodeP6 writes. */
  function DecodeP6(bytes: seq<uint8>): (r: Option<Image>)
    ensures r.Some? ==> |r.value.pixels| == r.value.width * r.value.height
  {
    if Lead <= bytes then DecodeDimensions(bytes[|Lead|..]) else None
  }

  /** Reads "<width> <height>\n" and hands the rest to DecodeRaster. */
  function DecodeDimensions(s: seq<uint8>): (r: Option<Image>)
    ensures r.Some? ==> |r.value.pixels| == r.value.width * r.value.height
  {
    match ParseField(s, Space)
    case None => None
    case Some((width, afterWidth)) =>
      match ParseField(afterWidth, Newline)
      case None => None
      case Some((height, afterHeight)) => DecodeRaster(width, height, afterHeight)
  }

  /** Reads the maximum-value line and then exactly 3*width*height body bytes. */
  function DecodeRaster(width: nat, height: nat, s: seq<uint8>): (r: Option<Image>)
    ensures r.Some? ==> r.value.width == width && r.value.height == height
    ensures r.Some? ==> |r.value.pixels| == width * height
  {
    if MaxValLine <= s && |s| - |MaxValLine| == 3 * (width * height) then
      Some(Image(width, height, Triples(s[|MaxValLine|..])))
    else
      None
  }

  /** The bytes of the digits of the three numbers used in the examples below. */
  lemma DecimalExamples()
    ensures Decimal(2) == [50]
    ensures Decimal(50) == [53, 48]
    ensures Decimal(100) == [49, 48, 48]
    ensures Decimal(255) == [50, 53, 53]
  {
  }

  /** The header fixed by the format: for a 100x50 raster it is the 14 characters "P6\n100 50\n255\n". */
  lemma HeaderExample()
    ensures Header(100, 50) == [80, 54, 10, 49, 48, 48, 32, 53, 48, 10, 50, 53, 53, 10]
  {
    DecimalExamples();
    assert Lead == [80, 54, 10];
    assert MaxValLine == [50, 53, 53, 10];
  }

  /**
   * Layout of the file: the header, then exactly 3*width*height bytes, and the
   * byte at offset 3*(row*width + col) + Offset(c) of the body is channel `c`
   * of the pixel at (row, col).
   */
  lemma EncodeLayout(width: nat, height: nat, pixels: seq<Rgb>, row: nat, col: nat, c: Channel)
    requires |pixels| == width * height
    requires row < height && col < width
    ensures var bytes := EncodeP6(width, height, pixels);
      var h := |Header(width, height)|;
      |bytes| == h + 3 * (width * height) &&
      bytes[..h] == Header(width, height) &&
      (IndexBounds(width, height, row, col);
       bytes[h + 3 * Index(width, row, col) + Offset(c)] == ChannelOf(PixelAt(pixels, width, height, row, col), c))
  {
    var bytes, h, b := EncodeP6(width, height, pixels), Header(width, height), Body(pixels);
    var i := Index(width, row, col);
    IndexBounds(width, height, row, col);
    assert PixelAt(pixels, width, height, row, col) == pixels[i];
    BodyAt(pixels, i, c);
    assert 3 * i + Offset(c) < |b|;
    assert bytes[|h| + 3 * i + Offset(c)] == b[3 * i + Offset(c)];
  }

  /** Reassociates a seven-part concatenation. */
  lemma Regroup(a: seq<uint8>, b: seq<uint8>, c: seq<uint8>, d: seq<uint8>, e: seq<uint8>, f: seq<uint8>, g: seq<uint8>)
    ensures a + b + c + d + e + f + g == a + (b + c + (d + e + (f + g)))
  {
  }

  /** The encoding, grouped the way the reader takes it apart. */
  lemma EncodeP6Nested(width: nat, height: nat, pixels: seq<Rgb>)
    ensures EncodeP6(width, height, pixels) ==
      Lead + (Decimal(width) + [Space] + (Decimal(height) + [Newline] + (MaxValLine + Body(pixels))))
  {
    Regroup(Lead, Decimal(width), [Space], Decimal(height), [Newline], MaxValLine, Body(pixels));
  }

  /** The maximum-value line and an encoded body read back as the raster. */
  lemma DecodeRasterBody(width: nat, height: nat, pixels: seq<Rgb>)
    requires |pixels| == width * height
    ensures DecodeRaster(width, height, MaxValLine + Body(pixels)) == Some(Image(width, height, pixels))
  {
    assert (MaxValLine + Body(pixels))[|MaxValLine|..] == Body(pixels);
    TriplesBody(pixels);
  }

  /** Decoding the encoding of a width*height raster gives the raster back. */
  lemma DecodeEncode(width: nat, height: nat, pixels: seq<Rgb>)
    requires |pixels| == width * height
    ensures DecodeP6(EncodeP6(width, height, pixels)) == Some(Image(width, height, pixels))
  {
    var afterHeight := MaxValLine + Body(pixels);
    var afterWidth := Decimal(height) + [Newline] + afterHeight;
    var dims := Decimal(width) + [Space] + afterWidth;
    EncodeP6Nested(width, height, pixels);
    assert (Lead + dims)[|Lead|..] == dims;
    ParseFieldDecimal(width, Space, afterWidth);
    ParseFieldDecimal(height, Newline, afterHeight);
    DecodeRasterBody(width, height, pixels);
  }

  /** What DecodeRaster accepts is the maximum-value line and the body of the raster it reads. */
  lemma DecodeRasterCanonical(width: nat, height: nat, s: seq<uint8>)
    requires DecodeRaster(width, height, s).Some?
    ensures s == MaxValLine + Body(DecodeRaster(width, height, s).value.pixels)
  {
    var body := s[|MaxValLine|..];
    BodyTriples(body);
    assert s == MaxValLine + body;
  }

  /** What DecodeDimensions accepts is the encoding, after the first line, of the image it reads. */
  lemma DecodeDimensionsCanonical(s: seq<uint8>)
    requires DecodeDimensions(s).Some?
    ensures var img := DecodeDimensions(s).value;
      s == Decimal(img.width) + [Space] + (Decimal(img.height) + [Newline] + (MaxValLine + Body(img.pixels)))
  {
    var Some((width, afterWidth)) := ParseField(s, Space);
    ParseFieldCanonical(s, Space, width, afterWidth);
    var Some((height, afterHeight)) := ParseField(afterWidth, Newline);
    ParseFieldCanonical(afterWidth, Newline, height, afterHeight);
    DecodeRasterCanonical(width, height, afterHeight);
  }

  /** Every byte string the reader accepts is exactly the encoding of the image it reads. */
  lemma EncodeDecode(bytes: seq<uint8>)
    requires DecodeP6(bytes).Some?
    ensures var img := DecodeP6(bytes).value;
      EncodeP6(img.width, img.height, img.pixels) == bytes
  {
    var dims := bytes[|Lead|..];
    var img := DecodeDimensions(dims).value;
    DecodeDimensionsCanonical(dims);
    EncodeP6Nested(img.width, img.height, img.pixels);
    assert bytes == Lead + dims;
  }

  /** The header of a 2x2 raster: the 11 characters "P6\n2 2\n255\n". */
  lemma SmallHeaderExample()
    ensures Header(2, 2) == [80, 54, 10, 50, 32, 50, 10, 50, 53, 53, 10]
  {
    DecimalExamples();
    assert Lead == [80, 54, 10];
    assert MaxValLine == [50, 53, 53, 10];
  }

  /**
   * A 2x2 raster with pixels (10,20,30), (0,0,0), (255,255,255), (1,2,3) in
   * row-major order is written as its 11-byte header and 12 body bytes.
   */
  lemma SmallRasterExample()
    ensures EncodeP6(2, 2, [Rgb(10, 20, 30), Rgb(0, 0, 0), Rgb(255, 255, 255), Rgb(1, 2, 3)]) ==
      [80, 54, 10, 50, 32, 50, 10, 50, 53, 53, 10] + [10, 20, 30, 0, 0, 0, 255, 255, 255, 1, 2, 3]
  {
    SmallHeaderExample();
    var pixels := [Rgb(10, 20, 30), Rgb(0, 0, 0), Rgb(255, 255, 255), Rgb(1, 2, 3)];
    assert Body(pixels) == [10, 20, 30, 0, 0, 0, 255, 255, 255, 1, 2, 3] by {
      assert Body(pixels[3..]) == [1, 2, 3];
      assert Body(pixels[2..]) == [255, 255, 255, 1, 2, 3];
      assert Body(pixels[1..]) == [0, 0, 0, 255, 255, 255, 1, 2, 3];
    }
  }
}
