/** The decoded-image side of extraction (`ImageTrait` on a decoded image):
    the supported pixel layouts, the channel stride, and the exclusion
    filter that keeps only pixels far enough from every excluded colour. */
module ImageFilter {
  import opened Colors
  import opened ColorMetric

  /** The colour types a decoded image can have. */
  datatype ColorType = L8 | La8 | Rgb8 | Rgba8 | L16 | La16 | Rgb16 | Rgba16 | Rgb32F | Rgba32F

  /** The `{:?}` text of a colour type. */
  function ColorTypeName(ct: ColorType): string {
    match ct
    case L8 => "L8"
    case La8 => "La8"
    case Rgb8 => "Rgb8"
    case Rgba8 => "Rgba8"
    case L16 => "L16"
    case La16 => "La16"
    case Rgb16 => "Rgb16"
    case Rgba16 => "Rgba16"
    case Rgb32F => "Rgb32F"
    case Rgba32F => "Rgba32F"
  }

  /** Bytes per pixel of the raw buffer for each colour type. */
  function BytesPerPixel(ct: ColorType): (n: nat)
    ensures n > 0
  {
    match ct
    case L8 => 1
    case La8 => 2
    case Rgb8 => 3
    case Rgba8 => 4
    case L16 => 2
    case La16 => 4
    case Rgb16 => 6
    case Rgba16 => 8
    case Rgb32F => 12
    case Rgba32F => 16
  }

  /** A decoded image: its colour type and its raw bytes (`as_bytes`). */
  datatype DynamicImage = DynamicImage(colorType: ColorType, bytes: seq<byte>)

  /** The decoder always yields whole pixels. */
  predicate WellFormed(img: DynamicImage) {
    |img.bytes| % BytesPerPixel(img.colorType) == 0
  }

  /** `color_format`: only 8-bit RGB and RGBA images are supported. */
  function ColorFormatOf(img: DynamicImage): (r: Result<ColorFormat, string>)
    ensures r.Ok? <==> img.colorType == Rgb8 || img.colorType == Rgba8
    ensures img.colorType == Rgb8 ==> r == Ok(Rgb)
    ensures img.colorType == Rgba8 ==> r == Ok(Rgba)
    ensures r.Err? ==> r.error == "Sorry, images with " + ColorTypeName(img.colorType) + " color type pixels are not supported."
  {
    match img.colorType
    case Rgb8 => Ok(Rgb)
    case Rgba8 => Ok(Rgba)
    case other => Err("Sorry, images with " + ColorTypeName(other) + " color type pixels are not supported.")
  }

  predicate Supported(img: DynamicImage) {
    ColorFormatOf(img).Ok?
  }

  /** `color_size`: 3 for the three-channel layouts, 4 otherwise (an
      unsupported colour type included). */
  function ColorSize(img: DynamicImage): (n: nat)
    ensures n == 3 || n == 4
    ensures n == 3 <==> img.colorType == Rgb8
  {
    var f := ColorFormatOf(img);
    if f == Ok(Rgb) || f == Ok(Bgr) then 3 else 4
  }

  /** On supported images the stride is the decoder's pixel size, wide
      enough for `pixels_to_rbg`. */
  lemma ColorSizeIsPixelSize(img: DynamicImage)
    requires Supported(img)
    ensures ColorSize(img) == BytesPerPixel(img.colorType)
    ensures ColorSize(img) >= MinPixelLen(ColorFormatOf(img).value)
  {
  }

  // ---------------------------------------------------------------------
  // The exclusion test
  // ---------------------------------------------------------------------

  /** The fraction of the maximal distance below which a pixel is dropped. */
  const Threshold: real := 0.05

  /** A pixel is far from an excluded colour when `delta_rgb / 585225 >= 0.05`. */
  predicate FarFrom(pixel: Color, ex: Color) {
    !(DeltaRgb(pixel, ex) / MaxDistance < Threshold)
  }

  /** `keep_pixel` after the inner loop: far from every excluded colour. */
  predicate KeepPixel(pixel: Color, excluded: seq<Color>) {
    forall k :: 0 <= k < |excluded| ==> FarFrom(pixel, excluded[k])
  }

  /** A pixel equal to an excluded colour is always dropped. */
  lemma ExcludedColorDropped(pixel: Color, excluded: seq<Color>)
    requires pixel in excluded
    ensures !KeepPixel(pixel, excluded)
  {
    var k :| 0 <= k < |excluded| && excluded[k] == pixel;
    DeltaSelf(pixel);
    assert !FarFrom(pixel, excluded[k]);
  }

  /** The threshold in whole numbers: dropped iff 20 * delta < 585225. */
  lemma FarFromScaled(pixel: Color, ex: Color)
    ensures FarFrom(pixel, ex) <==> 20.0 * DeltaRgb(pixel, ex) >= MaxDistance
  {
  }

  // ---------------------------------------------------------------------
  // Pixel sequences
  // ---------------------------------------------------------------------

  /** The pixels of a raw buffer, one per stride, in buffer order. */
  function DecodePixels(bytes: seq<byte>, f: ColorFormat, size: nat): (cs: seq<Color>)
    requires size >= MinPixelLen(f)
    decreases |bytes|
  {
    if |bytes| < size then [] else [PixelsToRgb(bytes[..size], f)] + DecodePixels(bytes[size..], f, size)
  }

  /** The red, green and blue bytes of each colour, in order. */
  function Flatten(cs: seq<Color>): (bs: seq<byte>)
  {
    if cs == [] then [] else ToSlice(cs[0]) + Flatten(cs[1..])
  }

  /** The pixels that pass the exclusion test, in their original order. */
  function Kept(cs: seq<Color>, excluded: seq<Color>): seq<Color>
  {
    if cs == [] then []
    else (if KeepPixel(cs[0], excluded) then [cs[0]] else []) + Kept(cs[1..], excluded)
  }

  lemma {:induction false} FlattenLength(cs: seq<Color>)
    ensures |Flatten(cs)| == 3 * |cs|
  {
    if cs != [] {
      FlattenLength(cs[1..]);
    }
  }

  lemma {:induction false} FlattenAppend(a: seq<Color>, b: seq<Color>)
    ensures Flatten(a + b) == Flatten(a) + Flatten(b)
  {
    if a != [] {
      assert (a + b)[0] == a[0];
      assert (a + b)[1..] == a[1..] + b;
      FlattenAppend(a[1..], b);
      calc {
        Flatten(a + b);
        ToSlice(a[0]) + Flatten(a[1..] + b);
        ToSlice(a[0]) + (Flatten(a[1..]) + Flatten(b));
        (ToSlice(a[0]) + Flatten(a[1..])) + Flatten(b);
      }
    } else {
      assert a + b == b;
    }
  }

  lemma {:induction false} KeptAppend(a: seq<Color>, b: seq<Color>, excluded: seq<Color>)
    ensures Kept(a + b, excluded) == Kept(a, excluded) + Kept(b, excluded)
  {
    if a != [] {
      assert (a + b)[0] == a[0];
      assert (a + b)[1..] == a[1..] + b;
      KeptAppend(a[1..], b, excluded);
      var head := if KeepPixel(a[0], excluded) then [a[0]] else [];
      calc {
        Kept(a + b, excluded);
        head + Kept(a[1..] + b, excluded);
        head + (Kept(a[1..], excluded) + Kept(b, excluded));
        (head + Kept(a[1..], excluded)) + Kept(b, excluded);
      }
    } else {
      assert a + b == b;
    }
  }

  /** A colour is kept exactly when it is a pixel of the image and passes the test. */
  lemma {:induction false} KeptMembership(cs: seq<Color>, excluded: seq<Color>, x: Color)
    ensures x in Kept(cs, excluded) <==> x in cs && KeepPixel(x, excluded)
  {
    if cs != [] {
      KeptMembership(cs[1..], excluded, x);
      assert cs == [cs[0]] + cs[1..];
    }
  }

  /** With nothing excluded every pixel is kept. */
  lemma {:induction false} KeptNothingExcluded(cs: seq<Color>)
    ensures Kept(cs, []) == cs
  {
    if cs != [] {
      KeptNothingExcluded(cs[1..]);
    }
  }

  /** When every pixel is an excluded colour, nothing is kept. */
  lemma {:induction false} KeptAllExcluded(cs: seq<Color>, excluded: seq<Color>)
    requires forall k :: 0 <= k < |cs| ==> cs[k] in excluded
    ensures Kept(cs, excluded) == []
  {
    if cs != [] {
      ExcludedColorDropped(cs[0], excluded);
      KeptAllExcluded(cs[1..], excluded);
    }
  }

  /** A buffer of `n` strides decodes to `n` pixels. */
  lemma {:induction false} DecodeLength(bytes: seq<byte>, f: ColorFormat, size: nat, n: nat)
    requires size >= MinPixelLen(f) && |bytes| == n * size
    ensures |DecodePixels(bytes, f, size)| == n
    decreases n
  {
    if n > 0 {
      assert n * size == (n - 1) * size + size;
      DecodeLength(bytes[size..], f, size, n - 1);
    }
  }

  /** Appending one stride to a buffer of `n` strides appends one pixel. */
  lemma {:induction false} DecodeSnoc(a: seq<byte>, chunk: seq<byte>, f: ColorFormat, size: nat, n: nat)
    requires size >= MinPixelLen(f) && |a| == n * size && |chunk| == size
    ensures DecodePixels(a + chunk, f, size) == DecodePixels(a, f, size) + [PixelsToRgb(chunk, f)]
    decreases n
  {
    if n == 0 {
      assert a + chunk == chunk;
      assert chunk[size..] == [];
      assert chunk[..size] == chunk;
    } else {
      assert n * size == (n - 1) * size + size;
      assert (a + chunk)[..size] == a[..size];
      assert (a + chunk)[size..] == a[size..] + chunk;
      DecodeSnoc(a[size..], chunk, f, size, n - 1);
    }
  }

  /** A stride that starts before the end of a whole-stride buffer ends within it. */
  lemma StrideFits(i: nat, n: nat, len: nat, size: nat)
    requires size > 0 && len % size == 0 && i == n * size && i < len
    ensures i + size <= len
  {
    var q := len / size;
    assert len == q * size;
    assert n < q by {
      if q <= n {
        MulMonotone(q, n, size);
      }
    }
    MulMonotone(n + 1, q, size);
    assert (n + 1) * size == n * size + size;
  }

  /** The filtered bytes are an RGB buffer holding exactly the kept pixels. */
  lemma {:induction false} DecodeFlatten(cs: seq<Color>)
    ensures DecodePixels(Flatten(cs), Rgb, 3) == cs
  {
    if cs != [] {
      FlattenLength(cs[1..]);
      var bs := Flatten(cs);
      assert bs[..3] == ToSlice(cs[0]);
      assert bs[3..] == Flatten(cs[1..]);
      SliceRoundTrip(cs[0], []);
      assert ToSlice(cs[0]) + [] == ToSlice(cs[0]);
      DecodeFlatten(cs[1..]);
    }
  }

  /** Decoding an RGB buffer and flattening it back gives the buffer. */
  lemma {:induction false} FlattenDecodeRgb(bytes: seq<byte>)
    requires |bytes| % 3 == 0
    ensures Flatten(DecodePixels(bytes, Rgb, 3)) == bytes
    decreases |bytes|
  {
    if |bytes| >= 3 {
      FlattenDecodeRgb(bytes[3..]);
      assert bytes == bytes[..3] + bytes[3..];
    }
  }

  // ---------------------------------------------------------------------
  // filtered_image_bytes
  // ---------------------------------------------------------------------

  /** The pixels of a supported image. */
  function Pixels(img: DynamicImage): seq<Color>
    requires Supported(img)
  {
    ColorSizeIsPixelSize(img);
    DecodePixels(img.bytes, ColorFormatOf(img).value, ColorSize(img))
  }

  /** What `filtered_image_bytes` returns for a supported image: the RGB
      bytes of the pixels far from every excluded colour. */
  function FilteredBytes(img: DynamicImage, excluded: seq<Color>): seq<byte>
    requires Supported(img)
  {
    Flatten(Kept(Pixels(img), excluded))
  }

  /** The inner loop: is the pixel far from every excluded colour? */
  method KeepPixelScan(pixel: Color, excluded: seq<Color>) returns (keep: bool)
    ensures keep == KeepPixel(pixel, excluded)
  {
    keep := true;
    for k := 0 to |excluded|
      invariant keep == forall j :: 0 <= j < k ==> FarFrom(pixel, excluded[j])
    {
      var pixelDist := DeltaRgb(pixel, excluded[k]);
      var pixelDistPct := pixelDist / MaxDistance;
      if pixelDistPct < Threshold {
        keep := false;
      }
    }
  }

  /** `filtered_image_bytes`: an error for an unsupported colour type before
      any pixel is read; otherwise the RGB bytes of the kept pixels. */
  method FilteredImageBytes(img: DynamicImage, excluded: seq<Color>) returns (r: Result<seq<byte>, string>)
    requires WellFormed(img)
    ensures !Supported(img) ==> r == Err(ColorFormatOf(img).error)
    ensures Supported(img) ==> r == Ok(FilteredBytes(img, excluded))
  {
    var colorFormat := ColorFormatOf(img);
    if colorFormat.Err? {
      return Err(colorFormat.error);
    }
    var colorSize := ColorSize(img);
    ColorSizeIsPixelSize(img);
    var colorsBytes := FilterPixels(img.bytes, colorFormat.value, colorSize, excluded);
    return Ok(colorsBytes);
  }

  /** The pixel loop of `filtered_image_bytes`: one stride at a time, the
      RGB bytes of each pixel far from every excluded colour. */
  method FilterPixels(pixels: seq<byte>, f: ColorFormat, colorSize: nat, excluded: seq<Color>) returns (colorsBytes: seq<byte>)
    requires colorSize >= MinPixelLen(f) && |pixels| % colorSize == 0
    ensures colorsBytes == Flatten(Kept(DecodePixels(pixels, f, colorSize), excluded))
  {
    colorsBytes := [];
    var i := 0;
    ghost var n := 0;
    while i < |pixels|
      invariant 0 <= i <= |pixels| && i == n * colorSize
      invariant colorsBytes == Flatten(Kept(DecodePixels(pixels[..i], f, colorSize), excluded))
      decreases |pixels| - i
    {
      StrideFits(i, n, |pixels|, colorSize);
      colorsBytes := FilterChunk(pixels, i, n, f, colorSize, excluded, colorsBytes);
      i, n := i + colorSize, n + 1;
    }
    assert pixels[..i] == pixels;
  }

  /** The body of the pixel loop: decode the pixel at offset `i` and append its RGB bytes when it is kept. */
  method FilterChunk(pixels: seq<byte>, i: nat, ghost n: nat, f: ColorFormat, colorSize: nat, excluded: seq<Color>, acc: seq<byte>)
    returns (colorsBytes: seq<byte>)
    requires colorSize >= MinPixelLen(f) && i == n * colorSize && i + colorSize <= |pixels|
    requires acc == Flatten(Kept(DecodePixels(pixels[..i], f, colorSize), excluded))
    ensures colorsBytes == Flatten(Kept(DecodePixels(pixels[..i + colorSize], f, colorSize), excluded))
    ensures i + colorSize == (n + 1) * colorSize
  {
    var chunk := pixels[i..i + colorSize];
    var pixelColor := PixelsToRgb(chunk, f);
    var keepPixel := KeepPixelScan(pixelColor, excluded);
    FilterStep(pixels, i, n, f, colorSize, excluded);
    colorsBytes := acc;
    if keepPixel {
      colorsBytes := colorsBytes + ToSlice(pixelColor);
    }
  }

  /** One iteration of the pixel loop appends the kept part of one pixel. */
  lemma FilterStep(pixels: seq<byte>, i: nat, n: nat, f: ColorFormat, size: nat, excluded: seq<Color>)
    requires size >= MinPixelLen(f) && i == n * size && i + size <= |pixels|
    ensures var pixel := PixelsToRgb(pixels[i..i + size], f);
      Flatten(Kept(DecodePixels(pixels[..i + size], f, size), excluded)) ==
        Flatten(Kept(DecodePixels(pixels[..i], f, size), excluded)) + (if KeepPixel(pixel, excluded) then ToSlice(pixel) else [])
    ensures i + size == (n + 1) * size
  {
    var chunk := pixels[i..i + size];
    var pixel := PixelsToRgb(chunk, f);
    var before := DecodePixels(pixels[..i], f, size);
    assert pixels[..i + size] == pixels[..i] + chunk;
    DecodeSnoc(pixels[..i], chunk, f, size, n);
    KeptAppend(before, [pixel], excluded);
    FlattenAppend(Kept(before, excluded), Kept([pixel], excluded));
    assert Kept([pixel], excluded) == (if KeepPixel(pixel, excluded) then [pixel] else []) + Kept([], excluded);
    if KeepPixel(pixel, excluded) {
      assert Flatten([pixel]) == ToSlice(pixel) + Flatten([]);
    }
  }

  // ---------------------------------------------------------------------
  // Properties of the filter
  // ---------------------------------------------------------------------

  /** The output holds whole RGB triples, one per kept pixel, no more than the image has. */
  lemma FilteredLength(img: DynamicImage, excluded: seq<Color>)
    requires WellFormed(img) && Supported(img)
    ensures |FilteredBytes(img, excluded)| % 3 == 0
    ensures |FilteredBytes(img, excluded)| == 3 * |Kept(Pixels(img), excluded)|
    ensures |FilteredBytes(img, excluded)| <= 3 * (|img.bytes| / ColorSize(img))
  {
    ColorSizeIsPixelSize(img);
    var size := ColorSize(img);
    var q := |img.bytes| / size;
    ExactQuotient(|img.bytes|, size);
    DecodeLength(img.bytes, ColorFormatOf(img).value, size, q);
    var kept := Kept(Pixels(img), excluded);
    assert FilteredBytes(img, excluded) == Flatten(kept);
    FlattenLength(kept);
    KeptLength(Pixels(img), excluded);
    assert |kept| <= q;
    TripleMod(|kept|);
  }

  lemma TripleMod(k: nat)
    ensures (3 * k) % 3 == 0
  {
  }

  lemma ExactQuotient(len: nat, size: nat)
    requires size > 0 && len % size == 0
    ensures len == (len / size) * size
  {
  }

  lemma {:induction false} KeptLength(cs: seq<Color>, excluded: seq<Color>)
    ensures |Kept(cs, excluded)| <= |cs|
  {
    if cs != [] {
      KeptLength(cs[1..], excluded);
    }
  }

  /** A colour occurs among the output triples iff it is a pixel of the
      image far from every excluded colour. */
  lemma FilteredMembership(img: DynamicImage, excluded: seq<Color>, x: Color)
    requires Supported(img)
    ensures x in DecodePixels(FilteredBytes(img, excluded), Rgb, 3) <==> x in Pixels(img) && KeepPixel(x, excluded)
  {
    DecodeFlatten(Kept(Pixels(img), excluded));
    KeptMembership(Pixels(img), excluded, x);
  }

  /** The filtered bytes hold whole RGB pixels, exactly the far ones. */
  lemma FilteredPixels(img: DynamicImage, excluded: seq<Color>)
    requires Supported(img)
    ensures |FilteredBytes(img, excluded)| % 3 == 0
    ensures forall x :: x in DecodePixels(FilteredBytes(img, excluded), Rgb, 3) <==> x in Pixels(img) && KeepPixel(x, excluded)
  {
    FlattenLength(Kept(Pixels(img), excluded));
    forall x
      ensures x in DecodePixels(FilteredBytes(img, excluded), Rgb, 3) <==> x in Pixels(img) && KeepPixel(x, excluded)
    {
      FilteredMembership(img, excluded, x);
    }
  }

  /** With no excluded colour the output is the RGB projection of every
      pixel, 3 bytes per pixel; for an RGB image it is the image's bytes. */
  lemma FilteredNothingExcluded(img: DynamicImage)
    requires WellFormed(img) && Supported(img)
    ensures FilteredBytes(img, []) == Flatten(Pixels(img))
    ensures |FilteredBytes(img, [])| == 3 * (|img.bytes| / ColorSize(img))
    ensures img.colorType == Rgb8 ==> FilteredBytes(img, []) == img.bytes
  {
    KeptNothingExcluded(Pixels(img));
    FlattenLength(Pixels(img));
    ColorSizeIsPixelSize(img);
    var size := ColorSize(img);
    DecodeLength(img.bytes, ColorFormatOf(img).value, size, |img.bytes| / size);
    if img.colorType == Rgb8 {
      FlattenDecodeRgb(img.bytes);
    }
  }

  /** An image whose every pixel is an excluded colour filters to nothing. */
  lemma FilteredUniformExcluded(img: DynamicImage, excluded: seq<Color>)
    requires Supported(img)
    requires forall k :: 0 <= k < |Pixels(img)| ==> Pixels(img)[k] in excluded
    ensures FilteredBytes(img, excluded) == []
  {
    KeptAllExcluded(Pixels(img), excluded);
  }
}
