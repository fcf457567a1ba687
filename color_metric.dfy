/** Colour metrics and codecs: the `ColorTrait` implementation for an
    8-bit colour (hexadecimal and `RGB(...)` text, luma brightness and
    contrast, the best-contrast scan, per-layout pixel decoding and the
    weighted RGB distance). Floating-point values are modelled as exact
    reals: every one of them is an integer combination of 8-bit channels. */
module ColorMetric {
  import opened Colors

  // ---------------------------------------------------------------------
  // Hexadecimal text: "#RRGGBB" with upper-case digits (`{:02X}`)
  // ---------------------------------------------------------------------

  const UpperHexDigits: string := "0123456789ABCDEF"

  predicate IsUpperHexDigit(ch: char) {
    ('0' <= ch <= '9') || ('A' <= ch <= 'F')
  }

  /** The two upper-case hexadecimal digits of a byte, zero padded. */
  function Hex2(v: byte): (s: string)
    ensures |s| == 2 && IsUpperHexDigit(s[0]) && IsUpperHexDigit(s[1])
  {
    [UpperHexDigits[v / 16], UpperHexDigits[v % 16]]
  }

  /** `hexadecimal_str`: `#` followed by two upper-case digits per channel. */
  function HexadecimalStr(c: Color): (s: string)
    ensures |s| == 7 && s[0] == '#'
    ensures forall i :: 1 <= i < 7 ==> IsUpperHexDigit(s[i])
  {
    "#" + Hex2(c.r) + Hex2(c.g) + Hex2(c.b)
  }

  // ---------------------------------------------------------------------
  // Decimal text: "RGB(r,g,b)" (`{}` on u8)
  // ---------------------------------------------------------------------

  predicate IsAsciiDigit(ch: char) {
    '0' <= ch <= '9'
  }

  function DigitChar(d: nat): char
    requires d < 10
  {
    "0123456789"[d]
  }

  /** Shortest decimal text of a natural number (no leading zero). */
  function DecimalStr(n: nat): (s: string)
    ensures 1 <= |s|
    ensures forall i :: 0 <= i < |s| ==> IsAsciiDigit(s[i])
    ensures |s| > 1 ==> s[0] != '0'
    decreases n
  {
    if n < 10 then [DigitChar(n)] else DecimalStr(n / 10) + [DigitChar(n % 10)]
  }

  /** The value of a string of ASCII decimal digits. */
  function DecimalValue(s: string): nat
    requires forall i :: 0 <= i < |s| ==> IsAsciiDigit(s[i])
  {
    if s == [] then 0
    else
      var last := s[|s| - 1];
      assert IsAsciiDigit(last);
      10 * DecimalValue(s[..|s| - 1]) + ((last as int) - ('0' as int))
  }

  lemma {:induction false} DecimalRoundTrip(n: nat)
    ensures DecimalValue(DecimalStr(n)) == n
    decreases n
  {
    if n >= 10 {
      var s := DecimalStr(n);
      assert s[..|s| - 1] == DecimalStr(n / 10);
      DecimalRoundTrip(n / 10);
    }
  }

  lemma DecimalStrInjective(m: nat, n: nat)
    requires DecimalStr(m) == DecimalStr(n)
    ensures m == n
  {
    DecimalRoundTrip(m);
    DecimalRoundTrip(n);
  }

  /** `rgb_str`: `RGB(` then the three channels in decimal, comma separated, then `)`. */
  function RgbStr(c: Color): (s: string)
    ensures 10 <= |s| <= 16
    ensures s[..4] == "RGB(" && s[|s| - 1] == ')'
  {
    DecimalStrAtMostThree(c.r);
    DecimalStrAtMostThree(c.g);
    DecimalStrAtMostThree(c.b);
    "RGB(" + Channels(c) + ")"
  }

  lemma DecimalStrAtMostThree(v: byte)
    ensures |DecimalStr(v)| <= 3
  {
    if v >= 10 {
      assert |DecimalStr(v / 10)| <= 2 by {
        if v / 10 >= 10 { assert |DecimalStr(v / 100)| == 1; }
      }
    }
  }

  /** Splitting at the first comma: a comma-free head is determined. */
  lemma SplitAtComma(x: string, y: string, x': string, y': string)
    requires ',' !in x && ',' !in x'
    requires x + "," + y == x' + "," + y'
    ensures x == x' && y == y'
  {
    var s := x + "," + y;
    assert s[|x|] == ',';
    assert s[|x'|] == ',';
    assert forall i :: 0 <= i < |x| ==> s[i] == x[i];
    assert forall i :: 0 <= i < |x'| ==> s[i] == x'[i];
    assert |x| == |x'| by {
      if |x| < |x'| {
        assert false;
      } else if |x'| < |x| {
        assert false;
      }
    }
    assert x == s[..|x|];
    assert x' == s[..|x|];
    assert y == s[|x| + 1..];
    assert y' == s[|x| + 1..];
  }

  lemma DecimalStrHasNoComma(n: nat)
    ensures ',' !in DecimalStr(n)
  {
    var s := DecimalStr(n);
    forall i | 0 <= i < |s|
      ensures s[i] != ','
    {
      assert IsAsciiDigit(s[i]);
    }
  }

  /** The decimal channels of `rgb_str`, comma separated. */
  function Channels(c: Color): string {
    DecimalStr(c.r) + "," + DecimalStr(c.g) + "," + DecimalStr(c.b)
  }

  /** Three comma-free fields joined by commas are determined by the joined text. */
  lemma SplitThree(a: string, b: string, c: string, a': string, b': string, c': string)
    requires ',' !in a && ',' !in b && ',' !in a' && ',' !in b'
    requires a + "," + b + "," + c == a' + "," + b' + "," + c'
    ensures a == a' && b == b' && c == c'
  {
    assert a + "," + b + "," + c == a + "," + (b + "," + c);
    assert a' + "," + b' + "," + c' == a' + "," + (b' + "," + c');
    SplitAtComma(a, b + "," + c, a', b' + "," + c');
    SplitAtComma(b, c, b', c');
  }

  lemma ChannelsInjective(c1: Color, c2: Color)
    requires Channels(c1) == Channels(c2)
    ensures c1 == c2
  {
    DecimalStrHasNoComma(c1.r); DecimalStrHasNoComma(c1.g);
    DecimalStrHasNoComma(c2.r); DecimalStrHasNoComma(c2.g);
    SplitThree(DecimalStr(c1.r), DecimalStr(c1.g), DecimalStr(c1.b),
               DecimalStr(c2.r), DecimalStr(c2.g), DecimalStr(c2.b));
    DecimalStrInjective(c1.r, c2.r);
    DecimalStrInjective(c1.g, c2.g);
    DecimalStrInjective(c1.b, c2.b);
  }

  /** Distinct colours have distinct `RGB(...)` texts. */
  lemma RgbStrInjective(c1: Color, c2: Color)
    requires RgbStr(c1) == RgbStr(c2)
    ensures c1 == c2
  {
    var s1, s2 := RgbStr(c1), RgbStr(c2);
    assert s1 == "RGB(" + Channels(c1) + ")";
    assert s2 == "RGB(" + Channels(c2) + ")";
    assert Channels(c1) == s1[4..|s1| - 1];
    assert Channels(c2) == s2[4..|s2| - 1];
    ChannelsInjective(c1, c2);
  }

  // ---------------------------------------------------------------------
  // Brightness and contrast
  // ---------------------------------------------------------------------

  /** `color_brightness`: (299 r + 587 g + 114 b) / 1000. */
  function Brightness(c: Color): (y: real)
    ensures 0.0 <= y <= 255.0
  {
    (299 * c.r + 587 * c.g + 114 * c.b) as real / 1000.0
  }

  function Abs(x: real): real {
    if x < 0.0 then -x else x
  }

  /** `contrast_with`: the absolute brightness difference. */
  function ContrastWith(c: Color, other: Color): (d: real)
    ensures 0.0 <= d <= 255.0
  {
    Abs(Brightness(c) - Brightness(other))
  }

  lemma BrightnessExtremes()
    ensures Brightness(Black) == 0.0 && Brightness(White) == 255.0
    ensures forall c: Color :: Brightness(Black) <= Brightness(c) <= Brightness(White)
  {
  }

  lemma ContrastProperties(c1: Color, c2: Color)
    ensures ContrastWith(c1, c2) == ContrastWith(c2, c1)
    ensures ContrastWith(c1, c1) == 0.0
    ensures ContrastWith(c1, c2) >= 0.0
  {
  }

  // ---------------------------------------------------------------------
  // best_contrast
  // ---------------------------------------------------------------------

  /** The scan's comparison: candidate `j` is strictly more contrasting
      with `bg` than the FIRST candidate (`bgt_diff` is never updated). */
  predicate BeatsFirst(bg: Color, cs: seq<Color>, j: nat)
    requires 0 < j < |cs|
  {
    ContrastWith(bg, cs[j]) > ContrastWith(bg, cs[0])
  }

  /** The index `best_contrast` returns after scanning `cs[1..i]`. */
  function LastBeatingFirst(bg: Color, cs: seq<Color>, i: nat): (k: nat)
    requires 1 <= i <= |cs|
    ensures k < i
    ensures k == 0 || BeatsFirst(bg, cs, k)
    ensures forall j :: k < j < i ==> !BeatsFirst(bg, cs, j)
  {
    if i == 1 then 0
    else if BeatsFirst(bg, cs, i - 1) then i - 1
    else LastBeatingFirst(bg, cs, i - 1)
  }

  /** `best_contrast` as written: asserts at least two candidates, then
      keeps the last candidate whose contrast exceeds the first one's. */
  method BestContrast(bg: Color, textColors: seq<Color>) returns (res: nat)
    requires |textColors| > 1
    ensures res < |textColors|
    ensures res == 0 || BeatsFirst(bg, textColors, res)
    ensures forall j :: res < j < |textColors| ==> !BeatsFirst(bg, textColors, j)
  {
    var bgBgt := Brightness(bg);
    res := 0;
    var textBgt := Brightness(textColors[0]);
    var bgtDiff := Abs(bgBgt - textBgt);
    var i := 1;
    while i < |textColors|
      invariant 1 <= i <= |textColors|
      invariant res == LastBeatingFirst(bg, textColors, i)
    {
      var newBgt := Brightness(textColors[i]);
      var newBgtDiff := Abs(bgBgt - newBgt);
      if newBgtDiff > bgtDiff {
        res := i;
      }
      i := i + 1;
    }
  }

  /** The evidently intended scan: the first candidate of maximal contrast. */
  predicate IsFirstMaximum(bg: Color, cs: seq<Color>, k: nat)
  {
    k < |cs| &&
    (forall j :: 0 <= j < |cs| ==> ContrastWith(bg, cs[j]) <= ContrastWith(bg, cs[k])) &&
    (forall j :: 0 <= j < k ==> ContrastWith(bg, cs[j]) < ContrastWith(bg, cs[k]))
  }

  /** The first index of maximal contrast within `cs[..i]`. */
  function FirstMaxContrast(bg: Color, cs: seq<Color>, i: nat): (k: nat)
    requires 1 <= i <= |cs|
    ensures k < i
  {
    if i == 1 then 0
    else
      var k := FirstMaxContrast(bg, cs, i - 1);
      if ContrastWith(bg, cs[i - 1]) > ContrastWith(bg, cs[k]) then i - 1 else k
  }

  /** `FirstMaxContrast` finds the first maximum of the prefix. */
  lemma {:induction false} FirstMaxContrastSpec(bg: Color, cs: seq<Color>, i: nat)
    requires 1 <= i <= |cs|
    ensures IsFirstMaximum(bg, cs[..i], FirstMaxContrast(bg, cs, i))
  {
    if i > 1 {
      FirstMaxContrastSpec(bg, cs, i - 1);
      assert forall j :: 0 <= j < i - 1 ==> cs[..i][j] == cs[..i - 1][j];
    }
  }

  /** The corrected `best_contrast`: the running best difference is
      updated together with the running best candidate. */
  method BestContrastCorrected(bg: Color, textColors: seq<Color>) returns (res: nat)
    requires |textColors| > 1
    ensures IsFirstMaximum(bg, textColors, res)
  {
    var bgBgt := Brightness(bg);
    res := 0;
    var bgtDiff := Abs(bgBgt - Brightness(textColors[0]));
    var i := 1;
    while i < |textColors|
      invariant 1 <= i <= |textColors|
      invariant res == FirstMaxContrast(bg, textColors, i)
      invariant bgtDiff == ContrastWith(bg, textColors[res])
    {
      var newBgtDiff := Abs(bgBgt - Brightness(textColors[i]));
      assert newBgtDiff == ContrastWith(bg, textColors[i]);
      FirstMaxStep(bg, textColors, i);
      if newBgtDiff > bgtDiff {
        res := i;
        bgtDiff := newBgtDiff;
      }
      i := i + 1;
    }
    FirstMaxContrastSpec(bg, textColors, |textColors|);
    assert textColors[..|textColors|] == textColors;
  }

  /** One step of the corrected scan. */
  lemma FirstMaxStep(bg: Color, cs: seq<Color>, i: nat)
    requires 1 <= i < |cs|
    ensures var k := FirstMaxContrast(bg, cs, i);
      FirstMaxContrast(bg, cs, i + 1) == if ContrastWith(bg, cs[i]) > ContrastWith(bg, cs[k]) then i else k
  {
  }

  /** With three candidates the scan as written misses the maximum: against
      black, [black, white, gray] yields gray although white contrasts more. */
  lemma BestContrastMissesMaximum()
    ensures LastBeatingFirst(Black, [Black, White, Color(128, 128, 128)], 3) == 2
    ensures !IsFirstMaximum(Black, [Black, White, Color(128, 128, 128)], 2)
  {
    var cs := [Black, White, Color(128, 128, 128)];
    assert BeatsFirst(Black, cs, 2);
    assert ContrastWith(Black, cs[1]) > ContrastWith(Black, cs[2]);
  }

  /** On exactly two candidates (the only use in the program) the scan as
      written and the corrected scan agree. */
  lemma {:induction false} BestContrastOfTwo(bg: Color, cs: seq<Color>)
    requires |cs| == 2
    ensures LastBeatingFirst(bg, cs, 2) == FirstMaxContrast(bg, cs, 2)
  {
    assert cs[..2] == cs;
    assert cs[..1] == [cs[0]];
  }

  // ---------------------------------------------------------------------
  // Pixel decoding
  // ---------------------------------------------------------------------

  /** `to_slice`: the channels in r, g, b order. */
  function ToSlice(c: Color): (s: seq<byte>)
    ensures |s| == 3
  {
    [c.r, c.g, c.b]
  }

  /** The number of bytes `pixels_to_rbg` reads for a layout. */
  function MinPixelLen(f: ColorFormat): nat {
    if f == Argb then 4 else 3
  }

  /** `pixels_to_rbg`: reads the channels at the layout's offsets. */
  function PixelsToRgb(arr: seq<byte>, f: ColorFormat): (c: Color)
    requires |arr| >= MinPixelLen(f)
  {
    match f
    case Rgb => Color(arr[0], arr[1], arr[2])
    case Rgba => Color(arr[0], arr[1], arr[2])
    case Argb => Color(arr[1], arr[2], arr[3])
    case Bgr => Color(arr[2], arr[1], arr[0])
    case Bgra => Color(arr[2], arr[1], arr[0])
  }

  /** The byte layout of a colour with alpha `a` in each pixel format. */
  function EncodePixel(c: Color, f: ColorFormat, a: byte): (s: seq<byte>)
    ensures |s| == (if f == Rgb || f == Bgr then 3 else 4)
  {
    match f
    case Rgb => [c.r, c.g, c.b]
    case Rgba => [c.r, c.g, c.b, a]
    case Argb => [a, c.r, c.g, c.b]
    case Bgr => [c.b, c.g, c.r]
    case Bgra => [c.b, c.g, c.r, a]
  }

  lemma DecodeEncode(c: Color, f: ColorFormat, a: byte)
    ensures |EncodePixel(c, f, a)| >= MinPixelLen(f)
    ensures PixelsToRgb(EncodePixel(c, f, a), f) == c
  {
  }

  lemma SliceRoundTrip(c: Color, rest: seq<byte>)
    ensures PixelsToRgb(ToSlice(c) + rest, Rgb) == c
  {
  }

  // ---------------------------------------------------------------------
  // delta_rgb
  // ---------------------------------------------------------------------

  const MaxDistance: real := 585225.0

  function Sq(x: int): (y: nat)
  {
    x * x
  }

  /** `delta_rgb`: the weighted "redmean" squared distance
      2 dr^2 + 4 dg^2 + 3 db^2 + t (dr^2 - db^2) / 256 with t = (r1 + r2) / 2. */
  function DeltaRgb(c1: Color, c2: Color): real
  {
    var drp2 := Sq(c1.r - c2.r) as real;
    var dgp2 := Sq(c1.g - c2.g) as real;
    var dbp2 := Sq(c1.b - c2.b) as real;
    var t := (c1.r + c2.r) as real / 2.0;
    2.0 * drp2 + 4.0 * dgp2 + 3.0 * dbp2 + t * (drp2 - dbp2) / 256.0
  }

  lemma DeltaSelf(c: Color)
    ensures DeltaRgb(c, c) == 0.0
  {
  }

  /** The distance depends on the unordered pair of colours. */
  lemma DeltaSymmetric(c1: Color, c2: Color)
    ensures DeltaRgb(c1, c2) == DeltaRgb(c2, c1)
  {
    assert Sq(c1.r - c2.r) == Sq(c2.r - c1.r);
    assert Sq(c1.g - c2.g) == Sq(c2.g - c1.g);
    assert Sq(c1.b - c2.b) == Sq(c2.b - c1.b);
  }

  lemma SqByteDiff(x: byte, y: byte)
    ensures Sq(x - y) <= 65025
  {
    var z := x - y;
    var d := if z >= 0 then z else -z;
    assert z * z == d * d;
    MulMonotone(d, 255, d);
    MulMonotone(d, 255, 255);
  }

  lemma MulMonotone(a: int, b: int, c: int)
    requires 0 <= a <= b && 0 <= c
    ensures a * c <= b * c
  {
  }

  /** The bound on the real-valued formula, for squared differences up to 255^2
      and a mean red between 0 and 255: the red and blue weights 2 + t/256 and
      3 - t/256 are positive and sum to 5. */
  lemma ScaleBounded(u: real, x: real, bound: real)
    requires 0.0 <= u && 0.0 <= x <= bound
    ensures 0.0 <= u * x <= u * bound
  {
  }

  lemma WeightedSumBounds(drp2: real, dgp2: real, dbp2: real, t: real)
    requires 0.0 <= drp2 <= 65025.0 && 0.0 <= dgp2 <= 65025.0 && 0.0 <= dbp2 <= 65025.0
    requires 0.0 <= t <= 255.0
    ensures 0.0 <= 2.0 * drp2 + 4.0 * dgp2 + 3.0 * dbp2 + t * (drp2 - dbp2) / 256.0 <= MaxDistance
  {
    var u := 2.0 + t / 256.0;
    var v := 3.0 - t / 256.0;
    var p := u * drp2;
    var q := v * dbp2;
    assert 2.0 * drp2 + 4.0 * dgp2 + 3.0 * dbp2 + t * (drp2 - dbp2) / 256.0 == p + 4.0 * dgp2 + q;
    ScaleBounded(u, drp2, 65025.0);
    ScaleBounded(v, dbp2, 65025.0);
    assert u * 65025.0 + v * 65025.0 == 5.0 * 65025.0;
    assert p <= u * 65025.0;
    assert q <= v * 65025.0;
    assert 4.0 * dgp2 <= 4.0 * 65025.0;
    assert p + 4.0 * dgp2 + q <= u * 65025.0 + 4.0 * 65025.0 + v * 65025.0;
    assert 9.0 * 65025.0 == MaxDistance;
  }

  /** 585225 is the range of the distance: 0 <= delta <= 585225, reached by black and white. */
  lemma DeltaBounds(c1: Color, c2: Color)
    ensures 0.0 <= DeltaRgb(c1, c2) <= MaxDistance
    ensures DeltaRgb(Black, White) == MaxDistance
  {
    SqByteDiff(c1.r, c2.r);
    SqByteDiff(c1.g, c2.g);
    SqByteDiff(c1.b, c2.b);
    WeightedSumBounds(Sq(c1.r - c2.r) as real, Sq(c1.g - c2.g) as real, Sq(c1.b - c2.b) as real,
                      (c1.r + c2.r) as real / 2.0);
  }

  /** The weights differ per channel: pure red and pure blue are at
      different distances from black. */
  lemma DeltaChannelWeights()
    ensures DeltaRgb(Color(255, 0, 0), Black) != DeltaRgb(Color(0, 0, 255), Black)
  {
  }

  // ---------------------------------------------------------------------
  // hex_to_rgb
  // ---------------------------------------------------------------------

  /** Unicode White_Space, the set `str::trim` removes. */
  predicate IsWhiteSpace(ch: char) {
    ('\t' <= ch <= '\r') || ch == ' ' || ch == '\U{0085}' || ch == '\U{00A0}' ||
    ch == '\U{1680}' || ('\U{2000}' <= ch <= '\U{200A}') || ch == '\U{2028}' ||
    ch == '\U{2029}' || ch == '\U{202F}' || ch == '\U{205F}' || ch == '\U{3000}'
  }

  function TrimStart(s: string): (t: string)
    ensures |t| <= |s| && t == s[|s| - |t|..]
    ensures t == [] || !IsWhiteSpace(t[0])
    ensures forall i :: 0 <= i < |s| - |t| ==> IsWhiteSpace(s[i])
  {
    if s != [] && IsWhiteSpace(s[0]) then TrimStart(s[1..]) else s
  }

  function TrimEnd(s: string): (t: string)
    ensures |t| <= |s| && t == s[..|t|]
    ensures t == [] || !IsWhiteSpace(t[|t| - 1])
    ensures forall i :: |t| <= i < |s| ==> IsWhiteSpace(s[i])
  {
    if s != [] && IsWhiteSpace(s[|s| - 1]) then TrimEnd(s[..|s| - 1]) else s
  }

  /** `str::trim`: drops leading and trailing white space. */
  function Trim(s: string): string {
    TrimEnd(TrimStart(s))
  }

  lemma TrimUnchanged(s: string)
    requires s != [] && !IsWhiteSpace(s[0]) && !IsWhiteSpace(s[|s| - 1])
    ensures Trim(s) == s
  {
  }

  predicate IsAsciiHexDigit(ch: char) {
    IsAsciiDigit(ch) || ('a' <= ch <= 'f') || ('A' <= ch <= 'F')
  }

  /** The value of an ASCII hexadecimal digit, either case. */
  function HexValue(ch: char): (v: nat)
    requires IsAsciiHexDigit(ch)
    ensures v < 16
  {
    if IsAsciiDigit(ch) then (ch as int) - ('0' as int)
    else if 'a' <= ch <= 'f' then (ch as int) - ('a' as int) + 10
    else (ch as int) - ('A' as int) + 10
  }

  /** `u8::from_str_radix(_, 16)` on two ASCII hexadecimal digits. */
  function ParseHexByte(hi: char, lo: char): byte
    requires IsAsciiHexDigit(hi) && IsAsciiHexDigit(lo)
  {
    16 * HexValue(hi) + HexValue(lo)
  }

  /** The outcomes of `hex_to_rgb`: a colour, the "not a valid hexadecimal
      code" message followed by `process::exit(1)` (carrying the trimmed
      text it prints), or a panic in an `unwrap` or a string slice. */
  datatype HexParse = Parsed(color: Color) | Invalid(code: string) | Panic

  /** `^#[0-9a-fA-F]{6}$`: the evidently intended accepted texts. */
  predicate IsHexCode(t: string) {
    |t| == 7 && t[0] == '#' && forall i :: 1 <= i < 7 ==> IsAsciiHexDigit(t[i])
  }

  predicate InDigitBlock(z: int, zero: int) {
    zero <= z < zero + 10
  }

  /** The regex class `\d`, which is Unicode-aware in the regex crate: the
      decimal digits (general category Nd) of Unicode 15.0, one block of
      ten per script plus the fifty mathematical digits. */
  predicate IsUnicodeDigit(ch: char) {
    var z := ch as int;
    InDigitBlock(z, 0x0030) || InDigitBlock(z, 0x0660) || InDigitBlock(z, 0x06F0) ||
    InDigitBlock(z, 0x07C0) || InDigitBlock(z, 0x0966) || InDigitBlock(z, 0x09E6) ||
    InDigitBlock(z, 0x0A66) || InDigitBlock(z, 0x0AE6) || InDigitBlock(z, 0x0B66) ||
    InDigitBlock(z, 0x0BE6) || InDigitBlock(z, 0x0C66) || InDigitBlock(z, 0x0CE6) ||
    InDigitBlock(z, 0x0D66) || InDigitBlock(z, 0x0DE6) || InDigitBlock(z, 0x0E50) ||
    InDigitBlock(z, 0x0ED0) || InDigitBlock(z, 0x0F20) || InDigitBlock(z, 0x1040) ||
    InDigitBlock(z, 0x1090) || InDigitBlock(z, 0x17E0) || InDigitBlock(z, 0x1810) ||
    InDigitBlock(z, 0x1946) || InDigitBlock(z, 0x19D0) || InDigitBlock(z, 0x1A80) ||
    InDigitBlock(z, 0x1A90) || InDigitBlock(z, 0x1B50) || InDigitBlock(z, 0x1BB0) ||
    InDigitBlock(z, 0x1C40) || InDigitBlock(z, 0x1C50) || InDigitBlock(z, 0xA620) ||
    InDigitBlock(z, 0xA8D0) || InDigitBlock(z, 0xA900) || InDigitBlock(z, 0xA9D0) ||
    InDigitBlock(z, 0xA9F0) || InDigitBlock(z, 0xAA50) || InDigitBlock(z, 0xABF0) ||
    InDigitBlock(z, 0xFF10) || InDigitBlock(z, 0x104A0) || InDigitBlock(z, 0x10D30) ||
    InDigitBlock(z, 0x11066) || InDigitBlock(z, 0x110F0) || InDigitBlock(z, 0x11136) ||
    InDigitBlock(z, 0x111D0) || InDigitBlock(z, 0x112F0) || InDigitBlock(z, 0x11450) ||
    InDigitBlock(z, 0x114D0) || InDigitBlock(z, 0x11650) || InDigitBlock(z, 0x116C0) ||
    InDigitBlock(z, 0x11730) || InDigitBlock(z, 0x118E0) || InDigitBlock(z, 0x11950) ||
    InDigitBlock(z, 0x11C50) || InDigitBlock(z, 0x11D50) || InDigitBlock(z, 0x11DA0) ||
    InDigitBlock(z, 0x11F50) || InDigitBlock(z, 0x16A60) || InDigitBlock(z, 0x16AC0) ||
    InDigitBlock(z, 0x16B50) || (0x1D7CE <= z <= 0x1D7FF) || InDigitBlock(z, 0x1E140) ||
    InDigitBlock(z, 0x1E2F0) || InDigitBlock(z, 0x1E4F0) || InDigitBlock(z, 0x1E950) ||
    InDigitBlock(z, 0x1FBF0)
  }

  /** `^(?i)#[\da-f]{6}$` as written. */
  predicate MatchesHexRegex(t: string) {
    |t| == 7 && t[0] == '#' &&
    forall i :: 1 <= i < 7 ==> IsUnicodeDigit(t[i]) || ('a' <= t[i] <= 'f') || ('A' <= t[i] <= 'F')
  }

  /** `hex_to_rgb` as written. Past the regex, a non-ASCII digit either
      splits a UTF-8 sequence at a slice bound or reaches
      `from_str_radix`, which rejects it; in both cases the program panics. */
  function HexToRgbAsWritten(hexCode: string): (p: HexParse)
    ensures p.Invalid? ==> p.code == Trim(hexCode)
  {
    var t := Trim(hexCode);
    if !MatchesHexRegex(t) then Invalid(t)
    else if IsHexCode(t) then Parsed(Color(ParseHexByte(t[1], t[2]), ParseHexByte(t[3], t[4]), ParseHexByte(t[5], t[6])))
    else Panic
  }

  /** The three outcomes of `hex_to_rgb` as written: a failed check
      reports the trimmed code, a passed check panics exactly when a digit
      is not ASCII, and otherwise the code parses. */
  lemma HexToRgbAsWrittenSpec(hexCode: string)
    ensures var t := Trim(hexCode);
      var p := HexToRgbAsWritten(hexCode);
      (p.Invalid? <==> !MatchesHexRegex(t)) &&
      (p.Panic? <==> MatchesHexRegex(t) && !IsHexCode(t)) &&
      (p.Parsed? <==> IsHexCode(t))
  {
    var t := Trim(hexCode);
    if IsHexCode(t) {
      HexCodeMatchesRegex(t);
    }
  }

  /** The corrected `hex_to_rgb`: only ASCII hexadecimal digits pass the
      check, so every accepted text is parsed and nothing panics. */
  function HexToRgb(hexCode: string): (p: HexParse)
    ensures !p.Panic?
    ensures p.Parsed? <==> IsHexCode(Trim(hexCode))
    ensures p.Invalid? ==> p.code == Trim(hexCode)
  {
    var t := Trim(hexCode);
    if IsHexCode(t) then Parsed(Color(ParseHexByte(t[1], t[2]), ParseHexByte(t[3], t[4]), ParseHexByte(t[5], t[6])))
    else Invalid(t)
  }

  lemma Hex2Value(v: byte)
    ensures IsAsciiHexDigit(Hex2(v)[0]) && IsAsciiHexDigit(Hex2(v)[1])
    ensures ParseHexByte(Hex2(v)[0], Hex2(v)[1]) == v
  {
    DigitValue(v / 16);
    DigitValue(v % 16);
  }

  /** Each upper-case digit reads back as its value. */
  lemma DigitValue(d: nat)
    requires d < 16
    ensures IsAsciiHexDigit(UpperHexDigits[d]) && HexValue(UpperHexDigits[d]) == d
  {
    if d < 10 {
      assert UpperHexDigits[d] == ('0' as int + d) as char;
    } else {
      assert UpperHexDigits[d] == ('A' as int + d - 10) as char;
    }
  }

  /** Every text the corrected check accepts also matches the regex as written. */
  lemma HexCodeMatchesRegex(t: string)
    requires IsHexCode(t)
    ensures MatchesHexRegex(t)
  {
    forall i | 1 <= i < 7
      ensures IsUnicodeDigit(t[i]) || ('a' <= t[i] <= 'f') || ('A' <= t[i] <= 'F')
    {
      if IsAsciiDigit(t[i]) {
        assert InDigitBlock(t[i] as int, 0x0030);
      }
    }
  }

  /** The channel digits of `hexadecimal_str` sit at offsets 1, 3 and 5. */
  lemma HexadecimalStrAt(c: Color)
    ensures var s := HexadecimalStr(c);
      s[1] == Hex2(c.r)[0] && s[2] == Hex2(c.r)[1] &&
      s[3] == Hex2(c.g)[0] && s[4] == Hex2(c.g)[1] &&
      s[5] == Hex2(c.b)[0] && s[6] == Hex2(c.b)[1]
  {
  }

  /** Round trip: parsing the hexadecimal text of a colour gives it back. */
  lemma HexRoundTrip(c: Color)
    ensures HexToRgb(HexadecimalStr(c)) == Parsed(c)
    ensures HexToRgbAsWritten(HexadecimalStr(c)) == Parsed(c)
  {
    var s := HexadecimalStr(c);
    TrimUnchanged(s);
    assert IsHexCode(s);
    HexCodeMatchesRegex(s);
    HexadecimalStrAt(c);
    Hex2Value(c.r);
    Hex2Value(c.g);
    Hex2Value(c.b);
  }

  /** On the texts the as-written version does not panic on, the two versions agree. */
  lemma HexToRgbAgrees(hexCode: string)
    requires !HexToRgbAsWritten(hexCode).Panic?
    ensures HexToRgbAsWritten(hexCode) == HexToRgb(hexCode)
  {
    var t := Trim(hexCode);
    if IsHexCode(t) {
      HexCodeMatchesRegex(t);
    }
  }

  function AsciiLower(ch: char): char {
    if 'A' <= ch <= 'Z' then (ch as int + 32) as char else ch
  }

  function AsciiLowerStr(t: string): (u: string)
    ensures |u| == |t| && forall i :: 0 <= i < |t| ==> u[i] == AsciiLower(t[i])
  {
    if t == [] then [] else [AsciiLower(t[0])] + AsciiLowerStr(t[1..])
  }

  /** Upper- and lower-case digits parse alike. */
  lemma HexCaseInsensitive(t: string)
    requires IsHexCode(t)
    ensures HexToRgb(AsciiLowerStr(t)) == HexToRgb(t)
    ensures HexToRgb(t).Parsed?
  {
    var u := AsciiLowerStr(t);
    forall i | 1 <= i < 7
      ensures IsAsciiHexDigit(u[i]) && HexValue(u[i]) == HexValue(t[i])
    {
      LowerHexDigit(t[i]);
    }
    SameDigitsSameColor(t, u);
    HexToRgbOfCode(t);
  }

  /** Two codes whose digits have the same values parse to the same colour. */
  lemma SameDigitsSameColor(t: string, u: string)
    requires IsHexCode(t) && IsHexCode(u)
    requires forall i :: 1 <= i < 7 ==> HexValue(u[i]) == HexValue(t[i])
    ensures HexToRgb(u) == HexToRgb(t)
  {
    assert ParseHexByte(u[1], u[2]) == ParseHexByte(t[1], t[2]);
    assert ParseHexByte(u[3], u[4]) == ParseHexByte(t[3], t[4]);
    assert ParseHexByte(u[5], u[6]) == ParseHexByte(t[5], t[6]);
    HexToRgbOfCode(t);
    HexToRgbOfCode(u);
  }

  /** A code that is already trimmed parses channel by channel. */
  lemma HexToRgbOfCode(t: string)
    requires IsHexCode(t)
    ensures HexToRgb(t) == Parsed(Color(ParseHexByte(t[1], t[2]), ParseHexByte(t[3], t[4]), ParseHexByte(t[5], t[6])))
  {
    TrimUnchanged(t);
  }

  lemma LowerHexDigit(ch: char)
    requires IsAsciiHexDigit(ch)
    ensures IsAsciiHexDigit(AsciiLower(ch)) && HexValue(AsciiLower(ch)) == HexValue(ch)
  {
  }

  lemma HexRejections()
    ensures HexToRgb("#GGGGGG").Invalid?
    ensures HexToRgb("#FFF").Invalid?
    ensures HexToRgb("FFFFFF").Invalid?
    ensures HexToRgb("").Invalid?
    ensures HexToRgbAsWritten("#GGGGGG").Invalid?
    ensures HexToRgbAsWritten("#FFF").Invalid?
    ensures HexToRgbAsWritten("FFFFFF").Invalid?
    ensures HexToRgbAsWritten("").Invalid?
  {
    RejectsBadDigits();
    RejectsShort();
    RejectsMissingHash();
    RejectedByBoth("");
  }

  // The cases of HexRejections, one code each.

  lemma RejectsBadDigits()
    ensures HexToRgbAsWritten("#GGGGGG").Invalid? && HexToRgb("#GGGGGG").Invalid?
  {
    var g := "#GGGGGG";
    assert g[0] == '#' && g[1] == 'G' && g[|g| - 1] == 'G';
    assert !IsWhiteSpace('#') && !IsWhiteSpace('G') && !IsUnicodeDigit('G');
    RejectedByBoth(g);
  }

  lemma RejectsShort()
    ensures HexToRgbAsWritten("#FFF").Invalid? && HexToRgb("#FFF").Invalid?
  {
    var f3 := "#FFF";
    assert f3[0] == '#' && f3[|f3| - 1] == 'F';
    assert !IsWhiteSpace('#') && !IsWhiteSpace('F');
    RejectedByBoth(f3);
  }

  lemma RejectsMissingHash()
    ensures HexToRgbAsWritten("FFFFFF").Invalid? && HexToRgb("FFFFFF").Invalid?
  {
    var f6 := "FFFFFF";
    assert f6[0] == 'F' && f6[|f6| - 1] == 'F';
    assert !IsWhiteSpace('F');
    RejectedByBoth(f6);
  }

  /** A code with no white space at either end that fails the check is
      reported as it stands by both parsers. */
  lemma RejectedByBoth(code: string)
    requires code == [] || (!IsWhiteSpace(code[0]) && !IsWhiteSpace(code[|code| - 1]))
    requires !MatchesHexRegex(code)
    ensures HexToRgbAsWritten(code) == Invalid(code) && HexToRgb(code) == Invalid(code)
  {
    if code != [] {
      TrimUnchanged(code);
    }
    if IsHexCode(code) {
      HexCodeMatchesRegex(code);
    }
  }

  /** Surrounding white space is ignored. */
  lemma HexTrimmed(c: Color)
    ensures HexToRgb(" " + HexadecimalStr(c) + "\n") == Parsed(c)
  {
    var t := HexadecimalStr(c);
    assert IsUpperHexDigit(t[6]);
    TrimPadded(t);
    HexRoundTrip(c);
  }

  /** A leading space and a trailing newline are trimmed away. */
  lemma TrimPadded(t: string)
    requires t != [] && !IsWhiteSpace(t[0]) && !IsWhiteSpace(t[|t| - 1])
    ensures Trim(" " + t + "\n") == t
  {
    var s := " " + t + "\n";
    assert s[1..] == t + "\n";
    assert TrimStart(s) == t + "\n";
    assert (t + "\n")[..|t|] == t;
    assert TrimEnd(t + "\n") == TrimEnd(t);
    TrimUnchanged(t);
  }

  /** Any code the regex as written accepts through a non-ASCII digit panics
      in the parse as written and is rejected by the corrected check. */
  lemma HexNonAsciiDigitPanics(t: string)
    requires MatchesHexRegex(t) && !IsHexCode(t)
    requires !IsWhiteSpace(t[6])
    ensures HexToRgbAsWritten(t) == Panic
    ensures HexToRgb(t) == Invalid(t)
  {
    TrimUnchanged(t);
  }

  const ArabicIndicZeros: string := "#\U{0660}\U{0660}\U{0660}\U{0660}\U{0660}\U{0660}"

  /** The regex as written lets Arabic-Indic digits through, and the parse then panics. */
  lemma HexArabicIndicDigitsPanic()
    ensures HexToRgbAsWritten(ArabicIndicZeros) == Panic
    ensures HexToRgb(ArabicIndicZeros).Invalid?
  {
    var t := ArabicIndicZeros;
    assert |t| == 7 && t[0] == '#';
    assert forall i :: 1 <= i < 7 ==> t[i] == '\U{0660}';
    assert IsUnicodeDigit('\U{0660}');
    assert !IsAsciiHexDigit(t[1]);
    HexNonAsciiDigitPanics(t);
  }
}
