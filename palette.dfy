/** Palette post-processing (`ImageFile::get_colors_from_images`): choose the
    quantizer's input, call the quantizer, and, when a reference colour is
    given, stable-sort the palette by decreasing contrast against it. */
module Palette {
  import opened Colors
  import opened ColorMetric
  import opened ImageFilter

  /** The quality argument always passed to the quantizer. */
  const Quality: nat := 10

  /** `color_thief::get_palette(bytes, format, quality, max_colors)`, whose
      algorithm is not part of this model. */
  type Quantizer = (seq<byte>, ColorFormat, nat, nat) -> seq<Color>

  /** The buffer and format handed to the quantizer. */
  datatype QuantizerInput = QuantizerInput(bytes: seq<byte>, format: ColorFormat)

  /** With exclusions, the filtered RGB bytes: whole pixels, exactly the
      ones far from every excluded colour. Without, the image's own bytes
      in the image's own format. */
  function InputFor(img: DynamicImage, excluded: seq<Color>): (q: QuantizerInput)
    requires Supported(img)
    ensures excluded != [] ==>
      q.format == Rgb && q.bytes == FilteredBytes(img, excluded) && |q.bytes| % 3 == 0 &&
      forall x :: x in DecodePixels(q.bytes, Rgb, 3) <==> x in Pixels(img) && KeepPixel(x, excluded)
    ensures excluded == [] ==> q.format == ColorFormatOf(img).value && q.bytes == img.bytes
  {
    if excluded != [] then
      FilteredPixels(img, excluded);
      QuantizerInput(FilteredBytes(img, excluded), Rgb)
    else QuantizerInput(img.bytes, ColorFormatOf(img).value)
  }

  // ---------------------------------------------------------------------
  // The contrast sort
  // ---------------------------------------------------------------------

  /** The sort key: contrast against the reference colour. */
  function Key(c: Color, cc: Color): real {
    ContrastWith(c, cc)
  }

  /** Non-increasing by contrast against `cc`. */
  predicate SortedDesc(s: seq<Color>, cc: Color) {
    forall i, j :: 0 <= i < j < |s| ==> Key(s[i], cc) >= Key(s[j], cc)
  }

  /** Insert `x` after every element whose contrast is at least its own,
      scanning from the back, as one step of a stable insertion sort. */
  function InsertDesc(x: Color, s: seq<Color>, cc: Color): (r: seq<Color>)
    ensures |r| == |s| + 1
    decreases |s|
  {
    if s == [] || Key(s[|s| - 1], cc) >= Key(x, cc) then s + [x]
    else InsertDesc(x, s[..|s| - 1], cc) + [s[|s| - 1]]
  }

  /** `sort_by` with the reversed contrast comparison: a stable sort into
      non-increasing contrast. */
  function StableSortDesc(s: seq<Color>, cc: Color): (r: seq<Color>)
    ensures |r| == |s|
    decreases |s|
  {
    if s == [] then [] else InsertDesc(s[|s| - 1], StableSortDesc(s[..|s| - 1], cc), cc)
  }

  /** The elements of `s` whose contrast against `cc` is exactly `k`, in order. */
  function WithKey(s: seq<Color>, cc: Color, k: real): seq<Color>
    decreases |s|
  {
    if s == [] then []
    else WithKey(s[..|s| - 1], cc, k) + (if Key(s[|s| - 1], cc) == k then [s[|s| - 1]] else [])
  }

  lemma {:induction false} InsertDescPermutation(x: Color, s: seq<Color>, cc: Color)
    ensures multiset(InsertDesc(x, s, cc)) == multiset(s) + multiset{x}
    decreases |s|
  {
    if s != [] && Key(s[|s| - 1], cc) < Key(x, cc) {
      var init, last := s[..|s| - 1], s[|s| - 1];
      InsertDescPermutation(x, init, cc);
      assert s == init + [last];
    }
  }

  lemma {:induction false} InsertDescSorted(x: Color, s: seq<Color>, cc: Color)
    requires SortedDesc(s, cc)
    ensures SortedDesc(InsertDesc(x, s, cc), cc)
    ensures forall i :: 0 <= i < |InsertDesc(x, s, cc)| ==>
      Key(InsertDesc(x, s, cc)[i], cc) >= Key(x, cc) || (s != [] && Key(InsertDesc(x, s, cc)[i], cc) >= Key(s[|s| - 1], cc))
    decreases |s|
  {
    if s != [] && Key(s[|s| - 1], cc) < Key(x, cc) {
      var init, last := s[..|s| - 1], s[|s| - 1];
      InsertDescSorted(x, init, cc);
      var r := InsertDesc(x, init, cc);
      forall i | 0 <= i < |r|
        ensures Key(r[i], cc) >= Key(last, cc)
      {
        if init != [] && Key(r[i], cc) < Key(x, cc) {
          assert Key(r[i], cc) >= Key(init[|init| - 1], cc);
          assert Key(s[|init| - 1], cc) >= Key(s[|s| - 1], cc);
        }
      }
    }
  }

  lemma {:induction false} InsertDescStable(x: Color, s: seq<Color>, cc: Color, k: real)
    ensures WithKey(InsertDesc(x, s, cc), cc, k) == WithKey(s, cc, k) + (if Key(x, cc) == k then [x] else [])
    decreases |s|
  {
    if s == [] || Key(s[|s| - 1], cc) >= Key(x, cc) {
      assert (s + [x])[..|s|] == s;
    } else {
      var init, last := s[..|s| - 1], s[|s| - 1];
      var r := InsertDesc(x, init, cc);
      InsertDescStable(x, init, cc, k);
      assert (r + [last])[..|r|] == r;
    }
  }

  /** The contrast sort is non-increasing by contrast. */
  lemma {:induction false} SortIsSorted(s: seq<Color>, cc: Color)
    ensures SortedDesc(StableSortDesc(s, cc), cc)
    decreases |s|
  {
    if s != [] {
      SortIsSorted(s[..|s| - 1], cc);
      InsertDescSorted(s[|s| - 1], StableSortDesc(s[..|s| - 1], cc), cc);
    }
  }

  /** The contrast sort rearranges the palette: same colours, same multiplicities. */
  lemma {:induction false} SortIsPermutation(s: seq<Color>, cc: Color)
    ensures multiset(StableSortDesc(s, cc)) == multiset(s)
    decreases |s|
  {
    if s != [] {
      var init, last := s[..|s| - 1], s[|s| - 1];
      var r := StableSortDesc(init, cc);
      assert StableSortDesc(s, cc) == InsertDesc(last, r, cc);
      SortIsPermutation(init, cc);
      InsertDescPermutation(last, r, cc);
      assert s == init + [last];
      assert multiset(s) == multiset(init) + multiset{last};
    }
  }

  /** The contrast sort is stable: colours of equal contrast keep their order. */
  lemma {:induction false} SortIsStable(s: seq<Color>, cc: Color, k: real)
    ensures WithKey(StableSortDesc(s, cc), cc, k) == WithKey(s, cc, k)
    decreases |s|
  {
    if s != [] {
      SortIsStable(s[..|s| - 1], cc, k);
      InsertDescStable(s[|s| - 1], StableSortDesc(s[..|s| - 1], cc), cc, k);
    }
  }

  /** The palette vector sorted in place by `sort_by`, one insertion at a time. */
  method SortByContrast(a: array<Color>, cc: Color)
    modifies a
    ensures a[..] == StableSortDesc(old(a[..]), cc)
  {
    ghost var s := a[..];
    for i := 0 to a.Length
      invariant a[..i] == StableSortDesc(s[..i], cc)
      invariant a[i..] == s[i..]
    {
      assert a[i] == s[i];
      ghost var p := a[..i];
      var j := InsertAt(a, i, p, cc);
      SortStep(s, i, p, j, cc);
      assert a[i + 1..] == s[i + 1..];
    }
    assert s[..a.Length] == s;
  }

  /** One pass of the outer loop: inserting `s[i]` where the shift stops
      extends the sorted prefix `p` by one element. */
  lemma SortStep(s: seq<Color>, i: nat, p: seq<Color>, j: nat, cc: Color)
    requires i < |s| && j <= i && p == StableSortDesc(s[..i], cc)
    requires j == 0 || Key(p[j - 1], cc) >= Key(s[i], cc)
    requires forall k :: j <= k < i ==> Key(p[k], cc) < Key(s[i], cc)
    ensures StableSortDesc(s[..i + 1], cc) == p[..j] + [s[i]] + p[j..]
  {
    assert s[..i + 1][..i] == s[..i];
    assert s[..i + 1][i] == s[i];
    InsertDescAt(s[i], p, j, cc);
  }

  /** Shift `a[i]` left past the elements of smaller contrast just before it;
      `j` is where it lands among the first `i` elements `p`. */
  method InsertAt(a: array<Color>, i: nat, ghost p: seq<Color>, cc: Color) returns (j: nat)
    requires i < a.Length && p == a[..i]
    modifies a
    ensures j <= i
    ensures j == 0 || Key(p[j - 1], cc) >= Key(old(a[i]), cc)
    ensures forall k :: j <= k < i ==> Key(p[k], cc) < Key(old(a[i]), cc)
    ensures a[..i + 1] == p[..j] + [old(a[i])] + p[j..]
    ensures a[i + 1..] == old(a[i + 1..])
  {
    var x := a[i];
    var kx := Key(x, cc);
    ghost var rest := a[i + 1..];
    j := i;
    while j > 0 && Key(a[j - 1], cc) < kx
      invariant 0 <= j <= i
      invariant forall k :: 0 <= k < j ==> a[k] == p[k]
      invariant forall k :: j < k <= i ==> a[k] == p[k - 1]
      invariant a[i + 1..] == rest
      invariant forall k :: j <= k < i ==> Key(p[k], cc) < kx
    {
      a[j] := a[j - 1];
      j := j - 1;
    }
    a[j] := x;
    assert a[i + 1..] == rest;
    Shifted(a[..], p, i, j, x);
  }

  /** The array after the shift: `p` with `x` placed at `j`. */
  lemma Shifted(b: seq<Color>, p: seq<Color>, i: nat, j: nat, x: Color)
    requires j <= i < |b| && |p| == i
    requires forall k :: 0 <= k < j ==> b[k] == p[k]
    requires b[j] == x
    requires forall k :: j < k <= i ==> b[k] == p[k - 1]
    ensures b[..i + 1] == p[..j] + [x] + p[j..]
  {
    assert b[..j] == p[..j];
    assert b[j + 1..i + 1] == p[j..];
    assert b[..i + 1] == b[..j] + [x] + b[j + 1..i + 1];
  }

  /** Inserting `x` lands it after the last element of contrast at least its
      own, when everything after that point has smaller contrast. */
  lemma {:induction false} InsertDescAt(x: Color, t: seq<Color>, j: nat, cc: Color)
    requires j <= |t| && (j == 0 || Key(t[j - 1], cc) >= Key(x, cc))
    requires forall k :: j <= k < |t| ==> Key(t[k], cc) < Key(x, cc)
    ensures InsertDesc(x, t, cc) == t[..j] + [x] + t[j..]
    decreases |t|
  {
    if |t| == j {
      assert t[..j] == t && t[j..] == [];
    } else {
      var init := t[..|t| - 1];
      InsertDescAt(x, init, j, cc);
      assert init[..j] == t[..j];
      assert t[j..] == init[j..] + [t[|t| - 1]];
    }
  }

  // ---------------------------------------------------------------------
  // get_colors_from_images
  // ---------------------------------------------------------------------

  /** The palette as the quantizer returns it. */
  function RawPalette(img: DynamicImage, nbColors: nat, excluded: seq<Color>, getPalette: Quantizer): seq<Color>
    requires Supported(img)
  {
    var q := InputFor(img, excluded);
    getPalette(q.bytes, q.format, Quality, nbColors)
  }

  /** `get_colors_from_images` for a decoded, supported image. */
  method GetColorsFromImages(img: DynamicImage, nbColors: nat, excluded: seq<Color>, bcColor: Option<Color>,
                             getPalette: Quantizer) returns (colors: seq<Color>)
    requires WellFormed(img) && Supported(img) && nbColors < 256
    ensures bcColor.None? ==> colors == RawPalette(img, nbColors, excluded, getPalette)
    ensures bcColor.Some? ==> colors == StableSortDesc(RawPalette(img, nbColors, excluded, getPalette), bcColor.value)
  {
    var fv := FilteredImageBytes(img, excluded);
    var colorBytes, colorFormat;
    if excluded != [] {
      colorBytes, colorFormat := fv.value, Rgb;
    } else {
      colorBytes, colorFormat := img.bytes, ColorFormatOf(img).value;
    }
    var palette := getPalette(colorBytes, colorFormat, Quality, nbColors);
    if bcColor.Some? {
      var a := new Color[|palette|](k requires 0 <= k < |palette| => palette[k]);
      assert a[..] == palette;
      SortByContrast(a, bcColor.value);
      colors := a[..];
    } else {
      colors := palette;
    }
  }

  /** What the caller receives: the quantizer's colours, all of them, in its
      order without a reference colour and stably sorted by decreasing
      contrast with one. */
  lemma PaletteProperties(img: DynamicImage, nbColors: nat, excluded: seq<Color>, cc: Color, getPalette: Quantizer, k: real)
    requires Supported(img)
    ensures var raw := RawPalette(img, nbColors, excluded, getPalette);
      var sorted := StableSortDesc(raw, cc);
      |sorted| == |raw| && multiset(sorted) == multiset(raw) && SortedDesc(sorted, cc) &&
      WithKey(sorted, cc, k) == WithKey(raw, cc, k)
  {
    var raw := RawPalette(img, nbColors, excluded, getPalette);
    SortIsSorted(raw, cc);
    SortIsPermutation(raw, cc);
    SortIsStable(raw, cc, k);
  }

  /** Duplicates survive the sort: each colour occurs as often as the quantizer returned it. */
  lemma SortKeepsDuplicates(s: seq<Color>, cc: Color, x: Color)
    ensures multiset(StableSortDesc(s, cc))[x] == multiset(s)[x]
  {
    SortIsPermutation(s, cc);
  }
}
