/** Text assembly of `ColorsCanvas`: the colour strings, the comma-joined
    clipboard text and the styled spans built by `print` and `print_tui`,
    and the square-grid arithmetic of `draw`. */
module Canvas {
  import opened Colors
  import opened ColorMetric

  /** A piece of terminal text: a colour string drawn on its own colour, or
      plain text. */
  datatype Span = Styled(content: string, fg: Color, bg: Color, bold: bool) | Raw(content: string)

  /** The canvas settings; the source never updates them after `new`. */
  datatype ColorsCanvas = ColorsCanvas(colors: seq<Color>, showCanvas: bool, withRgb: bool, clipColors: bool)

  /** The two candidate text colours, black first. */
  const TextColors: seq<Color> := [Black, White]

  /** `rgb_str` with `with_rgb`, otherwise `hexadecimal_str`. */
  function ColorString(c: Color, withRgb: bool): string {
    if withRgb then RgbStr(c) else HexadecimalStr(c)
  }

  /** A colour string is at most 16 characters; the `RGB(...)` form is
      bracketed, and the hexadecimal form parses back to its colour. */
  lemma ColorStringReadsBack(c: Color, withRgb: bool)
    ensures var s := ColorString(c, withRgb);
      7 <= |s| <= 16 &&
      (withRgb ==> s[..4] == "RGB(" && s[|s| - 1] == ')') &&
      (!withRgb ==> HexToRgbAsWritten(s) == Parsed(c) && HexToRgb(s) == Parsed(c))
  {
    if !withRgb {
      var s := HexadecimalStr(c);
      assert ColorString(c, withRgb) == s;
      HexRoundTrip(c);
    }
  }

  /** Different colours get different strings, in either notation. */
  lemma ColorStringInjective(c1: Color, c2: Color, withRgb: bool)
    requires ColorString(c1, withRgb) == ColorString(c2, withRgb)
    ensures c1 == c2
  {
    if withRgb {
      RgbStrInjective(c1, c2);
    } else {
      HexRoundTrip(c1);
      HexRoundTrip(c2);
    }
  }

  /** The text colour of a span: the candidate contrasting most with the
      colour, black on a tie. */
  function TextColorFor(c: Color): Color {
    TextColors[FirstMaxContrast(c, TextColors, 2)]
  }

  /** The colour's span: its string, bold, on its own colour. */
  function SpanFor(c: Color, withRgb: bool): Span {
    Styled(ColorString(c, withRgb), TextColorFor(c), c, true)
  }

  /** Strings joined by `,`. */
  function Joined(strs: seq<string>): string
    decreases |strs|
  {
    if strs == [] then ""
    else if |strs| == 1 then strs[0]
    else Joined(strs[..|strs| - 1]) + "," + strs[|strs| - 1]
  }

  /** Spans with a raw `","` span between two neighbours. */
  function Separated(xs: seq<Span>): seq<Span>
    decreases |xs|
  {
    if xs == [] then []
    else if |xs| == 1 then [xs[0]]
    else Separated(xs[..|xs| - 1]) + [Raw(","), xs[|xs| - 1]]
  }

  /** Each colour's string, in palette order. */
  function ColorStrings(cs: seq<Color>, withRgb: bool): (strs: seq<string>)
    ensures |strs| == |cs|
  {
    seq(|cs|, k requires 0 <= k < |cs| => ColorString(cs[k], withRgb))
  }

  /** Each colour's span, in palette order. */
  function ColorSpans(cs: seq<Color>, withRgb: bool): (xs: seq<Span>)
    ensures |xs| == |cs|
  {
    seq(|cs|, k requires 0 <= k < |cs| => SpanFor(cs[k], withRgb))
  }

  /** The clipboard text: the colours' strings joined by `,`. */
  function ClipText(cs: seq<Color>, withRgb: bool): string {
    Joined(ColorStrings(cs, withRgb))
  }

  /** The span list of `print_tui`. */
  function TuiSpans(cs: seq<Color>, withRgb: bool): seq<Span> {
    Separated(ColorSpans(cs, withRgb))
  }

  /** The text the spans display, concatenated. */
  function SpansText(spans: seq<Span>): string
    decreases |spans|
  {
    if spans == [] then "" else SpansText(spans[..|spans| - 1]) + spans[|spans| - 1].content
  }

  /** The clipboard value: the joined text when `clip_colors` is set. */
  function ClipboardFor(cs: seq<Color>, withRgb: bool, clipColors: bool): Option<string> {
    if clipColors then Some(ClipText(cs, withRgb)) else None
  }

  // ---------------------------------------------------------------------
  // print_tui and print
  // ---------------------------------------------------------------------

  /** The text after the loop has handled the first `i` strings. */
  function TextAfter(strs: seq<string>, i: nat): string
    requires i <= |strs|
  {
    if i == 0 then "" else Joined(strs[..i]) + (if i < |strs| then "," else "")
  }

  /** The spans after the loop has handled the first `i` colour spans. */
  function SpansAfter(xs: seq<Span>, i: nat): seq<Span>
    requires i <= |xs|
  {
    if i == 0 then [] else Separated(xs[..i]) + (if i < |xs| then [Raw(",")] else [])
  }

  /** One pass of the loop: the string, then a comma unless it is the last. */
  lemma TextStep(strs: seq<string>, i: nat)
    requires i < |strs|
    ensures TextAfter(strs, i + 1) == TextAfter(strs, i) + strs[i] + (if i < |strs| - 1 then "," else "")
  {
    var t := strs[..i + 1];
    assert t[..|t| - 1] == strs[..i];
    assert t[|t| - 1] == strs[i];
  }

  /** One pass of the loop: the colour span, then a comma span unless it is the last. */
  lemma SpansStep(xs: seq<Span>, i: nat)
    requires i < |xs|
    ensures SpansAfter(xs, i + 1) == SpansAfter(xs, i) + [xs[i]] + (if i < |xs| - 1 then [Raw(",")] else [])
  {
    var t := xs[..i + 1];
    assert t[..|t| - 1] == xs[..i];
    assert t[|t| - 1] == xs[i];
  }

  /** After the last colour the loop has built the whole text and span list. */
  lemma PrintDone(strs: seq<string>, xs: seq<Span>)
    ensures TextAfter(strs, |strs|) == Joined(strs)
    ensures SpansAfter(xs, |xs|) == Separated(xs)
  {
    assert strs[..|strs|] == strs;
    assert xs[..|xs|] == xs;
  }

  /** The start of each pass: the text colour by `best_contrast` against
      black and white, the colour's string, and its bold span. */
  method StyleColor(col: Color, withRgb: bool) returns (colorStr: string, span: Span)
    ensures colorStr == ColorString(col, withRgb)
    ensures span == SpanFor(col, withRgb)
  {
    var txtCol := BestContrast(col, TextColors);
    assert txtCol == LastBeatingFirst(col, TextColors, 2);
    TextColorAsWritten(col);
    colorStr := ColorString(col, withRgb);
    span := Styled(colorStr, TextColors[txtCol], col, true);
  }

  /** `print_tui`: one styled span per colour, a raw `","` between two
      colours, and the same text for the clipboard. */
  method PrintTui(canvas: ColorsCanvas) returns (spans: seq<Span>, clip: Option<string>)
    ensures spans == TuiSpans(canvas.colors, canvas.withRgb)
    ensures clip == ClipboardFor(canvas.colors, canvas.withRgb, canvas.clipColors)
  {
    var colors, withRgb := canvas.colors, canvas.withRgb;
    ghost var strs, xs := ColorStrings(colors, withRgb), ColorSpans(colors, withRgb);
    var text := "";
    spans := [];
    for i := 0 to |colors|
      invariant text == TextAfter(strs, i)
      invariant spans == SpansAfter(xs, i)
    {
      var colorStr, span := StyleColor(colors[i], withRgb);
      TextStep(strs, i);
      SpansStep(xs, i);
      text := text + colorStr;
      spans := spans + [span];
      if i < |colors| - 1 {
        spans := spans + [Raw(",")];
        text := text + ",";
      }
    }
    PrintDone(strs, xs);
    clip := if canvas.clipColors then Some(text) else None;
  }

  /** `print`: the same spans as `print_tui`, followed by a line break. */
  method Print(canvas: ColorsCanvas) returns (out: seq<Span>, clip: Option<string>)
    ensures out == TuiSpans(canvas.colors, canvas.withRgb) + [Raw("\n")]
    ensures clip == ClipboardFor(canvas.colors, canvas.withRgb, canvas.clipColors)
  {
    var colors, withRgb := canvas.colors, canvas.withRgb;
    ghost var strs, xs := ColorStrings(colors, withRgb), ColorSpans(colors, withRgb);
    var text := "";
    out := [];
    for i := 0 to |colors|
      invariant text == TextAfter(strs, i)
      invariant out == SpansAfter(xs, i)
    {
      var colorStr, span := StyleColor(colors[i], withRgb);
      TextStep(strs, i);
      SpansStep(xs, i);
      text := text + colorStr;
      out := out + [span];
      if i < |colors| - 1 {
        out := out + [Raw(",")];
        text := text + ",";
      }
    }
    PrintDone(strs, xs);
    out := out + [Raw("\n")];
    clip := if canvas.clipColors then Some(text) else None;
  }

  /** The scan's index is the one `TextColorFor` picks. */
  lemma TextColorIsBest(c: Color, k: nat)
    requires IsFirstMaximum(c, TextColors, k)
    ensures TextColors[k] == TextColorFor(c)
  {
    var m := FirstMaxContrast(c, TextColors, 2);
    FirstMaxContrastSpec(c, TextColors, 2);
    assert TextColors[..2] == TextColors;
    FirstMaximumUnique(c, TextColors, k, m);
  }

  /** There is only one first maximum. */
  lemma FirstMaximumUnique(bg: Color, cs: seq<Color>, k: nat, m: nat)
    requires IsFirstMaximum(bg, cs, k) && IsFirstMaximum(bg, cs, m)
    ensures k == m
  {
    assert ContrastWith(bg, cs[k]) == ContrastWith(bg, cs[m]);
  }

  // ---------------------------------------------------------------------
  // Properties of the text
  // ---------------------------------------------------------------------

  /** Black text on colours at least half bright, white text otherwise. */
  lemma TextColorChoice(c: Color)
    ensures TextColorFor(c) == if 2.0 * Brightness(c) >= 255.0 then Black else White
  {
    assert TextColors[..1] == [Black];
    assert ContrastWith(c, Black) == Brightness(c);
    assert ContrastWith(c, White) == 255.0 - Brightness(c);
  }

  /** The text colour is the one `best_contrast` as written would return:
      with two candidates the two scans agree. */
  lemma TextColorAsWritten(c: Color)
    ensures TextColorFor(c) == TextColors[LastBeatingFirst(c, TextColors, 2)]
  {
    BestContrastOfTwo(c, TextColors);
  }

  /** n spans separated give 2n - 1 spans: the given ones at even positions,
      raw commas at odd positions. */
  lemma {:induction false} SeparatedShape(xs: seq<Span>)
    requires xs != []
    ensures |Separated(xs)| == 2 * |xs| - 1
    ensures forall k :: 0 <= k < |xs| ==> Separated(xs)[2 * k] == xs[k]
    ensures forall k :: 0 <= k < |xs| - 1 ==> Separated(xs)[2 * k + 1] == Raw(",")
    decreases |xs|
  {
    if |xs| > 1 {
      var init := xs[..|xs| - 1];
      SeparatedShape(init);
      var p := Separated(init);
      var r := Separated(xs);
      assert r == p + [Raw(","), xs[|xs| - 1]];
      forall k | 0 <= k < |xs|
        ensures r[2 * k] == xs[k]
      {
        if k < |xs| - 1 {
          assert r[2 * k] == p[2 * k];
          assert init[k] == xs[k];
        }
      }
      forall k | 0 <= k < |xs| - 1
        ensures r[2 * k + 1] == Raw(",")
      {
        if k < |xs| - 2 {
          assert r[2 * k + 1] == p[2 * k + 1];
        }
      }
    }
  }

  /** For n colours `print_tui` yields 2n - 1 spans: colour k's span, with
      the colour as background and the better of black and white as
      foreground, at position 2k, and raw commas between. */
  lemma TuiSpansShape(cs: seq<Color>, withRgb: bool)
    requires cs != []
    ensures |TuiSpans(cs, withRgb)| == 2 * |cs| - 1
    ensures forall k :: 0 <= k < |cs| ==>
      TuiSpans(cs, withRgb)[2 * k] == Styled(ColorString(cs[k], withRgb), TextColorFor(cs[k]), cs[k], true)
    ensures forall k :: 0 <= k < |cs| - 1 ==> TuiSpans(cs, withRgb)[2 * k + 1] == Raw(",")
  {
    SeparatedShape(ColorSpans(cs, withRgb));
  }

  lemma SpansTextAppend(a: seq<Span>, b: seq<Span>)
    ensures SpansText(a + b) == SpansText(a) + SpansText(b)
    decreases |b|
  {
    if b != [] {
      var b' := b[..|b| - 1];
      assert (a + b)[..|a + b| - 1] == a + b';
      SpansTextAppend(a, b');
    } else {
      assert a + b == a;
    }
  }

  /** The text of each span. */
  function Contents(xs: seq<Span>): (strs: seq<string>)
    ensures |strs| == |xs|
  {
    seq(|xs|, k requires 0 <= k < |xs| => xs[k].content)
  }

  /** Separated spans display the joined text of their contents. */
  lemma {:induction false} SeparatedText(xs: seq<Span>)
    ensures SpansText(Separated(xs)) == Joined(Contents(xs))
    decreases |xs|
  {
    if |xs| == 1 {
      assert SpansText([xs[0]]) == SpansText([]) + xs[0].content;
    } else if |xs| > 1 {
      var init := xs[..|xs| - 1];
      var tail := [Raw(","), xs[|xs| - 1]];
      SeparatedText(init);
      SpansTextAppend(Separated(init), tail);
      assert tail[..1] == [Raw(",")];
      assert SpansText(tail) == SpansText([Raw(",")]) + xs[|xs| - 1].content;
      assert SpansText([Raw(",")]) == SpansText([]) + ",";
      var c := Contents(xs);
      assert c[..|c| - 1] == Contents(init);
    }
  }

  /** The spans display exactly the clipboard text. */
  lemma SpansShowClipText(cs: seq<Color>, withRgb: bool)
    ensures SpansText(TuiSpans(cs, withRgb)) == ClipText(cs, withRgb)
  {
    SeparatedText(ColorSpans(cs, withRgb));
    assert Contents(ColorSpans(cs, withRgb)) == ColorStrings(cs, withRgb);
  }

  /** A join ends with the last string. */
  lemma JoinedEnd(strs: seq<string>)
    requires strs != [] && strs[|strs| - 1] != ""
    ensures var t := Joined(strs); t != [] && t[|t| - 1] == strs[|strs| - 1][|strs[|strs| - 1]| - 1]
  {
  }

  /** The clipboard text never ends with a comma: it ends with the last colour's string. */
  lemma ClipTextEnds(cs: seq<Color>, withRgb: bool)
    requires cs != []
    ensures var t := ClipText(cs, withRgb);
      t != [] && t[|t| - 1] != ',' && t[|t| - 1] == ColorString(cs[|cs| - 1], withRgb)[|ColorString(cs[|cs| - 1], withRgb)| - 1]
  {
    var strs := ColorStrings(cs, withRgb);
    var s := strs[|strs| - 1];
    JoinedEnd(strs);
    if !withRgb {
      assert IsUpperHexDigit(s[6]);
    }
  }

  /** Seven-character strings join into 8n - 1 characters: string k at
      offset 8k, a comma after every one but the last. */
  lemma {:induction false} JoinedBlocks(strs: seq<string>, k: nat)
    requires k < |strs| && forall j :: 0 <= j < |strs| ==> |strs[j]| == 7
    ensures |Joined(strs)| == 8 * |strs| - 1
    ensures Joined(strs)[8 * k..8 * k + 7] == strs[k]
    ensures k < |strs| - 1 ==> Joined(strs)[8 * k + 7] == ','
    decreases |strs|
  {
    if |strs| > 1 {
      var init := strs[..|strs| - 1];
      var p := Joined(init);
      var h := strs[|strs| - 1];
      if k < |strs| - 1 {
        JoinedBlocks(init, k);
        JoinedPrefix(p, h, 8 * k, 8 * k + 7);
        if k < |strs| - 2 {
          JoinedPrefix(p, h, 8 * k + 7, 8 * k + 8);
        } else {
          JoinedComma(p, h);
        }
      } else {
        JoinedBlocks(init, 0);
        JoinedSuffix(p, h);
      }
    }
  }

  /** Text before the joining comma is unchanged by the join. */
  lemma JoinedPrefix(p: string, h: string, i: nat, j: nat)
    requires i <= j <= |p|
    ensures (p + "," + h)[i..j] == p[i..j]
  {
  }

  lemma JoinedComma(p: string, h: string)
    ensures (p + "," + h)[|p|] == ','
  {
  }

  lemma JoinedSuffix(p: string, h: string)
    ensures (p + "," + h)[|p| + 1..|p| + 1 + |h|] == h
  {
  }

  /** In hexadecimal mode the clipboard holds 8n - 1 characters: colour k's
      `#RRGGBB` at offset 8k, a comma after every one but the last. */
  lemma ClipTextHexLayout(cs: seq<Color>, k: nat)
    requires k < |cs|
    ensures |ClipText(cs, false)| == 8 * |cs| - 1
    ensures ClipText(cs, false)[8 * k..8 * k + 7] == HexadecimalStr(cs[k])
    ensures k < |cs| - 1 ==> ClipText(cs, false)[8 * k + 7] == ','
  {
    JoinedBlocks(ColorStrings(cs, false), k);
  }

  /** In hexadecimal mode the clipboard text parses back to the palette. */
  lemma ClipTextHexRoundTrip(cs: seq<Color>, k: nat)
    requires k < |cs|
    ensures |ClipText(cs, false)| == 8 * |cs| - 1
    ensures HexToRgb(ClipText(cs, false)[8 * k..8 * k + 7]) == Parsed(cs[k])
  {
    ClipTextHexLayout(cs, k);
    HexRoundTrip(cs[k]);
  }

  /** The padding after a square's label, `2 * square_c - len`, never underflows. */
  lemma LabelFitsSquare(c: Color, withRgb: bool)
    ensures |ColorString(c, withRgb)| <= 2 * SquareSide(withRgb)
  {
  }

  // ---------------------------------------------------------------------
  // The grid arithmetic of draw
  // ---------------------------------------------------------------------

  /** `square_c`: 8 with RGB labels, 4 with hexadecimal ones. */
  function SquareSide(withRgb: bool): nat {
    if withRgb then 8 else 4
  }

  /** Row and column spacing. */
  const Spacing: nat := 2

  /** The width of one grid cell: a square two characters per side unit, plus spacing. */
  function CellWidth(withRgb: bool): nat {
    2 * SquareSide(withRgb) + Spacing
  }

  /** The grid of `draw`: columns that fit the terminal width, and rows. */
  datatype Grid = Grid(nbCol: nat, nbRow: nat)

  /** `ceil(n / d)` over the exact quotient. */
  function CeilDiv(n: nat, d: nat): nat
    requires d > 0
  {
    if n % d == 0 then n / d else n / d + 1
  }

  /** The layout for `n` colours on a terminal `width` columns wide. With no
      room for a single column, `n / 0` in floating point is infinite and
      the row count saturates, so the line counter overflows; that case is
      `None`. With no colours and no room it is NaN, which converts to 0. */
  function LayoutOf(n: nat, width: nat, withRgb: bool): (g: Option<Grid>)
    ensures g.Some? <==> n == 0 || width >= CellWidth(withRgb)
    ensures g.Some? ==> g.value.nbCol == width / CellWidth(withRgb)
  {
    var nbCol := width / CellWidth(withRgb);
    if nbCol == 0 then (if n == 0 then Some(Grid(0, 0)) else None)
    else Some(Grid(nbCol, CeilDiv(n, nbCol)))
  }

  /** The last row is short when the squares do not fill the grid. */
  predicate ShortLastRow(n: nat, g: Grid) {
    n != g.nbRow * g.nbCol
  }

  /** `line_nb_squares` for row `r`. */
  function RowSquares(n: nat, g: Grid, r: nat): nat
    requires g.nbCol > 0
  {
    if r == g.nbRow - 1 && ShortLastRow(n, g) then n % g.nbCol else g.nbCol
  }

  /** The left margin `m` of row `r`: half the width of the missing squares. */
  function RowMargin(n: nat, g: Grid, r: nat, withRgb: bool): nat
    requires g.nbCol > 0
  {
    if r == g.nbRow - 1 && ShortLastRow(n, g) then (g.nbCol - n % g.nbCol) * CellWidth(withRgb) / 2 else 0
  }

  /** Dividing `n` by `d` leaves `n % d` after `n / d` whole rows. */
  lemma DivModParts(n: nat, d: nat)
    requires d > 0
    ensures n == (n / d) * d + n % d && 0 <= n % d < d
  {
  }

  /** `n` squares take `CeilDiv(n, nbCol)` rows: the rows hold them all and
      the last row is not empty. */
  lemma RowCount(n: nat, width: nat, withRgb: bool)
    requires width >= CellWidth(withRgb)
    ensures var g := LayoutOf(n, width, withRgb).value;
      g.nbCol > 0 && n <= g.nbRow * g.nbCol && (n > 0 ==> (g.nbRow - 1) * g.nbCol < n) && (n == 0 ==> g.nbRow == 0)
  {
    var g := LayoutOf(n, width, withRgb).value;
    var d := g.nbCol;
    DivModParts(n, d);
    var q := n / d;
    if n % d == 0 {
      assert g.nbRow == q;
      assert (q - 1) * d == q * d - d;
    } else {
      assert g.nbRow == q + 1;
      assert (q + 1) * d == q * d + d;
    }
  }

  /** Every row but the last is full, and the rows hold exactly `n` squares. */
  lemma GridCovers(n: nat, width: nat, withRgb: bool)
    requires width >= CellWidth(withRgb) && n > 0
    ensures var g := LayoutOf(n, width, withRgb).value;
      (forall r :: 0 <= r < g.nbRow - 1 ==> RowSquares(n, g, r) == g.nbCol) &&
      0 < RowSquares(n, g, g.nbRow - 1) &&
      (g.nbRow - 1) * g.nbCol + RowSquares(n, g, g.nbRow - 1) == n
  {
    var g := LayoutOf(n, width, withRgb).value;
    var d := g.nbCol;
    RowCount(n, width, withRgb);
    DivModParts(n, d);
    var q := n / d;
    if n % d == 0 {
      assert g.nbRow == q;
      assert q * d == n;
      assert (q - 1) * d + d == q * d;
    } else {
      assert g.nbRow == q + 1;
      assert (q + 1) * d == q * d + d;
      assert ShortLastRow(n, g);
    }
  }

  /** Square `k` is drawn in row `k / nbCol`, column `k % nbCol`. */
  lemma IndexToCell(n: nat, width: nat, withRgb: bool, k: nat)
    requires width >= CellWidth(withRgb) && k < n
    ensures var g := LayoutOf(n, width, withRgb).value;
      k / g.nbCol < g.nbRow && k % g.nbCol < RowSquares(n, g, k / g.nbCol)
  {
    var g := LayoutOf(n, width, withRgb).value;
    var d := g.nbCol;
    GridCovers(n, width, withRgb);
    RowCount(n, width, withRgb);
    DivModParts(k, d);
    var row := k / d;
    if g.nbRow <= row {
      MulMonotone(g.nbRow, row, d);
    }
    if row == g.nbRow - 1 && ShortLastRow(n, g) {
      assert row * d + k % d == k;
    }
  }

  /** Every cell a row draws holds a colour index below `n`, so the index
      checks of `draw` always pass. */
  lemma CellToIndex(n: nat, width: nat, withRgb: bool, r: nat, c: nat)
    requires width >= CellWidth(withRgb)
    requires r < LayoutOf(n, width, withRgb).value.nbRow
    requires c < RowSquares(n, LayoutOf(n, width, withRgb).value, r)
    ensures r * LayoutOf(n, width, withRgb).value.nbCol + c < n
  {
    var g := LayoutOf(n, width, withRgb).value;
    var d := g.nbCol;
    RowCount(n, width, withRgb);
    GridCovers(n, width, withRgb);
    if r < g.nbRow - 1 {
      assert r * d + c < (r + 1) * d;
      MulMonotone(r + 1, g.nbRow - 1, d);
    }
  }

  /** The short last row is centred: equal margins fill the missing cells,
      and no row is wider than the terminal. */
  lemma RowFits(n: nat, width: nat, withRgb: bool, r: nat)
    requires width >= CellWidth(withRgb) && r < LayoutOf(n, width, withRgb).value.nbRow
    ensures var g := LayoutOf(n, width, withRgb).value;
      2 * RowMargin(n, g, r, withRgb) + RowSquares(n, g, r) * CellWidth(withRgb) == g.nbCol * CellWidth(withRgb) &&
      g.nbCol * CellWidth(withRgb) <= width
  {
    var g := LayoutOf(n, width, withRgb).value;
    var w := CellWidth(withRgb);
    var d := g.nbCol;
    DivModParts(width, w);
    if r == g.nbRow - 1 && ShortLastRow(n, g) {
      var m := n % d;
      assert RowMargin(n, g, r, withRgb) == (d - m) * w / 2 && RowSquares(n, g, r) == m;
      EvenHalf(d - m, SquareSide(withRgb) + 1);
      SplitProduct(d, m, w);
    }
  }

  /** Half of an even product is exact. */
  lemma EvenHalf(x: nat, h: nat)
    ensures 2 * (x * (2 * h) / 2) == x * (2 * h)
  {
    assert x * (2 * h) == 2 * (x * h);
  }

  lemma SplitProduct(d: nat, m: nat, w: nat)
    requires m <= d
    ensures (d - m) * w + m * w == d * w
  {
  }
}
