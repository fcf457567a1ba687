/** The command-line front end: its own simpler file browser (list,
    input mode, key transitions), the choice of image files in a
    directory listing, the choice of the reference colour, the parsing of
    the colours to exclude, and the capture of an image path from the
    argument when it is not a directory. */
module MainApp {
  import opened Colors
  import opened KeyEvents
  import opened Selection
  import opened Strings
  import ColorMetric

  // ---------------------------------------------------------------------
  // File list and key transitions

  /** The list of image file names and the selected index. */
  class FileList {
    var items: seq<string>
    var selected: Option<nat>

    constructor WithItems(items: seq<string>)
      ensures this.items == items && selected == None
    {
      this.items := items;
      selected := None;
    }

    /** Moves down, wrapping to the top; a selection on an empty list
        underflows `len() - 1` in the source. */
    method Next()
      requires |items| > 0 || selected.None?
      modifies this
      ensures items == old(items)
      ensures selected == Some(NextIndex(old(selected), |items|))
    {
      var i := match selected
        case Some(i) => if i >= |items| - 1 then 0 else i + 1
        case None => 0;
      selected := Some(i);
    }

    /** Moves up, wrapping to the bottom. */
    method Previous()
      requires |items| > 0 || selected.None?
      modifies this
      ensures items == old(items)
      ensures selected == Some(PreviousIndex(old(selected), |items|))
    {
      var i := match selected
        case Some(i) => if i == 0 then |items| - 1 else i - 1
        case None => 0;
      selected := Some(i);
    }

    method Unselect()
      modifies this
      ensures items == old(items) && selected == None
    {
      selected := None;
    }
  }

  /** The browser's input mode and selection. */
  datatype BrowserState = BrowserState(mode: InputMode, selected: Option<nat>)

  /** What one key does: the new state, and whether the loop returns. */
  datatype BrowserOutcome = BrowserOutcome(state: BrowserState, quit: bool)

  predicate ValidBrowser(s: BrowserState, len: nat) {
    (s.mode == Normal <==> s.selected.None?) &&
    (len > 0 ==> InRange(s.selected, len))
  }

  predicate BrowserKeyAllowed(s: BrowserState, len: nat, key: KeyEvent) {
    IsMoveKey(key) ==> len > 0 || s.selected.None?
  }

  /** The reference transition of this browser's event loop. */
  function BrowserStep(s: BrowserState, len: nat, key: KeyEvent): BrowserOutcome
    requires BrowserKeyAllowed(s, len, key)
  {
    if key.kind != Press then BrowserOutcome(s, false)
    else
      match key.code
      case Char(ch) => BrowserOutcome(s, ch == 'q')
      case Down => BrowserOutcome(BrowserState(Browsing, Some(NextIndex(s.selected, len))), false)
      case Up => BrowserOutcome(BrowserState(Browsing, Some(PreviousIndex(s.selected, len))), false)
      case Left =>
        BrowserOutcome(if s.mode == Browsing then BrowserState(Normal, None) else s, false)
      case _ => BrowserOutcome(s, false)
  }

  /** Only a pressed lower-case q quits, in either mode; upper-case Q does
      not. A quitting key changes nothing. */
  lemma BrowserQuits(s: BrowserState, len: nat, key: KeyEvent)
    requires BrowserKeyAllowed(s, len, key)
    ensures BrowserStep(s, len, key).quit <==> IsPress(key, Char('q'))
    ensures BrowserStep(s, len, key).quit ==> BrowserStep(s, len, key).state == s
    ensures !BrowserStep(s, len, KeyEvent(Press, Char('Q'), key.ctrl)).quit
  {
  }

  /** Every key keeps the mode and the selection consistent; releases and
      repeats change nothing. */
  lemma BrowserStepValid(s: BrowserState, len: nat, key: KeyEvent)
    requires ValidBrowser(s, len) && BrowserKeyAllowed(s, len, key)
    ensures ValidBrowser(BrowserStep(s, len, key).state, len)
    ensures key.kind != Press ==> BrowserStep(s, len, key) == BrowserOutcome(s, false)
  {
    if len > 0 {
      MovesStayInRange(s.selected, len);
    }
  }

  /** Down from Normal mode selects the first item; Left then returns to
      the state the browser started in. */
  lemma BrowserEnterLeave(len: nat)
    ensures var start := BrowserState(Normal, None);
      var down := BrowserStep(start, len, KeyEvent(Press, Down, false)).state;
      down == BrowserState(Browsing, Some(0)) &&
      BrowserStep(down, len, KeyEvent(Press, Left, false)).state == start
  {
  }

  /** The browser of the directory case. `output` is never written. */
  class App {
    var items: FileList
    var output: string
    var inputMode: InputMode

    function State(): BrowserState
      reads this, items
    {
      BrowserState(inputMode, items.selected)
    }

    predicate Valid()
      reads this, items
    {
      ValidBrowser(State(), |items.items|)
    }

    /** `listing` is the directory's file names in the order the system
        lists them. */
    constructor (listing: seq<string>)
      ensures Valid() && fresh(items)
      ensures items.items == FilterImageFiles(listing)
      ensures State() == BrowserState(Normal, None) && output == ""
    {
      items := new FileList.WithItems(FilterImageFiles(listing));
      output := "";
      inputMode := Normal;
    }

    method HandleKey(key: KeyEvent) returns (quit: bool)
      requires Valid() && BrowserKeyAllowed(State(), |items.items|, key)
      modifies this, items
      ensures items == old(items) && items.items == old(items.items) && output == old(output)
      ensures Valid()
      ensures BrowserOutcome(State(), quit) == BrowserStep(old(State()), |items.items|, key)
    {
      BrowserStepValid(State(), |items.items|, key);
      quit := false;
      if key.kind != Press {
        return;
      }
      if inputMode == Normal {
        match key.code {
          case Char(ch) =>
            quit := ch == 'q';
          case Down =>
            inputMode := Browsing;
            items.Next();
          case Up =>
            inputMode := Browsing;
            items.Previous();
          case _ =>
        }
      } else {
        match key.code {
          case Left =>
            inputMode := Normal;
            items.Unselect();
          case Down =>
            items.Next();
          case Up =>
            items.Previous();
          case Char(ch) =>
            quit := ch == 'q';
          case _ =>
        }
      }
    }
  }

  // ---------------------------------------------------------------------
  // Image file names

  /** The extensions both path patterns accept, lower case. */
  const ImageExtensions: seq<string> :=
    ["png", "jpeg", "jpg", "gif", "bmp", "ico", "tiff", "webp", "avif", "pnm", "dds", "tga"]

  /** The directory filter, case-sensitive: a dot, one of the extensions,
      and the end of the name. */
  predicate HasImageExtension(name: string) {
    exists k :: 0 <= k < |ImageExtensions| && EndsWith(name, "." + ImageExtensions[k])
  }

  /** The names of the listing the directory browser shows, in order. */
  function FilterImageFiles(names: seq<string>): (r: seq<string>)
    ensures |r| <= |names|
    ensures forall x :: x in r <==> x in names && HasImageExtension(x)
  {
    if |names| == 0 then []
    else
      var rest := FilterImageFiles(names[..|names| - 1]);
      var last := names[|names| - 1];
      assert names == names[..|names| - 1] + [last];
      if HasImageExtension(last) then rest + [last] else rest
  }

  /** Filtering a concatenation filters each part: the order of the
      listing is kept. */
  lemma {:induction false} FilterImageFilesAppend(a: seq<string>, b: seq<string>)
    ensures FilterImageFiles(a + b) == FilterImageFiles(a) + FilterImageFiles(b)
    decreases |b|
  {
    if |b| == 0 {
      assert a + b == a;
    } else {
      var b' := b[..|b| - 1];
      assert (a + b)[..|a + b| - 1] == a + b';
      assert (a + b)[|a + b| - 1] == b[|b| - 1];
      FilterImageFilesAppend(a, b');
    }
  }

  /** The filter is case-sensitive: a name ending in anything but a
      lower-case letter, such as `a.PNG`, is rejected. */
  lemma {:induction false} UpperCaseRejected(name: string)
    requires |name| > 0 && !('a' <= name[|name| - 1] <= 'z')
    ensures !HasImageExtension(name)
  {
    ExtensionsAreWords();
  }

  lemma FilterExamples()
    ensures HasImageExtension("cat.jpeg") && HasImageExtension("a.b.png")
    ensures FilterImageFiles(["cat.jpeg", "a.PNG"]) == ["cat.jpeg"]
  {
    assert EndsWith("cat.jpeg", "." + ImageExtensions[1]);
    assert EndsWith("a.b.png", "." + ImageExtensions[0]);
    UpperCaseRejected("a.PNG");
    assert ["cat.jpeg", "a.PNG"][..1] == ["cat.jpeg"];
    assert ["cat.jpeg"][..0] == [];
  }

  // ---------------------------------------------------------------------
  // Options

  /** The reference colour for the contrast order: `--bcb` gives black and
      takes precedence over `--bcw`, which gives white. */
  function ReferenceColor(bcb: bool, bcw: bool): (c: Option<Color>)
    ensures c.Some? <==> bcb || bcw
    ensures c.Some? ==> (c.value == Black <==> bcb) && (c.value == White <==> !bcb)
  {
    if bcb then Some(Black) else if bcw then Some(White) else None
  }

  /** The colour count handed to the extraction: `nb_colors as u8` keeps
      the low eight bits of the `u32` parsed from `--nb-colors`. */
  function ExtractedCount(n: nat): (b: byte)
    requires n < 0x1_0000_0000
    ensures n < 256 ==> b == n
    ensures (n - b) % 256 == 0
  {
    n % 256
  }

  /** The truncation wraps: asking for 258 colours extracts 2, and 256
      extracts none. */
  lemma ExtractedCountWraps()
    ensures ExtractedCount(258) == 2 && ExtractedCount(256) == 0
  {
  }

  /** What the `--exc-colors` option yields: the colours, one per code in
      order; or the process exit after `hex_to_rgb` printed the first code
      that fails its check, trimmed; or the panic of an `unwrap` inside
      `hex_to_rgb`. Codes after the first failure are never looked at. */
  datatype Exclusion = Excluded(colors: seq<Color>) | Rejected(code: string) | Panicked

  /** The excluded colours, each code read by `hex_to_rgb` as written. */
  function ExcludedColors(codes: seq<string>): Exclusion {
    Collected(Parses(codes))
  }

  /** What `hex_to_rgb` makes of each code. */
  function Parses(codes: seq<string>): (ps: seq<ColorMetric.HexParse>)
    ensures |ps| == |codes|
    ensures forall k :: 0 <= k < |codes| ==> ps[k] == ColorMetric.HexToRgbAsWritten(codes[k])
  {
    seq(|codes|, k requires 0 <= k < |codes| => ColorMetric.HexToRgbAsWritten(codes[k]))
  }

  /** The outcome of the first parse that fails. */
  function FailureOf(p: ColorMetric.HexParse): Exclusion
    requires !p.Parsed?
  {
    if p.Invalid? then Rejected(p.code) else Panicked
  }

  /** The parsed colours in order, or the outcome of the first failure. */
  function Collected(ps: seq<ColorMetric.HexParse>): Exclusion {
    if |ps| == 0 then Excluded([])
    else
      match ps[0]
      case Parsed(c) =>
        (match Collected(ps[1..])
         case Excluded(cs) => Excluded([c] + cs)
         case other => other)
      case _ => FailureOf(ps[0])
  }

  /** `ps[k]` is the first parse that failed, and `r` is what it makes of
      the option. */
  predicate FirstFailureAt(ps: seq<ColorMetric.HexParse>, k: nat, r: Exclusion) {
    k < |ps| && !ps[k].Parsed? && r == FailureOf(ps[k]) &&
    forall j :: 0 <= j < k ==> ps[j].Parsed?
  }

  lemma {:induction false} CollectedSpec(ps: seq<ColorMetric.HexParse>)
    ensures var r := Collected(ps);
      (r.Excluded? <==> forall k :: 0 <= k < |ps| ==> ps[k].Parsed?) &&
      (r.Excluded? ==> |r.colors| == |ps| && forall k :: 0 <= k < |ps| ==> ps[k] == ColorMetric.Parsed(r.colors[k])) &&
      (!r.Excluded? ==> exists k :: FirstFailureAt(ps, k, r))
  {
    if |ps| > 0 {
      CollectedSpec(ps[1..]);
      var r := Collected(ps);
      var rest := Collected(ps[1..]);
      if ps[0].Parsed? {
        if rest.Excluded? {
          assert r == Excluded([ps[0].color] + rest.colors);
          forall k | 0 <= k < |ps|
            ensures ps[k] == ColorMetric.Parsed(r.colors[k])
          {
            if k > 0 {
              assert ps[k] == ps[1..][k - 1];
            }
          }
        } else {
          var k: nat :| FirstFailureAt(ps[1..], k, rest);
          assert ps[k + 1] == ps[1..][k];
          forall j | 0 <= j < k + 1
            ensures ps[j].Parsed?
          {
            if j > 0 {
              assert ps[j] == ps[1..][j - 1];
            }
          }
          assert FirstFailureAt(ps, k + 1, r);
        }
      } else {
        assert FirstFailureAt(ps, 0, r);
      }
    }
  }

  /** A success parses every code, in order. */
  lemma ExcludedColorsOk(codes: seq<string>)
    ensures var r := ExcludedColors(codes);
      (r.Excluded? <==> forall k :: 0 <= k < |codes| ==> ColorMetric.HexToRgbAsWritten(codes[k]).Parsed?) &&
      (r.Excluded? ==>
         |r.colors| == |codes| &&
         forall k :: 0 <= k < |codes| ==> ColorMetric.HexToRgbAsWritten(codes[k]) == ColorMetric.Parsed(r.colors[k]))
  {
    CollectedSpec(Parses(codes));
  }

  /** `codes[k]` is the first code that fails the check, and `e` is that
      code trimmed, as the message prints it. */
  predicate FirstRejectedAt(codes: seq<string>, k: nat, e: string) {
    k < |codes| && e == ColorMetric.Trim(codes[k]) &&
    !ColorMetric.MatchesHexRegex(e) && ColorMetric.HexToRgbAsWritten(codes[k]).Invalid? &&
    forall j :: 0 <= j < k ==> ColorMetric.HexToRgbAsWritten(codes[j]).Parsed?
  }

  /** `codes[k]` is the first code that does not parse, and it passes the
      check with a digit that is not ASCII, so an `unwrap` panics. */
  predicate FirstPanicAt(codes: seq<string>, k: nat) {
    k < |codes| &&
    ColorMetric.MatchesHexRegex(ColorMetric.Trim(codes[k])) && !ColorMetric.IsHexCode(ColorMetric.Trim(codes[k])) &&
    forall j :: 0 <= j < k ==> ColorMetric.HexToRgbAsWritten(codes[j]).Parsed?
  }

  /** A rejection prints the first failing code, trimmed, and a panic
      comes from the first code with a non-ASCII digit; every earlier code
      parsed. */
  lemma ExcludedColorsFailure(codes: seq<string>)
    ensures var r := ExcludedColors(codes);
      (r.Rejected? ==> exists k :: FirstRejectedAt(codes, k, r.code)) &&
      (r.Panicked? ==> exists k :: FirstPanicAt(codes, k))
  {
    var ps := Parses(codes);
    CollectedSpec(ps);
    var r := Collected(ps);
    if !r.Excluded? {
      var k: nat :| FirstFailureAt(ps, k, r);
      ColorMetric.HexToRgbAsWrittenSpec(codes[k]);
      assert forall j :: 0 <= j < k ==> ColorMetric.HexToRgbAsWritten(codes[j]).Parsed?;
      if r.Rejected? {
        assert FirstRejectedAt(codes, k, r.code);
      } else {
        assert FirstPanicAt(codes, k);
      }
    }
  }

  /** A code list without non-ASCII digits never panics, and then reading
      it as written agrees with the corrected parser. */
  lemma ExcludedColorsAgree(codes: seq<string>)
    requires forall k :: 0 <= k < |codes| ==> !ColorMetric.HexToRgbAsWritten(codes[k]).Panic?
    ensures ExcludedColors(codes) == Collected(seq(|codes|, k requires 0 <= k < |codes| => ColorMetric.HexToRgb(codes[k])))
  {
    var qs := seq(|codes|, k requires 0 <= k < |codes| => ColorMetric.HexToRgb(codes[k]));
    forall k | 0 <= k < |codes|
      ensures Parses(codes)[k] == qs[k]
    {
      ColorMetric.HexToRgbAgrees(codes[k]);
    }
    assert Parses(codes) == qs;
  }

  lemma {:induction false} CollectedAllParsed(ps: seq<ColorMetric.HexParse>, cs: seq<Color>)
    requires |ps| == |cs|
    requires forall k :: 0 <= k < |ps| ==> ps[k] == ColorMetric.Parsed(cs[k])
    ensures Collected(ps) == Excluded(cs)
  {
    if |ps| > 0 {
      assert ps[0] == ColorMetric.Parsed(cs[0]);
      CollectedAllParsed(ps[1..], cs[1..]);
      assert cs == [cs[0]] + cs[1..];
    }
  }

  /** Round trip: the hexadecimal texts of colours parse back to them. */
  lemma ExcludedColorsRoundTrip(cs: seq<Color>)
    ensures ExcludedColors(seq(|cs|, k requires 0 <= k < |cs| => ColorMetric.HexadecimalStr(cs[k]))) == Excluded(cs)
  {
    var codes := seq(|cs|, k requires 0 <= k < |cs| => ColorMetric.HexadecimalStr(cs[k]));
    var ps := Parses(codes);
    forall k | 0 <= k < |cs|
      ensures ps[k] == ColorMetric.Parsed(cs[k])
    {
      ColorMetric.HexRoundTrip(cs[k]);
    }
    CollectedAllParsed(ps, cs);
  }

  // ---------------------------------------------------------------------
  // Image path capture

  /** Case-insensitive equality with a lower-case extension letter. Under
      simple case folding, U+017F (long s) equals `s`. */
  predicate CaseEq(ch: char, lower: char) {
    ColorMetric.AsciiLower(ch) == lower || (lower == 's' && ch == 'ſ')
  }

  /** `s[p..]` starts with a dot and the extension, in any case. */
  predicate MatchesExtAt(s: string, p: nat, ext: string) {
    p + 1 + |ext| <= |s| && s[p] == '.' &&
    forall i :: 0 <= i < |ext| ==> CaseEq(s[p + 1 + i], ext[i])
  }

  /** The length of the extension match at `p`, trying the extensions from
      index `k` on; at most one of them can match at a position. */
  function ExtAtFrom(s: string, p: nat, k: nat): (r: Option<nat>)
    requires k <= |ImageExtensions|
    ensures r.Some? ==> 1 <= r.value && p + r.value <= |s|
    decreases |ImageExtensions| - k
  {
    if k == |ImageExtensions| then None
    else if MatchesExtAt(s, p, ImageExtensions[k]) then Some(1 + |ImageExtensions[k]|)
    else ExtAtFrom(s, p, k + 1)
  }

  /** The length of the case-insensitive extension match at `p`, if any. */
  function ExtAt(s: string, p: nat): Option<nat> {
    ExtAtFrom(s, p, 0)
  }

  lemma {:induction false} ExtAtFromSpec(s: string, p: nat, k: nat)
    requires k <= |ImageExtensions|
    ensures var r := ExtAtFrom(s, p, k);
      (r.Some? ==>
         exists j :: k <= j < |ImageExtensions| &&
                     MatchesExtAt(s, p, ImageExtensions[j]) && r.value == 1 + |ImageExtensions[j]|) &&
      (r.None? ==> forall j :: k <= j < |ImageExtensions| ==> !MatchesExtAt(s, p, ImageExtensions[j]))
    decreases |ImageExtensions| - k
  {
    if k < |ImageExtensions| && !MatchesExtAt(s, p, ImageExtensions[k]) {
      ExtAtFromSpec(s, p, k + 1);
    }
  }

  /** A match starts at a dot. */
  lemma {:induction false} ExtAtFromDot(s: string, p: nat, k: nat)
    requires k <= |ImageExtensions| && (p >= |s| || s[p] != '.')
    ensures ExtAtFrom(s, p, k).None?
    decreases |ImageExtensions| - k
  {
    if k < |ImageExtensions| {
      ExtAtFromDot(s, p, k + 1);
    }
  }

  /** The length of the extension match starting at each position of `s`,
      0 where none starts. */
  function MatchLengths(s: string): (m: seq<nat>)
    ensures |m| == |s|
  {
    seq(|s|, q requires 0 <= q < |s| => if ExtAt(s, q).Some? then ExtAt(s, q).value else 0)
  }

  /** What the capture needs of a table of match lengths: every match fits
      in the text and starts at a dot. */
  predicate MatchTable(s: string, m: seq<nat>) {
    |m| == |s| &&
    forall q :: 0 <= q < |s| ==> q + m[q] <= |s| && (m[q] > 0 ==> s[q] == '.')
  }

  lemma MatchLengthsTable(s: string)
    ensures MatchTable(s, MatchLengths(s))
  {
    forall q | 0 <= q < |s|
      ensures q + MatchLengths(s)[q] <= |s| && (MatchLengths(s)[q] > 0 ==> s[q] == '.')
    {
      MatchLengthsAt(s, q);
    }
  }

  /** The table holds the extension match at each position, 0 for none. */
  lemma MatchLengthsAt(s: string, q: nat)
    requires q < |s|
    ensures MatchLengths(s)[q] > 0 <==> ExtAt(s, q).Some?
    ensures ExtAt(s, q).Some? ==> MatchLengths(s)[q] == ExtAt(s, q).value
    ensures MatchLengths(s)[q] > 0 ==> s[q] == '.'
  {
    if s[q] != '.' {
      ExtAtFromDot(s, q, 0);
    }
  }

  /** The last position in `[lo, n)` where a match starts. */
  function LastMatchIn(m: seq<nat>, lo: nat, n: nat): (q: Option<nat>)
    requires lo <= n <= |m|
    ensures q.Some? ==> lo <= q.value < n && m[q.value] > 0
    ensures q.Some? ==> forall q' :: q.value < q' < n ==> m[q'] == 0
    ensures q.None? ==> forall q' :: lo <= q' < n ==> m[q'] == 0
    decreases n
  {
    if n == lo then None
    else if m[n - 1] > 0 then Some(n - 1)
    else LastMatchIn(m, lo, n - 1)
  }

  /** The end of the line that starts at `start`: the next newline, or
      the end of the text. */
  function LineEnd(s: string, start: nat): (e: nat)
    requires start <= |s|
    ensures start <= e <= |s| && (e < |s| ==> s[e] == '\n')
    ensures forall i :: start <= i < e ==> s[i] != '\n'
    decreases |s| - start
  {
    if start == |s| || s[start] == '\n' then start else LineEnd(s, start + 1)
  }

  /** The leftmost match of the path pattern from `start`. `.` does not
      cross a newline and `.*` is greedy, so the match is the first line
      holding an extension, cut after the last extension starting in it
      (which cannot run past the line: see `ExtAtNoNewline`). */
  function CaptureFrom(s: string, m: seq<nat>, start: nat): Option<string>
    requires MatchTable(s, m) && start <= |s|
    decreases |s| - start
  {
    var e := LineEnd(s, start);
    match LastMatchIn(m, start, e)
    case Some(q) => Some(s[start..q + m[q]])
    case None => if e == |s| then None else CaptureFrom(s, m, e + 1)
  }

  /** The path captured from the command-line argument; `None` makes the
      program exit. */
  function CaptureImagePath(arg: string): Option<string> {
    MatchLengthsTable(arg);
    CaptureFrom(arg, MatchLengths(arg), 0)
  }

  predicate IsLowerWord(w: string) {
    forall i :: 0 <= i < |w| ==> 'a' <= w[i] <= 'z'
  }

  lemma ExtensionsAreWords()
    ensures forall j :: 0 <= j < |ImageExtensions| ==>
      |ImageExtensions[j]| >= 3 && IsLowerWord(ImageExtensions[j])
  {
  }

  /** The characters an extension match covers are no newlines, so a match
      starting in a line ends in it. */
  lemma ExtAtNoNewline(s: string, p: nat)
    requires ExtAt(s, p).Some?
    ensures forall i :: p <= i < p + ExtAt(s, p).value ==> s[i] != '\n'
  {
    ExtAtFromSpec(s, p, 0);
    ExtensionsAreWords();
    var j :| 0 <= j < |ImageExtensions| && MatchesExtAt(s, p, ImageExtensions[j]) &&
      ExtAt(s, p).value == 1 + |ImageExtensions[j]|;
    var ext := ImageExtensions[j];
    forall i | p < i < p + 1 + |ext|
      ensures s[i] != '\n'
    {
      assert CaseEq(s[p + 1 + (i - p - 1)], ext[i - p - 1]);
    }
  }

  /** No path is captured exactly when no match starts anywhere. */
  lemma {:induction false} CaptureNone(s: string, m: seq<nat>, start: nat)
    requires MatchTable(s, m) && start <= |s|
    ensures CaptureFrom(s, m, start).None? <==> forall q :: start <= q < |s| ==> m[q] == 0
    decreases |s| - start
  {
    var e := LineEnd(s, start);
    if LastMatchIn(m, start, e).None? && e < |s| {
      assert m[e] == 0;
      CaptureNone(s, m, e + 1);
    }
  }

  /** The capture from `start` is the line starting at `ls` cut after the
      match at `q`, the last one starting in that line, and no match starts
      between `start` and that line. */
  predicate CapturedAt(s: string, m: seq<nat>, start: nat, ls: nat, q: nat)
    requires MatchTable(s, m) && start <= |s|
  {
    start <= ls <= q < |s| && q < LineEnd(s, ls) && m[q] > 0 &&
    CaptureFrom(s, m, start) == Some(s[ls..q + m[q]]) &&
    (forall q' :: q < q' < LineEnd(s, ls) ==> m[q'] == 0) &&
    (forall q' :: start <= q' < ls ==> m[q'] == 0)
  }

  /** A captured path runs from the start of a line to the end of the last
      match starting in that line, and no earlier line holds a match. */
  lemma {:induction false} CaptureSome(s: string, m: seq<nat>, start: nat)
    requires MatchTable(s, m) && start <= |s| && CaptureFrom(s, m, start).Some?
    ensures exists ls, q :: CapturedAt(s, m, start, ls, q)
    decreases |s| - start
  {
    var e := LineEnd(s, start);
    if LastMatchIn(m, start, e).None? {
      CaptureSome(s, m, e + 1);
      var ls, q :| CapturedAt(s, m, e + 1, ls, q);
      CaptureSkipsLine(s, m, start, ls, q);
    } else {
      CaptureHere(s, m, start);
    }
  }

  /** A line holding a match is the one captured. */
  lemma CaptureHere(s: string, m: seq<nat>, start: nat)
    requires MatchTable(s, m) && start <= |s| && LastMatchIn(m, start, LineEnd(s, start)).Some?
    ensures CapturedAt(s, m, start, start, LastMatchIn(m, start, LineEnd(s, start)).value)
  {
    var q := LastMatchIn(m, start, LineEnd(s, start)).value;
    assert CaptureFrom(s, m, start) == Some(s[start..q + m[q]]);
  }

  /** A line without a match is skipped. */
  lemma CaptureSkipsLine(s: string, m: seq<nat>, start: nat, ls: nat, q: nat)
    requires MatchTable(s, m) && start <= |s|
    requires LastMatchIn(m, start, LineEnd(s, start)).None? && LineEnd(s, start) < |s|
    requires CapturedAt(s, m, LineEnd(s, start) + 1, ls, q)
    ensures CapturedAt(s, m, start, ls, q)
  {
    var e := LineEnd(s, start);
    assert m[e] == 0;
    CaptureFromSkip(s, m, start);
    forall q' | start <= q' < ls
      ensures m[q'] == 0
    {
      if q' > e {
        assert e + 1 <= q' < ls;
      }
    }
  }

  lemma CaptureFromSkip(s: string, m: seq<nat>, start: nat)
    requires MatchTable(s, m) && start <= |s|
    requires LastMatchIn(m, start, LineEnd(s, start)).None? && LineEnd(s, start) < |s|
    ensures CaptureFrom(s, m, start) == CaptureFrom(s, m, LineEnd(s, start) + 1)
  {
  }

  /** On a text without newlines the capture is a prefix ending where
      the last match ends. */
  lemma CapturePrefix(s: string, m: seq<nat>)
    requires MatchTable(s, m) && forall i :: 0 <= i < |s| ==> s[i] != '\n'
    ensures CaptureFrom(s, m, 0).Some? ==>
      var r := CaptureFrom(s, m, 0).value;
      |r| <= |s| && s[..|r|] == r && exists p :: LastMatchEndsAt(s, m, |r|, p)
  {
    LineEndNoNewline(s, 0);
    var p := LastMatchIn(m, 0, |s|);
    if p.Some? {
      assert CaptureFrom(s, m, 0) == Some(s[0..p.value + m[p.value]]);
      assert LastMatchEndsAt(s, m, p.value + m[p.value], p.value);
    }
  }

  /** The last match in `s` starts at `p` and ends at `n`. */
  predicate LastMatchEndsAt(s: string, m: seq<nat>, n: nat, p: nat)
    requires |m| == |s|
  {
    p < n && p < |s| && m[p] > 0 && m[p] == n - p && forall q :: p < q < |s| ==> m[q] == 0
  }

  /** The last extension in `arg` starts at `p` and ends at `n`. */
  predicate LastExtEndsAt(arg: string, n: nat, p: nat) {
    p < n && ExtAt(arg, p) == Some(n - p) && forall q :: p < q < |arg| ==> ExtAt(arg, q).None?
  }

  /** A one-line argument yields nothing exactly when no extension occurs
      in it. */
  lemma CaptureSingleLineNone(arg: string)
    ensures CaptureImagePath(arg).None? <==> forall q :: 0 <= q < |arg| ==> ExtAt(arg, q).None?
  {
    var m := MatchLengths(arg);
    MatchLengthsTable(arg);
    CaptureNone(arg, m, 0);
    forall q | 0 <= q < |arg|
      ensures m[q] == 0 <==> ExtAt(arg, q).None?
    {
      MatchLengthsAt(arg, q);
    }
  }

  /** For a one-line argument a captured path is a prefix of the argument
      ending with an extension match, and no match starts after that one. */
  lemma CaptureSingleLine(arg: string)
    requires forall i :: 0 <= i < |arg| ==> arg[i] != '\n'
    requires CaptureImagePath(arg).Some?
    ensures var r := CaptureImagePath(arg).value;
      |r| <= |arg| && arg[..|r|] == r && exists p :: LastExtEndsAt(arg, |r|, p)
  {
    var m := MatchLengths(arg);
    MatchLengthsTable(arg);
    var c := CaptureFrom(arg, m, 0);
    assert CaptureImagePath(arg) == c;
    CapturePrefix(arg, m);
    var r := c.value;
    var p :| LastMatchEndsAt(arg, m, |r|, p);
    LastMatchIsLastExt(arg, |r|, p);
  }

  /** The last entry of the table is the last extension of the text. */
  lemma LastMatchIsLastExt(arg: string, n: nat, p: nat)
    requires LastMatchEndsAt(arg, MatchLengths(arg), n, p)
    ensures LastExtEndsAt(arg, n, p)
  {
    MatchLengthsAt(arg, p);
    forall q | p < q < |arg|
      ensures ExtAt(arg, q).None?
    {
      MatchLengthsAt(arg, q);
    }
  }

  /** A query string after the extension is cut off; the case of the
      extension does not matter. */
  lemma CaptureExample()
    ensures CaptureImagePath("x.PNG?w") == Some("x.PNG")
  {
    var s := "x.PNG?w";
    var m := MatchLengths(s);
    ExampleMatchLengths();
    MatchLengthsTable(s);
    LineEndNoNewline(s, 0);
    assert LastMatchIn(m, 0, 7) == Some(1) by {
      assert LastMatchIn(m, 0, 7) == LastMatchIn(m, 0, 6) == LastMatchIn(m, 0, 5);
      assert LastMatchIn(m, 0, 5) == LastMatchIn(m, 0, 4) == LastMatchIn(m, 0, 3) == LastMatchIn(m, 0, 2);
    }
    assert s[0..5] == "x.PNG";
  }

  /** The only extension match in `x.PNG?w` is `.PNG`, at position 1. */
  lemma ExampleMatchLengths()
    ensures MatchLengths("x.PNG?w") == [0, 4, 0, 0, 0, 0, 0]
  {
    var s := "x.PNG?w";
    var m := MatchLengths(s);
    ExampleMatchAtDot();
    forall q | 0 <= q < 7 && q != 1
      ensures m[q] == 0
    {
      assert s[q] != '.';
      ExtAtFromDot(s, q, 0);
    }
  }

  lemma ExampleMatchAtDot()
    ensures ExtAt("x.PNG?w", 1) == Some(4)
  {
    var s := "x.PNG?w";
    assert ImageExtensions[0] == "png";
    assert MatchesExtAt(s, 1, "png");
  }

  lemma {:induction false} LineEndNoNewline(s: string, start: nat)
    requires start <= |s| && forall i :: start <= i < |s| ==> s[i] != '\n'
    ensures LineEnd(s, start) == |s|
    decreases |s| - start
  {
    if start < |s| {
      LineEndNoNewline(s, start + 1);
    }
  }
}
