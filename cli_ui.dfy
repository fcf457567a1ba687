/** The interactive side of the directory browser: the progress gauge
    shown while colours are extracted, the selectable file list, the
    bounded counter of extracted colours, and the key transitions of the
    event loop. Rendering, the clipboard and the clock stay outside; the
    current time is a parameter wherever the loop reads it. */
module CliUi {
  import opened Colors
  import opened KeyEvents
  import opened Selection
  import opened Strings

  // ---------------------------------------------------------------------
  // Progress gauge

  datatype GaugeAppState = Running | Started | Quitting

  /** The keys that end the gauge: q, Q, Esc, or c/C with Control. */
  predicate IsGaugeQuitKey(key: KeyEvent) {
    key.kind == Press &&
    (key.code == Char('q') || key.code == Char('Q') || key.code == Esc ||
     ((key.code == Char('c') || key.code == Char('C')) && key.ctrl))
  }

  class GaugeApp {
    var state: GaugeAppState
    var progress: real
    var currentFile: string

    /** The progress shown is a percentage. */
    predicate Valid()
      reads this
    {
      0.0 <= progress <= 100.0
    }

    /** The derived default: `Running`, no progress, no file. */
    constructor ()
      ensures Valid()
      ensures state == Running && progress == 0.0 && currentFile == ""
    {
      state := Running;
      progress := 0.0;
      currentFile := "";
    }

    /** Records the progress of the extraction; `inc` is a `u16`. Only a
        started gauge moves; reaching 100 clamps and ends the gauge. */
    method Update(inc: nat, path: string)
      requires Valid() && inc < 0x1_0000
      modifies this
      ensures Valid()
      ensures old(state) != Started ==>
        state == old(state) && progress == old(progress) && currentFile == old(currentFile)
      ensures old(state) == Started ==> currentFile == path
      ensures old(state) == Started && inc < 100 ==>
        progress == inc as real && state == Started
      ensures old(state) == Started && inc >= 100 ==>
        progress == 100.0 && state == Quitting
    {
      if state != Started {
        return;
      }
      currentFile := path;
      progress := inc as real;
      if progress >= 100.0 {
        progress := 100.0;
        state := Quitting;
      }
    }

    method Start()
      modifies this
      ensures state == Started
      ensures progress == old(progress) && currentFile == old(currentFile)
    {
      state := Started;
    }

    /** Marks the gauge as quitting; the process exit that follows in the
        source is the caller's business. */
    method Quit()
      modifies this
      ensures state == Quitting
      ensures progress == old(progress) && currentFile == old(currentFile)
    {
      state := Quitting;
    }

    /** One round of event handling. `event` is the key read before the
        poll timed out, if any. `exits` reports that the gauge quit, after
        which the source ends the process. */
    method HandleEvents(event: Option<KeyEvent>) returns (exits: bool)
      modifies this
      ensures exits <==> event.Some? && IsGaugeQuitKey(event.value)
      ensures state == (if exits then Quitting else Started)
      ensures progress == old(progress) && currentFile == old(currentFile)
    {
      Start();
      exits := false;
      if event.Some? && event.value.kind == Press {
        var key := event.value;
        match key.code {
          case Char(ch) =>
            if ch == 'q' || ch == 'Q' {
              Quit();
              exits := true;
            } else if ch == 'c' || ch == 'C' {
              if key.ctrl {
                Quit();
                exits := true;
              }
            } else {
              Start();
            }
          case Esc =>
            Quit();
            exits := true;
          case _ =>
            Start();
        }
      }
    }
  }

  // ---------------------------------------------------------------------
  // File list

  /** The selectable list of file names. `startTime` is the clock value
      of the last copy request; `clipColor`, `selectMore` and `selectLess`
      record that the last key asked to copy, or to extract more or fewer
      colours, for the current selection. */
  class StatefulList {
    var items: seq<string>
    var selected: Option<nat>
    var scrollPosition: nat
    var startTime: nat
    var clipColor: bool
    var selectMore: bool
    var selectLess: bool

    constructor WithItems(items: seq<string>, now: nat)
      ensures this.items == items && selected == None && scrollPosition == 0
      ensures startTime == now && !clipColor && !selectMore && !selectLess
    {
      this.items := items;
      selected := None;
      scrollPosition := 0;
      startTime := now;
      clipColor := false;
      selectMore := false;
      selectLess := false;
    }

    /** Moves the selection down, wrapping to the top; on an empty list the
        source's `len() - 1` underflows, hence the precondition. */
    method Next()
      requires |items| > 0 || selected.None?
      modifies this
      ensures items == old(items) && startTime == old(startTime)
      ensures selected == Some(NextIndex(old(selected), |items|))
      ensures scrollPosition == selected.value
      ensures !clipColor && !selectMore && !selectLess
    {
      var i := match selected
        case Some(i) => if i >= |items| - 1 then 0 else i + 1
        case None => 0;
      selected := Some(i);
      scrollPosition := i;
      clipColor := false;
      selectLess := false;
      selectMore := false;
    }

    /** Moves the selection up, wrapping to the bottom. */
    method Previous()
      requires |items| > 0 || selected.None?
      modifies this
      ensures items == old(items) && startTime == old(startTime)
      ensures selected == Some(PreviousIndex(old(selected), |items|))
      ensures scrollPosition == selected.value
      ensures !clipColor && !selectMore && !selectLess
    {
      var i := match selected
        case Some(i) => if i == 0 then |items| - 1 else i - 1
        case None => 0;
      selected := Some(i);
      scrollPosition := i;
      clipColor := false;
      selectLess := false;
      selectMore := false;
    }

    /** Clears the selection and scrolls back to the top; the flags stay. */
    method Unselect()
      modifies this
      ensures selected == None && scrollPosition == 0
      ensures clipColor == old(clipColor) && selectMore == old(selectMore)
      ensures selectLess == old(selectLess)
      ensures items == old(items) && startTime == old(startTime)
    {
      selected := None;
      scrollPosition := 0;
    }
  }

  // ---------------------------------------------------------------------
  // Item names

  /** Whether `pat` occurs anywhere in `s`. */
  predicate Occurs(s: string, pat: string) {
    exists i :: 0 <= i <= |s| - |pat| && OccursAt(s, pat, i)
  }

  predicate OccursAt(s: string, pat: string, i: nat)
    requires i + |pat| <= |s|
  {
    s[i..i + |pat|] == pat
  }

  /** The directory path with a trailing `/`. */
  function NormalizeDir(dir: string): (d: string)
    ensures EndsWith(d, "/")
    ensures StartsWith(d, dir) && |d| <= |dir| + 1
    ensures EndsWith(dir, "/") ==> d == dir
    ensures !EndsWith(dir, "/") ==> d == dir + "/"
  {
    if !EndsWith(dir, "/") then dir + "/" else dir
  }

  /** Normalising twice changes nothing more. */
  lemma NormalizeDirIdempotent(dir: string)
    ensures NormalizeDir(NormalizeDir(dir)) == NormalizeDir(dir)
  {
  }

  /** Every non-overlapping occurrence of `pat` deleted, scanning from the
      left: what `str::replace(pat, "")` computes. */
  function RemoveAll(s: string, pat: string): (t: string)
    requires |pat| > 0
    ensures |t| <= |s|
    decreases |s|
  {
    if |s| == 0 then ""
    else if StartsWith(s, pat) then RemoveAll(s[|pat|..], pat)
    else [s[0]] + RemoveAll(s[1..], pat)
  }

  /** A string without the pattern is left as it is. */
  lemma {:induction false} RemoveAllAbsent(s: string, pat: string)
    requires |pat| > 0 && !Occurs(s, pat)
    ensures RemoveAll(s, pat) == s
    decreases |s|
  {
    if |s| > 0 {
      assert !StartsWith(s, pat) by {
        if StartsWith(s, pat) {
          assert OccursAt(s, pat, 0);
        }
      }
      assert !Occurs(s[1..], pat) by {
        if Occurs(s[1..], pat) {
          var i :| 0 <= i <= |s[1..]| - |pat| && OccursAt(s[1..], pat, i);
          assert s[i + 1..i + 1 + |pat|] == s[1..][i..i + |pat|];
          assert OccursAt(s, pat, i + 1);
        }
      }
      RemoveAllAbsent(s[1..], pat);
      assert s == [s[0]] + s[1..];
    }
  }

  /** A path made of the directory and a name that does not repeat the
      directory becomes just that name. */
  lemma RelativeName(dir: string, name: string)
    requires |dir| > 0 && !Occurs(name, dir)
    ensures RemoveAll(dir + name, dir) == name
  {
    assert (dir + name)[..|dir|] == dir;
    assert (dir + name)[|dir|..] == name;
    RemoveAllAbsent(name, dir);
  }

  /** The item shown for each entry of the image map, in the map's order. */
  function ItemNames(paths: seq<(string, Result<seq<Color>, string>)>, dir: string): (items: seq<string>)
    requires |dir| > 0
    ensures |items| == |paths|
    ensures forall k :: 0 <= k < |paths| ==> items[k] == RemoveAll(paths[k].0, dir)
  {
    seq(|paths|, k requires 0 <= k < |paths| => RemoveAll(paths[k].0, dir))
  }

  /** Lexicographic order of strings, as a `BTreeMap<String, _>` orders its
      keys. */
  predicate StrLess(a: string, b: string)
    decreases |a|
  {
    if |a| == 0 then |b| > 0
    else if |b| == 0 then false
    else if a[0] != b[0] then a[0] < b[0]
    else StrLess(a[1..], b[1..])
  }

  /** An association list whose keys ascend strictly: a `BTreeMap`. */
  predicate KeysSorted(paths: seq<(string, Result<seq<Color>, string>)>) {
    forall i, j :: 0 <= i < j < |paths| ==> StrLess(paths[i].0, paths[j].0)
  }

  /** A common prefix does not affect the order. */
  lemma {:induction false} StrLessCommonPrefix(p: string, a: string, b: string)
    ensures StrLess(p + a, p + b) <==> StrLess(a, b)
    decreases |p|
  {
    if |p| == 0 {
      assert p + a == a && p + b == b;
    } else {
      assert (p + a)[0] == p[0] == (p + b)[0];
      assert (p + a)[1..] == p[1..] + a;
      assert (p + b)[1..] == p[1..] + b;
      StrLessCommonPrefix(p[1..], a, b);
    }
  }

  /** If every key is the directory followed by a name that does not
      repeat it, the items are those names and are listed in sorted
      order as well. */
  lemma ItemsSorted(paths: seq<(string, Result<seq<Color>, string>)>, dir: string, names: seq<string>)
    requires |dir| > 0 && KeysSorted(paths) && |names| == |paths|
    requires forall k :: 0 <= k < |paths| ==> paths[k].0 == dir + names[k] && !Occurs(names[k], dir)
    ensures ItemNames(paths, dir) == names
    ensures forall i, j :: 0 <= i < j < |names| ==> StrLess(names[i], names[j])
  {
    var items := ItemNames(paths, dir);
    forall k | 0 <= k < |paths|
      ensures items[k] == names[k]
    {
      RelativeName(dir, names[k]);
    }
    forall i, j | 0 <= i < j < |names|
      ensures StrLess(names[i], names[j])
    {
      StrLessCommonPrefix(dir, names[i], names[j]);
    }
  }

  // ---------------------------------------------------------------------
  // Extracted-colour counter

  const MinExtracted: nat := 2
  const MaxExtracted: nat := 10

  /** One more colour, up to ten: a count within [2, 10] stays there, and
      the count grows by one except at or above the limit. */
  function Incremented(n: nat): (m: nat)
    ensures MinExtracted <= n <= MaxExtracted ==> MinExtracted <= m <= MaxExtracted
    ensures n <= m <= n + 1
    ensures m == n <==> n >= MaxExtracted
  {
    if n < MaxExtracted then n + 1 else n
  }

  /** One colour fewer, down to two: a count within [2, 10] stays there,
      and the count shrinks by one except at or below the limit. */
  function Decremented(n: nat): (m: nat)
    ensures MinExtracted <= n <= MaxExtracted ==> MinExtracted <= m <= MaxExtracted
    ensures n - 1 <= m <= n
    ensures m == n <==> n <= MinExtracted
  {
    if n > MinExtracted then n - 1 else n
  }

  /** Inside the range, a decrement undoes an increment and vice versa. */
  lemma CounterInverse(n: nat)
    requires MinExtracted <= n < MaxExtracted
    ensures Decremented(Incremented(n)) == n
    ensures Incremented(Decremented(n + 1)) == n + 1
  {
  }

  // ---------------------------------------------------------------------
  // Key transitions

  /** The part of the browser's state the keys change. */
  datatype UiState = UiState(
    mode: InputMode,
    selected: Option<nat>,
    scrollPosition: nat,
    startTime: nat,
    clipColor: bool,
    selectMore: bool,
    selectLess: bool,
    nbExtracted: nat)

  /** What one key does: the new state, and whether the loop returns. */
  datatype KeyOutcome = KeyOutcome(state: UiState, quit: bool)

  /** In Normal mode nothing is selected, in Browsing mode something is;
      on a non-empty list the selection lies inside it. */
  predicate ValidState(s: UiState, len: nat) {
    (s.mode == Normal <==> s.selected.None?) &&
    (len > 0 ==> InRange(s.selected, len))
  }

  /** The keys for which the source does not panic: a move needs a
      non-empty list or no selection. */
  predicate KeyAllowed(s: UiState, len: nat, key: KeyEvent) {
    IsMoveKey(key) ==> len > 0 || s.selected.None?
  }

  function Moved(s: UiState, i: nat): UiState {
    s.(selected := Some(i), scrollPosition := i,
       clipColor := false, selectMore := false, selectLess := false)
  }

  /** The reference transition of the event loop for one key pressed at
      time `now`. */
  function KeyStep(s: UiState, len: nat, key: KeyEvent, now: nat): KeyOutcome
    requires KeyAllowed(s, len, key)
  {
    if key.kind != Press then KeyOutcome(s, false)
    else if s.mode == Normal then NormalStep(s, len, key.code)
    else BrowsingStep(s, len, key, now)
  }

  /** A pressed key in Normal mode. */
  function NormalStep(s: UiState, len: nat, code: KeyCode): KeyOutcome
    requires code == Down || code == Up ==> len > 0 || s.selected.None?
  {
    match code
    case Char(ch) => KeyOutcome(s, ch == 'q' || ch == 'Q')
    case Down => KeyOutcome(Moved(s.(mode := Browsing), NextIndex(s.selected, len)), false)
    case Up => KeyOutcome(Moved(s.(mode := Browsing), PreviousIndex(s.selected, len)), false)
    case _ => KeyOutcome(s, false)
  }

  /** A pressed key in Browsing mode. */
  function BrowsingStep(s: UiState, len: nat, key: KeyEvent, now: nat): KeyOutcome
    requires key.code == Down || key.code == Up ==> len > 0 || s.selected.None?
  {
    match key.code
    case Left => KeyOutcome(s.(mode := Normal, selected := None, scrollPosition := 0), false)
    case Down => KeyOutcome(Moved(s, NextIndex(s.selected, len)), false)
    case Up => KeyOutcome(Moved(s, PreviousIndex(s.selected, len)), false)
    case Char(ch) => BrowsingCharStep(s, ch, key.ctrl, now)
    case _ => KeyOutcome(s, false)
  }

  /** A pressed letter in Browsing mode: copy, quit, fewer or more colours. */
  function BrowsingCharStep(s: UiState, ch: char, ctrl: bool, now: nat): KeyOutcome {
    if ch == 'c' || ch == 'C' then
      KeyOutcome(if ctrl then s.(startTime := now, clipColor := true) else s, false)
    else if ch == 'q' || ch == 'Q' then KeyOutcome(s, true)
    else if ch == 'l' || ch == 'L' then
      KeyOutcome(s.(selectLess := true, nbExtracted := Decremented(s.nbExtracted)), false)
    else if ch == 'm' || ch == 'M' then
      KeyOutcome(s.(selectMore := true, nbExtracted := Incremented(s.nbExtracted)), false)
    else KeyOutcome(s, false)
  }

  /** The loop returns exactly on a pressed q or Q, in either mode;
      Control-C does not quit the browser. */
  lemma KeyStepQuits(s: UiState, len: nat, key: KeyEvent, now: nat)
    requires KeyAllowed(s, len, key)
    ensures KeyStep(s, len, key, now).quit <==> IsPressOf(key, 'q', 'Q')
    ensures KeyStep(s, len, key, now).quit ==> KeyStep(s, len, key, now).state == s
  {
  }

  /** Releases and repeats change nothing. */
  lemma KeyStepIgnoresNonPress(s: UiState, len: nat, key: KeyEvent, now: nat)
    requires KeyAllowed(s, len, key) && key.kind != Press
    ensures KeyStep(s, len, key, now) == KeyOutcome(s, false)
  {
  }

  /** Every key keeps the mode and the selection consistent. */
  lemma KeyStepValid(s: UiState, len: nat, key: KeyEvent, now: nat)
    requires ValidState(s, len) && KeyAllowed(s, len, key)
    ensures ValidState(KeyStep(s, len, key, now).state, len)
  {
    if len > 0 {
      MovesStayInRange(s.selected, len);
    }
  }

  /** The counter moves only on l/L and m/M while browsing, by at most one,
      and stays within [2, 10] when it starts there. */
  lemma KeyStepCounter(s: UiState, len: nat, key: KeyEvent, now: nat)
    requires KeyAllowed(s, len, key)
    ensures var n := KeyStep(s, len, key, now).state.nbExtracted;
      (n != s.nbExtracted ==>
        s.mode == Browsing && (IsPressOf(key, 'l', 'L') || IsPressOf(key, 'm', 'M'))) &&
      n <= s.nbExtracted + 1 && n + 1 >= s.nbExtracted &&
      (MinExtracted <= s.nbExtracted <= MaxExtracted ==> MinExtracted <= n <= MaxExtracted)
  {
  }

  /** Control-C while browsing requests a copy stamped with the current
      time; in Normal mode it does nothing at all. */
  lemma KeyStepCopy(s: UiState, len: nat, key: KeyEvent, now: nat)
    requires IsPressOf(key, 'c', 'C') && key.ctrl
    ensures s.mode == Browsing ==>
      KeyStep(s, len, key, now) == KeyOutcome(s.(startTime := now, clipColor := true), false)
    ensures s.mode == Normal ==> KeyStep(s, len, key, now) == KeyOutcome(s, false)
  {
  }

  /** Left while browsing returns to Normal mode with nothing selected;
      the flags are kept. */
  lemma KeyStepLeft(s: UiState, len: nat, key: KeyEvent, now: nat)
    requires s.mode == Browsing && IsPress(key, Left)
    ensures KeyStep(s, len, key, now).state ==
      s.(mode := Normal, selected := None, scrollPosition := 0)
  {
  }

  /** While browsing a non-empty list, Up undoes Down and Down undoes Up. */
  lemma {:induction false} DownUpRoundTrip(s: UiState, len: nat, now: nat)
    requires ValidState(s, len) && len > 0 && s.mode == Browsing
    ensures var down := KeyStep(s, len, KeyEvent(Press, Down, false), now).state;
      KeyStep(down, len, KeyEvent(Press, Up, false), now).state.selected == s.selected
    ensures var up := KeyStep(s, len, KeyEvent(Press, Up, false), now).state;
      KeyStep(up, len, KeyEvent(Press, Down, false), now).state.selected == s.selected
  {
    NextPreviousInverse(s.selected.value, len);
  }

  // ---------------------------------------------------------------------
  // Event loop over a finite sequence of key presses

  /** A key event together with the clock value when it was read. */
  datatype Input = Input(key: KeyEvent, at: nat)

  /** The state after a run, how many events it read (the quitting one
      included), and whether it quit. */
  datatype RunOutcome = RunOutcome(state: UiState, consumed: nat, quit: bool)

  /** The runs on which no key panics. */
  predicate RunAllowed(s: UiState, len: nat, inputs: seq<Input>)
    decreases |inputs|
  {
    |inputs| == 0 ||
    (KeyAllowed(s, len, inputs[0].key) &&
     var o := KeyStep(s, len, inputs[0].key, inputs[0].at);
     (o.quit || RunAllowed(o.state, len, inputs[1..])))
  }

  /** The reference run of the event loop: keys are handled in order until
      one of them quits. */
  function Run(s: UiState, len: nat, inputs: seq<Input>): (r: RunOutcome)
    requires RunAllowed(s, len, inputs)
    ensures r.consumed <= |inputs|
    decreases |inputs|
  {
    if |inputs| == 0 then RunOutcome(s, 0, false)
    else
      var o := KeyStep(s, len, inputs[0].key, inputs[0].at);
      if o.quit then RunOutcome(o.state, 1, true)
      else
        var rest := Run(o.state, len, inputs[1..]);
        RunOutcome(rest.state, rest.consumed + 1, rest.quit)
  }

  /** The index of the first pressed q or Q, or the length if none. */
  function FirstQuit(inputs: seq<Input>): (k: nat)
    ensures k <= |inputs|
    ensures forall j :: 0 <= j < k ==> !IsPressOf(inputs[j].key, 'q', 'Q')
    ensures k < |inputs| ==> IsPressOf(inputs[k].key, 'q', 'Q')
  {
    if |inputs| == 0 then 0
    else if IsPressOf(inputs[0].key, 'q', 'Q') then 0
    else 1 + FirstQuit(inputs[1..])
  }

  /** The run stops right after the first q or Q and reads nothing more;
      without one it reads every event. */
  lemma {:induction false} RunStopsAtFirstQuit(s: UiState, len: nat, inputs: seq<Input>)
    requires RunAllowed(s, len, inputs)
    ensures Run(s, len, inputs).quit <==> FirstQuit(inputs) < |inputs|
    ensures Run(s, len, inputs).consumed ==
      (if FirstQuit(inputs) < |inputs| then FirstQuit(inputs) + 1 else |inputs|)
    decreases |inputs|
  {
    if |inputs| > 0 {
      KeyStepQuits(s, len, inputs[0].key, inputs[0].at);
      var o := KeyStep(s, len, inputs[0].key, inputs[0].at);
      if !o.quit {
        RunStopsAtFirstQuit(o.state, len, inputs[1..]);
      }
    }
  }

  /** A run keeps the mode and the selection consistent. */
  lemma {:induction false} RunValid(s: UiState, len: nat, inputs: seq<Input>)
    requires ValidState(s, len) && RunAllowed(s, len, inputs)
    ensures ValidState(Run(s, len, inputs).state, len)
    decreases |inputs|
  {
    if |inputs| > 0 {
      KeyStepValid(s, len, inputs[0].key, inputs[0].at);
      var o := KeyStep(s, len, inputs[0].key, inputs[0].at);
      if !o.quit {
        RunValid(o.state, len, inputs[1..]);
      }
    }
  }

  /** On a non-empty list no sequence of keys panics. */
  lemma {:induction false} NonEmptyRunAllowed(s: UiState, len: nat, inputs: seq<Input>)
    requires len > 0
    ensures RunAllowed(s, len, inputs)
    decreases |inputs|
  {
    if |inputs| > 0 {
      var o := KeyStep(s, len, inputs[0].key, inputs[0].at);
      NonEmptyRunAllowed(o.state, len, inputs[1..]);
    }
  }

  // ---------------------------------------------------------------------
  // The browser

  /** The directory browser: the image map (file path to extracted colours
      or error message, in key order), the list of names shown, the input
      mode, the requested and the currently extracted number of colours,
      and the options passed on to the canvas and the extraction. */
  class App {
    var imagesPaths: seq<(string, Result<seq<Color>, string>)>
    var items: StatefulList
    var inputMode: InputMode
    var nbColors: nat
    var nbExtractedColors: nat
    var withRgb: bool
    var excludedColors: seq<Color>
    var bcColor: Option<Color>

    /** The state the keys act on. */
    function Snapshot(): UiState
      reads this, items
    {
      UiState(inputMode, items.selected, items.scrollPosition, items.startTime,
              items.clipColor, items.selectMore, items.selectLess, nbExtractedColors)
    }

    /** Everything the keys leave alone. */
    function Config(): (seq<(string, Result<seq<Color>, string>)>, seq<string>, nat, bool, seq<Color>, Option<Color>)
      reads this, items
    {
      (imagesPaths, items.items, nbColors, withRgb, excludedColors, bcColor)
    }

    predicate Valid()
      reads this, items
    {
      ValidState(Snapshot(), |items.items|)
    }

    /** `nbColors` is a `u8`; `imagesPaths` comes from a `BTreeMap`. */
    constructor (imagesPaths: seq<(string, Result<seq<Color>, string>)>, dirPath: string,
                 nbColors: nat, withRgb: bool, excludedColors: seq<Color>,
                 bcColor: Option<Color>, now: nat)
      requires nbColors < 256 && KeysSorted(imagesPaths)
      ensures Valid() && fresh(items)
      ensures items.items == ItemNames(imagesPaths, NormalizeDir(dirPath))
      ensures Snapshot() == UiState(Normal, None, 0, now, false, false, false, nbColors)
      ensures Config() == (imagesPaths, items.items, nbColors, withRgb, excludedColors, bcColor)
    {
      var dir := NormalizeDir(dirPath);
      var names := seq(|imagesPaths|, k requires 0 <= k < |imagesPaths| => RemoveAll(imagesPaths[k].0, dir));
      this.imagesPaths := imagesPaths;
      items := new StatefulList.WithItems(names, now);
      inputMode := Normal;
      this.nbColors := nbColors;
      nbExtractedColors := nbColors;
      this.withRgb := withRgb;
      this.excludedColors := excludedColors;
      this.bcColor := bcColor;
    }

    method IncrementNbExtractedColors()
      modifies this
      ensures nbExtractedColors == Incremented(old(nbExtractedColors))
      ensures inputMode == old(inputMode) && items == old(items)
      ensures Config() == old(Config())
    {
      if nbExtractedColors < 10 {
        nbExtractedColors := nbExtractedColors + 1;
      }
    }

    method DecrementNbExtractedColors()
      modifies this
      ensures nbExtractedColors == Decremented(old(nbExtractedColors))
      ensures inputMode == old(inputMode) && items == old(items)
      ensures Config() == old(Config())
    {
      if nbExtractedColors > 2 {
        nbExtractedColors := nbExtractedColors - 1;
      }
    }

    /** Handles one key read at time `now`; `quit` reports that the loop
        returns. */
    method HandleKey(key: KeyEvent, now: nat) returns (quit: bool)
      requires Valid() && KeyAllowed(Snapshot(), |items.items|, key)
      modifies this, items
      ensures items == old(items) && Config() == old(Config())
      ensures Valid()
      ensures KeyOutcome(Snapshot(), quit) == KeyStep(old(Snapshot()), |items.items|, key, now)
    {
      KeyStepValid(Snapshot(), |items.items|, key, now);
      quit := false;
      if key.kind != Press {
        return;
      }
      if inputMode == Normal {
        quit := HandleNormalKey(key.code);
      } else {
        quit := HandleBrowsingKey(key, now);
      }
    }

    method HandleNormalKey(code: KeyCode) returns (quit: bool)
      requires code == Down || code == Up ==> |items.items| > 0 || items.selected.None?
      modifies this, items
      ensures items == old(items) && Config() == old(Config())
      ensures KeyOutcome(Snapshot(), quit) == NormalStep(old(Snapshot()), |items.items|, code)
    {
      quit := false;
      match code {
        case Char(ch) =>
          quit := ch == 'q' || ch == 'Q';
        case Down =>
          inputMode := Browsing;
          items.Next();
        case Up =>
          inputMode := Browsing;
          items.Previous();
        case _ =>
      }
    }

    method HandleBrowsingKey(key: KeyEvent, now: nat) returns (quit: bool)
      requires key.code == Down || key.code == Up ==> |items.items| > 0 || items.selected.None?
      modifies this, items
      ensures items == old(items) && Config() == old(Config())
      ensures KeyOutcome(Snapshot(), quit) == BrowsingStep(old(Snapshot()), |items.items|, key, now)
    {
      quit := false;
      match key.code {
        case Left =>
          inputMode := Normal;
          items.Unselect();
        case Down =>
          items.Next();
        case Up =>
          items.Previous();
        case Char(ch) =>
          quit := HandleBrowsingChar(ch, key.ctrl, now);
        case _ =>
      }
    }

    method HandleBrowsingChar(ch: char, ctrl: bool, now: nat) returns (quit: bool)
      modifies this, items
      ensures items == old(items) && Config() == old(Config())
      ensures KeyOutcome(Snapshot(), quit) == BrowsingCharStep(old(Snapshot()), ch, ctrl, now)
    {
      quit := false;
      if ch == 'c' || ch == 'C' {
        if ctrl {
          items.startTime := now;
          items.clipColor := true;
        }
      } else if ch == 'q' || ch == 'Q' {
        quit := true;
      } else if ch == 'l' || ch == 'L' {
        items.selectLess := true;
        DecrementNbExtractedColors();
      } else if ch == 'm' || ch == 'M' {
        items.selectMore := true;
        IncrementNbExtractedColors();
      }
    }

    /** The event loop over the keys read, in order; it stops at the first
        key that quits. */
    method RunApp(inputs: seq<Input>) returns (consumed: nat, quit: bool)
      requires Valid() && RunAllowed(Snapshot(), |items.items|, inputs)
      modifies this, items
      ensures items == old(items) && Config() == old(Config())
      ensures Valid()
      ensures RunOutcome(Snapshot(), consumed, quit) == Run(old(Snapshot()), |items.items|, inputs)
    {
      ghost var len := |items.items|;
      ghost var s0 := Snapshot();
      consumed := 0;
      quit := false;
      while consumed < |inputs| && !quit
        invariant consumed <= |inputs| && items == old(items)
        invariant Valid() && |items.items| == len
        invariant Config() == old(Config())
        invariant !quit ==> RunAllowed(Snapshot(), len, inputs[consumed..])
        invariant !quit ==> var r := Run(Snapshot(), len, inputs[consumed..]);
          Run(s0, len, inputs) == RunOutcome(r.state, r.consumed + consumed, r.quit)
        invariant quit ==> Run(s0, len, inputs) == RunOutcome(Snapshot(), consumed, true)
        decreases |inputs| - consumed, !quit
      {
        ghost var s := Snapshot();
        var input := inputs[consumed];
        assert inputs[consumed..][1..] == inputs[consumed + 1..];
        quit := HandleKey(input.key, input.at);
        consumed := consumed + 1;
      }
    }
  }
}
