/** Terminal key events as the event loops see them, and the two input
    modes of the file browsers. */
module KeyEvents {
  /** Only presses are acted on; releases and repeats are ignored. */
  datatype KeyEventKind = Press | Release | Repeat

  /** The keys the loops distinguish; every other key is `OtherKey`. */
  datatype KeyCode = Char(ch: char) | Down | Up | Left | Esc | OtherKey

  /** A key event: its kind, its key, and whether Control was held. */
  datatype KeyEvent = KeyEvent(kind: KeyEventKind, code: KeyCode, ctrl: bool)

  /** `Normal`: nothing selected; `Browsing`: moving through the list. */
  datatype InputMode = Normal | Browsing

  predicate IsPress(key: KeyEvent, code: KeyCode) {
    key.kind == Press && key.code == code
  }

  /** A pressed letter key, either case. */
  predicate IsPressOf(key: KeyEvent, lower: char, upper: char) {
    key.kind == Press && (key.code == Char(lower) || key.code == Char(upper))
  }

  /** A pressed arrow key that moves the selection. */
  predicate IsMoveKey(key: KeyEvent) {
    key.kind == Press && (key.code == Down || key.code == Up)
  }
}
