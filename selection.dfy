/** The wrap-around index arithmetic shared by the two `StatefulList`
    types: `next` and `previous` on the selected index of a list. */
module Selection {
  import opened Colors

  /** The index `next` selects. With a selection on an empty list the
      source computes `len - 1` on an unsigned integer, which panics in a
      debug build and wraps in a release build; a selection therefore
      requires a non-empty list. */
  function NextIndex(selected: Option<nat>, len: nat): (i: nat)
    requires len > 0 || selected.None?
    ensures len > 0 ==> i < len
  {
    match selected
    case None => 0
    case Some(i) => if i >= len - 1 then 0 else i + 1
  }

  /** The index `previous` selects; the same restriction applies. */
  function PreviousIndex(selected: Option<nat>, len: nat): (i: nat)
    requires len > 0 || selected.None?
    ensures len > 0 && InRange(selected, len) ==> i < len
    ensures selected.Some? && selected.value > 0 ==> i == selected.value - 1
  {
    match selected
    case None => 0
    case Some(i) => if i == 0 then len - 1 else i - 1
  }

  /** A selection inside the list, or none. */
  predicate InRange(selected: Option<nat>, len: nat) {
    selected.Some? ==> selected.value < len
  }

  /** From nothing, both moves select the first item. */
  lemma FromNothing(len: nat)
    ensures NextIndex(None, len) == 0 && PreviousIndex(None, len) == 0
  {
  }

  /** On an in-range selection, `next` is the successor modulo the length
      and `previous` the predecessor: the list wraps around at both ends. */
  lemma WrapAround(i: nat, len: nat)
    requires i < len
    ensures NextIndex(Some(i), len) == (i + 1) % len
    ensures PreviousIndex(Some(i), len) == (i + len - 1) % len
  {
    if i == len - 1 {
      ModOnce(i + 1, len);
    } else {
      ModBelow(i + 1, len);
    }
    if i == 0 {
      ModBelow(i + len - 1, len);
    } else {
      ModOnce(i + len - 1, len);
    }
  }

  lemma ModBelow(x: nat, n: nat)
    requires x < n
    ensures x % n == x
  {
  }

  lemma ModOnce(x: nat, n: nat)
    requires 0 < n <= x < 2 * n
    ensures x % n == x - n
  {
  }

  /** `previous` undoes `next` and `next` undoes `previous`. */
  lemma NextPreviousInverse(i: nat, len: nat)
    requires i < len
    ensures PreviousIndex(Some(NextIndex(Some(i), len)), len) == i
    ensures NextIndex(Some(PreviousIndex(Some(i), len)), len) == i
  {
  }

  /** Both moves keep an in-range selection in range. */
  lemma MovesStayInRange(selected: Option<nat>, len: nat)
    requires len > 0 && InRange(selected, len)
    ensures NextIndex(selected, len) < len && PreviousIndex(selected, len) < len
  {
  }
}
