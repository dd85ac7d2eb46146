/**
 * The selection policy both tables follow. A table keeps the index of its
 * selected row (tui's `TableState::selected`); the index is `None` exactly
 * when the table is empty and otherwise a valid row index. When the rows are
 * replaced, the selection follows the previously selected row's key to its
 * first occurrence in the new rows and otherwise falls back to the first row.
 * Moving the selection never wraps around.
 */
module Selection {
  import opened Wrappers

  /** The invariant both tables keep between their operations. */
  predicate ValidSelection(selected: Option<nat>, len: nat) {
    if len == 0 then selected.None? else selected.Some? && selected.value < len
  }

  /** `Iterator::position` with an equality test: the first index holding `key`. */
  function Position<K(==)>(keys: seq<K>, key: K): (r: Option<nat>)
    ensures r.None? <==> key !in keys
    ensures r.Some? ==> r.value < |keys| && keys[r.value] == key && key !in keys[..r.value]
  {
    if |keys| == 0 then None
    else if keys[0] == key then Some(0)
    else match Position(keys[1..], key)
      case None => None
      case Some(i) =>
        assert keys[..i + 1] == [keys[0]] + keys[1..][..i];
        Some(i + 1)
  }

  /**
   * The selection after the rows are replaced by rows with keys `keys`.
   * `previous` is the key of the row selected before, if the old selection
   * pointed at a row; when it did not, the old index `selected` is kept
   * unless it is `None`, which becomes 0 on a non-empty table.
   */
  function Reselect<K(==)>(previous: Option<K>, selected: Option<nat>, keys: seq<K>): (r: Option<nat>)
    ensures previous.Some? && previous.value in keys ==>
      r.Some? && r.value < |keys| && keys[r.value] == previous.value && previous.value !in keys[..r.value]
    ensures previous.Some? && previous.value !in keys ==>
      r == if |keys| == 0 then None else Some(0)
    ensures previous.None? && selected.None? ==>
      r == if |keys| == 0 then None else Some(0)
    ensures previous.Some? || selected.None? ==> ValidSelection(r, |keys|)
  {
    var found := if previous.Some? then Position(keys, previous.value) else selected;
    if found.None? && |keys| > 0 then Some(0) else found
  }

  /** `select_next`: one row down, staying on the last row; an empty selection goes to row 0. */
  function NextSelection(selected: Option<nat>, len: nat): (r: Option<nat>)
    ensures ValidSelection(selected, len) ==> ValidSelection(r, len)
    ensures selected.Some? && selected.value + 1 < len ==> r == Some(selected.value + 1)
    ensures selected.Some? && selected.value + 1 >= len ==> r == selected
    ensures selected.None? ==> r == if len == 0 then None else Some(0)
  {
    match selected
    case Some(i) => if len > i + 1 then Some(i + 1) else selected
    case None => if len > 0 then Some(0) else None
  }

  /** `select_previous`: one row up, staying on row 0; no selection stays no selection. */
  function PreviousSelection(selected: Option<nat>, len: nat): (r: Option<nat>)
    ensures ValidSelection(selected, len) ==> ValidSelection(r, len)
    ensures selected.Some? && selected.value > 0 && len > 0 ==> r == Some(selected.value - 1)
    ensures selected.Some? && selected.value == 0 ==> r == selected
    ensures selected.None? ==> r == None
  {
    match selected
    case Some(i) => if i > 0 && len > 0 then Some(i - 1) else selected
    case None => None
  }

  /** The selection after `k` presses of "next". */
  function NextTimes(selected: Option<nat>, len: nat, k: nat): Option<nat>
    decreases k
  {
    if k == 0 then selected else NextTimes(NextSelection(selected, len), len, k - 1)
  }

  /** The selection after `k` presses of "previous". */
  function PreviousTimes(selected: Option<nat>, len: nat, k: nat): Option<nat>
    decreases k
  {
    if k == 0 then selected else PreviousTimes(PreviousSelection(selected, len), len, k - 1)
  }

  function Min(a: int, b: int): int {
    if a <= b then a else b
  }

  function Max(a: int, b: int): int {
    if a >= b then a else b
  }

  /** Repeated "next" stops on the last row: it never wraps to the top. */
  lemma {:induction false} NextTimesSaturates(i: nat, len: nat, k: nat)
    requires i < len
    ensures NextTimes(Some(i), len, k) == Some(Min(i + k, len - 1))
    decreases k
  {
    if k > 0 {
      var j := if i + 1 < len then i + 1 else i;
      assert NextSelection(Some(i), len) == Some(j);
      NextTimesSaturates(j, len, k - 1);
    }
  }

  /** Repeated "previous" stops on row 0: it never wraps to the bottom. */
  lemma {:induction false} PreviousTimesSaturates(i: nat, len: nat, k: nat)
    requires i < len
    ensures PreviousTimes(Some(i), len, k) == Some(Max(i - k, 0))
    decreases k
  {
    if k > 0 {
      var j := if i > 0 then i - 1 else i;
      assert PreviousSelection(Some(i), len) == Some(j);
      PreviousTimesSaturates(j, len, k - 1);
    }
  }

  /** Away from the boundaries, "previous" undoes "next" and "next" undoes "previous". */
  lemma NextPreviousInverse(i: nat, len: nat)
    requires i < len
    ensures i + 1 < len ==> PreviousSelection(NextSelection(Some(i), len), len) == Some(i)
    ensures i > 0 ==> NextSelection(PreviousSelection(Some(i), len), len) == Some(i)
  {
  }

  /** With distinct keys, re-selecting the selected row's own key keeps the selection where it is. */
  lemma ReselectDistinctKeeps<K>(keys: seq<K>, i: nat)
    requires i < |keys|
    requires forall a, b :: 0 <= a < b < |keys| ==> keys[a] != keys[b]
    ensures Reselect(Some(keys[i]), Some(i), keys) == Some(i)
  {
  }

  /** When an earlier row has the same key, re-selecting moves the selection up to that first row. */
  lemma ReselectDuplicateMovesUp<K>(keys: seq<K>, i: nat, j: nat)
    requires j < i < |keys| && keys[j] == keys[i]
    ensures Reselect(Some(keys[i]), Some(i), keys) == Position(keys, keys[i])
    ensures Reselect(Some(keys[i]), Some(i), keys).value <= j < i
  {
  }
}
