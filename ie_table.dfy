/**
 * `IeTableState`: the selectable table of the information elements of one
 * record. It keeps the elements in the order given (no sorting) and carries
 * the selection over by element id. `IeTableModel` is the value of its
 * fields, the `After...` functions specify the operations, and the class
 * `IeTableState` performs them in place.
 */
module IeTableWidget {
  import opened Wrappers
  import opened Kawaiifi
  import opened Formatting
  import opened Selection

  datatype IeTableColumnHeader = Id | Element | Length

  /** The columns `Default` installs, in display order. */
  function IeTableColumns(): seq<IeTableColumnHeader> {
    [Id, Element, Length]
  }

  /** The `Display` of a column header. */
  function IeColumnTitle(column: IeTableColumnHeader): string {
    match column
    case Id => "ID"
    case Element => "Element"
    case Length => "Length"
  }

  /** One cell of `IeTableRow::new`: the id, the name, and the length as "<n> B". */
  function IeCell(ie: Ie, column: IeTableColumnHeader): string {
    match column
    case Id => IntText(ie.id)
    case Element => ie.name
    case Length => WithUnit(|ie.bytes|, " B")
  }

  /** `IeTableRow::new`: one cell per column header. */
  function IeRow(ie: Ie, headers: seq<IeTableColumnHeader>): seq<string> {
    seq(|headers|, j requires 0 <= j < |headers| => IeCell(ie, headers[j]))
  }

  function IeRows(ies: seq<Ie>, headers: seq<IeTableColumnHeader>): seq<seq<string>> {
    seq(|ies|, i requires 0 <= i < |ies| => IeRow(ies[i], headers))
  }

  /** The ids of `ies`, in order: the keys the selection is carried by. */
  function Ids(ies: seq<Ie>): seq<nat> {
    seq(|ies|, i requires 0 <= i < |ies| => ies[i].id)
  }

  /** The fields of `IeTableState` (the unused `list_state` aside). */
  datatype IeTableModel = IeTableModel(
    ies: seq<Ie>,
    rows: seq<seq<string>>,
    columnHeaders: seq<IeTableColumnHeader>,
    selected: Option<nat>,
    isFocused: bool)

  /** What every operation keeps: the fixed columns, a valid selection, one row per element. */
  predicate ValidIeTable(t: IeTableModel) {
    && t.columnHeaders == IeTableColumns()
    && ValidSelection(t.selected, |t.ies|)
    && t.rows == IeRows(t.ies, t.columnHeaders)
  }

  /** `IeTableState::default()`. */
  function DefaultIeTable(): (t: IeTableModel)
    ensures ValidIeTable(t)
    ensures t.ies == [] && t.selected.None? && !t.isFocused
  {
    IeTableModel([], [], IeTableColumns(), None, false)
  }

  /** `selected_ie`: the element under the selection (`None` out of range). */
  function SelectedIe(t: IeTableModel): (r: Option<Ie>)
    ensures r.Some? ==> t.selected.Some? && t.selected.value < |t.ies| && r.value == t.ies[t.selected.value]
    ensures ValidIeTable(t) ==> (r.None? <==> |t.ies| == 0)
  {
    match t.selected
    case Some(i) => if i < |t.ies| then Some(t.ies[i]) else None
    case None => None
  }

  function IdOf(ie: Option<Ie>): Option<nat> {
    match ie
    case Some(e) => Some(e.id)
    case None => None
  }

  /**
   * `set_ies`: move the selection to the first element with the id of the
   * element selected before (or to row 0), then store a copy of the elements
   * and rebuild the rows.
   */
  function AfterSetIes(t: IeTableModel, ies: seq<Ie>): IeTableModel {
    t.(ies := ies,
       rows := IeRows(ies, t.columnHeaders),
       selected := Reselect(IdOf(SelectedIe(t)), t.selected, Ids(ies)))
  }

  function AfterSelectNext(t: IeTableModel): IeTableModel {
    t.(selected := NextSelection(t.selected, |t.ies|))
  }

  function AfterSelectPrevious(t: IeTableModel): IeTableModel {
    t.(selected := PreviousSelection(t.selected, |t.ies|))
  }

  // Properties of the operations.

  /** `set_ies` keeps the table valid, stores the elements exactly as given, and keeps the focus. */
  lemma SetIesValid(t: IeTableModel, ies: seq<Ie>)
    requires ValidIeTable(t)
    ensures ValidIeTable(AfterSetIes(t, ies))
    ensures AfterSetIes(t, ies).ies == ies
    ensures AfterSetIes(t, ies).isFocused == t.isFocused
  {
  }

  /** An element id that is still present stays selected, at its first occurrence. */
  lemma SetIesFollowsId(t: IeTableModel, ies: seq<Ie>, k: nat)
    requires ValidIeTable(t)
    requires SelectedIe(t).Some? && k < |ies| && ies[k].id == SelectedIe(t).value.id
    ensures var r := AfterSetIes(t, ies);
      && r.selected.Some? && r.selected.value <= k
      && ies[r.selected.value].id == SelectedIe(t).value.id
      && forall j :: 0 <= j < r.selected.value ==> ies[j].id != SelectedIe(t).value.id
  {
    var id := SelectedIe(t).value.id;
    assert Ids(ies)[k] == id;
    var r := AfterSetIes(t, ies);
    forall j | 0 <= j < r.selected.value
      ensures ies[j].id != id
    {
      assert Ids(ies)[..r.selected.value][j] == ies[j].id;
    }
  }

  /** With nothing selected before, or its id gone, the selection falls back to row 0 (or `None`). */
  lemma SetIesFallsBack(t: IeTableModel, ies: seq<Ie>)
    requires ValidIeTable(t)
    requires SelectedIe(t).None? || forall k :: 0 <= k < |ies| ==> ies[k].id != SelectedIe(t).value.id
    ensures AfterSetIes(t, ies).selected == if |ies| == 0 then None else Some(0)
  {
    if SelectedIe(t).Some? {
      var id := SelectedIe(t).value.id;
      assert forall k :: 0 <= k < |ies| ==> Ids(ies)[k] != id;
    }
  }

  /** Moving the selection keeps the table valid and changes nothing but the selection. */
  lemma SelectMovesValid(t: IeTableModel)
    requires ValidIeTable(t)
    ensures ValidIeTable(AfterSelectNext(t)) && ValidIeTable(AfterSelectPrevious(t))
    ensures AfterSelectNext(t).(selected := t.selected) == t
    ensures AfterSelectPrevious(t).(selected := t.selected) == t
  {
  }

  /** Each row reads back as its element's id, name and byte length ("<n> B"). */
  lemma IeRowShowsElement(ie: Ie)
    ensures |IeRow(ie, IeTableColumns())| == 3
    ensures ParseInt(IeRow(ie, IeTableColumns())[0]) == Some(ie.id as int)
    ensures IeRow(ie, IeTableColumns())[1] == ie.name
    ensures ParseWithUnit(IeRow(ie, IeTableColumns())[2], " B") == Some(|ie.bytes|)
  {
    var row := IeRow(ie, IeTableColumns());
    assert row[0] == IntText(ie.id);
    assert row[2] == WithUnit(|ie.bytes|, " B");
    IntTextRoundTrip(ie.id);
    WithUnitRoundTrip(|ie.bytes|, " B");
  }

  /** The header shows three distinct, non-empty titles. */
  lemma IeHeaderTitles()
    ensures forall i :: 0 <= i < 3 ==> |IeColumnTitle(IeTableColumns()[i])| > 0
    ensures forall i, j :: 0 <= i < j < 3 ==> IeColumnTitle(IeTableColumns()[i]) != IeColumnTitle(IeTableColumns()[j])
  {
  }

  /** The table's fields, updated in place as `IeTableState`'s methods do. */
  class IeTableState {
    var ies: seq<Ie>
    var rows: seq<seq<string>>
    var columnHeaders: seq<IeTableColumnHeader>
    var selected: Option<nat>
    var isFocused: bool

    function Model(): IeTableModel
      reads this
    {
      IeTableModel(ies, rows, columnHeaders, selected, isFocused)
    }

    predicate Valid()
      reads this
    {
      ValidIeTable(Model())
    }

    /** `IeTableState::default()`. */
    constructor ()
      ensures Valid() && Model() == DefaultIeTable()
    {
      columnHeaders := IeTableColumns();
      ies := [];
      rows := [];
      selected := None;
      isFocused := false;
    }

    method Focus()
      requires Valid()
      modifies this
      ensures Valid() && Model() == old(Model()).(isFocused := true)
    {
      isFocused := true;
    }

    method Unfocus()
      requires Valid()
      modifies this
      ensures Valid() && Model() == old(Model()).(isFocused := false)
    {
      isFocused := false;
    }

    method SetIes(newIes: seq<Ie>)
      requires Valid()
      modifies this
      ensures Valid() && Model() == AfterSetIes(old(Model()), newIes)
    {
      var previous := SelectedIe(Model());
      if previous.Some? {
        selected := Position(Ids(newIes), previous.value.id);
      }
      if selected.None? && |newIes| > 0 {
        selected := Some(0);
      }
      ies := newIes;
      rows := IeRows(newIes, columnHeaders);
    }

    method SelectNext()
      modifies this
      ensures old(Valid()) ==> Valid()
      ensures Model() == AfterSelectNext(old(Model()))
    {
      match selected {
        case Some(i) =>
          if |ies| > i + 1 {
            selected := Some(i + 1);
          }
        case None =>
          if |ies| > 0 {
            selected := Some(0);
          }
      }
    }

    method SelectPrevious()
      modifies this
      ensures old(Valid()) ==> Valid()
      ensures Model() == AfterSelectPrevious(old(Model()))
    {
      match selected {
        case Some(i) =>
          if i > 0 && |ies| > 0 {
            selected := Some(i - 1);
          }
        case None =>
      }
    }
  }
}
