/**
 * `App`: the BSS table and the IE table together. Exactly one of them holds
 * the focus, the arrow keys move the focused table's selection, and after
 * every change to the BSS table the IE table is re-derived from the
 * selected record (`reset_ie_table`), which does nothing when no record is
 * selected. `AppModel` is the value of both tables, the `After...` functions
 * specify `App`'s operations, and the class `App` performs them in place.
 */
module Application {
  import opened Wrappers
  import opened Kawaiifi
  import opened Selection
  import opened BssSorting
  import B = BssTableWidget
  import I = IeTableWidget

  datatype AppModel = AppModel(bssTable: B.BssTableModel, ieTable: I.IeTableModel)

  /**
   * What every `App` operation keeps: both tables valid, exactly one of them
   * focused, and the IE table showing the elements of the selected record.
   */
  predicate ValidApp(a: AppModel) {
    && B.ValidBssTable(a.bssTable)
    && I.ValidIeTable(a.ieTable)
    && a.bssTable.isFocused != a.ieTable.isFocused
    && (B.SelectedBss(a.bssTable).Some? ==> a.ieTable.ies == B.SelectedBss(a.bssTable).value.ies)
  }

  /** `App::default()`: two empty tables, the BSS table focused. */
  function DefaultApp(): (a: AppModel)
    ensures ValidApp(a)
    ensures a.bssTable.isFocused && !a.ieTable.isFocused
    ensures a.bssTable.scanResults == [] && a.ieTable.ies == []
  {
    AppModel(B.DefaultBssTable().(isFocused := true), I.DefaultIeTable())
  }

  /** `reset_ie_table`: show the selected record's elements; without a selection, change nothing. */
  function AfterResetIeTable(a: AppModel): AppModel {
    match B.SelectedBss(a.bssTable)
    case Some(bss) => a.(ieTable := I.AfterSetIes(a.ieTable, bss.ies))
    case None => a
  }

  function AfterUpdateScanResults(a: AppModel, scanResults: seq<Bss>): AppModel {
    AfterResetIeTable(a.(bssTable := B.AfterSetScanResults(a.bssTable, scanResults)))
  }

  function AfterSortBssTable(a: AppModel, column: BssTableColumnHeader, order: TableSortOrder): AppModel {
    AfterResetIeTable(a.(bssTable := B.AfterSort(a.bssTable, column, order)))
  }

  function AfterSelectNext(a: AppModel): AppModel {
    AfterResetIeTable(
      if a.bssTable.isFocused then a.(bssTable := B.AfterSelectNext(a.bssTable))
      else a.(ieTable := I.AfterSelectNext(a.ieTable)))
  }

  function AfterSelectPrevious(a: AppModel): AppModel {
    AfterResetIeTable(
      if a.bssTable.isFocused then a.(bssTable := B.AfterSelectPrevious(a.bssTable))
      else a.(ieTable := I.AfterSelectPrevious(a.ieTable)))
  }

  /** `focus_next`: hand the focus to the other table (nothing happens if neither has it). */
  function AfterFocusNext(a: AppModel): AppModel {
    if a.bssTable.isFocused then
      a.(ieTable := a.ieTable.(isFocused := true), bssTable := a.bssTable.(isFocused := false))
    else if a.ieTable.isFocused then
      a.(bssTable := a.bssTable.(isFocused := true), ieTable := a.ieTable.(isFocused := false))
    else a
  }

  // Properties of the operations.

  /**
   * `reset_ie_table` leaves the BSS table and the focus alone, keeps the IE
   * table valid and makes it show the selected record's elements; with no
   * record selected it changes nothing at all.
   */
  lemma ResetIeTableLinks(a: AppModel)
    requires B.ValidBssTable(a.bssTable) && I.ValidIeTable(a.ieTable)
    ensures var r := AfterResetIeTable(a);
      && r.bssTable == a.bssTable
      && I.ValidIeTable(r.ieTable)
      && r.ieTable.isFocused == a.ieTable.isFocused
      && (B.SelectedBss(a.bssTable).Some? ==> r.ieTable.ies == B.SelectedBss(a.bssTable).value.ies)
      && (B.SelectedBss(a.bssTable).None? ==> r == a)
  {
    if B.SelectedBss(a.bssTable).Some? {
      I.SetIesValid(a.ieTable, B.SelectedBss(a.bssTable).value.ies);
    }
  }

  /**
   * `update_scan_results` keeps the app valid and the focus where it was, and
   * the BSS table then holds the snapshot's records ordered by the active sort.
   */
  lemma UpdateScanResultsValid(a: AppModel, scanResults: seq<Bss>)
    requires ValidApp(a)
    ensures var r := AfterUpdateScanResults(a, scanResults);
      && ValidApp(r)
      && multiset(r.bssTable.scanResults) == multiset(scanResults)
      && SortedBy(r.bssTable.scanResults, a.bssTable.sorting.0, a.bssTable.sorting.1)
      && r.bssTable.sorting == a.bssTable.sorting
      && r.bssTable.isFocused == a.bssTable.isFocused
      && r.ieTable.isFocused == a.ieTable.isFocused
  {
    B.SetScanResultsValid(a.bssTable, scanResults);
    ResetIeTableLinks(a.(bssTable := B.AfterSetScanResults(a.bssTable, scanResults)));
  }

  /**
   * `sort_bss_table` keeps the app valid and the focus where it was, records
   * the sort, reorders the records without adding or dropping any, and shows
   * the elements of the first record (or leaves the IE table alone when there
   * are no records).
   */
  lemma SortBssTableValid(a: AppModel, column: BssTableColumnHeader, order: TableSortOrder)
    requires ValidApp(a)
    ensures var r := AfterSortBssTable(a, column, order);
      && ValidApp(r)
      && r.bssTable.sorting == (column, order)
      && multiset(r.bssTable.scanResults) == multiset(a.bssTable.scanResults)
      && SortedBy(r.bssTable.scanResults, column, order)
      && (|r.bssTable.scanResults| > 0 ==> r.ieTable.ies == r.bssTable.scanResults[0].ies)
      && (|r.bssTable.scanResults| == 0 ==> r.ieTable == a.ieTable)
      && r.bssTable.isFocused == a.bssTable.isFocused
      && r.ieTable.isFocused == a.ieTable.isFocused
  {
    B.SortValid(a.bssTable, column, order);
    SortByColumnCorrect(a.bssTable.scanResults, column, order);
    ResetIeTableLinks(a.(bssTable := B.AfterSort(a.bssTable, column, order)));
  }

  /** `select_next` and `select_previous` keep the app valid and the focus where it was. */
  lemma SelectValid(a: AppModel)
    requires ValidApp(a)
    ensures ValidApp(AfterSelectNext(a)) && ValidApp(AfterSelectPrevious(a))
    ensures AfterSelectNext(a).bssTable.isFocused == a.bssTable.isFocused
    ensures AfterSelectNext(a).ieTable.isFocused == a.ieTable.isFocused
    ensures AfterSelectPrevious(a).bssTable.isFocused == a.bssTable.isFocused
    ensures AfterSelectPrevious(a).ieTable.isFocused == a.ieTable.isFocused
  {
    B.SelectMovesValid(a.bssTable);
    I.SelectMovesValid(a.ieTable);
    ResetIeTableLinks(if a.bssTable.isFocused then a.(bssTable := B.AfterSelectNext(a.bssTable))
      else a.(ieTable := I.AfterSelectNext(a.ieTable)));
    ResetIeTableLinks(if a.bssTable.isFocused then a.(bssTable := B.AfterSelectPrevious(a.bssTable))
      else a.(ieTable := I.AfterSelectPrevious(a.ieTable)));
  }

  /**
   * With the BSS table focused, the arrows move the BSS selection one step
   * (without wrapping) and change nothing else in the BSS table.
   */
  lemma SelectMovesBssWhenFocused(a: AppModel)
    requires ValidApp(a) && a.bssTable.isFocused
    ensures AfterSelectNext(a).bssTable == a.bssTable.(selected := NextSelection(a.bssTable.selected, |a.bssTable.scanResults|))
    ensures AfterSelectPrevious(a).bssTable == a.bssTable.(selected := PreviousSelection(a.bssTable.selected, |a.bssTable.scanResults|))
  {
    B.SelectMovesValid(a.bssTable);
    ResetIeTableLinks(a.(bssTable := B.AfterSelectNext(a.bssTable)));
    ResetIeTableLinks(a.(bssTable := B.AfterSelectPrevious(a.bssTable)));
  }

  /**
   * With the IE table focused, the arrows leave the BSS table untouched and
   * keep the elements shown. When a record is selected, the IE selection
   * ends on the first element carrying the id of the element the plain
   * one-step move reached; when none is, it stays where that move put it.
   */
  lemma SelectMovesIeWhenFocused(a: AppModel)
    requires ValidApp(a) && !a.bssTable.isFocused
    ensures AfterSelectNext(a).bssTable == a.bssTable
    ensures AfterSelectPrevious(a).bssTable == a.bssTable
    ensures AfterSelectNext(a).ieTable.ies == a.ieTable.ies
    ensures AfterSelectPrevious(a).ieTable.ies == a.ieTable.ies
    ensures var s := NextSelection(a.ieTable.selected, |a.ieTable.ies|);
      AfterSelectNext(a).ieTable.selected ==
        if B.SelectedBss(a.bssTable).Some? then FirstWithSameId(a.ieTable.ies, s) else s
    ensures var s := PreviousSelection(a.ieTable.selected, |a.ieTable.ies|);
      AfterSelectPrevious(a).ieTable.selected ==
        if B.SelectedBss(a.bssTable).Some? then FirstWithSameId(a.ieTable.ies, s) else s
  {
    I.SelectMovesValid(a.ieTable);
    SetSameIes(I.AfterSelectNext(a.ieTable));
    SetSameIes(I.AfterSelectPrevious(a.ieTable));
  }

  /** Where a selection of `ies` goes when `ies` is set again: the first index with the selected id. */
  function FirstWithSameId(ies: seq<Ie>, s: Option<nat>): Option<nat> {
    match s
    case Some(i) => if i < |ies| then Position(I.Ids(ies), ies[i].id) else s
    case None => s
  }

  /** Setting a table's own elements again moves its selection to the first index with the selected id. */
  lemma SetSameIes(t: I.IeTableModel)
    requires I.ValidIeTable(t)
    ensures I.AfterSetIes(t, t.ies).selected == FirstWithSameId(t.ies, t.selected)
  {
    if t.selected.Some? {
      assert I.Ids(t.ies)[t.selected.value] == t.ies[t.selected.value].id;
    }
  }

  /** With distinct element ids, the IE selection moves exactly as the IE table's own move puts it. */
  lemma SelectIeDistinctIds(a: AppModel)
    requires ValidApp(a) && !a.bssTable.isFocused
    requires forall i, j :: 0 <= i < j < |a.ieTable.ies| ==> a.ieTable.ies[i].id != a.ieTable.ies[j].id
    ensures AfterSelectNext(a).ieTable.selected == NextSelection(a.ieTable.selected, |a.ieTable.ies|)
    ensures AfterSelectPrevious(a).ieTable.selected == PreviousSelection(a.ieTable.selected, |a.ieTable.ies|)
  {
    SelectMovesIeWhenFocused(a);
    var ies := a.ieTable.ies;
    DistinctIdsFirst(ies, NextSelection(a.ieTable.selected, |ies|));
    DistinctIdsFirst(ies, PreviousSelection(a.ieTable.selected, |ies|));
  }

  /** With distinct element ids, `ReselectDistinctKeeps` over the ids leaves every selection in place. */
  lemma DistinctIdsFirst(ies: seq<Ie>, s: Option<nat>)
    requires forall i, j :: 0 <= i < j < |ies| ==> ies[i].id != ies[j].id
    ensures FirstWithSameId(ies, s) == s
  {
    if s.Some? && s.value < |ies| {
      var keys := I.Ids(ies);
      forall a, b | 0 <= a < b < |keys|
        ensures keys[a] != keys[b]
      {
        assert keys[a] == ies[a].id && keys[b] == ies[b].id;
      }
      ReselectDistinctKeeps(keys, s.value);
      assert keys[s.value] == ies[s.value].id;
    }
  }

  /**
   * With a record selected and two neighbouring elements sharing an id,
   * Down from the first of them goes nowhere: the move reaches the second, and re-setting the
   * elements snaps the selection back to the first element with that id.
   */
  lemma DuplicateIdsPinSelection(a: AppModel, i: nat)
    requires ValidApp(a) && !a.bssTable.isFocused && B.SelectedBss(a.bssTable).Some?
    requires a.ieTable.selected == Some(i) && i + 1 < |a.ieTable.ies|
    requires a.ieTable.ies[i + 1].id == a.ieTable.ies[i].id
    requires forall j :: 0 <= j < i ==> a.ieTable.ies[j].id != a.ieTable.ies[i].id
    ensures AfterSelectNext(a).ieTable.selected == Some(i)
  {
    SelectMovesIeWhenFocused(a);
    var ies := a.ieTable.ies;
    var p := Position(I.Ids(ies), ies[i + 1].id);
    assert I.Ids(ies)[i] == ies[i].id;
    assert p.Some? && I.Ids(ies)[p.value] == ies[p.value].id;
  }

  /**
   * `focus_next` keeps the app valid and swaps the focus between the two
   * tables without touching anything else; done twice it restores the app.
   */
  lemma FocusNextSwaps(a: AppModel)
    requires ValidApp(a)
    ensures var r := AfterFocusNext(a);
      && ValidApp(r)
      && r.bssTable == a.bssTable.(isFocused := !a.bssTable.isFocused)
      && r.ieTable == a.ieTable.(isFocused := !a.ieTable.isFocused)
    ensures AfterFocusNext(AfterFocusNext(a)) == a
  {
  }

  /** The table fields of `App`, updated in place as its methods do. */
  class App {
    const bssTable: B.BssTableState
    const ieTable: I.IeTableState

    function Model(): AppModel
      reads this, bssTable, ieTable
    {
      AppModel(bssTable.Model(), ieTable.Model())
    }

    predicate Valid()
      reads this, bssTable, ieTable
    {
      ValidApp(Model())
    }

    /** `App::new()` / `App::default()`: the BSS table starts with the focus. */
    constructor ()
      ensures Valid() && Model() == DefaultApp()
      ensures fresh(bssTable) && fresh(ieTable)
    {
      var bss := new B.BssTableState();
      bss.Focus();
      bssTable := bss;
      ieTable := new I.IeTableState();
    }

    /** `reset_ie_table`. */
    method ResetIeTable()
      requires bssTable.Valid() && ieTable.Valid()
      modifies ieTable
      ensures bssTable.Valid() && ieTable.Valid()
      ensures Model() == AfterResetIeTable(old(Model()))
    {
      ResetIeTableLinks(Model());
      var selectedBss := B.SelectedBss(bssTable.Model());
      if selectedBss.Some? {
        ieTable.SetIes(selectedBss.value.ies);
      }
    }

    method UpdateScanResults(scanResults: seq<Bss>)
      requires Valid()
      modifies bssTable, ieTable
      ensures Valid() && Model() == AfterUpdateScanResults(old(Model()), scanResults)
    {
      UpdateScanResultsValid(Model(), scanResults);
      bssTable.SetScanResults(scanResults);
      ResetIeTable();
    }

    method SortBssTable(column: BssTableColumnHeader, order: TableSortOrder)
      requires Valid()
      modifies bssTable, ieTable
      ensures Valid() && Model() == AfterSortBssTable(old(Model()), column, order)
    {
      SortBssTableValid(Model(), column, order);
      bssTable.Sort(column, order);
      ResetIeTable();
    }

    method SelectNext()
      requires Valid()
      modifies bssTable, ieTable
      ensures Valid() && Model() == AfterSelectNext(old(Model()))
    {
      SelectValid(Model());
      if bssTable.isFocused {
        bssTable.SelectNext();
      } else {
        ieTable.SelectNext();
      }
      ResetIeTable();
    }

    method SelectPrevious()
      requires Valid()
      modifies bssTable, ieTable
      ensures Valid() && Model() == AfterSelectPrevious(old(Model()))
    {
      SelectValid(Model());
      if bssTable.isFocused {
        bssTable.SelectPrevious();
      } else {
        ieTable.SelectPrevious();
      }
      ResetIeTable();
    }

    method FocusNext()
      requires Valid()
      modifies bssTable, ieTable
      ensures Valid() && Model() == AfterFocusNext(old(Model()))
    {
      FocusNextSwaps(Model());
      if bssTable.isFocused {
        ieTable.Focus();
        bssTable.Unfocus();
      } else if ieTable.isFocused {
        bssTable.Focus();
        ieTable.Unfocus();
      }
    }
  }
}
