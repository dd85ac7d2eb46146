/**
 * `BssTableState`: the sortable, selectable table of scanned basic service
 * sets. `BssTableModel` is the value of its fields, the `After...` functions
 * say what each operation makes of that value, and the class
 * `BssTableState` updates the fields in place as the program does and is
 * proved to follow those functions.
 */
module BssTableWidget {
  import opened Wrappers
  import opened Kawaiifi
  import opened Formatting
  import opened Selection
  import opened BssSorting

  /** The columns `Default` installs, in display order. */
  function BssTableColumns(): seq<BssTableColumnHeader> {
    [Bssid, Ssid, BssTableColumnHeader.Channel, ChannelWidth, Band, Frequency, Signal, WiFiProtocols, Security, MaxRate]
  }

  /** The `Display` of a column header. */
  function ColumnTitle(column: BssTableColumnHeader): (title: string)
    ensures |title| > 0 && title[|title| - 1] != '*'
  {
    match column
    case Bssid => "BSSID"
    case Ssid => "SSID"
    case Channel => "Channel"
    case ChannelWidth => "Channel Width"
    case Band => "Band"
    case Frequency => "Frequency"
    case Signal => "Signal"
    case WiFiProtocols => "Wi-Fi Protocols"
    case Security => "Security"
    case MaxRate => "Max Rate"
  }

  /** The header cell drawn for `column`: the active sort column gets a trailing '*'. */
  function HeaderLabel(column: BssTableColumnHeader, sortColumn: BssTableColumnHeader): string {
    if column == sortColumn then ColumnTitle(column) + "*" else ColumnTitle(column)
  }

  predicate Marked(title: string) {
    |title| > 0 && title[|title| - 1] == '*'
  }

  /** One cell of `BssTableRow::new`. */
  function Cell(bss: Bss, column: BssTableColumnHeader): string {
    match column
    case Bssid => MacText(bss.bssid)
    case Ssid => (match bss.ssid case Some(s) => s case None => "")
    case Channel => IntText(bss.channel.number)
    case ChannelWidth => bss.channel.width.text
    case Band => bss.channel.band.text
    case Frequency => WithUnit(bss.channel.centerFreqMhz, " MHz")
    case Signal => WithUnit(bss.signalDbm, " dBm")
    case WiFiProtocols => bss.wifiProtocols.text
    case Security => "None"
    case MaxRate => "0.0 Mbps"
  }

  /** `BssTableRow::new`: one cell per column header. */
  function BssRow(bss: Bss, headers: seq<BssTableColumnHeader>): seq<string> {
    seq(|headers|, j requires 0 <= j < |headers| => Cell(bss, headers[j]))
  }

  /** The rows rebuilt after every change of the records: one per record, in record order. */
  function BssRows(records: seq<Bss>, headers: seq<BssTableColumnHeader>): seq<seq<string>> {
    seq(|records|, i requires 0 <= i < |records| => BssRow(records[i], headers))
  }

  /** The fields of `BssTableState`; `selected` is the selection of tui's `TableState`. */
  datatype BssTableModel = BssTableModel(
    scanResults: seq<Bss>,
    rows: seq<seq<string>>,
    columnHeaders: seq<BssTableColumnHeader>,
    selected: Option<nat>,
    isFocused: bool,
    sorting: (BssTableColumnHeader, TableSortOrder))

  /**
   * What every operation keeps: the fixed columns, a selection that is `None`
   * exactly on an empty table and a valid index otherwise, records ordered by
   * the active sort, and one row per record.
   */
  predicate ValidBssTable(t: BssTableModel) {
    && t.columnHeaders == BssTableColumns()
    && ValidSelection(t.selected, |t.scanResults|)
    && SortedBy(t.scanResults, t.sorting.0, t.sorting.1)
    && t.rows == BssRows(t.scanResults, t.columnHeaders)
  }

  /** `BssTableState::default()`. */
  function DefaultBssTable(): (t: BssTableModel)
    ensures ValidBssTable(t)
    ensures t.scanResults == [] && t.selected.None? && !t.isFocused
  {
    BssTableModel([], [], BssTableColumns(), None, false, (Bssid, Descending))
  }

  /** `selected_bss`: the record under the selection (`Vec::get`, so `None` out of range). */
  function SelectedBss(t: BssTableModel): (r: Option<Bss>)
    ensures r.Some? ==> t.selected.Some? && t.selected.value < |t.scanResults| && r.value == t.scanResults[t.selected.value]
    ensures ValidBssTable(t) ==> (r.None? <==> |t.scanResults| == 0)
  {
    match t.selected
    case Some(i) => if i < |t.scanResults| then Some(t.scanResults[i]) else None
    case None => None
  }

  /**
   * `set_scan_results`: sort the incoming records by the active sort, move
   * the selection to the first record equal to the one selected before (or
   * to row 0), then store the records and rebuild the rows.
   */
  function AfterSetScanResults(t: BssTableModel, incoming: seq<Bss>): BssTableModel {
    var sortedResults := SortByColumn(incoming, t.sorting.0, t.sorting.1);
    t.(scanResults := sortedResults,
       rows := BssRows(sortedResults, t.columnHeaders),
       selected := Reselect(SelectedBss(t), t.selected, sortedResults))
  }

  /** `sort`: re-sort the records held, rebuild the rows, record the sort, select row 0. */
  function AfterSort(t: BssTableModel, column: BssTableColumnHeader, order: TableSortOrder): BssTableModel {
    var sortedResults := SortByColumn(t.scanResults, column, order);
    t.(scanResults := sortedResults,
       rows := BssRows(sortedResults, t.columnHeaders),
       sorting := (column, order),
       selected := if |sortedResults| > 0 then Some(0) else t.selected)
  }

  function AfterSelectNext(t: BssTableModel): BssTableModel {
    t.(selected := NextSelection(t.selected, |t.scanResults|))
  }

  function AfterSelectPrevious(t: BssTableModel): BssTableModel {
    t.(selected := PreviousSelection(t.selected, |t.scanResults|))
  }

  // Properties of the operations.

  /**
   * `set_scan_results` keeps the table valid, stores a permutation of the
   * incoming records sorted by the active sort with ties in arrival order,
   * and changes neither the sort nor the focus.
   */
  lemma SetScanResultsValid(t: BssTableModel, incoming: seq<Bss>)
    requires ValidBssTable(t)
    ensures ValidBssTable(AfterSetScanResults(t, incoming))
    ensures multiset(AfterSetScanResults(t, incoming).scanResults) == multiset(incoming)
    ensures KeepsTies(AfterSetScanResults(t, incoming).scanResults, incoming, t.sorting.0)
    ensures |AfterSetScanResults(t, incoming).rows| == |incoming|
    ensures AfterSetScanResults(t, incoming).sorting == t.sorting
    ensures AfterSetScanResults(t, incoming).isFocused == t.isFocused
  {
    SortByColumnCorrect(incoming, t.sorting.0, t.sorting.1);
  }

  /** A selected record that is still present (as an equal value) stays selected, at its first occurrence. */
  lemma SetScanResultsFollowsSelection(t: BssTableModel, incoming: seq<Bss>)
    requires ValidBssTable(t)
    requires SelectedBss(t).Some? && SelectedBss(t).value in incoming
    ensures var r := AfterSetScanResults(t, incoming);
      && SelectedBss(r) == SelectedBss(t)
      && r.selected.Some?
      && SelectedBss(t).value !in r.scanResults[..r.selected.value]
  {
    var sortedResults := SortByColumn(incoming, t.sorting.0, t.sorting.1);
    assert SelectedBss(t).value in multiset(incoming);
    assert SelectedBss(t).value in sortedResults;
  }

  /** With nothing selected before, or the selected record gone, the selection falls back to row 0 (or `None`). */
  lemma SetScanResultsFallsBack(t: BssTableModel, incoming: seq<Bss>)
    requires ValidBssTable(t)
    requires SelectedBss(t).None? || SelectedBss(t).value !in incoming
    ensures AfterSetScanResults(t, incoming).selected == if |incoming| == 0 then None else Some(0)
  {
    var sortedResults := SortByColumn(incoming, t.sorting.0, t.sorting.1);
    if SelectedBss(t).Some? {
      assert SelectedBss(t).value !in multiset(incoming);
      assert SelectedBss(t).value !in sortedResults;
    }
  }

  /**
   * `sort` keeps the table valid, records the new sort, neither adds nor
   * drops records, and selects row 0 of a non-empty table.
   */
  lemma SortValid(t: BssTableModel, column: BssTableColumnHeader, order: TableSortOrder)
    requires ValidBssTable(t)
    ensures ValidBssTable(AfterSort(t, column, order))
    ensures AfterSort(t, column, order).sorting == (column, order)
    ensures multiset(AfterSort(t, column, order).scanResults) == multiset(t.scanResults)
    ensures KeepsTies(AfterSort(t, column, order).scanResults, t.scanResults, column)
    ensures AfterSort(t, column, order).selected == if |t.scanResults| == 0 then None else Some(0)
    ensures AfterSort(t, column, order).isFocused == t.isFocused
  {
    SortByColumnCorrect(t.scanResults, column, order);
  }

  /** Moving the selection keeps the table valid and changes nothing but the selection. */
  lemma SelectMovesValid(t: BssTableModel)
    requires ValidBssTable(t)
    ensures ValidBssTable(AfterSelectNext(t)) && ValidBssTable(AfterSelectPrevious(t))
    ensures AfterSelectNext(t).(selected := t.selected) == t
    ensures AfterSelectPrevious(t).(selected := t.selected) == t
  {
  }

  /**
   * Every row shows its record: the BSSID, the SSID (empty when hidden), the
   * channel width and band, the protocols, and the fixed Security and Max Rate
   * placeholders; `RowShowsNumbers` covers the numeric cells.
   */
  lemma RowShowsRecord(bss: Bss)
    ensures |BssRow(bss, BssTableColumns())| == 10
    ensures BssRow(bss, BssTableColumns())[0] == MacText(bss.bssid)
    ensures BssRow(bss, BssTableColumns())[1] == if bss.ssid.Some? then bss.ssid.value else ""
    ensures BssRow(bss, BssTableColumns())[3] == bss.channel.width.text
    ensures BssRow(bss, BssTableColumns())[4] == bss.channel.band.text
    ensures BssRow(bss, BssTableColumns())[7] == bss.wifiProtocols.text
    ensures BssRow(bss, BssTableColumns())[8] == "None"
    ensures BssRow(bss, BssTableColumns())[9] == "0.0 Mbps"
  {
  }

  /** The channel, frequency and signal cells read back as the record's numbers. */
  lemma RowShowsNumbers(bss: Bss)
    ensures |BssRow(bss, BssTableColumns())| == 10
    ensures ParseInt(BssRow(bss, BssTableColumns())[2]) == Some(bss.channel.number as int)
    ensures ParseWithUnit(BssRow(bss, BssTableColumns())[5], " MHz") == Some(bss.channel.centerFreqMhz as int)
    ensures ParseWithUnit(BssRow(bss, BssTableColumns())[6], " dBm") == Some(bss.signalDbm)
  {
    var row := BssRow(bss, BssTableColumns());
    assert row[2] == IntText(bss.channel.number);
    assert row[5] == WithUnit(bss.channel.centerFreqMhz, " MHz");
    assert row[6] == WithUnit(bss.signalDbm, " dBm");
    IntTextRoundTrip(bss.channel.number);
    WithUnitRoundTrip(bss.channel.centerFreqMhz, " MHz");
    WithUnitRoundTrip(bss.signalDbm, " dBm");
  }

  /** A valid table has one row per record, each the row of that record. */
  lemma RowsFollowRecords(t: BssTableModel)
    requires ValidBssTable(t)
    ensures |t.rows| == |t.scanResults|
    ensures forall i :: 0 <= i < |t.rows| ==> t.rows[i] == BssRow(t.scanResults[i], BssTableColumns())
    ensures forall i :: 0 <= i < |t.rows| ==> |t.rows[i]| == |t.columnHeaders|
  {
  }

  /** Where each column stands in the default header. */
  function ColumnIndex(column: BssTableColumnHeader): (i: nat)
    ensures i < |BssTableColumns()| && BssTableColumns()[i] == column
  {
    match column
    case Bssid => 0
    case Ssid => 1
    case Channel => 2
    case ChannelWidth => 3
    case Band => 4
    case Frequency => 5
    case Signal => 6
    case WiFiProtocols => 7
    case Security => 8
    case MaxRate => 9
  }

  /** The header label starts with the title and carries a '*' exactly when the column is the sort column. */
  lemma HeaderLabelMarks(column: BssTableColumnHeader, sortColumn: BssTableColumnHeader)
    ensures Marked(HeaderLabel(column, sortColumn)) <==> column == sortColumn
    ensures |ColumnTitle(column)| <= |HeaderLabel(column, sortColumn)|
    ensures HeaderLabel(column, sortColumn)[..|ColumnTitle(column)|] == ColumnTitle(column)
  {
  }

  /** Exactly one header cell of a valid table is marked: the active sort column's. */
  lemma HeaderMarksSortColumn(t: BssTableModel)
    requires ValidBssTable(t)
    ensures forall i :: 0 <= i < |t.columnHeaders| ==>
      (Marked(HeaderLabel(t.columnHeaders[i], t.sorting.0)) <==> i == ColumnIndex(t.sorting.0))
  {
    forall i | 0 <= i < |t.columnHeaders|
      ensures Marked(HeaderLabel(t.columnHeaders[i], t.sorting.0)) <==> i == ColumnIndex(t.sorting.0)
    {
      HeaderLabelMarks(t.columnHeaders[i], t.sorting.0);
      assert t.columnHeaders[i] == t.sorting.0 <==> i == ColumnIndex(t.sorting.0);
    }
  }

  /** The table's fields, updated in place as `BssTableState`'s methods do. */
  class BssTableState {
    var scanResults: seq<Bss>
    var rows: seq<seq<string>>
    var columnHeaders: seq<BssTableColumnHeader>
    var selected: Option<nat>
    var isFocused: bool
    var sorting: (BssTableColumnHeader, TableSortOrder)

    function Model(): BssTableModel
      reads this
    {
      BssTableModel(scanResults, rows, columnHeaders, selected, isFocused, sorting)
    }

    predicate Valid()
      reads this
    {
      ValidBssTable(Model())
    }

    /** `BssTableState::default()`. */
    constructor ()
      ensures Valid() && Model() == DefaultBssTable()
    {
      columnHeaders := BssTableColumns();
      scanResults := [];
      rows := [];
      selected := None;
      isFocused := false;
      sorting := (Bssid, Descending);
    }

    method Focus()
      requires Valid()
      modifies this
      ensures Valid() && Model() == old(Model()).(isFocused := true)
    {
      isFocused := true;
    }

    method Unfocus()
      requires Valid()
      modifies this
      ensures Valid() && Model() == old(Model()).(isFocused := false)
    {
      isFocused := false;
    }

    method SetScanResults(incoming: seq<Bss>)
      requires Valid()
      modifies this
      ensures Valid() && Model() == AfterSetScanResults(old(Model()), incoming)
    {
      SetScanResultsValid(Model(), incoming);
      var sortedResults := SortByColumn(incoming, sorting.0, sorting.1);
      var previous := SelectedBss(Model());
      if previous.Some? {
        selected := Position(sortedResults, previous.value);
      }
      if selected.None? && |sortedResults| > 0 {
        selected := Some(0);
      }
      scanResults := sortedResults;
      rows := BssRows(scanResults, columnHeaders);
    }

    method SelectNext()
      modifies this
      ensures old(Valid()) ==> Valid()
      ensures Model() == AfterSelectNext(old(Model()))
    {
      match selected {
        case Some(i) =>
          if |scanResults| > i + 1 {
            selected := Some(i + 1);
          }
        case None =>
          if |scanResults| > 0 {
            selected := Some(0);
          }
      }
    }

    method SelectPrevious()
      modifies this
      ensures old(Valid()) ==> Valid()
      ensures Model() == AfterSelectPrevious(old(Model()))
    {
      match selected {
        case Some(i) =>
          if i > 0 && |scanResults| > 0 {
            selected := Some(i - 1);
          }
        case None =>
      }
    }

    method Sort(column: BssTableColumnHeader, order: TableSortOrder)
      requires Valid()
      modifies this
      ensures Valid() && Model() == AfterSort(old(Model()), column, order)
    {
      SortValid(Model(), column, order);
      scanResults := SortByColumn(scanResults, column, order);
      rows := BssRows(scanResults, columnHeaders);
      sorting := (column, order);
      if |scanResults| > 0 {
        selected := Some(0);
      }
    }
  }
}
