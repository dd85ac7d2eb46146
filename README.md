# kawaiifi-cli view state, in Dafny

kawaiifi-cli is a terminal Wi-Fi scanner. It shows two tables.

- The top table lists the basic service sets (BSSs) of the latest scan.
- The bottom table lists the information elements (IEs) of the selected BSS.

This project models the state behind those two tables and one pass of the program's main loop, and proves how that state behaves:

- `BssTableState` holds the scan records, sorted by a chosen column and order. It carries the selection across re-scans by the record's full value.
- `IeTableState` holds one record's information elements in the order given. It carries the selection across updates by element id, at the first element with that id.
- `App` owns both tables. It gives the focus to exactly one of them and routes the arrow keys to the focused one. After each change it re-derives the IE table from the selected BSS, and with no BSS selected it leaves the IE table as it was.
- Each pass of the main loop polls the scan channel first and the input channel second. A poll either delivers a message, finds the channel empty, or finds it disconnected. The pass maps keys to `App` operations and says whether the loop goes on.

Files and modules:

- `wrappers.dfy` (`Wrappers`): `Option`.
- `kawaiifi.dfy` (`Kawaiifi`): the `Bss`, `Channel` and `Ie` records of the scanning crate, as plain datatypes.
- `formatting.dfy` (`Formatting`): decimal text of integers, the `"<n> MHz"`-style cells and the MAC address text. Each numeric form comes with a parser and a round-trip lemma.
- `selection.dfy` (`Selection`): the selection policy both tables share.
  - Find the first position of a key.
  - Reselect after the rows are replaced.
  - Move one step without wrapping.
- `bss_sorting.dfy` (`BssSorting`): the column headers, `TableSortOrder`, the per-column comparator and `sort_by_column`.
- `bss_table.dfy` (`BssTableWidget`), `ie_table.dfy` (`IeTableWidget`) and `app.dfy` (`Application`). Each one holds:
  - a datatype of the struct's fields;
  - one specification function per operation (`After...`);
  - the lemmas about those functions;
  - a class with the struct's fields, whose methods update them in place and are proved to follow the specification functions.
- `main_loop.dfy` (`MainLoop`): one pass of the loop as the function `Iteration` and the in-place method `Step`. The loop over a finite sequence of poll outcomes appears as the function `Run` and the method `RunLoop`.

The sort directions keep the program's names. `Descending` applies the raw comparator, so keys come out non-decreasing. `Ascending` reverses the comparator. So `Descending` puts a -60 dBm record before a -40 dBm one (`BssSorting.SignalOrderExample`). The BSS selection is carried over by whole-record equality (`bss == previously_selected_bss`), not by BSSID, so a record whose signal changed between scans loses the selection.

## Model

| member | source | states |
|---|---|---|
| Formatting.IntTextRoundTrip | src/widgets/bss_table.rs:218 | the decimal text of an integer reads back as that integer |
| Formatting.WithUnitRoundTrip | src/widgets/bss_table.rs:221-224 | a `"<n> MHz"` / `"<n> dBm"` cell reads back as `n` |
| Formatting.MacText | src/widgets/bss_table.rs:216 | the BSSID text is three characters per octet minus one, and octet i sits at characters 3i..3i+2 |
| Selection.Position | src/widgets/bss_table.rs:122-126 | `position` returns `None` exactly when the key is absent; otherwise the index of its first occurrence |
| Selection.Reselect | src/widgets/bss_table.rs:111-132 | a previous key that is present gives its first index; an absent key or no previous selection gives row 0 on a non-empty table and `None` on an empty one; the result is a valid selection |
| Selection.NextSelection | src/widgets/bss_table.rs:142-150 | one row down unless on the last row; `None` becomes row 0 only on a non-empty table; validity is kept |
| Selection.PreviousSelection | src/widgets/bss_table.rs:152-158 | one row up unless on row 0; `None` stays `None`; validity is kept |
| Selection.NextTimesSaturates | src/widgets/bss_table.rs:142-150 | k presses of Down from row i end on row min(i+k, len-1): no wrap-around |
| Selection.PreviousTimesSaturates | src/widgets/bss_table.rs:152-158 | k presses of Up from row i end on row max(i-k, 0): no wrap-around |
| Selection.NextPreviousInverse | src/widgets/bss_table.rs:142-158 | away from the ends, Up undoes Down and Down undoes Up |
| Selection.ReselectDistinctKeeps | src/widgets/ie_table.rs:135-140 | with distinct keys, re-selecting a row's own key keeps the selection on that row |
| Selection.ReselectDuplicateMovesUp | src/widgets/ie_table.rs:135-140 | when an earlier row has the same key, re-selecting moves the selection up to the first such row |
| BssSorting.CompareKeysEqual | src/widgets/bss_table.rs:248-261 | the key comparison says `Equal` exactly for equal keys |
| BssSorting.CompareKeysFlip | src/widgets/bss_table.rs:248-261 | swapping the operands reverses the comparison |
| BssSorting.CompareKeysTransitive | src/widgets/bss_table.rs:248-261 | the key comparison is transitive |
| BssSorting.PrecedesMeaning | src/widgets/bss_table.rs:263-266 | under `Descending` a record precedes another when its key is not greater; under `Ascending` when its key is not less |
| BssSorting.PrecedesTotal | src/widgets/bss_table.rs:263-266 | the directed comparator relates any two records one way or the other |
| BssSorting.PrecedesTransitive | src/widgets/bss_table.rs:263-266 | the directed comparator is transitive, so `sort_by` gets a total order |
| BssSorting.PrecedesBothWays | src/widgets/bss_table.rs:263-266 | two records precede each other exactly when their keys are equal |
| BssSorting.SortByColumn | src/widgets/bss_table.rs:263-266 | the sort returns a permutation of its input |
| BssSorting.SortByColumnCorrect | src/widgets/bss_table.rs:247-267 | the sort's result is a permutation and sorted by the directed comparator; records with equal keys keep their input order; keys are non-decreasing under `Descending` and non-increasing under `Ascending`; Security and Max Rate compare BSSIDs |
| BssSorting.StableSortIsUnique | src/widgets/bss_table.rs:263-266 | two sorted permutations of each other that keep ties in the same order are equal |
| BssSorting.AnyStableSortIsSortByColumn | src/widgets/bss_table.rs:263-266 | any stable sort of the input with this comparator gives exactly `SortByColumn` |
| BssSorting.SignalOrderExample | src/widgets/bss_table.rs:258-266 | with signals -40 and -60 dBm, `Descending` puts -60 first and `Ascending` puts -40 first |
| BssTableWidget.ColumnTitle | src/widgets/bss_table.rs:270-285 | every column title is non-empty and carries no sort mark |
| BssTableWidget.ColumnIndex | src/widgets/bss_table.rs:189-200 | every column sits at one position of the default header |
| BssTableWidget.HeaderLabelMarks | src/widgets/bss_table.rs:53-59 | a header label starts with the column title and ends in '*' exactly when it is the sort column |
| BssTableWidget.HeaderMarksSortColumn | src/widgets/bss_table.rs:53-59 | in a valid table exactly one header cell is marked, the active sort column's |
| BssTableWidget.DefaultBssTable | src/widgets/bss_table.rs:186-207 | the default table is valid, empty, unselected and unfocused |
| BssTableWidget.SelectedBss | src/widgets/bss_table.rs:160-166 | the selected record is `scan_results[selected]`, or `None` out of range; in a valid table it is `None` exactly when the table is empty |
| BssTableWidget.SetScanResultsValid | src/widgets/bss_table.rs:109-140 | `set_scan_results` keeps the table valid, with `None` exactly on an empty table and a valid index otherwise; it stores a permutation of the input, sorted by the active sort, with ties in input order; one row per record; sort and focus unchanged |
| BssTableWidget.SetScanResultsFollowsSelection | src/widgets/bss_table.rs:111-127 | a selected record that is value-equal to one in the new list stays selected, at its first occurrence |
| BssTableWidget.SetScanResultsFallsBack | src/widgets/bss_table.rs:121-132 | with no previous selection, or the record gone, the selection becomes 0 on a non-empty list and `None` on an empty one |
| BssTableWidget.SortValid | src/widgets/bss_table.rs:172-183 | `sort` keeps the table valid and records `(column, order)`; it neither adds nor drops records and keeps ties in order; it selects row 0 of a non-empty table and leaves the empty table's selection untouched; focus is unchanged |
| BssTableWidget.SelectMovesValid | src/widgets/bss_table.rs:142-158 | moving the selection keeps the table valid and changes only the selection |
| BssTableWidget.RowShowsRecord | src/widgets/bss_table.rs:210-231 | a row has one cell per column; it shows the BSSID, the SSID (empty when hidden), width, band and protocols, plus the constant "None" and "0.0 Mbps" cells |
| BssTableWidget.RowShowsNumbers | src/widgets/bss_table.rs:218-224 | the channel, frequency and signal cells read back as the record's numbers |
| BssTableWidget.RowsFollowRecords | src/widgets/bss_table.rs:134-139 | a valid table has one row per record; row i is record i's row, with one value per column header |
| BssTableWidget.BssTableState.constructor | src/widgets/bss_table.rs:186-207 | the new state is the default table |
| BssTableWidget.BssTableState.Focus | src/widgets/bss_table.rs:101-103 | only `isFocused` changes, to true |
| BssTableWidget.BssTableState.Unfocus | src/widgets/bss_table.rs:105-107 | only `isFocused` changes, to false |
| BssTableWidget.BssTableState.SetScanResults | src/widgets/bss_table.rs:109-140 | the fields become `AfterSetScanResults` of the old ones; validity is kept |
| BssTableWidget.BssTableState.SelectNext | src/widgets/bss_table.rs:142-150 | the fields become `AfterSelectNext` of the old ones; validity is kept |
| BssTableWidget.BssTableState.SelectPrevious | src/widgets/bss_table.rs:152-158 | the fields become `AfterSelectPrevious` of the old ones; validity is kept |
| BssTableWidget.BssTableState.Sort | src/widgets/bss_table.rs:172-183 | the fields become `AfterSort` of the old ones; validity is kept |
| IeTableWidget.DefaultIeTable | src/widgets/ie_table.rs:181-196 | the default table is valid, empty, unselected and unfocused |
| IeTableWidget.SelectedIe | src/widgets/ie_table.rs:172-178 | the selected element is `ies[selected]`, or `None` out of range; in a valid table it is `None` exactly when the table is empty |
| IeTableWidget.SetIesValid | src/widgets/ie_table.rs:124-152 | `set_ies` keeps the table valid and stores exactly the given elements in the given order; focus is unchanged |
| IeTableWidget.SetIesFollowsId | src/widgets/ie_table.rs:133-140 | if the selected element's id occurs in the new list, the selection moves to the first index with that id |
| IeTableWidget.SetIesFallsBack | src/widgets/ie_table.rs:135-145 | with no previous selection, or the id gone, the selection becomes 0 on a non-empty list and `None` on an empty one |
| IeTableWidget.SelectMovesValid | src/widgets/ie_table.rs:154-170 | moving the selection keeps the table valid and changes only the selection |
| IeTableWidget.IeRowShowsElement | src/widgets/ie_table.rs:198-211 | a row is three cells: the id (reads back as the id), the name, and `"<len> B"` (reads back as the byte length) |
| IeTableWidget.IeHeaderTitles | src/widgets/ie_table.rs:221-229 | the three header titles are non-empty and distinct |
| IeTableWidget.IeTableState.constructor | src/widgets/ie_table.rs:181-196 | the new state is the default table |
| IeTableWidget.IeTableState.Focus | src/widgets/ie_table.rs:116-118 | only `isFocused` changes, to true |
| IeTableWidget.IeTableState.Unfocus | src/widgets/ie_table.rs:120-122 | only `isFocused` changes, to false |
| IeTableWidget.IeTableState.SetIes | src/widgets/ie_table.rs:124-152 | the fields become `AfterSetIes` of the old ones; validity is kept |
| IeTableWidget.IeTableState.SelectNext | src/widgets/ie_table.rs:154-162 | the fields become `AfterSelectNext` of the old ones; validity is kept |
| IeTableWidget.IeTableState.SelectPrevious | src/widgets/ie_table.rs:164-170 | the fields become `AfterSelectPrevious` of the old ones; validity is kept |
| Application.DefaultApp | src/app.rs:81-94 | the initial app is valid, with both tables empty and the BSS table, not the IE table, focused |
| Application.ResetIeTableLinks | src/app.rs:38-42 | `reset_ie_table` leaves the BSS table and the focus alone; it makes the IE table show the selected record's elements; with no record selected it changes nothing at all |
| Application.UpdateScanResultsValid | src/app.rs:24-27 | `update_scan_results` keeps the app valid: one table focused, and the IE list equal to the selected BSS's elements; the BSS table holds the snapshot sorted by the active sort; focus is unchanged |
| Application.SortBssTableValid | src/app.rs:29-36 | `sort_bss_table` keeps the app valid and the focus; it records the sort and reorders without adding or dropping records; the IE table shows the first record's elements, or is untouched when there are none |
| Application.SelectValid | src/app.rs:44-60 | `select_next` and `select_previous` keep the app valid and do not change the focus |
| Application.SelectMovesBssWhenFocused | src/app.rs:44-60 | with the BSS table focused, the arrows move only the BSS selection, one step, without wrapping |
| Application.SelectMovesIeWhenFocused | src/app.rs:44-60 | with the IE table focused, the BSS table and the IE list are untouched; with a record selected, the IE selection snaps to the first element with the id the one-step move reached; with none, it stays where the move put it |
| Application.SetSameIes | src/widgets/ie_table.rs:124-145 | setting a table's own elements again moves its selection to the first index with the selected id |
| Application.DistinctIdsFirst | src/widgets/ie_table.rs:135-140 | with distinct ids, the first index with a selected element's id is that element's own index |
| Application.SelectIeDistinctIds | src/app.rs:44-60 | with the IE table focused and distinct element ids, the IE selection moves exactly as the IE table's own move puts it |
| Application.DuplicateIdsPinSelection | src/app.rs:44-51 | with a record selected and two neighbouring elements sharing an id, Down from the first of them leaves the selection where it was |
| Application.FocusNextSwaps | src/app.rs:62-70 | `focus_next` keeps the app valid and swaps the focus without touching anything else; applied twice it restores the app |
| Application.App.constructor | src/app.rs:81-94 | the new app is the default app, with the BSS table focused |
| Application.App.ResetIeTable | src/app.rs:38-42 | the tables become `AfterResetIeTable` of the old ones; both stay valid |
| Application.App.UpdateScanResults | src/app.rs:24-27 | the tables become `AfterUpdateScanResults` of the old ones; the app stays valid |
| Application.App.SortBssTable | src/app.rs:29-36 | the tables become `AfterSortBssTable` of the old ones; the app stays valid |
| Application.App.SelectNext | src/app.rs:44-51 | the tables become `AfterSelectNext` of the old ones; the app stays valid |
| Application.App.SelectPrevious | src/app.rs:53-60 | the tables become `AfterSelectPrevious` of the old ones; the app stays valid |
| Application.App.FocusNext | src/app.rs:62-70 | the tables become `AfterFocusNext` of the old ones; the app stays valid |
| MainLoop.IterationContinues | src/main.rs:79-119 | a pass lets the loop go on exactly when neither channel is disconnected and 'q' was not pressed |
| MainLoop.AfterKeyValid | src/main.rs:91-114 | every key keeps the app valid, and only Enter moves the focus |
| MainLoop.AfterInputValid | src/main.rs:89-119 | the input poll keeps the app valid, and only Enter moves the focus |
| MainLoop.IterationValid | src/main.rs:77-122 | a pass keeps the app valid, and no pass without Enter changes the focus |
| MainLoop.ScanBeforeInput | src/main.rs:79-89 | a delivered snapshot goes through `update_scan_results` before the input poll is handled |
| MainLoop.ScanEmptyOrDisconnected | src/main.rs:84-85 | an empty scan channel changes nothing and the pass is the input poll alone; a disconnected scan channel, or an empty one followed by a disconnected input channel, ends the loop with the app untouched |
| MainLoop.QuitLeavesApp | src/main.rs:92 | 'q' ends the loop and leaves the app as the scan poll alone left it |
| MainLoop.IdleInput | src/main.rs:113-117 | a non-key event, an unmapped key, or an empty input channel acts as if no input came |
| MainLoop.SortKeys | src/main.rs:93-100 | 'b' and 's' sort the BSS table by BSSID and by SSID under `Descending`; keys come out non-decreasing and no records are gained or lost; row 0 is selected and focus is kept |
| MainLoop.ArrowAndEnterKeys | src/main.rs:101-112 | Up is `select_previous`, Down is `select_next`, and Enter swaps the focus |
| MainLoop.RunValid | src/main.rs:77-122 | the loop keeps the app valid over any number of passes |
| MainLoop.RunStopsIff | src/main.rs:77-122 | the loop has ended exactly when some pass saw a disconnected channel or 'q' |
| MainLoop.RunIgnoresLaterPolls | src/main.rs:85 | once the loop has ended, later poll outcomes change nothing |
| MainLoop.RunUnfolds | src/main.rs:77-122 | running a suffix of the poll outcomes is its first pass followed by the rest |
| MainLoop.Step | src/main.rs:78-119 | one pass performed in place equals `Iteration` of the old app, and the app stays valid |
| MainLoop.RunLoop | src/main.rs:77-122 | the in-place loop ends with `Run` of the old app over the poll outcomes, and the app stays valid |

## Left out

- Rendering (`BssTable::render`, `IeTable::render`, `App::render`) is not modelled: it is terminal drawing with floating-point column widths. Only the header label, with its '*' on the sort column, is kept (`HeaderLabel`).
- The `Result` of rendering, and the early return when a draw fails, are left out with the drawing. So is the terminal setup and teardown around the loop.
- The scan thread, the input thread, the channels and the 100 ms sleep are left out. Each poll is an input value (`Poll`), and a finite sequence of polls stands for the run of the loop.
- The scan snapshot is a `HashSet`, whose iteration order is unspecified. It is modelled as an arbitrary sequence. Because the sort keeps ties in arrival order, the order of records with equal keys depends on that unspecified order.
- The scanning crate is outside this model: its interfaces, scanning, accessors and `PartialEq` on `Bss`.
  - Its records are plain datatypes, and two records are equal exactly when all their fields are equal.
  - Channel width, band and Wi-Fi protocols are an ordering rank plus a display text.
  - The MAC address text is assumed to be lower-case hex pairs separated by ':'.
- `Vec::sort_by` is modelled by a stable insertion sort on sequences, not an in-place merge sort. `AnyStableSortIsSortByColumn` shows every stable sort with this comparator gives the same result, so only the in-place update of the vector is not captured.
- Integer widths (`u8`, `u32`, `i32`, `usize`) are not modelled: numbers are unbounded. No operation in the core does arithmetic that could wrap, apart from `selected + 1` on a `usize` index, which cannot reach `usize::MAX` for a vector in memory.
- `IeTableState`'s `list_state` field and the layouts' constraints are not modelled; the core never reads them.
- `is_focused` and `header` are plain field reads and have no member of their own.
