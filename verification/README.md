# Data table state engine

A Dafny model of the state engine of the React data table component: the
reducer that keeps the selection, sort and pagination state
(`src/DataTable/DataTableContext.js`), and the rules in `DataTable` that
decide what to dispatch and what to show (`src/DataTable/DataTable.js`).
These rules are the initial state, the header checkbox's `indeterminate`
flag, the row-selected test, the sort-click rule, the page clamp on a
page-size change, the client-side page window and the edge-triggered
clear-selection check.

Modules, one concept each:

- `TableState` (`state.dfy`): the state record, the seven kinds of action
  (six recognised tags plus `Unhandled(tag)`, whose tag is a string other
  than those six), the sort direction and the decorated column.
- `Engine` (`engine.dfy`): `Reducer`, which returns `Failure` where the
  source throws. `Run` applies a sequence of actions in order.
- `Selection` (`selection.dfy`): the selection invariant kept while the data
  snapshot is fixed, and its proof for every action and every run.
- `Paging` (`paging.dfy`): the row count, the page clamp, `calculateRows`,
  and the fact that the pages partition the data.
- `DataTable` (`data_table.dfy`): the component's handlers and derived
  flags, and a replay of evaluations and user actions (`Replay`) for the
  clear-selection check.
- `Util` (`util.dfy`): the helpers imported from `./util`. `./util` is not
  part of this model, so their behaviour is ASSUMED:
  - `insertItem` appends;
  - `removeItem` removes the first occurrence;
  - `getNumberOfPages` is `Math.ceil(rowCount / rowsPerPage)`;
  - `getSortDirection(true)` is `asc`, otherwise `desc`.

  The rest of the model depends only on the contracts of these helpers.
- `Js` (`js.dfy`): `Array.prototype.slice` as the ECMAScript language
  specification defines it (negative bounds count from the end).
- `Scenarios` (`scenarios.dfy`): worked examples on small tables.

Rows are an opaque type parameter `R`. Comparing rows with Dafny equality
models the source's `===` identity test. `sortColumn` and column selectors
are a type parameter `C`, compared the same way. `sort` is not modelled: the
sorted data is an input sequence.

Behaviour of the code worth noting:

- Two SELECT_ALLs restore the whole state only for a "canonical" state:
  either all selected with the snapshot as the selection, or nothing
  selected. A partial selection is cleared by the second toggle, which
  `Engine.SelectAllTwiceDropsPartialSelection` exhibits. `allSelected`
  itself is always restored.
- Server-side pagination still stores the clamped page. `handleChangeRowsPerPage`
  skips only the extra CHANGE_PAGE dispatch; CHANGE_ROWS_PER_PAGE carries
  the recalculated page in both modes (DataTable.js:181-185).
- The clamp only lowers the page. A current page below 1 stays below 1.
- Under the assumed ceiling division, 0 rows give 0 pages.
- With a negative current page, `slice` counts from the end of the data and
  shows rows. It does not degrade to an empty window
  (`Paging.NegativePageCountsFromEnd`).

## Model

| member | source | states |
|---|---|---|
| `Engine.Reducer` | src/DataTable/DataTableContext.js:5-82 | Fails exactly on an unrecognised tag. Keeps `selectedCount` equal to the length of `selectedRows`. Only SELECT_ALL, ROW_SELECTED and CLEAR_SELECTED_ROWS touch the selection fields. Only CLEAR_SELECTED_ROWS touches the flag, only SORT_CHANGE the sort fields, and only the two page actions the page fields. Those three store exactly the values their action carries. |
| `Engine.SelectAllToggles` | src/DataTable/DataTableContext.js:7-15 | SELECT_ALL flips `allSelected`. Turning it on selects exactly the snapshot, with its length as the count. Turning it off leaves `[]` and 0. Sort, page and flag are kept. |
| `Engine.SelectAllTwice` | src/DataTable/DataTableContext.js:7-15 | Two SELECT_ALLs with the same snapshot restore `allSelected` and always end in a canonical state. They give back the original state if and only if that state was canonical. |
| `Engine.SelectAllTwiceDropsPartialSelection` | src/DataTable/DataTableContext.js:7-15 | A concrete partially selected state that two SELECT_ALLs do not restore. |
| `Engine.RowSelectedRemoves` | src/DataTable/DataTableContext.js:32-38 | Clicking a selected row clears `allSelected` and sets the count to the old number of selected rows minus one, but at least 0. It removes exactly one occurrence of the row from the bag of selected rows. Sort, page and flag are kept. |
| `Engine.RowSelectedAppends` | src/DataTable/DataTableContext.js:41-46 | Clicking an unselected row appends it and sets the count to the old number of selected rows plus one. `allSelected` holds if and only if that count equals the snapshot's length. |
| `Engine.RowSelectedTwice` | src/DataTable/DataTableContext.js:28-47 | For a state whose count matches its selection (every state reached from the initial one, by `DataTable.InitialState` and `Engine.RunKeepsCountConsistent`), selecting a row and clicking it again gives back the state if and only if the state was not "all selected". |
| `Engine.ClearSelectedRowsClears` | src/DataTable/DataTableContext.js:66-75 | CLEAR_SELECTED_ROWS empties the selection, zeroes the count, clears `allSelected` and stores the new flag. Sort and page fields are unchanged. |
| `Engine.RunFailsIffUnhandled` | src/DataTable/DataTableContext.js:78-80 | A sequence of dispatches fails if and only if one of its actions has an unrecognised tag. |
| `Engine.RunKeepsCountConsistent` | src/DataTable/DataTableContext.js:5-82 | `selectedCount` equal to the length of `selectedRows` holds after every successful sequence of dispatches when it held before. |
| `Engine.RunWithoutSelectionActions` | src/DataTable/DataTableContext.js:18-64 | Any sequence of SORT_CHANGE, CHANGE_PAGE and CHANGE_ROWS_PER_PAGE succeeds. It leaves all selection fields and the clear flag unchanged. |
| `Selection.ReducerKeepsSelectionInvariant` | src/DataTable/DataTableContext.js:7-75 | Take a repetition-free snapshot and an action dispatched for it, where the clicked row belongs to the snapshot. It keeps the invariant: count matches, no row selected twice, only snapshot rows selected, and `allSelected` holds if and only if every row of a non-empty snapshot is selected. |
| `Selection.RunKeepsSelectionInvariant` | src/DataTable/DataTableContext.js:5-82 | For a repetition-free snapshot, every sequence of such actions succeeds and keeps the selection invariant. |
| `Selection.AllSelectedMeansFullCount` | src/DataTable/DataTableContext.js:44 | Under the invariant with a non-empty snapshot, `allSelected` holds if and only if the count equals the snapshot's length. |
| `Util.InsertItem` | src/DataTable/DataTableContext.js:45 | Assumed `insertItem`: the result has the old rows as prefix, the new row last, and one more occurrence of it in the bag. |
| `Util.RemoveItem` | src/DataTable/DataTableContext.js:37 | Assumed `removeItem`: the result is the input with the element at the first position of the row cut out, and is one shorter. |
| `Util.RemoveItemMultiset` | src/DataTable/DataTableContext.js:37 | Removing a present row takes exactly one occurrence out of the bag of selected rows. |
| `Util.RemoveItemDistinct` | src/DataTable/DataTableContext.js:37 | On a repetition-free selection, removal keeps it repetition-free and removes exactly that row from the set of selected rows. |
| `Util.RemoveInsertedItem` | src/DataTable/DataTableContext.js:37-45 | Removing a freshly appended row gives back the original selection. |
| `Util.NumberOfPages` | src/DataTable/DataTable.js:176 | Assumed `getNumberOfPages`: the least page count `n` with `n * rowsPerPage >= rowCount`. |
| `Util.SortDirectionOf` | src/DataTable/DataTable.js:90 | Assumed `getSortDirection`: ascending if and only if `defaultSortAsc`. |
| `TableState.Flip` | src/DataTable/DataTable.js:161 | The flipped direction always differs from the original. |
| `Js.Slice` | src/DataTable/DataTable.js:195 | For any bounds: each bound is resolved to a position in `[0, len]`, a negative bound counting from the end. The result is the run of the input from the resolved start, of length `max(0, resolved end - resolved start)`, so crossed bounds give `[]`. For non-negative bounds this is the run from `start` of length `max(0, min(end, len) - start)`. |
| `Paging.RowCount` | src/DataTable/DataTable.js:175 | The row count the table pages over: `paginationTotalRows` when it is positive, otherwise `data.length`. The count is 0 only when both are 0. |
| `Paging.RecalculatedPage` | src/DataTable/DataTable.js:175-177 | The new page is the minimum of the current page and the page count. A page of at least 1 with a positive row count stays at least 1, and a kept page of at least 1 starts before the row count. |
| `Paging.CalculateRows` | src/DataTable/DataTable.js:189-199 | Without client-side pagination, all sorted rows. Never more rows than the data. For a page of at least 1 and a non-negative size, a window of at most `rowsPerPage` rows whose i-th row is `sortedData[(page-1)*rowsPerPage + i]`. Other pages are whatever `Js.Slice` gives. |
| `Paging.PageEmptyIffPastEnd` | src/DataTable/DataTable.js:192-195 | For a page of at least 1 and a positive size, a client-side page is empty if and only if it starts at or past the end. Otherwise it has `min(page*size, len) - (page-1)*size` rows. |
| `Paging.PastLastPageIsEmpty` | src/DataTable/DataTable.js:189-199 | A page beyond `getNumberOfPages` is empty. |
| `Paging.FirstPageOfFullSizeIsAll` | src/DataTable/DataTable.js:189-199 | Page 1 with a page size equal to the data length shows all the data. |
| `Paging.ClientPagesArePrefix` | src/DataTable/DataTable.js:192-195 | Pages 1 to k, concatenated, are the first `k * size` rows. |
| `Paging.AllPagesPartitionData` | src/DataTable/DataTable.js:189-199 | Pages 1 to `getNumberOfPages`, concatenated, are exactly the sorted data. |
| `Paging.NegativePageCountsFromEnd` | src/DataTable/DataTable.js:192-195 | Page -1 of size 2 over five rows shows rows 2 and 3, because `slice` counts negative bounds from the end. |
| `DataTable.InitialState` | src/DataTable/DataTable.js:85-94 | Initially nothing is selected, the count is 0, `allSelected` and the flag are false. The sort field, direction, page and page size come from the props. |
| `DataTable.InitialStateIsValid` | src/DataTable/DataTable.js:85-94 | For any repetition-free snapshot, the initial state satisfies the selection invariant. It is not indeterminate and shows no row as selected. |
| `DataTable.Indeterminate` | src/DataTable/DataTable.js:125 | The header checkbox's `indeterminate` flag: some rows selected and `allSelected` false. Its meaning over the snapshot is stated by `DataTable.IndeterminateMeansPartlySelected`. |
| `DataTable.IsRowSelected` | src/DataTable/DataTable.js:151 | `checkIfRowSeleted`: some position of the selection holds the row by identity, which is the same as the row being in the selection. What an action does to it is stated by `DataTable.SelectAllChecksEveryRow` and `DataTable.RowSelectedTogglesOneRow`. |
| `DataTable.IndeterminateMeansPartlySelected` | src/DataTable/DataTable.js:125 | Under the invariant, `indeterminate` holds if and only if some snapshot row is selected and some is not. |
| `DataTable.SelectAllChecksEveryRow` | src/DataTable/DataTable.js:151-152 | After SELECT_ALL, either every snapshot row passes `checkIfRowSeleted` or no row does. |
| `DataTable.RowSelectedTogglesOneRow` | src/DataTable/DataTable.js:151-153 | When no row is selected twice, ROW_SELECTED flips `checkIfRowSeleted` for the clicked row and for no other row. |
| `DataTable.SortClick` | src/DataTable/DataTable.js:155-167 | A non-sortable column dispatches nothing. A sortable one dispatches SORT_CHANGE with its selector. The direction differs from the current one if and only if the column already was the sort column. |
| `DataTable.SortClickOutcome` | src/DataTable/DataTable.js:155-167 | After a sort click, a non-sortable column leaves the state unchanged. Otherwise the column becomes the sort column, and the direction flips if and only if it was the active column. Selection, flag and page fields are unchanged. |
| `DataTable.ActiveColumnClickedTwice` | src/DataTable/DataTable.js:157-164 | Two clicks on the active sortable column give back the state. |
| `DataTable.HandleChangePage` | src/DataTable/DataTable.js:169-172 | Dispatches exactly one CHANGE_PAGE carrying the requested page. `DataTable.HandleChangeRowsPerPage` reuses it for its first dispatch. |
| `DataTable.ChangePageOutcome` | src/DataTable/DataTable.js:169-172 | After a page change only the current page differs, and it is the requested one. |
| `DataTable.HandleChangeRowsPerPage` | src/DataTable/DataTable.js:174-187 | Client-side pagination dispatches two actions and server-side one. The last action stores the new size. Every dispatched page is at most the current page and at most the new page count. |
| `DataTable.ChangeRowsPerPageOutcome` | src/DataTable/DataTable.js:174-187 | The dispatches succeed. They leave the new size and the minimum of the current page and `getNumberOfPages` of the row count (`paginationTotalRows`, or the data length when it is 0) at the new size. Selection, flag and sort are unchanged. |
| `DataTable.ChangeRowsPerPageKeepsRowsVisible` | src/DataTable/DataTable.js:174-199 | Client-side, with a current page of at least 1, non-empty data and a row count equal to the data length (`paginationTotalRows` 0 or equal to it), the page after a page-size change shows at least one row. |
| `DataTable.ChangeRowsPerPageWithLargerTotal` | src/DataTable/DataTable.js:174-199 | With `paginationTotalRows` larger than the data (100 given, 5 rows), page 10 survives a change from size 2 to size 3, and the client-side window of that page is empty. |
| `DataTable.ClearCheck` | src/DataTable/DataTable.js:142-144 | CLEAR_SELECTED_ROWS carrying the prop's token is dispatched if and only if the token differs from the stored flag. |
| `DataTable.EvaluateClear` | src/DataTable/DataTable.js:142-144 | After an evaluation the flag equals the token. An unchanged token changes nothing. A changed token empties the selection and keeps sort and page. |
| `DataTable.ClearsFollowTokenChanges` | src/DataTable/DataTable.js:142-144 | Over any history of evaluations and user actions, CLEAR_SELECTED_ROWS fires exactly once per change of the token. The stored flag ends equal to the last token seen. |
| `DataTable.RepeatedEvaluationIsQuiet` | src/DataTable/DataTable.js:142-144 | Re-evaluating with the token just seen dispatches nothing and changes nothing. |
| `Scenarios.ShrinkPageCountScenario` | src/DataTable/DataTable.js:174-199 | Five rows on page 3 of size 2: changing to size 3 moves to page 2, which shows rows 4 and 5. |
| `Scenarios.SelectAllThenDeselectScenario` | src/DataTable/DataTableContext.js:7-47 | SELECT_ALL on three rows selects all three. Clicking row 2 then leaves rows 1 and 3 with a count of 2. |
| `Scenarios.SortTieBreakScenario` | src/DataTable/DataTable.js:155-167 | Sorted by A ascending: clicking A gives A descending, then clicking B gives B, still descending. |

## Left out

- `src/DataTable/TableCellCheckbox.js`, the `DataTableProvider` and `DataTableContext` plumbing, and all JSX rendering: they are presentation only. This covers `renderColumns`, `renderRows`, `renderTableHead`, the theme `merge`, `NoData` and `enabledPagination`.
- React's hook machinery: `useReducer`'s dispatch queue is modelled as applying the dispatched actions in order (`Engine.Run`). The `onTableUpdate` effect and its first-run skip depend on React's effect timing.
- The consumer callbacks `onSort`, `onChangePage`, `onChangeRowsPerPage` and `onRowClicked`: they are foreign side effects, so `handleRowClicked` is not modelled.
- `sort` and `decorateColumns` from `./util`: `./util` is not part of this model. The sorted data is an input, and a column is given by its selector and its `sortable` flag.
- `Engine.Reducer`: `selectedRows.find(r => r === row)` tests truthiness of the found row. The model tests membership, which is the same for the object rows a table holds but not for a falsy row value such as `0`.
- `Util.RemoveItem`: requires the item to be present. The reducer calls `removeItem` only after finding the row, so behaviour on an absent item is not modelled.
- `Util.NumberOfPages`: requires a positive page size. JavaScript's division by zero or a negative size (`Infinity`, `NaN`, negative counts) is not modelled.
- `Paging.RecalculatedPage`: requires a positive new page size, for the same reason. The page sizes the pagination widget offers are positive.
- `HandleChangeRowsPerPage` and the other page functions take integer pages and sizes. `paginationTotalRows` is a natural number, with 0 standing for "not given". Fractional and non-numeric values are not modelled.
- `Selection.SelectionInvariant`: assumes the data array holds no row twice. The source accepts a duplicated row: SELECT_ALL then stores it twice, and one ROW_SELECTED click leaves the other copy selected. The invariant lemmas say nothing about such data.
- Arrays are modelled as immutable values. After SELECT_ALL the source's `selectedRows` is the very array object passed as `data`, so a later in-place change to that array would show in the selection. The model does not cover in-place mutation, and it assumes `insertItem` and `removeItem` return new arrays without changing their argument.
- The clear-selection token is a `bool`, matching the initial `false` flag. The source compares it with `!==` to any value.
