/** Worked examples of the engine on small concrete tables. */
module Scenarios {
  import opened TableState
  import opened Engine
  import opened Paging
  import opened DataTable
  import opened Util

  /**
    Five rows shown two per page, on page 3. Switching to three per page
    moves to page 2, which shows rows 4 and 5.
  */
  lemma ShrinkPageCountScenario()
    ensures var s := State<int, string>.State(false, 0, [], "id", Asc, false, 3, 2);
      var r := Run(s, HandleChangeRowsPerPage(s, 3, 0, 5, false));
      && r.Success?
      && r.value.currentPage == 2 && r.value.rowsPerPage == 3
      && CalculateRows([1, 2, 3, 4, 5], r.value.currentPage, r.value.rowsPerPage, true, false) == [4, 5]
  {
    var s := State<int, string>.State(false, 0, [], "id", Asc, false, 3, 2);
    ChangeRowsPerPageOutcome(s, 3, 0, 5, false);
  }

  /** Selecting all of three rows, then clicking row 2, leaves rows 1 and 3 selected. */
  lemma SelectAllThenDeselectScenario()
    ensures var s := InitialState<int, string>("id", true, 1, 10);
      var t := Reducer(s, SelectAll([1, 2, 3])).value;
      var u := Reducer(t, RowSelected([1, 2, 3], 2)).value;
      && t.allSelected && t.selectedCount == 3
      && !u.allSelected && u.selectedCount == 2 && u.selectedRows == [1, 3]
  {
    var t := Reducer(InitialState<int, string>("id", true, 1, 10), SelectAll([1, 2, 3])).value;
    assert 2 in t.selectedRows;
    assert FirstIndex<int>([1, 2, 3], 2) == 1;
  }

  /** Sorted by A ascending: clicking A sorts descending; clicking B then keeps descending. */
  lemma SortTieBreakScenario()
    ensures var s := InitialState<int, string>("A", true, 1, 10);
      var t := Apply(s, SortClick(s, Column("A", true))).value;
      var u := Apply(t, SortClick(t, Column("B", true))).value;
      && t.sortColumn == "A" && t.sortDirection == Desc
      && u.sortColumn == "B" && u.sortDirection == Desc
  {
  }
}
