/**
  The table's reducer: a pure transition over one `State`, driven by the
  closed set of six action tags; any other tag is a programming error.
*/
module Engine {
  import opened Wrappers
  import opened TableState
  import opened Util
  import Js

  /** The reducer. `Failure` stands for the `throw` on an unrecognised tag. */
  function Reducer<R(==), C>(s: State<R, C>, a: Action<R, C>): (r: Result<State<R, C>>)
    ensures r.Failure? <==> a.Unhandled?
    ensures r.Success? && CountConsistent(s) ==> CountConsistent(r.value)
    ensures r.Success? && !a.SelectAll? && !a.RowSelected? && !a.ClearSelectedRows? ==> SameSelection(s, r.value)
    ensures r.Success? && !a.ClearSelectedRows? ==> r.value.selectedRowsFlag == s.selectedRowsFlag
    ensures r.Success? && !a.SortChange? ==> r.value.sortColumn == s.sortColumn && r.value.sortDirection == s.sortDirection
    ensures r.Success? && !a.ChangePage? && !a.ChangeRowsPerPage? ==> r.value.currentPage == s.currentPage
    ensures r.Success? && !a.ChangeRowsPerPage? ==> r.value.rowsPerPage == s.rowsPerPage
    ensures r.Success? && a.SortChange? ==> r.value.sortColumn == a.sortColumn && r.value.sortDirection == a.sortDirection
    ensures r.Success? && a.ChangePage? ==> r.value.currentPage == a.page
    ensures r.Success? && a.ChangeRowsPerPage? ==> r.value.currentPage == a.page && r.value.rowsPerPage == a.rowsPerPage
  {
    match a
    case SelectAll(data) =>
      var allChecked := !s.allSelected;
      Success(s.(allSelected := allChecked,
                 selectedCount := if allChecked then |data| else 0,
                 selectedRows := if allChecked then data else []))
    case SortChange(sortColumn, sortDirection) =>
      Success(s.(sortColumn := sortColumn, sortDirection := sortDirection))
    case RowSelected(data, row) =>
      var selectedRows := s.selectedRows;
      if row in selectedRows then
        var count: int := if |selectedRows| > 0 then |selectedRows| - 1 else 0;
        Success(s.(selectedCount := count,
                   allSelected := false,
                   selectedRows := RemoveItem(selectedRows, row)))
      else
        Success(s.(selectedCount := |selectedRows| + 1,
                   allSelected := |selectedRows| + 1 == |data|,
                   selectedRows := InsertItem(selectedRows, row)))
    case ChangePage(page) =>
      Success(s.(currentPage := page))
    case ChangeRowsPerPage(rowsPerPage, page) =>
      Success(s.(currentPage := page, rowsPerPage := rowsPerPage))
    case ClearSelectedRows(flag) =>
      Success(s.(allSelected := false, selectedCount := 0, selectedRows := [], selectedRowsFlag := flag))
    case Unhandled(tag) =>
      Failure("Unhandled action type: " + tag)
  }

  /** SELECT_ALL flips `allSelected`, then selects the whole snapshot or nothing. */
  lemma SelectAllToggles<R, C>(s: State<R, C>, data: seq<R>)
    ensures var t := Reducer(s, SelectAll(data)).value;
      && t.allSelected == !s.allSelected
      && (t.allSelected ==> t.selectedRows == data && t.selectedCount == |data|)
      && (!t.allSelected ==> t.selectedRows == [] && t.selectedCount == 0)
      && SameSortAndPage(s, t) && t.selectedRowsFlag == s.selectedRowsFlag
  {
  }

  /**
    A state is a fixed point of a double SELECT_ALL exactly when it is
    "all selected" with the snapshot as selection, or "none selected".
  */
  predicate SelectAllCanonical<R(==), C>(s: State<R, C>, data: seq<R>) {
    if s.allSelected then s.selectedRows == data && s.selectedCount == |data|
    else s.selectedRows == [] && s.selectedCount == 0
  }

  /** Two SELECT_ALLs with the same snapshot restore `allSelected`, and restore the whole state exactly for canonical states. */
  lemma SelectAllTwice<R, C>(s: State<R, C>, data: seq<R>)
    ensures var t := Reducer(Reducer(s, SelectAll(data)).value, SelectAll(data)).value;
      && t.allSelected == s.allSelected
      && SelectAllCanonical(t, data)
      && (t == s <==> SelectAllCanonical(s, data))
  {
  }

  /** A partially selected state is not restored by two SELECT_ALLs: the second one deselects everything. */
  lemma SelectAllTwiceDropsPartialSelection()
    ensures var s := State(false, 1, [7], "name", Asc, false, 1, 10);
      Reducer(Reducer(s, SelectAll([7, 8])).value, SelectAll([7, 8])).value != s
  {
    var s := State(false, 1, [7], "name", Asc, false, 1, 10);
    var t := Reducer(s, SelectAll([7, 8])).value;
    assert t.selectedRows == [7, 8];
    assert Reducer(t, SelectAll([7, 8])).value.selectedRows == [];
  }

  /** ROW_SELECTED on a selected row removes its first occurrence and clears `allSelected`. */
  lemma RowSelectedRemoves<R, C>(s: State<R, C>, data: seq<R>, row: R)
    requires row in s.selectedRows
    ensures var t := Reducer(s, RowSelected(data, row)).value;
      && !t.allSelected
      && t.selectedCount == Js.Max(|s.selectedRows| - 1, 0)
      && multiset(t.selectedRows) == multiset(s.selectedRows) - multiset{row}
      && SameSortAndPage(s, t) && t.selectedRowsFlag == s.selectedRowsFlag
  {
    RemoveItemMultiset(s.selectedRows, row);
  }

  /** ROW_SELECTED on an unselected row appends it; `allSelected` holds exactly when the new count reaches the snapshot's length. */
  lemma RowSelectedAppends<R, C>(s: State<R, C>, data: seq<R>, row: R)
    requires row !in s.selectedRows
    ensures var t := Reducer(s, RowSelected(data, row)).value;
      && t.selectedRows == s.selectedRows + [row]
      && t.selectedCount == |s.selectedRows| + 1
      && (t.allSelected <==> |s.selectedRows| + 1 == |data|)
      && SameSortAndPage(s, t) && t.selectedRowsFlag == s.selectedRowsFlag
  {
  }

  /** Selecting a row and then clicking it again gives back the state, unless it was "all selected". */
  lemma RowSelectedTwice<R, C>(s: State<R, C>, data: seq<R>, row: R)
    requires CountConsistent(s)
    requires row !in s.selectedRows
    ensures var t := Reducer(Reducer(s, RowSelected(data, row)).value, RowSelected(data, row)).value;
      t == s <==> !s.allSelected
  {
    RemoveInsertedItem(s.selectedRows, row);
  }

  /** CLEAR_SELECTED_ROWS empties the selection, stores the flag and keeps sort and page. */
  lemma ClearSelectedRowsClears<R, C>(s: State<R, C>, flag: bool)
    ensures var t := Reducer(s, ClearSelectedRows(flag)).value;
      && !t.allSelected && t.selectedCount == 0 && t.selectedRows == []
      && t.selectedRowsFlag == flag
      && SameSortAndPage(s, t)
  {
  }

  /** Dispatches a sequence of actions in order; the first unrecognised tag aborts. */
  function Run<R(==), C>(s: State<R, C>, actions: seq<Action<R, C>>): Result<State<R, C>>
    decreases |actions|
  {
    if actions == [] then Success(s)
    else
      match Reducer(s, actions[0])
      case Failure(e) => Failure(e)
      case Success(t) => Run(t, actions[1..])
  }

  /** A run fails exactly when one of its actions carries an unrecognised tag. */
  lemma {:induction false} RunFailsIffUnhandled<R, C>(s: State<R, C>, actions: seq<Action<R, C>>)
    ensures Run(s, actions).Failure? <==> exists i :: 0 <= i < |actions| && actions[i].Unhandled?
    decreases |actions|
  {
    if actions != [] && !actions[0].Unhandled? {
      RunFailsIffUnhandled(Reducer(s, actions[0]).value, actions[1..]);
      assert forall i :: 1 <= i < |actions| ==> actions[i] == actions[1..][i - 1];
    }
  }

  /** `selectedCount == |selectedRows|` survives every sequence of actions. */
  lemma {:induction false} RunKeepsCountConsistent<R, C>(s: State<R, C>, actions: seq<Action<R, C>>)
    requires CountConsistent(s)
    ensures Run(s, actions).Success? ==> CountConsistent(Run(s, actions).value)
    decreases |actions|
  {
    if actions != [] && !actions[0].Unhandled? {
      RunKeepsCountConsistent(Reducer(s, actions[0]).value, actions[1..]);
    }
  }

  /** Actions that touch neither selection nor the clear flag leave both alone over a whole run. */
  lemma {:induction false} RunWithoutSelectionActions<R, C>(s: State<R, C>, actions: seq<Action<R, C>>)
    requires forall i :: 0 <= i < |actions| ==> actions[i].SortChange? || actions[i].ChangePage? || actions[i].ChangeRowsPerPage?
    ensures Run(s, actions).Success?
    ensures SameSelection(s, Run(s, actions).value)
    ensures Run(s, actions).value.selectedRowsFlag == s.selectedRowsFlag
    decreases |actions|
  {
    if actions != [] {
      RunWithoutSelectionActions(Reducer(s, actions[0]).value, actions[1..]);
    }
  }
}
