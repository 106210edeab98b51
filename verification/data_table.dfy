/**
  The decisions the `DataTable` component makes around the reducer: its
  initial state, the derived display flags, which action a sort click or a
  page-size change dispatches, and the edge-triggered clear-selection check
  it performs on every evaluation.
*/
module DataTable {
  import opened Wrappers
  import opened TableState
  import opened Util
  import opened Engine
  import opened Selection
  import opened Paging

  /** The state the reducer starts from, seeded from the props. */
  function InitialState<R, C>(defaultSortField: C, defaultSortAsc: bool,
                              paginationDefaultPage: int, paginationPerPage: int): (s: State<R, C>)
    ensures CountConsistent(s) && s.selectedRows == [] && !s.allSelected && !s.selectedRowsFlag
    ensures s.sortColumn == defaultSortField && (s.sortDirection == Asc <==> defaultSortAsc)
    ensures s.currentPage == paginationDefaultPage && s.rowsPerPage == paginationPerPage
  {
    State(false, 0, [], defaultSortField, SortDirectionOf(defaultSortAsc), false,
          paginationDefaultPage, paginationPerPage)
  }

  /** The header checkbox is indeterminate: some rows are selected, but not all. */
  predicate Indeterminate<R, C>(s: State<R, C>) {
    |s.selectedRows| > 0 && !s.allSelected
  }

  /** `checkIfRowSeleted`: a row is shown as selected when it is in the selection by identity. */
  predicate IsRowSelected<R(==), C>(s: State<R, C>, row: R)
    ensures IsRowSelected(s, row) <==> row in s.selectedRows
  {
    exists i :: 0 <= i < |s.selectedRows| && s.selectedRows[i] == row
  }

  /** The initial state satisfies the selection invariant for every repetition-free snapshot and shows nothing selected. */
  lemma InitialStateIsValid<R, C>(data: seq<R>, defaultSortField: C, defaultSortAsc: bool,
                                 paginationDefaultPage: int, paginationPerPage: int)
    requires Distinct(data)
    ensures var s := InitialState<R, C>(defaultSortField, defaultSortAsc, paginationDefaultPage, paginationPerPage);
      && SelectionInvariant(s, data)
      && !Indeterminate(s)
      && forall row :: !IsRowSelected(s, row)
  {
    if |data| > 0 {
      assert data[0] in Elements(data);
    }
  }

  /**
    Under the selection invariant the header checkbox is indeterminate
    exactly when some row of the snapshot is selected and some is not.
  */
  lemma IndeterminateMeansPartlySelected<R, C>(s: State<R, C>, data: seq<R>)
    requires SelectionInvariant(s, data)
    ensures Indeterminate(s) <==>
      && (exists r :: r in data && IsRowSelected(s, r))
      && (exists r :: r in data && !IsRowSelected(s, r))
  {
    if |s.selectedRows| > 0 {
      assert s.selectedRows[0] in Elements(data);
      assert IsRowSelected(s, s.selectedRows[0]);
      if !s.allSelected {
        assert Elements(s.selectedRows) != Elements(data);
        var r :| r in Elements(data) && r !in Elements(s.selectedRows);
        assert r in data && !IsRowSelected(s, r);
      }
    } else {
      assert forall r :: !IsRowSelected(s, r);
    }
    if s.allSelected {
      forall r | r in data
        ensures IsRowSelected(s, r)
      {
        assert r in Elements(s.selectedRows);
      }
    }
  }

  /** After SELECT_ALL either every row of the snapshot shows as selected, or none does. */
  lemma SelectAllChecksEveryRow<R, C>(s: State<R, C>, data: seq<R>)
    ensures var t := Reducer(s, SelectAll(data)).value;
      && (t.allSelected ==> forall r :: r in data ==> IsRowSelected(t, r))
      && (!t.allSelected ==> forall r :: !IsRowSelected(t, r))
  {
    var t := Reducer(s, SelectAll(data)).value;
    if t.allSelected {
      forall r | r in data
        ensures IsRowSelected(t, r)
      {
        var i :| 0 <= i < |data| && data[i] == r;
        assert t.selectedRows[i] == r;
      }
    }
  }

  /**
    ROW_SELECTED flips the clicked row's checkbox and leaves every other
    row's checkbox alone, as long as no row is selected twice.
  */
  lemma RowSelectedTogglesOneRow<R, C>(s: State<R, C>, data: seq<R>, row: R)
    requires Distinct(s.selectedRows)
    ensures var t := Reducer(s, RowSelected(data, row)).value;
      && (IsRowSelected(t, row) <==> !IsRowSelected(s, row))
      && forall other :: other != row ==> (IsRowSelected(t, other) <==> IsRowSelected(s, other))
  {
    var t := Reducer(s, RowSelected(data, row)).value;
    assert forall r :: IsRowSelected(s, r) <==> r in Elements(s.selectedRows);
    assert forall r :: IsRowSelected(t, r) <==> r in Elements(t.selectedRows);
    if row in s.selectedRows {
      RemoveItemDistinct(s.selectedRows, row);
    } else {
      assert Elements(t.selectedRows) == Elements(s.selectedRows) + {row};
    }
  }

  /** Applies the action a handler dispatched, if any. */
  function Apply<R(==), C>(s: State<R, C>, a: Option<Action<R, C>>): Result<State<R, C>> {
    match a
    case None => Success(s)
    case Some(action) => Reducer(s, action)
  }

  /**
    `handleSortChange`: a click on a non-sortable column dispatches nothing;
    otherwise the column becomes the sort column and the direction flips
    exactly when that column was already the sort column.
  */
  function SortClick<R, C(==)>(s: State<R, C>, column: Column<C>): (a: Option<Action<R, C>>)
    ensures a.None? <==> !column.sortable
    ensures a.Some? ==> a.value.SortChange? && a.value.sortColumn == column.selector
    ensures a.Some? ==> (a.value.sortDirection != s.sortDirection <==> s.sortColumn == column.selector)
  {
    if column.sortable then
      var direction := if s.sortColumn == column.selector then Flip(s.sortDirection) else s.sortDirection;
      Some(SortChange(column.selector, direction))
    else
      None
  }

  /** The state after a sort click: only the sort fields can change, and only for a sortable column. */
  lemma SortClickOutcome<R, C>(s: State<R, C>, column: Column<C>)
    ensures Apply(s, SortClick(s, column)).Success?
    ensures var t := Apply(s, SortClick(s, column)).value;
      && (!column.sortable ==> t == s)
      && (column.sortable ==> t.sortColumn == column.selector
                              && (t.sortDirection == Flip(s.sortDirection) <==> s.sortColumn == column.selector))
      && SameSelection(s, t) && t.selectedRowsFlag == s.selectedRowsFlag
      && t.currentPage == s.currentPage && t.rowsPerPage == s.rowsPerPage
  {
  }

  /** Clicking the active sort column twice gives back the state. */
  lemma ActiveColumnClickedTwice<R, C>(s: State<R, C>, column: Column<C>)
    requires column.sortable && s.sortColumn == column.selector
    ensures var t := Apply(s, SortClick(s, column)).value;
      Apply(t, SortClick(t, column)) == Success(s)
  {
  }

  /** `handleChangePage`: the action dispatched for a page change. */
  function HandleChangePage<R, C>(page: int): (actions: seq<Action<R, C>>)
    ensures |actions| == 1 && actions[0].ChangePage? && actions[0].page == page
  {
    [ChangePage(page)]
  }

  /** After a page change only the current page differs, and it is the requested one. */
  lemma ChangePageOutcome<R, C>(s: State<R, C>, page: int)
    ensures var r := Run(s, HandleChangePage(page));
      && r.Success?
      && r.value.currentPage == page
      && SameSelection(s, r.value) && r.value.selectedRowsFlag == s.selectedRowsFlag
      && r.value.sortColumn == s.sortColumn && r.value.sortDirection == s.sortDirection
      && r.value.rowsPerPage == s.rowsPerPage
  {
  }

  /**
    `handleChangeRowsPerPage`: the actions dispatched for a new page size.
    Client-side pagination first moves to the recalculated page; both modes
    then store the new size together with the recalculated page.
  */
  function HandleChangeRowsPerPage<R, C>(s: State<R, C>, newRowsPerPage: int, paginationTotalRows: nat,
                                         dataLength: nat, paginationServer: bool): (actions: seq<Action<R, C>>)
    requires newRowsPerPage > 0
    ensures |actions| == if paginationServer then 1 else 2
    ensures actions[|actions| - 1].ChangeRowsPerPage? && actions[|actions| - 1].rowsPerPage == newRowsPerPage
    ensures forall i :: 0 <= i < |actions| ==>
      (actions[i].ChangePage? || actions[i].ChangeRowsPerPage?)
      && actions[i].page <= s.currentPage
      && actions[i].page <= NumberOfPages(RowCount(paginationTotalRows, dataLength), newRowsPerPage)
  {
    var rowCount := RowCount(paginationTotalRows, dataLength);
    var recalculatedPage := RecalculatedPage(s.currentPage, rowCount, newRowsPerPage);
    var last := ChangeRowsPerPage(newRowsPerPage, recalculatedPage);
    if !paginationServer then HandleChangePage(recalculatedPage) + [last] else [last]
  }

  /** After a page-size change the state holds the new size and the clamped page, and nothing else changed. */
  lemma ChangeRowsPerPageOutcome<R, C>(s: State<R, C>, newRowsPerPage: int, paginationTotalRows: nat,
                                      dataLength: nat, paginationServer: bool)
    requires newRowsPerPage > 0
    ensures var actions := HandleChangeRowsPerPage(s, newRowsPerPage, paginationTotalRows,
                                                          dataLength, paginationServer);
      && Run(s, actions).Success?
      && var t := Run(s, actions).value;
      && t.rowsPerPage == newRowsPerPage
      && t.currentPage == RecalculatedPage(s.currentPage, RowCount(paginationTotalRows, dataLength), newRowsPerPage)
      && SameSelection(s, t) && t.selectedRowsFlag == s.selectedRowsFlag
      && t.sortColumn == s.sortColumn && t.sortDirection == s.sortDirection
  {
    var actions := HandleChangeRowsPerPage(s, newRowsPerPage, paginationTotalRows,
                                                 dataLength, paginationServer);
    var last := actions[|actions| - 1];
    if !paginationServer {
      var t1 := Reducer(s, actions[0]).value;
      assert Run(s, actions) == Run(t1, actions[1..]);
      assert Run(t1, actions[1..]) == Run(Reducer(t1, last).value, []);
    } else {
      assert Run(s, actions) == Run(Reducer(s, last).value, []);
    }
  }

  /**
    With client-side data and a valid current page, the page kept after a
    page-size change is never past the end: it shows at least one row, as
    long as the row count it pages over is the data's length
    (`paginationTotalRows` absent, or equal to it).
  */
  lemma ChangeRowsPerPageKeepsRowsVisible<R, C>(s: State<R, C>, sortedData: seq<R>, newRowsPerPage: int,
                                               paginationTotalRows: nat)
    requires newRowsPerPage > 0 && s.currentPage >= 1 && |sortedData| > 0
    requires RowCount(paginationTotalRows, |sortedData|) == |sortedData|
    ensures var r := Run(s, HandleChangeRowsPerPage(s, newRowsPerPage, paginationTotalRows, |sortedData|, false));
      r.Success? && CalculateRows(sortedData, r.value.currentPage, r.value.rowsPerPage, true, false) != []
  {
    ChangeRowsPerPageOutcome(s, newRowsPerPage, paginationTotalRows, |sortedData|, false);
    var t := Run(s, HandleChangeRowsPerPage(s, newRowsPerPage, paginationTotalRows, |sortedData|, false)).value;
    PageEmptyIffPastEnd(sortedData, t.currentPage, t.rowsPerPage);
  }

  /** A given total larger than the data can keep a page that shows nothing. */
  lemma ChangeRowsPerPageWithLargerTotal()
    ensures var s := State<int, string>.State(false, 0, [], "id", Asc, false, 10, 2);
      var r := Run(s, HandleChangeRowsPerPage(s, 3, 100, 5, false));
      r.Success? && r.value.currentPage == 10 && CalculateRows([1, 2, 3, 4, 5], r.value.currentPage, r.value.rowsPerPage, true, false) == []
  {
    var s := State<int, string>.State(false, 0, [], "id", Asc, false, 10, 2);
    ChangeRowsPerPageOutcome(s, 3, 100, 5, false);
  }

  /** The clear-selection check: dispatch CLEAR_SELECTED_ROWS when the prop differs from the stored flag. */
  function ClearCheck<R, C>(s: State<R, C>, clearSelectedRows: bool): (a: Option<Action<R, C>>)
    ensures a.Some? <==> clearSelectedRows != s.selectedRowsFlag
    ensures a.Some? ==> a.value.ClearSelectedRows? && a.value.selectedRowsFlag == clearSelectedRows
  {
    if clearSelectedRows != s.selectedRowsFlag then Some(ClearSelectedRows(clearSelectedRows)) else None
  }

  /** One evaluation of the component with the given clear token. */
  function EvaluateClear<R(==), C>(s: State<R, C>, clearSelectedRows: bool): (t: State<R, C>)
    ensures t.selectedRowsFlag == clearSelectedRows
    ensures clearSelectedRows == s.selectedRowsFlag ==> t == s
    ensures clearSelectedRows != s.selectedRowsFlag ==>
      !t.allSelected && t.selectedCount == 0 && t.selectedRows == [] && SameSortAndPage(s, t)
  {
    Apply(s, ClearCheck(s, clearSelectedRows)).value
  }

  /** Something that happens to a mounted table: an evaluation with a clear token, or a user action. */
  datatype Event<R, C> = Render(clearSelectedRows: bool) | User(action: Action<R, C>)

  /** The user handlers dispatch recognised tags, and never CLEAR_SELECTED_ROWS themselves. */
  predicate UserDispatchable<R, C>(e: Event<R, C>) {
    e.User? ==> !e.action.Unhandled? && !e.action.ClearSelectedRows?
  }

  /** The final state of a history of events, and how many CLEAR_SELECTED_ROWS it dispatched. */
  function Replay<R(==), C>(s: State<R, C>, events: seq<Event<R, C>>): Result<(State<R, C>, nat)>
    decreases |events|
  {
    if events == [] then Success((s, 0))
    else
      match events[0]
      case Render(token) =>
        var cleared := if ClearCheck<R, C>(s, token).Some? then 1 else 0;
        (match Replay(EvaluateClear(s, token), events[1..])
         case Failure(e) => Failure(e)
         case Success(p) => Success((p.0, p.1 + cleared)))
      case User(a) =>
        match Reducer(s, a)
        case Failure(e) => Failure(e)
        case Success(t) => Replay(t, events[1..])
  }

  /** The tokens the renders of a history saw, in order. */
  function RenderTokens<R, C>(events: seq<Event<R, C>>): seq<bool> {
    if events == [] then []
    else (if events[0].Render? then [events[0].clearSelectedRows] else []) + RenderTokens(events[1..])
  }

  /** How many times the token sequence differs from the value before it, starting from `flag`. */
  function TokenChanges(flag: bool, tokens: seq<bool>): nat
    decreases |tokens|
  {
    if tokens == [] then 0
    else (if tokens[0] != flag then 1 else 0) + TokenChanges(tokens[0], tokens[1..])
  }

  /** The last token seen, or `flag` when there is none. */
  function LastToken(flag: bool, tokens: seq<bool>): bool {
    if tokens == [] then flag else tokens[|tokens| - 1]
  }

  /**
    The clear check is edge-triggered: over any history, CLEAR_SELECTED_ROWS
    is dispatched exactly once per change of the token, and the stored flag
    ends equal to the last token seen.
  */
  lemma {:induction false} ClearsFollowTokenChanges<R, C>(s: State<R, C>, events: seq<Event<R, C>>)
    requires forall i :: 0 <= i < |events| ==> UserDispatchable(events[i])
    ensures Replay(s, events).Success?
    ensures Replay(s, events).value.1 == TokenChanges(s.selectedRowsFlag, RenderTokens(events))
    ensures Replay(s, events).value.0.selectedRowsFlag == LastToken(s.selectedRowsFlag, RenderTokens(events))
    decreases |events|
  {
    if events != [] {
      var rest := events[1..];
      assert forall i :: 0 <= i < |rest| ==> UserDispatchable(rest[i]) by {
        assert forall i :: 0 <= i < |rest| ==> rest[i] == events[i + 1];
      }
      if events[0].Render? {
        var token := events[0].clearSelectedRows;
        ClearsFollowTokenChanges(EvaluateClear(s, token), rest);
        ReplayRenderStep(s, events);
        RenderTokensStep(s.selectedRowsFlag, events);
      } else {
        ClearsFollowTokenChanges(Reducer(s, events[0].action).value, rest);
        ReplayUserStep(s, events);
      }
    }
  }

  /** One render at the head of a history adds its own dispatch, if any, to the rest of the replay. */
  lemma ReplayRenderStep<R, C>(s: State<R, C>, events: seq<Event<R, C>>)
    requires events != [] && events[0].Render?
    requires Replay(EvaluateClear(s, events[0].clearSelectedRows), events[1..]).Success?
    ensures var token, tail := events[0].clearSelectedRows, Replay(EvaluateClear(s, events[0].clearSelectedRows), events[1..]).value;
      Replay(s, events) == Success((tail.0, tail.1 + (if token != s.selectedRowsFlag then 1 else 0)))
  {
  }

  /** One render at the head of a history puts its token first, counting one change if it differs from `flag`. */
  lemma RenderTokensStep<R, C>(flag: bool, events: seq<Event<R, C>>)
    requires events != [] && events[0].Render?
    ensures var token := events[0].clearSelectedRows;
      && RenderTokens(events) == [token] + RenderTokens(events[1..])
      && TokenChanges(flag, RenderTokens(events))
         == (if token != flag then 1 else 0) + TokenChanges(token, RenderTokens(events[1..]))
      && LastToken(flag, RenderTokens(events)) == LastToken(token, RenderTokens(events[1..]))
  {
    var tokens := RenderTokens(events);
    assert tokens == [events[0].clearSelectedRows] + RenderTokens(events[1..]);
    assert tokens[1..] == RenderTokens(events[1..]);
  }

  /** One user action at the head of a history changes neither the dispatch count nor the tokens. */
  lemma ReplayUserStep<R, C>(s: State<R, C>, events: seq<Event<R, C>>)
    requires events != [] && UserDispatchable(events[0]) && events[0].User?
    ensures Reducer(s, events[0].action).Success?
    ensures Reducer(s, events[0].action).value.selectedRowsFlag == s.selectedRowsFlag
    ensures Replay(s, events) == Replay(Reducer(s, events[0].action).value, events[1..])
    ensures RenderTokens(events) == RenderTokens(events[1..])
  {
  }

  /** Re-evaluating with a token already seen dispatches nothing and changes nothing. */
  lemma RepeatedEvaluationIsQuiet<R, C>(s: State<R, C>, token: bool)
    ensures var t := EvaluateClear(s, token);
      ClearCheck<R, C>(t, token).None? && EvaluateClear(t, token) == t
  {
  }
}
