/**
  The data of the table state engine: the state record the reducer owns,
  the closed set of actions it understands, and the decorated column as far
  as the sort rule looks at it.

  Rows are opaque and compared by identity only (`===` in the source), so
  they are a type parameter `R`; the column selector, which is also what
  `sortColumn` holds, is the type parameter `C`.
*/
module TableState {

  /** The two sort directions, `'asc'` and `'desc'`. */
  datatype Direction = Asc | Desc

  /** The opposite direction. */
  function Flip(d: Direction): (e: Direction)
    ensures e != d
  {
    if d == Asc then Desc else Asc
  }

  /** The record the reducer transforms. */
  datatype State<R, C> = State(
    allSelected: bool,
    selectedCount: nat,
    selectedRows: seq<R>,
    sortColumn: C,
    sortDirection: Direction,
    selectedRowsFlag: bool,
    currentPage: int,
    rowsPerPage: int
  )

  /** A `type` tag that none of the reducer's cases matches. */
  type UnknownTag = t: string
    | t !in {"SELECT_ALL", "SORT_CHANGE", "ROW_SELECTED", "CHANGE_PAGE", "CHANGE_ROWS_PER_PAGE", "CLEAR_SELECTED_ROWS"}
    witness ""

  /**
    The actions dispatched to the reducer, one constructor per recognised
    `type` tag plus `Unhandled` for any other tag.
  */
  datatype Action<R, C> =
    | SelectAll(data: seq<R>)
    | SortChange(sortColumn: C, sortDirection: Direction)
    | RowSelected(data: seq<R>, row: R)
    | ChangePage(page: int)
    | ChangeRowsPerPage(rowsPerPage: int, page: int)
    | ClearSelectedRows(selectedRowsFlag: bool)
    | Unhandled(tag: UnknownTag)

  /** A decorated column: only its selector and sortability matter here. */
  datatype Column<C> = Column(selector: C, sortable: bool)

  /** The three selection fields are identical in `s` and `t`. */
  predicate SameSelection<R(==), C>(s: State<R, C>, t: State<R, C>) {
    && s.allSelected == t.allSelected
    && s.selectedCount == t.selectedCount
    && s.selectedRows == t.selectedRows
  }

  /** The sort and page fields are identical in `s` and `t`. */
  predicate SameSortAndPage<R, C(==)>(s: State<R, C>, t: State<R, C>) {
    && s.sortColumn == t.sortColumn
    && s.sortDirection == t.sortDirection
    && s.currentPage == t.currentPage
    && s.rowsPerPage == t.rowsPerPage
  }

  /** `selectedCount` agrees with the number of selected rows. */
  predicate CountConsistent<R, C>(s: State<R, C>) {
    s.selectedCount == |s.selectedRows|
  }
}
