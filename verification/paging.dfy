/**
  Pagination arithmetic of `DataTable`: the row count it pages over, the
  page it recalculates when the page size changes, and the window of rows
  it shows.
*/
module Paging {
  import opened Util
  import opened Js

  /** `paginationTotalRows || data.length`: a total of 0 means "not given". */
  function RowCount(paginationTotalRows: nat, dataLength: nat): (n: nat)
    ensures n == paginationTotalRows || n == dataLength
    ensures n == 0 <==> paginationTotalRows == 0 && dataLength == 0
    ensures paginationTotalRows > 0 ==> n == paginationTotalRows
  {
    if paginationTotalRows != 0 then paginationTotalRows else dataLength
  }

  /**
    The page kept after a page-size change: the current page, unless the
    new page size leaves fewer pages, in which case the last page.
  */
  function RecalculatedPage(currentPage: int, rowCount: nat, newRowsPerPage: int): (p: int)
    requires newRowsPerPage > 0
    ensures p <= currentPage && p <= NumberOfPages(rowCount, newRowsPerPage)
    ensures p == currentPage || p == NumberOfPages(rowCount, newRowsPerPage)
    ensures 1 <= currentPage && rowCount > 0 ==> 1 <= p
    ensures (p - 1) * newRowsPerPage < rowCount || p < 1
  {
    var pages := NumberOfPages(rowCount, newRowsPerPage);
    var p := Min(currentPage, pages);
    assert (p - 1) * newRowsPerPage <= (pages - 1) * newRowsPerPage by {
      MultiplyMonotone(p - 1, pages - 1, newRowsPerPage);
    }
    p
  }

  lemma MultiplyMonotone(a: int, b: int, k: nat)
    requires a <= b
    ensures a * k <= b * k
  {
  }

  /**
    `calculateRows`: with client-side pagination the rows of the current
    page, sliced out of the sorted data the way `Array.prototype.slice`
    slices; otherwise all of the sorted data.
  */
  function CalculateRows<T>(sortedData: seq<T>, currentPage: int, rowsPerPage: int,
                            pagination: bool, paginationServer: bool): (rows: seq<T>)
    ensures !(pagination && !paginationServer) ==> rows == sortedData
    ensures |rows| <= |sortedData|
    ensures pagination && !paginationServer && currentPage >= 1 && rowsPerPage >= 0 ==>
      && |rows| <= rowsPerPage
      && forall i :: 0 <= i < |rows| ==>
           (currentPage - 1) * rowsPerPage + i < |sortedData| && rows[i] == sortedData[(currentPage - 1) * rowsPerPage + i]
  {
    if pagination && !paginationServer then
      var lastIndex := currentPage * rowsPerPage;
      var firstIndex := lastIndex - rowsPerPage;
      assert currentPage >= 1 && rowsPerPage >= 0 ==> firstIndex >= 0 && firstIndex == (currentPage - 1) * rowsPerPage;
      Slice(sortedData, firstIndex, lastIndex)
    else
      sortedData
  }

  /** A client-side page is empty exactly when it starts at or past the end of the data. */
  lemma PageEmptyIffPastEnd<T>(sortedData: seq<T>, currentPage: int, rowsPerPage: int)
    requires currentPage >= 1 && rowsPerPage > 0
    ensures CalculateRows(sortedData, currentPage, rowsPerPage, true, false) == []
        <==> (currentPage - 1) * rowsPerPage >= |sortedData|
    ensures (currentPage - 1) * rowsPerPage < |sortedData| ==>
      |CalculateRows(sortedData, currentPage, rowsPerPage, true, false)|
        == Min(currentPage * rowsPerPage, |sortedData|) - (currentPage - 1) * rowsPerPage
  {
    assert currentPage * rowsPerPage == (currentPage - 1) * rowsPerPage + rowsPerPage;
  }

  /** Every page after the last one is empty. */
  lemma PastLastPageIsEmpty<T>(sortedData: seq<T>, currentPage: int, rowsPerPage: int)
    requires rowsPerPage > 0
    requires currentPage > NumberOfPages(|sortedData|, rowsPerPage)
    ensures CalculateRows(sortedData, currentPage, rowsPerPage, true, false) == []
  {
    var pages := NumberOfPages(|sortedData|, rowsPerPage);
    MultiplyMonotone(pages, currentPage - 1, rowsPerPage);
    PageEmptyIffPastEnd(sortedData, currentPage, rowsPerPage);
  }

  /** A single page as large as the data shows all of it. */
  lemma FirstPageOfFullSizeIsAll<T>(sortedData: seq<T>)
    ensures CalculateRows(sortedData, 1, |sortedData|, true, false) == sortedData
  {
  }

  /** Pages 1 to `k` of the client-side pagination, one after the other. */
  function ClientPages<T>(sortedData: seq<T>, rowsPerPage: int, k: nat): seq<T> {
    if k == 0 then []
    else ClientPages(sortedData, rowsPerPage, k - 1) + CalculateRows(sortedData, k, rowsPerPage, true, false)
  }

  /** The first `k` pages are the first `k * rowsPerPage` rows. */
  lemma {:induction false} ClientPagesArePrefix<T>(sortedData: seq<T>, rowsPerPage: int, k: nat)
    requires rowsPerPage > 0
    ensures ClientPages(sortedData, rowsPerPage, k) == sortedData[..Min(k * rowsPerPage, |sortedData|)]
  {
    if k > 0 {
      var lo := Min((k - 1) * rowsPerPage, |sortedData|);
      var hi := Min(k * rowsPerPage, |sortedData|);
      var previous := ClientPages(sortedData, rowsPerPage, k - 1);
      var page := CalculateRows(sortedData, k, rowsPerPage, true, false);
      assert ClientPages(sortedData, rowsPerPage, k) == previous + page;
      ClientPagesArePrefix(sortedData, rowsPerPage, k - 1);
      assert previous == sortedData[..lo];
      PageIsSliceOfData(sortedData, k, rowsPerPage);
      assert page == sortedData[lo..hi];
      PrefixThenRun(sortedData, lo, hi);
    }
  }

  /** A prefix followed by the run after it is the longer prefix. */
  lemma PrefixThenRun<T>(s: seq<T>, lo: int, hi: int)
    requires 0 <= lo <= hi <= |s|
    ensures s[..lo] + s[lo..hi] == s[..hi]
  {
  }

  /** Client-side page `k` is the run of rows from `(k-1)*size` to `k*size`, both clamped to the data. */
  lemma PageIsSliceOfData<T>(sortedData: seq<T>, k: int, rowsPerPage: int)
    requires k >= 1 && rowsPerPage > 0
    ensures Min((k - 1) * rowsPerPage, |sortedData|) <= Min(k * rowsPerPage, |sortedData|)
    ensures CalculateRows(sortedData, k, rowsPerPage, true, false)
         == sortedData[Min((k - 1) * rowsPerPage, |sortedData|)..Min(k * rowsPerPage, |sortedData|)]
  {
    assert k * rowsPerPage == (k - 1) * rowsPerPage + rowsPerPage;
    assert (k - 1) * rowsPerPage >= 0;
  }

  /** The pages 1 to `getNumberOfPages` partition the data: every row is shown on exactly one page, in order. */
  lemma AllPagesPartitionData<T>(sortedData: seq<T>, rowsPerPage: int)
    requires rowsPerPage > 0
    ensures ClientPages(sortedData, rowsPerPage, NumberOfPages(|sortedData|, rowsPerPage)) == sortedData
  {
    ClientPagesArePrefix(sortedData, rowsPerPage, NumberOfPages(|sortedData|, rowsPerPage));
  }

  /**
    With a negative page, `slice` counts from the end of the data, so the
    window shows rows near the end instead of nothing.
  */
  lemma NegativePageCountsFromEnd()
    ensures CalculateRows([1, 2, 3, 4, 5], -1, 2, true, false) == [2, 3]
  {
  }
}
