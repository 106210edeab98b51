/**
  The selection invariant the table relies on while the dataset snapshot
  stays fixed: the count matches, no row is selected twice, only rows of
  the snapshot are selected, and `allSelected` says "every row of a
  non-empty snapshot is selected".
*/
module Selection {
  import opened TableState
  import opened Util
  import opened Engine

  predicate SelectionInvariant<R(==), C>(s: State<R, C>, data: seq<R>) {
    && Distinct(data)
    && CountConsistent(s)
    && Distinct(s.selectedRows)
    && Elements(s.selectedRows) <= Elements(data)
    && (s.allSelected ==> Elements(s.selectedRows) == Elements(data))
    && (|data| > 0 && Elements(s.selectedRows) == Elements(data) ==> s.allSelected)
  }

  /**
    An action the table can dispatch while `data` is the snapshot: the
    selection actions carry that snapshot and click one of its rows, and
    the tag is recognised.
  */
  predicate DispatchedFor<R(==), C>(a: Action<R, C>, data: seq<R>) {
    match a
    case SelectAll(d) => d == data
    case RowSelected(d, row) => d == data && row in data
    case Unhandled(_) => false
    case _ => true
  }

  /** Every recognised action dispatched for the snapshot keeps the selection invariant. */
  lemma ReducerKeepsSelectionInvariant<R, C>(s: State<R, C>, a: Action<R, C>, data: seq<R>)
    requires SelectionInvariant(s, data)
    requires DispatchedFor(a, data)
    ensures Reducer(s, a).Success?
    ensures SelectionInvariant(Reducer(s, a).value, data)
  {
    var t := Reducer(s, a).value;
    match a
    case RowSelected(_, row) =>
      if row in s.selectedRows {
        RemoveItemDistinct(s.selectedRows, row);
        assert row !in Elements(t.selectedRows);
      } else {
        var rows := s.selectedRows + [row];
        assert t.selectedRows == rows;
        assert Distinct(rows);
        assert Elements(rows) == Elements(s.selectedRows) + {row};
        DistinctSubsetSameLength(rows, data);
      }
    case _ =>
      if |data| > 0 {
        assert data[0] in Elements(data);
      }
  }

  /** A whole run of dispatched actions keeps the invariant and never fails. */
  lemma {:induction false} RunKeepsSelectionInvariant<R, C>(s: State<R, C>, actions: seq<Action<R, C>>, data: seq<R>)
    requires SelectionInvariant(s, data)
    requires forall i :: 0 <= i < |actions| ==> DispatchedFor(actions[i], data)
    ensures Run(s, actions).Success?
    ensures SelectionInvariant(Run(s, actions).value, data)
    decreases |actions|
  {
    if actions != [] {
      ReducerKeepsSelectionInvariant(s, actions[0], data);
      RunKeepsSelectionInvariant(Reducer(s, actions[0]).value, actions[1..], data);
    }
  }

  /** Under the invariant `allSelected` is exactly "the snapshot is non-empty and every row is selected", read off the count. */
  lemma AllSelectedMeansFullCount<R, C>(s: State<R, C>, data: seq<R>)
    requires SelectionInvariant(s, data)
    requires |data| > 0
    ensures s.allSelected <==> s.selectedCount == |data|
  {
    DistinctSubsetSameLength(s.selectedRows, data);
  }
}
