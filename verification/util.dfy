/**
  Sequence facts, and the helpers the table imports from `./util`.

  `./util` itself is not part of this model: `InsertItem`, `RemoveItem`,
  `NumberOfPages` and `SortDirectionOf` below are ASSUMED behaviours (append,
  remove the first occurrence, ceiling division, `asc` for true), stated as
  contracts so that the rest of the model depends only on those contracts.
*/
module Util {
  import opened TableState

  /** No value occurs twice in `s` (distinct row objects). */
  predicate Distinct<T(==)>(s: seq<T>) {
    forall i, j :: 0 <= i < j < |s| ==> s[i] != s[j]
  }

  /** The values occurring in `s`. */
  function Elements<T>(s: seq<T>): set<T> {
    set x | x in s
  }

  /** Assumed `insertItem(array, item)`: the item is appended. */
  function InsertItem<T>(s: seq<T>, x: T): (r: seq<T>)
    ensures multiset(r) == multiset(s) + multiset{x}
    ensures |r| == |s| + 1 && r[..|s|] == s && r[|s|] == x
  {
    s + [x]
  }

  /** The position of the first occurrence of a present value (`findIndex` by identity). */
  function FirstIndex<T(==)>(s: seq<T>, x: T): (i: nat)
    requires x in s
    ensures i < |s| && s[i] == x && x !in s[..i]
  {
    if s[0] == x then 0
    else
      var j := FirstIndex(s[1..], x);
      assert s[1..][..j] == s[1..j + 1];
      j + 1
  }

  /** Assumed `removeItem(array, item)`: the first occurrence of a present item is removed. */
  function RemoveItem<T(==)>(s: seq<T>, x: T): (r: seq<T>)
    requires x in s
    ensures |r| == |s| - 1
    ensures r == s[..FirstIndex(s, x)] + s[FirstIndex(s, x) + 1..]
  {
    if s[0] == x then s[1..]
    else
      var r' := RemoveItem(s[1..], x);
      RemoveItemStep(s, x);
      [s[0]] + r'
  }

  /** Cutting out the first occurrence behind a different head is cutting it out of the tail. */
  lemma RemoveItemStep<T>(s: seq<T>, x: T)
    requires x in s && s[0] != x
    ensures FirstIndex(s, x) == FirstIndex(s[1..], x) + 1
    ensures var i, j := FirstIndex(s, x), FirstIndex(s[1..], x);
      s[..i] + s[i + 1..] == [s[0]] + (s[1..][..j] + s[1..][j + 1..])
  {
    CutBehindHead(s, FirstIndex(s[1..], x));
  }

  /** Cutting position `j + 1` out of a sequence is keeping its head and cutting position `j` out of its tail. */
  lemma CutBehindHead<T>(s: seq<T>, j: nat)
    requires j + 1 < |s|
    ensures s[..j + 1] + s[j + 2..] == [s[0]] + (s[1..][..j] + s[1..][j + 1..])
  {
    var t := s[1..];
    assert s[..j + 1] == [s[0]] + t[..j];
    assert s[j + 2..] == t[j + 1..];
  }

  /** Removing a present item takes exactly one of its occurrences out of the bag of values. */
  lemma RemoveItemMultiset<T>(s: seq<T>, x: T)
    requires x in s
    ensures multiset(RemoveItem(s, x)) == multiset(s) - multiset{x}
  {
    var i := FirstIndex(s, x);
    assert s == s[..i] + [x] + s[i + 1..];
  }

  /** Assumed `getNumberOfPages(rowCount, rowsPerPage)`: `Math.ceil(rowCount / rowsPerPage)`. */
  function NumberOfPages(rowCount: nat, rowsPerPage: int): (n: nat)
    requires rowsPerPage > 0
    ensures (n - 1) * rowsPerPage < rowCount <= n * rowsPerPage
  {
    var q := (rowCount + rowsPerPage - 1) / rowsPerPage;
    assert q * rowsPerPage + (rowCount + rowsPerPage - 1) % rowsPerPage == rowCount + rowsPerPage - 1;
    q
  }

  /** Assumed `getSortDirection(defaultSortAsc)`. */
  function SortDirectionOf(ascending: bool): (d: Direction)
    ensures d == Asc <==> ascending
  {
    if ascending then Asc else Desc
  }

  /** A sequence without repetitions has as many elements as values. */
  lemma {:induction false} DistinctCardinality<T>(s: seq<T>)
    requires Distinct(s)
    ensures |Elements(s)| == |s|
  {
    if |s| > 0 {
      var t := s[1..];
      assert Distinct(t);
      DistinctCardinality(t);
      assert Elements(s) == Elements(t) + {s[0]};
      assert s[0] !in Elements(t);
    }
  }

  /**
    Pigeonhole: a repetition-free sequence whose values all occur in another
    repetition-free sequence has the same length exactly when it has the
    same values.
  */
  lemma DistinctSubsetSameLength<T>(a: seq<T>, b: seq<T>)
    requires Distinct(a) && Distinct(b)
    requires Elements(a) <= Elements(b)
    ensures |a| == |b| <==> Elements(a) == Elements(b)
  {
    DistinctCardinality(a);
    DistinctCardinality(b);
    if Elements(a) != Elements(b) {
      var extra := Elements(b) - Elements(a);
      var y :| y in Elements(b) && y !in Elements(a);
      assert y in extra;
      assert Elements(b) == Elements(a) + extra;
      assert Elements(a) !! extra;
      assert |Elements(b)| == |Elements(a)| + |extra|;
    }
  }

  /** Removing the first occurrence of a value from a repetition-free sequence removes that value only. */
  lemma {:induction false} RemoveItemDistinct<T>(s: seq<T>, x: T)
    requires Distinct(s) && x in s
    ensures Distinct(RemoveItem(s, x))
    ensures Elements(RemoveItem(s, x)) == Elements(s) - {x}
  {
    if s[0] == x {
      RemoveHeadDistinct(s);
    } else {
      assert Distinct(s[1..]);
      RemoveItemDistinct(s[1..], x);
      RemoveBehindHeadDistinct(s, x);
    }
  }

  /** The tail of a repetition-free sequence holds every value but the head. */
  lemma RemoveHeadDistinct<T>(s: seq<T>)
    requires Distinct(s) && |s| > 0
    ensures Distinct(s[1..])
    ensures Elements(s[1..]) == Elements(s) - {s[0]}
  {
    assert s == [s[0]] + s[1..];
    ElementsCons(s[0], s[1..]);
  }

  /** The values of a sequence with a head put in front. */
  lemma ElementsCons<T>(h: T, t: seq<T>)
    ensures Elements([h] + t) == Elements(t) + {h}
  {
    assert forall y :: y in [h] + t <==> y == h || y in t;
  }

  /** Putting a value that does not occur in front of a repetition-free sequence keeps it repetition-free. */
  lemma DistinctCons<T>(h: T, t: seq<T>)
    requires Distinct(t) && h !in t
    ensures Distinct([h] + t)
  {
    var u := [h] + t;
    forall i, j | 0 <= i < j < |u|
      ensures u[i] != u[j]
    {
      assert u[j] == t[j - 1];
      if i > 0 {
        assert u[i] == t[i - 1];
      }
    }
  }

  /** Putting a fresh head back in front of a repetition-free tail keeps it repetition-free. */
  lemma RemoveBehindHeadDistinct<T>(s: seq<T>, x: T)
    requires Distinct(s) && x in s && s[0] != x
    requires Distinct(RemoveItem(s[1..], x))
    requires Elements(RemoveItem(s[1..], x)) == Elements(s[1..]) - {x}
    ensures Distinct(RemoveItem(s, x))
    ensures Elements(RemoveItem(s, x)) == Elements(s) - {x}
  {
    var t := s[1..];
    var r' := RemoveItem(t, x);
    assert RemoveItem(s, x) == [s[0]] + r';
    RemoveHeadDistinct(s);
    assert s[0] !in Elements(r');
    DistinctCons(s[0], r');
    ElementsCons(s[0], r');
  }

  /** Removing a freshly appended item gives back the original sequence. */
  lemma {:induction false} RemoveInsertedItem<T>(s: seq<T>, x: T)
    requires x !in s
    ensures RemoveItem(InsertItem(s, x), x) == s
  {
    if |s| > 0 {
      assert InsertItem(s, x)[1..] == InsertItem(s[1..], x);
      RemoveInsertedItem(s[1..], x);
    }
  }
}
