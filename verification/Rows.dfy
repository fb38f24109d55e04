/**
  Tables as sequences of rows, with the queries the repositories run on them:
  filter, first match, sorted listing, and sums over a column.
 */
module Rows {
  import opened Wrappers

  /** The rows that satisfy `p`, in table order. */
  function Filter<T>(rows: seq<T>, p: T -> bool): (found: seq<T>)
    ensures |found| <= |rows|
  {
    if rows == [] then []
    else if p(rows[0]) then [rows[0]] + Filter(rows[1..], p)
    else Filter(rows[1..], p)
  }

  /** A lookup on a unique column. */
  function FindFirst<T>(rows: seq<T>, p: T -> bool): (found: Option<T>)
    ensures found.Some? ==> found.value in rows && p(found.value)
    ensures found.None? ==> forall i :: 0 <= i < |rows| ==> !p(rows[i])
  {
    if rows == [] then None
    else if p(rows[0]) then Some(rows[0])
    else FindFirst(rows[1..], p)
  }

  function Take<T>(rows: seq<T>, limit: int): seq<T> {
    if limit < 0 then [] else if limit < |rows| then rows[..limit] else rows
  }

  /** The sum of `w` over all rows. */
  function Total<T>(rows: seq<T>, w: T -> int): int {
    if rows == [] then 0 else w(rows[0]) + Total(rows[1..], w)
  }

  /** An update of every row. */
  function MapRows<T>(rows: seq<T>, f: T -> T): (updated: seq<T>)
    ensures |updated| == |rows|
    ensures forall i :: 0 <= i < |rows| ==> updated[i] == f(rows[i])
  {
    if rows == [] then [] else [f(rows[0])] + MapRows(rows[1..], f)
  }

  function InsertSorted<T>(x: T, sorted: seq<T>, leq: (T, T) -> bool): seq<T> {
    if sorted == [] || leq(x, sorted[0]) then [x] + sorted
    else [sorted[0]] + InsertSorted(x, sorted[1..], leq)
  }

  /** Ascending by `leq`, ties in table order. */
  function SortedBy<T>(rows: seq<T>, leq: (T, T) -> bool): seq<T> {
    if rows == [] then [] else InsertSorted(rows[0], SortedBy(rows[1..], leq), leq)
  }

  lemma {:induction false} FilterMembers<T>(rows: seq<T>, p: T -> bool, x: T)
    ensures x in Filter(rows, p) <==> x in rows && p(x)
  {
    if rows == [] {
    } else {
      FilterMembers(rows[1..], p, x);
      assert rows == [rows[0]] + rows[1..];
    }
  }

  lemma {:induction false} InsertIsPermutation<T>(x: T, sorted: seq<T>, leq: (T, T) -> bool)
    ensures multiset(InsertSorted(x, sorted, leq)) == multiset(sorted) + multiset{x}
    ensures |InsertSorted(x, sorted, leq)| == |sorted| + 1
  {
    if sorted == [] || leq(x, sorted[0]) {
    } else {
      InsertIsPermutation(x, sorted[1..], leq);
      assert sorted == [sorted[0]] + sorted[1..];
    }
  }

  lemma {:induction false} SortIsPermutation<T>(rows: seq<T>, leq: (T, T) -> bool)
    ensures multiset(SortedBy(rows, leq)) == multiset(rows)
    ensures |SortedBy(rows, leq)| == |rows|
  {
    if rows == [] {
    } else {
      SortIsPermutation(rows[1..], leq);
      InsertIsPermutation(rows[0], SortedBy(rows[1..], leq), leq);
      assert rows == [rows[0]] + rows[1..];
    }
  }

  lemma SortMembers<T>(rows: seq<T>, leq: (T, T) -> bool, x: T)
    ensures x in SortedBy(rows, leq) <==> x in rows
  {
    SortIsPermutation(rows, leq);
    assert x in SortedBy(rows, leq) <==> x in multiset(SortedBy(rows, leq));
    assert x in rows <==> x in multiset(rows);
  }

  lemma {:induction false} TotalAppend<T>(rows: seq<T>, more: seq<T>, w: T -> int)
    ensures Total(rows + more, w) == Total(rows, w) + Total(more, w)
  {
    if rows == [] {
      assert rows + more == more;
    } else {
      TotalAppend(rows[1..], more, w);
      assert (rows + more)[1..] == rows[1..] + more;
    }
  }

  lemma {:induction false} TotalUpdate<T>(rows: seq<T>, k: nat, x: T, w: T -> int)
    requires k < |rows|
    ensures Total(rows[k := x], w) == Total(rows, w) - w(rows[k]) + w(x)
  {
    if k == 0 {
      assert rows[k := x][1..] == rows[1..];
    } else {
      TotalUpdate(rows[1..], k - 1, x, w);
      assert rows[k := x][1..] == rows[1..][k - 1 := x];
    }
  }

  lemma {:induction false} TotalCongruent<T>(rows: seq<T>, v: T -> int, w: T -> int)
    requires forall i :: 0 <= i < |rows| ==> v(rows[i]) == w(rows[i])
    ensures Total(rows, v) == Total(rows, w)
  {
    if rows == [] {
    } else {
      TotalCongruent(rows[1..], v, w);
    }
  }

  lemma {:induction false} TotalPointwise<T>(rows: seq<T>, rows': seq<T>, w: T -> int)
    requires |rows| == |rows'|
    requires forall i :: 0 <= i < |rows| ==> w(rows[i]) == w(rows'[i])
    ensures Total(rows, w) == Total(rows', w)
  {
    if rows == [] {
    } else {
      TotalPointwise(rows[1..], rows'[1..], w);
    }
  }

  lemma {:induction false} TotalInsert<T>(x: T, sorted: seq<T>, leq: (T, T) -> bool, w: T -> int)
    ensures Total(InsertSorted(x, sorted, leq), w) == w(x) + Total(sorted, w)
  {
    if sorted == [] || leq(x, sorted[0]) {
      assert ([x] + sorted)[1..] == sorted;
    } else {
      TotalInsert(x, sorted[1..], leq, w);
      assert ([sorted[0]] + InsertSorted(x, sorted[1..], leq))[1..] == InsertSorted(x, sorted[1..], leq);
    }
  }

  /** Sorting changes no sum. */
  lemma {:induction false} TotalSorted<T>(rows: seq<T>, leq: (T, T) -> bool, w: T -> int)
    ensures Total(SortedBy(rows, leq), w) == Total(rows, w)
  {
    if rows == [] {
    } else {
      TotalSorted(rows[1..], leq, w);
      TotalInsert(rows[0], SortedBy(rows[1..], leq), leq, w);
    }
  }

  /** Summing a filtered table is summing the table with the other rows weighted zero. */
  lemma {:induction false} TotalFiltered<T>(rows: seq<T>, p: T -> bool, w: T -> int, v: T -> int)
    requires forall i :: 0 <= i < |rows| ==> v(rows[i]) == (if p(rows[i]) then w(rows[i]) else 0)
    ensures Total(Filter(rows, p), w) == Total(rows, v)
  {
    if rows == [] {
    } else {
      TotalFiltered(rows[1..], p, w, v);
      if p(rows[0]) {
        assert ([rows[0]] + Filter(rows[1..], p))[1..] == Filter(rows[1..], p);
      }
    }
  }

  lemma {:induction false} TotalSingle<T>(x: T, w: T -> int)
    ensures Total([x], w) == w(x)
  {
    assert Total([x][1..], w) == 0;
  }

  predicate Distinct<T(==)>(xs: seq<T>) {
    forall i, j :: 0 <= i < j < |xs| ==> xs[i] != xs[j]
  }

  lemma {:induction false} DistinctFilter<T>(rows: seq<T>, p: T -> bool)
    requires Distinct(rows)
    ensures Distinct(Filter(rows, p))
  {
    if rows == [] {
    } else {
      assert forall i, j :: 0 <= i < j < |rows[1..]| ==> rows[1..][i] == rows[i + 1] && rows[1..][j] == rows[j + 1];
      DistinctFilter(rows[1..], p);
      FilterMembers(rows[1..], p, rows[0]);
    }
  }

  lemma InsertMembers<T>(x: T, sorted: seq<T>, leq: (T, T) -> bool, y: T)
    ensures y in InsertSorted(x, sorted, leq) <==> y == x || y in sorted
  {
    InsertIsPermutation(x, sorted, leq);
    assert y in InsertSorted(x, sorted, leq) <==> y in multiset(InsertSorted(x, sorted, leq));
    assert y in sorted <==> y in multiset(sorted);
  }

  lemma {:induction false} DistinctInsert<T>(x: T, sorted: seq<T>, leq: (T, T) -> bool)
    requires Distinct(sorted) && x !in sorted
    ensures Distinct(InsertSorted(x, sorted, leq))
  {
    if sorted == [] || leq(x, sorted[0]) {
    } else {
      DistinctInsert(x, sorted[1..], leq);
      InsertIsPermutation(x, sorted[1..], leq);
      InsertMembers(x, sorted[1..], leq, sorted[0]);
    }
  }

  lemma {:induction false} DistinctSort<T>(rows: seq<T>, leq: (T, T) -> bool)
    requires Distinct(rows)
    ensures Distinct(SortedBy(rows, leq))
  {
    if rows == [] {
    } else {
      assert forall i, j :: 0 <= i < j < |rows[1..]| ==> rows[1..][i] == rows[i + 1] && rows[1..][j] == rows[j + 1];
      DistinctSort(rows[1..], leq);
      SortMembers(rows[1..], leq, rows[0]);
      DistinctInsert(rows[0], SortedBy(rows[1..], leq), leq);
    }
  }

  /** A sequence of distinct values, all from `pool`, is no longer than `pool`. */
  lemma {:induction false} DistinctFromPool<T>(xs: seq<T>, pool: seq<T>)
    requires forall i, j :: 0 <= i < j < |xs| ==> xs[i] != xs[j]
    requires forall i :: 0 <= i < |xs| ==> xs[i] in pool
    ensures |xs| <= |pool|
  {
    if xs == [] {
    } else {
      var k :| 0 <= k < |pool| && pool[k] == xs[0];
      var rest := pool[..k] + pool[k + 1..];
      forall i | 0 <= i < |xs[1..]| ensures xs[1..][i] in rest {
        var j :| 0 <= j < |pool| && pool[j] == xs[i + 1];
        assert xs[0] != xs[i + 1];
        assert if j < k then rest[j] == pool[j] else rest[j - 1] == pool[j];
      }
      DistinctFromPool(xs[1..], rest);
    }
  }
}
