/** What makes a sorted listing unique. */
module Sorting {
  import opened Rows

  ghost predicate TotalOrder<T(!new)>(leq: (T, T) -> bool) {
    && (forall a, b :: leq(a, b) || leq(b, a))
    && (forall a, b, c :: leq(a, b) && leq(b, c) ==> leq(a, c))
  }

  predicate Ordered<T>(rows: seq<T>, leq: (T, T) -> bool) {
    forall i, j :: 0 <= i < j < |rows| ==> leq(rows[i], rows[j])
  }

  /** No two rows tie. */
  predicate NoTies<T>(rows: seq<T>, leq: (T, T) -> bool) {
    forall i, j :: 0 <= i < j < |rows| ==> !(leq(rows[i], rows[j]) && leq(rows[j], rows[i]))
  }

  lemma {:induction false} InsertKeepsOrder<T(!new)>(x: T, sorted: seq<T>, leq: (T, T) -> bool)
    requires TotalOrder(leq) && Ordered(sorted, leq)
    ensures Ordered(InsertSorted(x, sorted, leq), leq)
  {
    if sorted == [] || leq(x, sorted[0]) {
      var all := [x] + sorted;
      forall i, j | 0 <= i < j < |all| ensures leq(all[i], all[j]) {
        if i == 0 && j > 1 {
          assert leq(sorted[0], sorted[j - 1]);
        }
      }
    } else {
      var rest := InsertSorted(x, sorted[1..], leq);
      InsertKeepsOrder(x, sorted[1..], leq);
      forall j | 0 <= j < |rest| ensures leq(sorted[0], rest[j]) {
        InsertMembers(x, sorted[1..], leq, rest[j]);
      }
    }
  }

  lemma {:induction false} SortIsOrdered<T(!new)>(rows: seq<T>, leq: (T, T) -> bool)
    requires TotalOrder(leq)
    ensures Ordered(SortedBy(rows, leq), leq)
  {
    if rows == [] {
    } else {
      SortIsOrdered(rows[1..], leq);
      InsertKeepsOrder(rows[0], SortedBy(rows[1..], leq), leq);
    }
  }

  /** Two ordered listings of the same rows, without ties, are the same listing. */
  lemma {:induction false} OrderedListingIsUnique<T>(a: seq<T>, b: seq<T>, leq: (T, T) -> bool)
    requires Ordered(a, leq) && Ordered(b, leq) && NoTies(a, leq)
    requires multiset(a) == multiset(b)
    ensures a == b
  {
    if a == [] {
      assert |multiset(b)| == 0;
    } else {
      FirstRowsAgree(a, b, leq);
      WithoutFirst(a);
      WithoutFirst(b);
      OrderedListingIsUnique(a[1..], b[1..], leq);
      assert a == [a[0]] + a[1..] && b == [b[0]] + b[1..];
    }
  }

  lemma WithoutFirst<T>(a: seq<T>)
    requires a != []
    ensures multiset(a[1..]) == multiset(a) - multiset{a[0]}
  {
    assert a == [a[0]] + a[1..];
  }

  lemma FirstRowsAgree<T>(a: seq<T>, b: seq<T>, leq: (T, T) -> bool)
    requires Ordered(a, leq) && Ordered(b, leq) && NoTies(a, leq)
    requires a != [] && multiset(a) == multiset(b)
    ensures b != [] && a[0] == b[0]
  {
    assert a[0] in multiset(b);
    assert a[0] in b;
    var j :| 0 <= j < |b| && b[j] == a[0];
    assert b[0] in multiset(a);
    assert b[0] in a;
    var i :| 0 <= i < |a| && a[i] == b[0];
  }

  lemma {:induction false} DistinctMultiplicity<T>(a: seq<T>, x: T)
    requires Distinct(a)
    ensures multiset(a)[x] == if x in a then 1 else 0
  {
    if a == [] {
    } else {
      assert forall i, j :: 0 <= i < j < |a[1..]| ==> a[1..][i] == a[i + 1] && a[1..][j] == a[j + 1];
      DistinctMultiplicity(a[1..], x);
      WithoutFirst(a);
      assert a == [a[0]] + a[1..];
      assert a[0] !in a[1..];
    }
  }

  /** Two ordered listings without repetition or ties that hold the same rows are the same listing. */
  lemma SameRowsSameListing<T>(a: seq<T>, b: seq<T>, leq: (T, T) -> bool)
    requires Ordered(a, leq) && Ordered(b, leq) && NoTies(a, leq) && Distinct(a) && Distinct(b)
    requires forall x :: x in a <==> x in b
    ensures a == b
  {
    forall x ensures multiset(a)[x] == multiset(b)[x] {
      DistinctMultiplicity(a, x);
      DistinctMultiplicity(b, x);
    }
    OrderedListingIsUnique(a, b, leq);
  }

  // ----- Ties stay in place -----

  /** Some `x` stands before some `y`. */
  predicate Before<T(==)>(rows: seq<T>, x: T, y: T) {
    exists p, q :: 0 <= p < q < |rows| && rows[p] == x && rows[q] == y
  }

  lemma {:induction false} InsertKeepsBefore<T>(z: T, sorted: seq<T>, leq: (T, T) -> bool, x: T, y: T)
    requires Before(sorted, x, y)
    ensures Before(InsertSorted(z, sorted, leq), x, y)
  {
    var p, q :| 0 <= p < q < |sorted| && sorted[p] == x && sorted[q] == y;
    var inserted := InsertSorted(z, sorted, leq);
    if sorted == [] || leq(z, sorted[0]) {
      assert inserted[p + 1] == x && inserted[q + 1] == y;
    } else if p == 0 {
      InsertMembers(z, sorted[1..], leq, y);
      assert sorted[1..][q - 1] == y;
      var k :| 0 <= k < |inserted[1..]| && inserted[1..][k] == y;
      assert inserted[0] == x && inserted[k + 1] == y;
    } else {
      assert sorted[1..][p - 1] == x && sorted[1..][q - 1] == y;
      InsertKeepsBefore(z, sorted[1..], leq, x, y);
      var i, j :| 0 <= i < j < |inserted[1..]| && inserted[1..][i] == x && inserted[1..][j] == y;
      assert inserted[i + 1] == x && inserted[j + 1] == y;
    }
  }

  /** A row is inserted before every row it may stand before. */
  lemma {:induction false} InsertStandsBefore<T>(x: T, sorted: seq<T>, leq: (T, T) -> bool, y: T)
    requires y in sorted && leq(x, y)
    ensures Before(InsertSorted(x, sorted, leq), x, y)
  {
    var inserted := InsertSorted(x, sorted, leq);
    var q :| 0 <= q < |sorted| && sorted[q] == y;
    if leq(x, sorted[0]) {
      assert inserted[0] == x && inserted[q + 1] == y;
    } else {
      assert sorted[1..][q - 1] == y;
      InsertStandsBefore(x, sorted[1..], leq, y);
      var i, j :| 0 <= i < j < |inserted[1..]| && inserted[1..][i] == x && inserted[1..][j] == y;
      assert inserted[i + 1] == x && inserted[j + 1] == y;
    }
  }

  /** Sorting is stable: a row that may stand before a later one does. */
  lemma {:induction false} SortIsStable<T>(rows: seq<T>, leq: (T, T) -> bool, i: nat, j: nat)
    requires i < j < |rows| && leq(rows[i], rows[j])
    ensures Before(SortedBy(rows, leq), rows[i], rows[j])
  {
    var rest := rows[1..];
    if i == 0 {
      assert rest[j - 1] == rows[j];
      SortMembers(rest, leq, rows[j]);
      InsertStandsBefore(rows[0], SortedBy(rest, leq), leq, rows[j]);
    } else {
      SortIsStable(rest, leq, i - 1, j - 1);
      InsertKeepsBefore(rows[0], SortedBy(rest, leq), leq, rows[i], rows[j]);
    }
  }
}
