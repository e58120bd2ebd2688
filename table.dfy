/**
 * Rows of the yield table keyed by date, and pandas' `sort_values('Date')`
 * ordering (update_yield_data.py, lines 46, 49, 55 and 62).
 */
module Table {
  import Headers

  /** A value of pandas' datetime column: a parsed day, or NaT for a date that failed to parse. */
  datatype Date = NaT | Day(n: int)

  /** Rate cells are carried, never computed on. */
  type Cell = string

  /** One table row: its Date and its rate cells, in the canonical column order after "Date". */
  datatype Row = Row(date: Date, rates: seq<Cell>)

  /** Every row has one rate cell per canonical maturity column. */
  predicate Conforms(rows: seq<Row>) {
    forall i :: 0 <= i < |rows| ==> |rows[i].rates| == |Headers.RelevantCols| - 1
  }

  /**
   * `a` may precede `b` in `sort_values('Date', ascending=...)`: parsed dates
   * by day in the requested direction, NaT after every parsed date in both
   * directions (pandas' default `na_position='last'`).
   */
  predicate InOrder(ascending: bool, a: Date, b: Date) {
    b.NaT? || (a.Day? && (if ascending then a.n <= b.n else a.n >= b.n))
  }

  predicate Sorted(rows: seq<Row>, ascending: bool) {
    forall i, j :: 0 <= i < j < |rows| ==> InOrder(ascending, rows[i].date, rows[j].date)
  }

  lemma InOrderTransitive(ascending: bool, a: Date, b: Date, c: Date)
    requires InOrder(ascending, a, b) && InOrder(ascending, b, c)
    ensures InOrder(ascending, a, c)
  {
  }

  /** Prefixing a row that may precede every row of a sorted sequence keeps it sorted. */
  lemma SortedCons(y: Row, t: seq<Row>, ascending: bool)
    requires Sorted(t, ascending)
    requires forall z :: z in t ==> InOrder(ascending, y.date, z.date)
    ensures Sorted([y] + t, ascending)
  {
    var r := [y] + t;
    forall i, j | 0 <= i < j < |r| ensures InOrder(ascending, r[i].date, r[j].date) {
      assert r[j] == t[j - 1];
      if i > 0 {
        assert r[i] == t[i - 1];
      }
    }
  }

  /** Of two dates, at least one may precede the other. */
  lemma InOrderTotal(ascending: bool, a: Date, b: Date)
    ensures InOrder(ascending, a, b) || InOrder(ascending, b, a)
  {
  }

  /** A row that may precede the head of a sorted sequence may be prefixed to it. */
  lemma PrefixSorted(x: Row, s: seq<Row>, ascending: bool)
    requires Sorted(s, ascending) && (s == [] || InOrder(ascending, x.date, s[0].date))
    ensures Sorted([x] + s, ascending)
  {
    forall z | z in s ensures InOrder(ascending, x.date, z.date) {
      var k :| 0 <= k < |s| && s[k] == z;
      if k > 0 {
        InOrderTransitive(ascending, x.date, s[0].date, z.date);
      }
    }
    SortedCons(x, s, ascending);
  }

  /** The head of a sorted sequence may precede `x` inserted into its tail. */
  lemma HeadBeforeInsert(s: seq<Row>, x: Row, rest: seq<Row>, ascending: bool)
    requires Sorted(s, ascending) && s != [] && !InOrder(ascending, x.date, s[0].date)
    requires Sorted(rest, ascending) && forall y :: y in rest ==> y == x || y in s[1..]
    ensures Sorted([s[0]] + rest, ascending)
  {
    forall z | z in rest ensures InOrder(ascending, s[0].date, z.date) {
      if z == x {
        InOrderTotal(ascending, x.date, s[0].date);
      } else {
        var k :| 0 <= k < |s[1..]| && s[1..][k] == z;
        assert s[k + 1] == z;
      }
    }
    SortedCons(s[0], rest, ascending);
  }

  /** Places `x` into the sorted `s` ahead of the first row it may precede. */
  function Insert(x: Row, s: seq<Row>, ascending: bool): (r: seq<Row>)
    requires Sorted(s, ascending)
    ensures Sorted(r, ascending)
    ensures multiset(r) == multiset(s) + multiset{x}
    ensures forall y :: y in r ==> y == x || y in s
  {
    if s == [] || InOrder(ascending, x.date, s[0].date) then
      PrefixSorted(x, s, ascending);
      [x] + s
    else
      var rest := Insert(x, s[1..], ascending);
      HeadBeforeInsert(s, x, rest, ascending);
      assert s == [s[0]] + s[1..];
      [s[0]] + rest
  }

  /**
   * One sort that `sort_values` may produce. pandas' default sort is not
   * stable, so everything stated about the script's sorts relies only on this
   * function's contract: the result is ordered and is a permutation.
   */
  function SortValues(rows: seq<Row>, ascending: bool): (r: seq<Row>)
    ensures Sorted(r, ascending)
    ensures multiset(r) == multiset(rows)
  {
    if rows == [] then []
    else
      assert rows == [rows[0]] + rows[1..];
      Insert(rows[0], SortValues(rows[1..], ascending), ascending)
  }

  /** The Date column. */
  function Dates(rows: seq<Row>): (ds: seq<Date>)
    ensures |ds| == |rows| && forall i :: 0 <= i < |rows| ==> ds[i] == rows[i].date
  {
    seq(|rows|, i requires 0 <= i < |rows| => rows[i].date)
  }

  predicate NoDuplicates<T(==)>(s: seq<T>) {
    forall i, j :: 0 <= i < j < |s| ==> s[i] != s[j]
  }

  /** The table invariant of the store: no Date appears twice. */
  predicate DistinctDates(rows: seq<Row>) {
    NoDuplicates(Dates(rows))
  }

  /** A sequence has no duplicates exactly when no value occurs in it more than once. */
  lemma {:induction false} NoDuplicatesCount<T>(s: seq<T>)
    ensures NoDuplicates(s) <==> forall x :: multiset(s)[x] <= 1
  {
    if s != [] {
      var t := s[1..];
      assert s == [s[0]] + t;
      NoDuplicatesCount(t);
      if NoDuplicates(s) {
        assert NoDuplicates(t) by {
          forall i, j | 0 <= i < j < |t| ensures t[i] != t[j] {
            assert t[i] == s[i + 1] && t[j] == s[j + 1];
          }
        }
        assert s[0] !in t by {
          forall k | 0 <= k < |t| ensures t[k] != s[0] {
            assert t[k] == s[k + 1];
          }
        }
      }
      if forall x :: multiset(s)[x] <= 1 {
        assert forall x :: multiset(t)[x] <= multiset(s)[x];
        assert multiset(t)[s[0]] == 0;
        forall i, j | 0 <= i < j < |s| ensures s[i] != s[j] {
          if i == 0 {
            assert s[j] == t[j - 1];
          } else {
            assert s[i] == t[i - 1] && s[j] == t[j - 1];
          }
        }
      }
    }
  }

  lemma DatesAppend(a: seq<Row>, b: seq<Row>)
    ensures Dates(a + b) == Dates(a) + Dates(b)
  {
  }

  /** Taking out the element at `k` takes one copy of it out of the multiset. */
  lemma RemoveAt<T>(s: seq<T>, k: nat)
    requires k < |s|
    ensures multiset(s) == multiset(s[..k] + s[k + 1..]) + multiset{s[k]}
  {
    assert s == s[..k] + [s[k]] + s[k + 1..];
  }

  /** Taking out the row at `k` takes one copy of it, and one copy of its date, out of the multisets. */
  lemma RemoveRowAt(b: seq<Row>, k: nat)
    requires k < |b|
    ensures multiset(b) == multiset(b[..k] + b[k + 1..]) + multiset{b[k]}
    ensures multiset(Dates(b)) == multiset(Dates(b[..k] + b[k + 1..])) + multiset{b[k].date}
  {
    RemoveAt(b, k);
    RemoveAt(Dates(b), k);
    assert Dates(b)[..k] + Dates(b)[k + 1..] == Dates(b[..k] + b[k + 1..]);
  }

  /** One copy of the same element can be taken off both sides of a multiset equation. */
  lemma MultisetCancel<T>(p: multiset<T>, q: multiset<T>, x: T)
    requires p + multiset{x} == q + multiset{x}
    ensures p == q
  {
    forall y ensures p[y] == q[y] {
      assert (p + multiset{x})[y] == (q + multiset{x})[y];
    }
  }

  /** Taking the first row off one table and the same row off a permutation of it leaves permutations. */
  lemma PermutationTail(a: seq<Row>, b: seq<Row>, k: nat)
    requires multiset(a) == multiset(b) && a != [] && k < |b| && b[k] == a[0]
    ensures multiset(a[1..]) == multiset(b[..k] + b[k + 1..])
  {
    RemoveAt(b, k);
    assert a == [a[0]] + a[1..];
    MultisetCancel(multiset(a[1..]), multiset(b[..k] + b[k + 1..]), a[0]);
  }

  /** Reordering rows reorders their dates. */
  lemma {:induction false} DatesOfPermutation(a: seq<Row>, b: seq<Row>)
    requires multiset(a) == multiset(b)
    ensures multiset(Dates(a)) == multiset(Dates(b))
  {
    if a == [] {
      assert |b| == |multiset(b)| == 0;
    } else {
      assert a[0] in multiset(b);
      var k :| 0 <= k < |b| && b[k] == a[0];
      PermutationTail(a, b, k);
      DatesOfPermutation(a[1..], b[..k] + b[k + 1..]);
      RemoveRowAt(b, k);
      RemoveRowAt(a, 0);
      assert a[..0] + a[1..] == a[1..];
    }
  }

  /** Whether two rows share a date does not depend on their order. */
  lemma DistinctDatesOfPermutation(a: seq<Row>, b: seq<Row>)
    requires multiset(a) == multiset(b)
    ensures DistinctDates(a) <==> DistinctDates(b)
  {
    DatesOfPermutation(a, b);
    NoDuplicatesCount(Dates(a));
    NoDuplicatesCount(Dates(b));
  }
}
