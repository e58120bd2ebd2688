/**
 * Latest-row selection (update_yield_data.py, line 49) and the
 * single-latest-append reconciliation (lines 59-66), stated on values.
 */
module Reconciliation {
  import opened Wrappers
  import opened Table

  // ---------------------------------------------------------------------------
  // Latest-row selection (line 49)
  // ---------------------------------------------------------------------------

  lemma InOrderReflexive(ascending: bool, d: Date)
    ensures InOrder(ascending, d, d)
  {
  }

  /** The last row of an ascending sort is at or after every row of the table sorted. */
  lemma LastIsMaximal(sorted: seq<Row>, rows: seq<Row>)
    requires sorted != [] && Sorted(sorted, true) && multiset(sorted) == multiset(rows)
    ensures sorted[|sorted| - 1] in rows
    ensures forall i :: 0 <= i < |rows| ==> InOrder(true, rows[i].date, sorted[|sorted| - 1].date)
  {
    var last := |sorted| - 1;
    assert sorted[last] in multiset(rows);
    forall i | 0 <= i < |rows| ensures InOrder(true, rows[i].date, sorted[last].date) {
      assert rows[i] in multiset(sorted);
      var k :| 0 <= k < |sorted| && sorted[k] == rows[i];
      if k == last {
        InOrderReflexive(true, rows[i].date);
      }
    }
  }

  /**
   * Line 49 as written, `sort_values('Date').iloc[-1:]`: the last row of an
   * ascending sort, or no row at all when the fetched table is empty. Any row
   * at or after every other row may come last, since the sort is not stable.
   */
  function Latest(fetched: seq<Row>): (r: Option<Row>)
    ensures r.None? <==> fetched == []
    ensures r.Some? ==> r.value in fetched
    ensures r.Some? ==> forall i :: 0 <= i < |fetched| ==> InOrder(true, fetched[i].date, r.value.date)
  {
    var sorted := SortValues(fetched, true);
    assert |sorted| == |multiset(sorted)| == |multiset(fetched)| == |fetched|;
    if sorted == [] then
      None
    else
      LastIsMaximal(sorted, fetched);
      Some(sorted[|sorted| - 1])
  }

  /** When every fetched date parsed, the selected row carries the greatest fetched date. */
  lemma LatestWhenAllParsed(fetched: seq<Row>)
    requires fetched != []
    requires forall i :: 0 <= i < |fetched| ==> fetched[i].date.Day?
    ensures Latest(fetched).Some? && Latest(fetched).value.date.Day?
    ensures forall i :: 0 <= i < |fetched| ==> fetched[i].date.n <= Latest(fetched).value.date.n
  {
    var r := Latest(fetched).value;
    var k :| 0 <= k < |fetched| && fetched[k] == r;
    assert r.date.Day?;
  }

  /** As written, one unparseable date is enough for line 49 to pick an undated row. */
  lemma LatestPrefersUnparsed(fetched: seq<Row>)
    requires exists i :: 0 <= i < |fetched| && fetched[i].date == NaT
    ensures Latest(fetched).Some? && Latest(fetched).value.date == NaT
  {
    var i :| 0 <= i < |fetched| && fetched[i].date == NaT;
    assert InOrder(true, fetched[i].date, Latest(fetched).value.date);
  }

  /** The rows whose date parsed, in their original order. */
  function Parsed(rows: seq<Row>): (r: seq<Row>)
    ensures forall y :: y in r <==> y in rows && y.date.Day?
    ensures (forall i :: 0 <= i < |rows| ==> rows[i].date.Day?) ==> r == rows
  {
    if rows == [] then []
    else
      var rest := Parsed(rows[1..]);
      assert rows == [rows[0]] + rows[1..];
      if rows[0].date.Day? then [rows[0]] + rest else rest
  }

  /** What selecting among the dated rows yields, stated on the whole fetch. */
  lemma LatestOfParsed(fetched: seq<Row>)
    ensures Latest(Parsed(fetched)).None? <==> forall i :: 0 <= i < |fetched| ==> fetched[i].date == NaT
    ensures Latest(Parsed(fetched)).Some? ==> (
      && Latest(Parsed(fetched)).value in fetched
      && Latest(Parsed(fetched)).value.date.Day?)
    ensures Latest(Parsed(fetched)).Some? ==>
      forall i :: 0 <= i < |fetched| && fetched[i].date.Day? ==> fetched[i].date.n <= Latest(Parsed(fetched)).value.date.n
  {
    var parsed := Parsed(fetched);
    var r := Latest(parsed);
    if r.Some? {
      assert r.value in parsed;
      forall i | 0 <= i < |fetched| && fetched[i].date.Day? ensures fetched[i].date.n <= r.value.date.n {
        assert fetched[i] in parsed;
        var k :| 0 <= k < |parsed| && parsed[k] == fetched[i];
        assert InOrder(true, parsed[k].date, r.value.date);
      }
    } else {
      forall i | 0 <= i < |fetched| ensures fetched[i].date == NaT {
        assert fetched[i] !in parsed;
      }
    }
  }

  /**
   * The selection the script evidently intends: the row with the greatest
   * parsed date, undated rows set aside; nothing when no date parsed.
   */
  function LatestParsed(fetched: seq<Row>): (r: Option<Row>)
    ensures r.None? <==> forall i :: 0 <= i < |fetched| ==> fetched[i].date == NaT
    ensures r.Some? ==> r.value in fetched && r.value.date.Day?
    ensures r.Some? ==> forall i :: 0 <= i < |fetched| && fetched[i].date.Day? ==> fetched[i].date.n <= r.value.date.n
  {
    LatestOfParsed(fetched);
    Latest(Parsed(fetched))
  }

  /** On a table whose every date parsed, the corrected selection is the one line 49 makes. */
  lemma LatestParsedAgrees(fetched: seq<Row>)
    requires forall i :: 0 <= i < |fetched| ==> fetched[i].date.Day?
    ensures LatestParsed(fetched) == Latest(fetched)
  {
  }

  // ---------------------------------------------------------------------------
  // Single-latest-append reconciliation (lines 59-66)
  // ---------------------------------------------------------------------------

  /**
   * Line 60's `d in df_all['Date'].values`: exact equality with a stored
   * date. NaT compares unequal to everything, NaT included, so it is never
   * present.
   */
  predicate Present(d: Date, stored: seq<Row>)
    ensures d.NaT? ==> !Present(d, stored)
    ensures Present(d, stored) <==> d.Day? && exists i :: 0 <= i < |stored| && stored[i].date == d
  {
    d.Day? && d in Dates(stored)
  }

  /** What a run does to the store: nothing, or write the new table. */
  datatype Outcome = NoNewData | Prepended(table: seq<Row>)

  /**
   * Lines 60-62: a latest row whose date is already stored changes nothing;
   * otherwise it is prepended and the table is sorted by Date, newest first.
   */
  function Reconcile(stored: seq<Row>, latest: Row): (r: Outcome)
    ensures r.NoNewData? <==> Present(latest.date, stored)
    ensures r.Prepended? ==> Sorted(r.table, false)
    ensures r.Prepended? ==> multiset(r.table) == multiset(stored) + multiset{latest}
    ensures r.Prepended? ==> |r.table| == |stored| + 1
  {
    if Present(latest.date, stored) then
      NoNewData
    else
      var t := SortValues([latest] + stored, false);
      assert |t| == |multiset(t)| == |multiset([latest] + stored)| == |stored| + 1;
      Prepended(t)
  }

  /** The table the script holds after the run. */
  function Reconciled(stored: seq<Row>, latest: Row): (r: seq<Row>)
    ensures Present(latest.date, stored) ==> r == stored
    ensures !Present(latest.date, stored) ==> (
      && Sorted(r, false)
      && multiset(r) == multiset(stored) + multiset{latest}
      && |r| == |stored| + 1)
  {
    match Reconcile(stored, latest)
    case NoNewData => stored
    case Prepended(t) => t
  }

  /** On the first run, with no stored rows, the table becomes exactly the latest row. */
  lemma FirstRun(latest: Row)
    ensures Reconcile([], latest) == Prepended([latest])
  {
    var t := Reconcile([], latest).table;
    assert t[0] in multiset(t);
  }

  /** No stored row is lost or altered, and the new row is in the table. */
  lemma {:induction false} PrependKeepsRows(stored: seq<Row>, latest: Row)
    requires Reconcile(stored, latest).Prepended?
    ensures latest in Reconciled(stored, latest)
    ensures forall i :: 0 <= i < |stored| ==> stored[i] in Reconciled(stored, latest)
  {
    var t := Reconciled(stored, latest);
    assert latest in multiset(t);
    forall i | 0 <= i < |stored| ensures stored[i] in t {
      assert stored[i] in multiset(stored);
      assert stored[i] in multiset(t);
    }
  }

  /** Running the reconciliation again with the same parsed latest row changes nothing. */
  lemma Idempotent(stored: seq<Row>, latest: Row)
    requires latest.date.Day?
    ensures Reconcile(Reconciled(stored, latest), latest) == NoNewData
    ensures Reconciled(Reconciled(stored, latest), latest) == Reconciled(stored, latest)
  {
    var t := Reconciled(stored, latest);
    if Reconcile(stored, latest).Prepended? {
      PrependKeepsRows(stored, latest);
      var k :| 0 <= k < |t| && t[k] == latest;
      assert Dates(t)[k] == latest.date;
    } else {
      assert Present(latest.date, stored);
    }
  }

  /** With an undated latest row the reconciliation prepends on every run: it is not idempotent. */
  lemma UnparsedLatestRepeats(stored: seq<Row>, latest: Row)
    requires latest.date == NaT
    ensures Reconcile(stored, latest).Prepended?
    ensures Reconcile(Reconciled(stored, latest), latest).Prepended?
    ensures |Reconciled(Reconciled(stored, latest), latest)| == |stored| + 2
  {
  }

  lemma NoDuplicatesCons<T>(x: T, t: seq<T>)
    requires NoDuplicates(t) && x !in t
    ensures NoDuplicates([x] + t)
  {
    var s := [x] + t;
    forall i, j | 0 <= i < j < |s| ensures s[i] != s[j] {
      assert s[j] == t[j - 1];
      if i > 0 {
        assert s[i] == t[i - 1];
      }
    }
  }

  /** A store whose dates are distinct keeps them distinct after a parsed latest row is reconciled. */
  lemma KeepsDatesDistinct(stored: seq<Row>, latest: Row)
    requires DistinctDates(stored) && latest.date.Day?
    ensures DistinctDates(Reconciled(stored, latest))
  {
    if Reconcile(stored, latest).Prepended? {
      var s := [latest] + stored;
      DatesAppend([latest], stored);
      assert Dates([latest]) == [latest.date];
      NoDuplicatesCons(latest.date, Dates(stored));
      DistinctDatesOfPermutation(s, Reconciled(stored, latest));
    }
  }

  /** Every row of the reconciled table has the canonical columns when the inputs do. */
  lemma KeepsConformance(stored: seq<Row>, latest: Row)
    requires Conforms(stored) && Conforms([latest])
    ensures Conforms(Reconciled(stored, latest))
  {
    if Reconcile(stored, latest).Prepended? {
      var t := Reconciled(stored, latest);
      forall i | 0 <= i < |t| ensures |t[i].rates| == |[latest][0].rates| {
        assert t[i] in multiset(stored) + multiset{latest};
        if t[i] != latest {
          assert t[i] in multiset(stored);
          var k :| 0 <= k < |stored| && stored[k] == t[i];
        }
      }
    }
  }

  /**
   * Counterexample to the script as written: a fetch holding an unparseable
   * date alongside 2025-01-06 (days written as yyyymmdd). Line 49 selects the
   * undated row, so the newest real date is not the one appended.
   */
  lemma UnparsedDateSelected()
    ensures Latest([Row(Day(20250106), []), Row(NaT, [])]) == Some(Row(NaT, []))
  {
    var fetched := [Row(Day(20250106), []), Row(NaT, [])];
    LatestPrefersUnparsed(fetched);
    assert Latest(fetched).value in fetched;
  }

  /** Counterexample to idempotence as written: the undated row is prepended on every run. */
  lemma UnparsedRowAppendedTwice()
    ensures Reconciled(Reconciled([], Row(NaT, [])), Row(NaT, [])) == [Row(NaT, []), Row(NaT, [])]
  {
    var undated := Row(NaT, []);
    FirstRun(undated);
    var twice := Reconcile([undated], undated).table;
    assert multiset(twice) == multiset{undated, undated};
    assert twice[0] in multiset(twice) && twice[1] in multiset(twice);
  }

  /** On the same fetch the corrected selection picks the dated row, and a second run changes nothing. */
  lemma ParsedDateFix()
    ensures LatestParsed([Row(Day(20250106), []), Row(NaT, [])]) == Some(Row(Day(20250106), []))
    ensures Reconciled(Reconciled([], Row(Day(20250106), [])), Row(Day(20250106), [])) == [Row(Day(20250106), [])]
  {
    var dated := Row(Day(20250106), []);
    var fetched := [dated, Row(NaT, [])];
    assert LatestParsed(fetched).value in fetched;
    FirstRun(dated);
    Idempotent([], dated);
  }
}
