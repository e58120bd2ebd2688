/**
 * The persisted yield table and one run of the script over it
 * (update_yield_data.py, lines 21-66): the store is loaded or started empty,
 * the latest fetched row is reconciled into it, and the file is rewritten
 * only when a row was prepended.
 */
module YieldStore {
  import opened Wrappers
  import opened Headers
  import opened Table
  import opened Reconciliation

  /** The ways a run stops before touching the store. */
  datatype RunError =
    | MissingColumns(names: seq<string>)  // line 43: pandas KeyError naming the absent canonical columns
    | DuplicateColumns                    // a canonical name labels two columns after normalisation
    | NoDatedRows                         // line 60: `iloc[0]` on an empty selection (IndexError)

  /** Line 46 row by row on the canonical frame: "Date" parsed, the maturity cells carried. */
  function ToRows(p: Frame, parse: string -> Date): (rows: seq<Row>)
    requires Rectangular(p) && p.columns == RelevantCols
    ensures |rows| == |p.rows| && Conforms(rows)
    ensures forall i :: 0 <= i < |p.rows| ==> rows[i].date == parse(p.rows[i][0])
    ensures forall i, k :: 0 <= i < |p.rows| && 1 <= k < |RelevantCols| ==> rows[i].rates[k - 1] == p.rows[i][k]
  {
    seq(|p.rows|, i requires 0 <= i < |p.rows| => Row(parse(p.rows[i][0]), p.rows[i][1..]))
  }

  /** The Date cell of fetched row `i`, under the first column whose normalised header is "Date". */
  function DateCell(f: Frame, i: nat): string
    requires Rectangular(f) && i < |f.rows| && "Date" in Normalise(f).columns
  {
    f.rows[i][IndexOf(Normalise(f).columns, "Date")]
  }

  /** On a frame that projects onto exactly the canonical columns, row `i`'s Date is its Date cell parsed. */
  lemma ProjectedDates(f: Frame, parse: string -> Date)
    requires Rectangular(f)
    requires Project(Normalise(f), RelevantCols).Success?
    requires Project(Normalise(f), RelevantCols).value.columns == RelevantCols
    ensures "Date" in Normalise(f).columns
    ensures forall i :: 0 <= i < |f.rows| ==>
      ToRows(Project(Normalise(f), RelevantCols).value, parse)[i].date == parse(DateCell(f, i))
  {
    var nf := Normalise(f);
    ProjectExactly(nf, RelevantCols);
    assert RelevantCols[0] == "Date";
    assert OccursOnce(nf.columns, RelevantCols[0]);
  }

  /**
   * On a frame that projects onto exactly the canonical columns, row `i`'s
   * rate under each canonical maturity is the cell under that header.
   */
  lemma ProjectedRates(nf: Frame, p: Frame, parse: string -> Date)
    requires Rectangular(nf) && Project(nf, RelevantCols) == Success(p) && p.columns == RelevantCols
    ensures forall k :: 0 <= k < |RelevantCols| ==> RelevantCols[k] in nf.columns
    ensures forall i, k :: 0 <= i < |nf.rows| && 1 <= k < |RelevantCols| ==>
      ToRows(p, parse)[i].rates[k - 1] == nf.rows[i][IndexOf(nf.columns, RelevantCols[k])]
  {
    ProjectExactly(nf, RelevantCols);
    assert forall k :: 0 <= k < |RelevantCols| ==> OccursOnce(nf.columns, RelevantCols[k]);
    var rows := ToRows(p, parse);
    forall i, k | 0 <= i < |nf.rows| && 1 <= k < |RelevantCols|
      ensures rows[i].rates[k - 1] == nf.rows[i][IndexOf(nf.columns, RelevantCols[k])]
    {
      assert rows[i].rates[k - 1] == p.rows[i][k];
    }
  }

  /**
   * Lines 21-46: the fetched frame's headers are normalised, the frame is
   * projected onto the canonical columns, and each row's Date cell is parsed
   * by `parse`.
   */
  function FetchedRows(f: Frame, parse: string -> Date): (r: Result<seq<Row>, RunError>)
    requires Rectangular(f)
    ensures (r.Failure? && r.error.MissingColumns?)
        <==> exists k :: 0 <= k < |RelevantCols| && RelevantCols[k] !in Normalise(f).columns
    ensures r.Failure? && r.error.MissingColumns? ==>
      forall n :: n in r.error.names <==> n in RelevantCols && n !in Normalise(f).columns
    ensures (r.Failure? && r.error.DuplicateColumns?) <==> (
      && (forall k :: 0 <= k < |RelevantCols| ==> RelevantCols[k] in Normalise(f).columns)
      && exists k :: 0 <= k < |RelevantCols| && !OccursOnce(Normalise(f).columns, RelevantCols[k]))
    ensures r.Failure? ==> r.error.MissingColumns? || r.error.DuplicateColumns?
    ensures r.Success? ==> (
      && Conforms(r.value) && |r.value| == |f.rows| && "Date" in Normalise(f).columns
      && forall i :: 0 <= i < |f.rows| ==> r.value[i].date == parse(DateCell(f, i)))
    ensures r.Success? ==> (
      && (forall k :: 0 <= k < |RelevantCols| ==> RelevantCols[k] in Normalise(f).columns)
      && forall i, k :: 0 <= i < |f.rows| && 1 <= k < |RelevantCols| ==>
           r.value[i].rates[k - 1] == f.rows[i][IndexOf(Normalise(f).columns, RelevantCols[k])])
  {
    var p := Project(Normalise(f), RelevantCols);
    ProjectExactly(Normalise(f), RelevantCols);
    if p.Failure? then
      Failure(MissingColumns(p.error))
    else if p.value.columns != RelevantCols then
      Failure(DuplicateColumns)
    else
      ProjectedDates(f, parse);
      ProjectedRates(Normalise(f), p.value, parse);
      Success(ToRows(p.value, parse))
  }

  /**
   * Line 49, with the corrected selection, and the guard of line 60: the
   * latest dated row of the fetched rows, or the error the script stops with.
   */
  function LatestFetched(fetched: Result<seq<Row>, RunError>): (r: Result<Row, RunError>)
    ensures fetched.Failure? ==> r == Failure(fetched.error)
    ensures fetched.Success? ==> (r.Failure? <==> forall i :: 0 <= i < |fetched.value| ==> fetched.value[i].date == NaT)
    ensures fetched.Success? && r.Failure? ==> r.error == NoDatedRows
    ensures r.Success? ==> (
      && fetched.Success? && r.value in fetched.value && r.value.date.Day?
      && forall i :: 0 <= i < |fetched.value| && fetched.value[i].date.Day? ==> fetched.value[i].date.n <= r.value.date.n)
  {
    if fetched.Failure? then
      Failure(fetched.error)
    else
      var latest := LatestParsed(fetched.value);
      if latest.None? then Failure(NoDatedRows) else Success(latest.value)
  }

  /** The yield table file and the table the script holds in memory (`df_all`). */
  class Store {
    /** The CSV file's rows; None while the file does not exist. */
    var file: Option<seq<Row>>
    /** `df_all`. */
    var table: seq<Row>

    /** Lines 53-57: the stored rows, or an empty table when there is no file. */
    constructor Open(file: Option<seq<Row>>)
      ensures this.file == file
      ensures table == if file.Some? then file.value else []
    {
      this.file := file;
      table := if file.Some? then file.value else [];
    }

    /**
     * Lines 59-66: a latest row whose date is not stored is prepended, the
     * table sorted by Date newest first and the file overwritten with it;
     * otherwise neither the table nor the file changes.
     */
    method AppendLatest(latest: Row) returns (wrote: bool)
      modifies this
      ensures wrote <==> !Present(latest.date, old(table))
      ensures table == Reconciled(old(table), latest)
      ensures !wrote ==> table == old(table) && file == old(file)
      ensures wrote ==> file == Some(table) && Sorted(table, false)
      ensures wrote ==> multiset(table) == multiset(old(table)) + multiset{latest}
      ensures Conforms(old(table)) && Conforms([latest]) ==> Conforms(table)
      ensures DistinctDates(old(table)) && latest.date.Day? ==> DistinctDates(table)
    {
      if Conforms(table) && Conforms([latest]) {
        KeepsConformance(table, latest);
      }
      if DistinctDates(table) && latest.date.Day? {
        KeepsDatesDistinct(table, latest);
      }
      var outcome := Reconcile(table, latest);
      if outcome.Prepended? {
        table := outcome.table;
        file := Some(table);
        wrote := true;
      } else {
        wrote := false;
      }
    }
  }

  /**
   * One run of the script against an opened store: the store changes only
   * through the reconciliation of the fetched latest row, and not at all
   * when the fetched frame is rejected.
   */
  method Run(fetched: Frame, parse: string -> Date, store: Store) returns (r: Result<bool, RunError>)
    requires Rectangular(fetched)
    modifies store
    ensures r.Failure? ==> LatestFetched(FetchedRows(fetched, parse)) == Failure(r.error)
    ensures r.Failure? ==> store.table == old(store.table) && store.file == old(store.file)
    ensures r.Success? ==> (
      && LatestFetched(FetchedRows(fetched, parse)).Success?
      && var latest := LatestFetched(FetchedRows(fetched, parse)).value;
         && store.table == Reconciled(old(store.table), latest)
         && (r.value <==> !Present(latest.date, old(store.table))))
    ensures r.Success? && !r.value ==> store.file == old(store.file)
    ensures r.Success? && r.value ==> store.file == Some(store.table)
  {
    var latest := LatestFetched(FetchedRows(fetched, parse));
    match latest
    case Failure(e) =>
      r := Failure(e);
    case Success(row) =>
      var wrote := store.AppendLatest(row);
      r := Success(wrote);
  }

  /**
   * Two runs on the same fetch: the second finds the latest row already
   * stored, writes nothing and leaves the store as the first run left it.
   */
  method RunTwice(fetched: Frame, parse: string -> Date, store: Store) returns (first: Result<bool, RunError>, second: Result<bool, RunError>)
    requires Rectangular(fetched)
    modifies store
    ensures first.Failure? ==> second == first && store.table == old(store.table) && store.file == old(store.file)
    ensures first.Success? ==> (
      && second == Success(false)
      && LatestFetched(FetchedRows(fetched, parse)).Success?
      && store.table == Reconciled(old(store.table), LatestFetched(FetchedRows(fetched, parse)).value))
    ensures first.Success? && first.value ==> store.file == Some(store.table)
    ensures first.Success? && !first.value ==> store.file == old(store.file)
  {
    first := Run(fetched, parse, store);
    if first.Success? {
      var latest := LatestFetched(FetchedRows(fetched, parse)).value;
      Idempotent(old(store.table), latest);
    }
    second := Run(fetched, parse, store);
  }
}
