/**
 The deduplication engine: every row gets a composite key, the concatenation
 (with no separator) of its criteria columns' normalized values in criteria
 order, and a table from key to row keeps the last row seen with each key.

 Rows are maps from column name to value. The criteria are a sequence of
 (column, entry) pairs because their order fixes the order of concatenation.
 */
module Dedup {
  import opened Wrappers
  import opened Errors
  import opened Normalizers

  type Row = map<string, string>
  type Criteria = seq<(string, map<string, string>)>
  /** The retained rows, indexed by composite key. */
  type Table = map<string, Row>

  // ---------------------------------------------------------------------------
  // Resolving every criteria entry

  /** Entry `j` is the first criteria entry that does not resolve. */
  predicate IsFirstUnresolved(criteria: Criteria, j: int) {
    && 0 <= j < |criteria|
    && Resolve(criteria[j].1).Failure?
    && forall i :: 0 <= i < j ==> Resolve(criteria[i].1).Success?
  }

  /**
   Resolves the entries left to right, as the list of normalizers is built for
   each row; the first entry that does not resolve decides the error.
   */
  function ResolveAll(criteria: Criteria): (r: Result<seq<Method>, Error>)
    ensures r.Success? <==> forall i :: 0 <= i < |criteria| ==> Resolve(criteria[i].1).Success?
    ensures r.Success? ==>
              && |r.value| == |criteria|
              && forall i :: 0 <= i < |criteria| ==> Resolve(criteria[i].1) == Success(r.value[i])
    ensures r.Failure? ==>
              exists j :: IsFirstUnresolved(criteria, j) && Resolve(criteria[j].1) == Failure(r.error)
  {
    if |criteria| == 0 then Success([])
    else
      var n := |criteria| - 1;
      match ResolveAll(criteria[..n])
      case Failure(e) =>
        FirstUnresolvedPrefix(criteria, criteria[..n], e);
        Failure(e)
      case Success(init) =>
        match Resolve(criteria[n].1)
        case Failure(e) =>
          assert IsFirstUnresolved(criteria, n);
          Failure(e)
        case Success(m) =>
          Success(init + [m])
  }

  /** The first unresolved entry among all but the last entry is the first unresolved entry of all. */
  lemma FirstUnresolvedPrefix(criteria: Criteria, init: Criteria, e: Error)
    requires |criteria| > 0 && init == criteria[..|criteria| - 1]
    requires exists j :: IsFirstUnresolved(init, j) && Resolve(init[j].1) == Failure(e)
    ensures exists j :: IsFirstUnresolved(criteria, j) && Resolve(criteria[j].1) == Failure(e)
  {
    var j :| IsFirstUnresolved(init, j) && Resolve(init[j].1) == Failure(e);
    assert IsFirstUnresolved(criteria, j);
  }

  /** The column names of the criteria, in criteria order. */
  function Columns(criteria: Criteria): (cols: seq<string>)
    ensures |cols| == |criteria|
  {
    seq(|criteria|, i requires 0 <= i < |criteria| => criteria[i].0)
  }

  // ---------------------------------------------------------------------------
  // Composite keys

  predicate HasColumns(row: Row, cols: seq<string>) {
    forall i :: 0 <= i < |cols| ==> cols[i] in row
  }

  /** Column `j` is the first column, in criteria order, that the row lacks. */
  predicate IsFirstMissing(row: Row, cols: seq<string>, j: int) {
    && 0 <= j < |cols|
    && cols[j] !in row
    && forall i :: 0 <= i < j ==> cols[i] in row
  }

  /** The normalized value of every criteria column of a row, in criteria order. */
  function NormalizedValues(row: Row, cols: seq<string>, methods: seq<Method>): seq<string>
    requires |cols| == |methods| && HasColumns(row, cols)
  {
    seq(|cols|, i requires 0 <= i < |cols| => Normalize(methods[i], row[cols[i]]))
  }

  /** Joins strings left to right with no separator. */
  function Concat(parts: seq<string>): string {
    if |parts| == 0 then "" else Concat(parts[..|parts| - 1]) + parts[|parts| - 1]
  }

  /** The composite key of a row that has every criteria column. */
  function Key(row: Row, cols: seq<string>, methods: seq<Method>): string
    requires |cols| == |methods| && HasColumns(row, cols)
  {
    Concat(NormalizedValues(row, cols, methods))
  }

  /** A row has all columns exactly when it has all but the last and the last. */
  lemma HasColumnsSnoc(row: Row, cols: seq<string>, init: seq<string>)
    requires |cols| > 0 && init == cols[..|cols| - 1]
    ensures HasColumns(row, cols) <==> HasColumns(row, init) && cols[|cols| - 1] in row
    ensures HasColumns(row, init) && cols[|cols| - 1] !in row ==> IsFirstMissing(row, cols, |cols| - 1)
  {
    assert forall i :: 0 <= i < |init| ==> init[i] == cols[i];
  }

  /** The first missing column among all but the last column is the first missing column of all. */
  lemma FirstMissingPrefix(row: Row, cols: seq<string>, init: seq<string>, e: Error)
    requires |cols| > 0 && init == cols[..|cols| - 1]
    requires exists j :: IsFirstMissing(row, init, j) && e == MissingColumn(init[j])
    ensures exists j :: IsFirstMissing(row, cols, j) && e == MissingColumn(cols[j])
  {
    var j :| IsFirstMissing(row, init, j) && e == MissingColumn(init[j]);
    assert IsFirstMissing(row, cols, j);
  }

  /** The key of a row is the key of its columns but the last, followed by the last column's normalized value. */
  lemma KeySnoc(row: Row, cols: seq<string>, methods: seq<Method>, init: seq<string>, initMethods: seq<Method>)
    requires |cols| == |methods| > 0 && HasColumns(row, cols)
    requires init == cols[..|cols| - 1] && initMethods == methods[..|methods| - 1]
    requires HasColumns(row, init)
    ensures Key(row, cols, methods)
            == Key(row, init, initMethods) + Normalize(methods[|cols| - 1], row[cols[|cols| - 1]])
  {
    assert NormalizedValues(row, init, initMethods) == NormalizedValues(row, cols, methods)[..|cols| - 1];
  }

  /**
   Builds a row's composite key column by column, appending each normalized
   value; the first absent column aborts with an error naming it.
   */
  function CompositeKey(row: Row, cols: seq<string>, methods: seq<Method>): (r: Result<string, Error>)
    requires |cols| == |methods|
    ensures r.Success? <==> HasColumns(row, cols)
    ensures r.Success? ==> r.value == Key(row, cols, methods)
    ensures r.Failure? ==> exists j :: IsFirstMissing(row, cols, j) && r.error == MissingColumn(cols[j])
  {
    if |cols| == 0 then Success("")
    else
      var n := |cols| - 1;
      HasColumnsSnoc(row, cols, cols[..n]);
      match CompositeKey(row, cols[..n], methods[..n])
      case Failure(e) =>
        FirstMissingPrefix(row, cols, cols[..n], e);
        Failure(e)
      case Success(init) =>
        if cols[n] in row then
          KeySnoc(row, cols, methods, cols[..n], methods[..n]);
          Success(init + Normalize(methods[n], row[cols[n]]))
        else
          Failure(MissingColumn(cols[n]))
  }

  // ---------------------------------------------------------------------------
  // Tracking one row

  /**
   Files a row under its composite key, replacing any row already there; a row
   that lacks a criteria column yields an error and no table.
   */
  function TrackRow(row: Row, cols: seq<string>, methods: seq<Method>, table: Table): (r: Result<Table, Error>)
    requires |cols| == |methods|
    ensures r.Success? <==> HasColumns(row, cols)
    ensures r.Failure? ==> exists j :: IsFirstMissing(row, cols, j) && r.error == MissingColumn(cols[j])
    ensures r.Success? ==>
              var key := Key(row, cols, methods);
              && r.value.Keys == table.Keys + {key}
              && r.value[key] == row
              && (forall k :: k in table && k != key ==> r.value[k] == table[k])
              && (key in table ==> |r.value| == |table|)
              && (key !in table ==> |r.value| == |table| + 1)
  {
    var key :- CompositeKey(row, cols, methods);
    Success(table[key := row])
  }

  // ---------------------------------------------------------------------------
  // The whole run

  /** Every criteria entry resolves and every row has every criteria column. */
  predicate Valid(criteria: Criteria, rows: seq<Row>) {
    && ResolveAll(criteria).Success?
    && forall i :: 0 <= i < |rows| ==> HasColumns(rows[i], Columns(criteria))
  }

  /** The composite key of a row under criteria that resolve. */
  function RowKey(criteria: Criteria, row: Row): string
    requires ResolveAll(criteria).Success? && HasColumns(row, Columns(criteria))
  {
    Key(row, Columns(criteria), ResolveAll(criteria).value)
  }

  /** Rows are valid exactly when all but the last are and the last has every criteria column. */
  lemma ValidSnoc(criteria: Criteria, rows: seq<Row>, init: seq<Row>)
    requires |rows| > 0 && init == rows[..|rows| - 1]
    ensures Valid(criteria, rows) <==> Valid(criteria, init) && HasColumns(rows[|rows| - 1], Columns(criteria))
  {
    assert forall i :: 0 <= i < |init| ==> init[i] == rows[i];
  }

  /**
   Processes the rows in order: each row is counted, the criteria are resolved
   afresh, and the row is tracked. Any error aborts the whole run. The result
   is the table of retained rows and the number of rows read.
   */
  function RemoveDuplicates(criteria: Criteria, rows: seq<Row>): (r: Result<(Table, nat), Error>)
    ensures r.Success? <==> |rows| == 0 || Valid(criteria, rows)
    ensures |rows| == 0 ==> r == Success((map[], 0))
    ensures r.Success? ==> r.value.1 == |rows| && |r.value.0| <= |rows|
  {
    if |rows| == 0 then Success((map[], 0))
    else
      var n := |rows| - 1;
      ValidSnoc(criteria, rows, rows[..n]);
      match RemoveDuplicates(criteria, rows[..n])
      case Failure(e) => Failure(e)
      case Success(before) =>
        match ResolveAll(criteria)
        case Failure(e) => Failure(e)
        case Success(methods) =>
          match TrackRow(rows[n], Columns(criteria), methods, before.0)
          case Failure(e) => Failure(e)
          case Success(table) =>
            Success((table, before.1 + 1))
  }
}
