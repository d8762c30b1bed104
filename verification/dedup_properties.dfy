/**
 What a whole deduplication run computes: the keys of the retained table, the
 last-write-wins survivorship rule, the self-consistency of the retained rows
 (which makes a second run a no-op), and which error an aborted run reports.
 */
module DedupProperties {
  import opened Wrappers
  import opened Errors
  import opened Normalizers
  import opened Dedup

  /** The composite keys of all rows. */
  function KeySet(criteria: Criteria, rows: seq<Row>): set<string>
    requires Valid(criteria, rows)
  {
    set i | 0 <= i < |rows| :: RowKey(criteria, rows[i])
  }

  /** No later row has the same composite key as row `i`. */
  predicate IsLastWithKey(criteria: Criteria, rows: seq<Row>, i: int)
    requires Valid(criteria, rows) && 0 <= i < |rows|
  {
    forall j :: i < j < |rows| ==> RowKey(criteria, rows[j]) != RowKey(criteria, rows[i])
  }

  /** Row `i` is the first row lacking a criteria column, and column `j` the first it lacks. */
  predicate MissingColumnAt(criteria: Criteria, rows: seq<Row>, i: int, j: int) {
    && 0 <= i < |rows|
    && (forall k :: 0 <= k < i ==> HasColumns(rows[k], Columns(criteria)))
    && IsFirstMissing(rows[i], Columns(criteria), j)
  }

  /** One step of the run: the table after all rows is the table after all but the last, with the last row tracked. */
  lemma DedupStep(criteria: Criteria, rows: seq<Row>)
    requires |rows| > 0 && Valid(criteria, rows)
    ensures Valid(criteria, rows[..|rows| - 1])
    ensures TrackRow(rows[|rows| - 1], Columns(criteria), ResolveAll(criteria).value,
                  RemoveDuplicates(criteria, rows[..|rows| - 1]).value.0)
            == Success(RemoveDuplicates(criteria, rows).value.0)
  {
    var n := |rows| - 1;
    assert forall i :: 0 <= i < n ==> rows[..n][i] == rows[i];
  }

  /** Appending a row adds its key to the key set of the rows before it. */
  lemma KeySetSnoc(criteria: Criteria, rows: seq<Row>)
    requires |rows| > 0 && Valid(criteria, rows) && Valid(criteria, rows[..|rows| - 1])
    ensures KeySet(criteria, rows) == KeySet(criteria, rows[..|rows| - 1]) + {RowKey(criteria, rows[|rows| - 1])}
  {
    var n := |rows| - 1;
    var init := rows[..n];
    var all, before := KeySet(criteria, rows), KeySet(criteria, init);
    forall k | k in all
      ensures k in before || k == RowKey(criteria, rows[n])
    {
      var i :| 0 <= i < |rows| && RowKey(criteria, rows[i]) == k;
      if i < n {
        assert init[i] == rows[i];
        assert RowKey(criteria, init[i]) in before;
      }
    }
    forall k | k in before
      ensures k in all
    {
      var i :| 0 <= i < n && RowKey(criteria, init[i]) == k;
      assert init[i] == rows[i];
      assert RowKey(criteria, rows[i]) in all;
    }
    assert RowKey(criteria, rows[n]) in all;
  }

  /** Every row has a last row with the same key at or after it. */
  lemma LastOccurrence(criteria: Criteria, rows: seq<Row>, i: int)
    requires Valid(criteria, rows) && 0 <= i < |rows|
    ensures exists j :: i <= j < |rows| && RowKey(criteria, rows[j]) == RowKey(criteria, rows[i])
                        && IsLastWithKey(criteria, rows, j)
    decreases |rows| - i
  {
    if !IsLastWithKey(criteria, rows, i) {
      var j :| i < j < |rows| && RowKey(criteria, rows[j]) == RowKey(criteria, rows[i]);
      LastOccurrence(criteria, rows, j);
    }
  }

  /** Two tables that both have the input's keys and both keep the last row of each key are equal. */
  lemma KeepsLastUnique(criteria: Criteria, rows: seq<Row>, t1: Table, t2: Table)
    requires Valid(criteria, rows)
    requires t1.Keys == KeySet(criteria, rows) && KeepsLast(criteria, rows, t1)
    requires t2.Keys == KeySet(criteria, rows) && KeepsLast(criteria, rows, t2)
    ensures t1 == t2
  {
    forall k | k in t1
      ensures t1[k] == t2[k]
    {
      var i :| 0 <= i < |rows| && RowKey(criteria, rows[i]) == k;
      LastOccurrence(criteria, rows, i);
      var j :| i <= j < |rows| && RowKey(criteria, rows[j]) == k && IsLastWithKey(criteria, rows, j);
      assert t1[k] == rows[j] == t2[k];
    }
  }

  /**
   The result of a run is determined by the two survivorship facts: a table
   whose keys are the input's keys and that maps each key to the last row
   with that key is the table the run returns.
   */
  lemma DedupDetermined(criteria: Criteria, rows: seq<Row>, table: Table)
    requires Valid(criteria, rows)
    requires table.Keys == KeySet(criteria, rows)
    requires forall i :: 0 <= i < |rows| && IsLastWithKey(criteria, rows, i) ==>
               RowKey(criteria, rows[i]) in table && table[RowKey(criteria, rows[i])] == rows[i]
    ensures RemoveDuplicates(criteria, rows) == Success((table, |rows|))
  {
    DedupKeys(criteria, rows);
    DedupLastWins(criteria, rows);
    KeepsLastUnique(criteria, rows, RemoveDuplicates(criteria, rows).value.0, table);
  }

  /** An aborted run over the rows before the final one aborts the whole run with the same error. */
  lemma DedupStepFailure(criteria: Criteria, rows: seq<Row>)
    requires |rows| > 0 && RemoveDuplicates(criteria, rows[..|rows| - 1]).Failure?
    ensures RemoveDuplicates(criteria, rows) == RemoveDuplicates(criteria, rows[..|rows| - 1])
  {
  }

  /** With complete rows before it, a final row that lacks a column aborts the run with the error tracking it raises. */
  lemma DedupStepColumnError(criteria: Criteria, rows: seq<Row>)
    requires |rows| > 0 && ResolveAll(criteria).Success? && Valid(criteria, rows[..|rows| - 1])
    requires !HasColumns(rows[|rows| - 1], Columns(criteria))
    ensures RemoveDuplicates(criteria, rows)
            == Failure(TrackRow(rows[|rows| - 1], Columns(criteria), ResolveAll(criteria).value,
                                RemoveDuplicates(criteria, rows[..|rows| - 1]).value.0).error)
  {
  }

  /** The retained table has exactly one entry for each composite key that occurs in the input. */
  lemma {:induction false} DedupKeys(criteria: Criteria, rows: seq<Row>)
    requires Valid(criteria, rows)
    ensures RemoveDuplicates(criteria, rows).value.0.Keys == KeySet(criteria, rows)
  {
    if |rows| > 0 {
      DedupStep(criteria, rows);
      DedupKeys(criteria, rows[..|rows| - 1]);
      KeySetSnoc(criteria, rows);
    }
  }

  /** A row that is last with its key among all rows is also last among the rows before the final one, and its key differs from the final row's. */
  lemma LastWithKeyPrefix(criteria: Criteria, rows: seq<Row>, i: int)
    requires |rows| > 0 && Valid(criteria, rows) && Valid(criteria, rows[..|rows| - 1])
    requires 0 <= i < |rows| - 1 && IsLastWithKey(criteria, rows, i)
    ensures rows[..|rows| - 1][i] == rows[i]
    ensures IsLastWithKey(criteria, rows[..|rows| - 1], i)
    ensures RowKey(criteria, rows[i]) != RowKey(criteria, rows[|rows| - 1])
  {
    var n := |rows| - 1;
    forall j | i < j < n
      ensures RowKey(criteria, rows[..n][j]) != RowKey(criteria, rows[..n][i])
    {
      assert rows[..n][j] == rows[j];
    }
  }

  /** The table maps the key of every row that is last with its key to that row. */
  predicate KeepsLast(criteria: Criteria, rows: seq<Row>, table: Table)
    requires Valid(criteria, rows)
  {
    forall i :: 0 <= i < |rows| && IsLastWithKey(criteria, rows, i) ==>
      RowKey(criteria, rows[i]) in table && table[RowKey(criteria, rows[i])] == rows[i]
  }

  /** Tracking the final row preserves last-write-wins for the rows before it and establishes it for the final row. */
  lemma KeepsLastStep(criteria: Criteria, rows: seq<Row>, before: Table, after: Table)
    requires |rows| > 0 && Valid(criteria, rows) && Valid(criteria, rows[..|rows| - 1])
    requires KeepsLast(criteria, rows[..|rows| - 1], before)
    requires TrackRow(rows[|rows| - 1], Columns(criteria), ResolveAll(criteria).value, before) == Success(after)
    ensures KeepsLast(criteria, rows, after)
  {
    forall i | 0 <= i < |rows| - 1 && IsLastWithKey(criteria, rows, i)
      ensures RowKey(criteria, rows[i]) in after && after[RowKey(criteria, rows[i])] == rows[i]
    {
      LastWithKeyPrefix(criteria, rows, i);
    }
  }

  /** Last write wins: a key is mapped to the last input row that has that key. */
  lemma {:induction false} DedupLastWins(criteria: Criteria, rows: seq<Row>)
    requires Valid(criteria, rows)
    ensures forall i :: 0 <= i < |rows| && IsLastWithKey(criteria, rows, i) ==>
              && RowKey(criteria, rows[i]) in RemoveDuplicates(criteria, rows).value.0
              && RemoveDuplicates(criteria, rows).value.0[RowKey(criteria, rows[i])] == rows[i]
  {
    if |rows| > 0 {
      DedupStep(criteria, rows);
      DedupLastWins(criteria, rows[..|rows| - 1]);
      KeepsLastStep(criteria, rows, RemoveDuplicates(criteria, rows[..|rows| - 1]).value.0,
                    RemoveDuplicates(criteria, rows).value.0);
    }
  }

  /** Every retained row has every criteria column and re-keys to the key it is filed under. */
  lemma {:induction false} DedupSelfKeyed(criteria: Criteria, rows: seq<Row>)
    requires Valid(criteria, rows)
    ensures forall k :: k in RemoveDuplicates(criteria, rows).value.0 ==>
              && HasColumns(RemoveDuplicates(criteria, rows).value.0[k], Columns(criteria))
              && RowKey(criteria, RemoveDuplicates(criteria, rows).value.0[k]) == k
  {
    if |rows| > 0 {
      var n := |rows| - 1;
      DedupStep(criteria, rows);
      DedupSelfKeyed(criteria, rows[..n]);
    }
  }

  /** Rows have pairwise distinct composite keys. */
  predicate DistinctKeys(criteria: Criteria, rows: seq<Row>)
    requires Valid(criteria, rows)
  {
    forall i, j :: 0 <= i < j < |rows| ==> RowKey(criteria, rows[i]) != RowKey(criteria, rows[j])
  }

  /** Distinct keys stay distinct on the rows before the final one, and the final row's key is new among them. */
  lemma DistinctKeysPrefix(criteria: Criteria, rows: seq<Row>)
    requires |rows| > 0 && Valid(criteria, rows) && Valid(criteria, rows[..|rows| - 1])
    requires DistinctKeys(criteria, rows)
    ensures DistinctKeys(criteria, rows[..|rows| - 1])
    ensures RowKey(criteria, rows[|rows| - 1]) !in KeySet(criteria, rows[..|rows| - 1])
    ensures forall i :: 0 <= i < |rows| ==> IsLastWithKey(criteria, rows, i)
  {
    var n := |rows| - 1;
    assert forall i :: 0 <= i < n ==> rows[..n][i] == rows[i];
  }

  /** Rows whose composite keys are pairwise distinct are all retained, and nothing is removed. */
  lemma {:induction false} DedupDistinctKeys(criteria: Criteria, rows: seq<Row>)
    requires Valid(criteria, rows) && DistinctKeys(criteria, rows)
    ensures |RemoveDuplicates(criteria, rows).value.0| == |rows|
    ensures forall i :: 0 <= i < |rows| ==>
              && RowKey(criteria, rows[i]) in RemoveDuplicates(criteria, rows).value.0
              && RemoveDuplicates(criteria, rows).value.0[RowKey(criteria, rows[i])] == rows[i]
  {
    if |rows| > 0 {
      DedupStep(criteria, rows);
      DistinctKeysPrefix(criteria, rows);
      DedupLastWins(criteria, rows);
      DedupDistinctKeys(criteria, rows[..|rows| - 1]);
      DedupKeys(criteria, rows[..|rows| - 1]);
    }
  }

  /** Rows with pairwise distinct keys stay so when a row with a new key is appended. */
  lemma DistinctKeysSnoc(criteria: Criteria, rows: seq<Row>)
    requires |rows| > 0 && Valid(criteria, rows) && Valid(criteria, rows[..|rows| - 1])
    requires DistinctKeys(criteria, rows[..|rows| - 1])
    requires RowKey(criteria, rows[|rows| - 1]) !in KeySet(criteria, rows[..|rows| - 1])
    ensures DistinctKeys(criteria, rows)
  {
    var n := |rows| - 1;
    var init := rows[..n];
    forall i, j | 0 <= i < j < |rows|
      ensures RowKey(criteria, rows[i]) != RowKey(criteria, rows[j])
    {
      assert init[i] == rows[i];
      if j < n {
        assert init[j] == rows[j];
        assert RowKey(criteria, init[i]) != RowKey(criteria, init[j]);
      } else {
        assert RowKey(criteria, init[i]) in KeySet(criteria, init);
      }
    }
  }

  /** Adding one element to a set grows it by one exactly when the element is new. */
  lemma AddOneSize(all: set<string>, before: set<string>, x: string)
    requires all == before + {x}
    ensures x in before ==> |all| == |before|
    ensures x !in before ==> |all| == |before| + 1
  {
    if x in before {
      assert all == before;
    } else {
      assert all == before + {x} && before !! {x};
    }
  }

  /** There are at most as many keys as rows, and exactly as many only when no two rows share a key. */
  lemma {:induction false} KeySetSize(criteria: Criteria, rows: seq<Row>)
    requires Valid(criteria, rows)
    ensures |KeySet(criteria, rows)| <= |rows|
    ensures |KeySet(criteria, rows)| == |rows| ==> DistinctKeys(criteria, rows)
  {
    if |rows| > 0 {
      var n := |rows| - 1;
      ValidSnoc(criteria, rows, rows[..n]);
      KeySetSnoc(criteria, rows);
      KeySetSize(criteria, rows[..n]);
      AddOneSize(KeySet(criteria, rows), KeySet(criteria, rows[..n]), RowKey(criteria, rows[n]));
      if |KeySet(criteria, rows)| == |rows| {
        DistinctKeysSnoc(criteria, rows);
      }
    }
  }

  /**
   The run reports no removed rows, its table being as large as its row count,
   exactly when no two input rows share a composite key.
   */
  lemma DedupRemovesNothingIff(criteria: Criteria, rows: seq<Row>)
    requires Valid(criteria, rows)
    ensures |RemoveDuplicates(criteria, rows).value.0| == |rows| <==> DistinctKeys(criteria, rows)
  {
    DedupKeys(criteria, rows);
    KeySetSize(criteria, rows);
    if DistinctKeys(criteria, rows) {
      DedupDistinctKeys(criteria, rows);
    }
  }

  /** Every row of a table has every criteria column and re-keys to the key it is filed under. */
  predicate SelfKeyed(criteria: Criteria, table: Table) {
    && ResolveAll(criteria).Success?
    && forall k :: k in table ==> HasColumns(table[k], Columns(criteria)) && RowKey(criteria, table[k]) == k
  }

  /** A listing, without repeats, of the rows of a self-keyed table. */
  predicate Lists(table: Table, out: seq<Row>) {
    && (forall i, j :: 0 <= i < j < |out| ==> out[i] != out[j])
    && (forall i :: 0 <= i < |out| ==> out[i] in table.Values)
    && (forall k :: k in table ==> table[k] in out)
  }

  /** The rows of a self-keyed table, listed without repeats, are valid input with pairwise distinct keys. */
  lemma ListingHasDistinctKeys(criteria: Criteria, table: Table, out: seq<Row>)
    requires SelfKeyed(criteria, table) && Lists(table, out)
    ensures Valid(criteria, out)
    ensures forall i :: 0 <= i < |out| ==> RowKey(criteria, out[i]) in table && table[RowKey(criteria, out[i])] == out[i]
    ensures DistinctKeys(criteria, out)
  {
    forall i | 0 <= i < |out|
      ensures HasColumns(out[i], Columns(criteria))
      ensures RowKey(criteria, out[i]) in table && table[RowKey(criteria, out[i])] == out[i]
    {
      assert out[i] in table.Values;
      var k :| k in table && table[k] == out[i];
    }
  }

  /** The only listing of the empty table is the empty sequence. */
  lemma ListsOfEmpty(table: Table, out: seq<Row>)
    requires table == map[] && Lists(table, out)
    ensures |out| == 0
  {
    assert forall r :: r in out ==> r in table.Values;
    assert multiset(out) == multiset{};
  }

  /**
   Running again over the retained rows, listed once each in any order, finds
   no duplicates: it reproduces the same table and removes nothing.
   */
  lemma DedupIdempotent(criteria: Criteria, rows: seq<Row>, out: seq<Row>)
    requires RemoveDuplicates(criteria, rows).Success?
    requires Lists(RemoveDuplicates(criteria, rows).value.0, out)
    ensures RemoveDuplicates(criteria, out) == Success((RemoveDuplicates(criteria, rows).value.0, |out|))
    ensures |RemoveDuplicates(criteria, rows).value.0| == |out|
  {
    var table := RemoveDuplicates(criteria, rows).value.0;
    if |rows| == 0 {
      ListsOfEmpty(table, out);
    } else {
      DedupSelfKeyed(criteria, rows);
      assert SelfKeyed(criteria, table);
      ListingHasDistinctKeys(criteria, table, out);
      DedupDistinctKeys(criteria, out);
      DedupKeys(criteria, out);
      SameTable(criteria, table, out, RemoveDuplicates(criteria, out).value.0);
    }
  }

  /** A table that holds every listed row under its own key, and only their keys, is the listed table. */
  lemma SameTable(criteria: Criteria, table: Table, out: seq<Row>, again: Table)
    requires SelfKeyed(criteria, table) && Lists(table, out) && Valid(criteria, out)
    requires again.Keys == KeySet(criteria, out)
    requires forall i :: 0 <= i < |out| ==> RowKey(criteria, out[i]) in again && again[RowKey(criteria, out[i])] == out[i]
    requires forall i :: 0 <= i < |out| ==> RowKey(criteria, out[i]) in table && table[RowKey(criteria, out[i])] == out[i]
    ensures again == table
  {
    forall k | k in table
      ensures k in again && again[k] == table[k]
    {
      var i :| 0 <= i < |out| && out[i] == table[k];
    }
  }

  /** The criteria are resolved for the first row before any row is tracked, so a bad criteria entry aborts any non-empty run with its error. */
  lemma {:induction false} DedupResolveErrorFirst(criteria: Criteria, rows: seq<Row>)
    requires |rows| > 0 && ResolveAll(criteria).Failure?
    ensures RemoveDuplicates(criteria, rows) == Failure(ResolveAll(criteria).error)
  {
    var n := |rows| - 1;
    if n > 0 {
      DedupResolveErrorFirst(criteria, rows[..n]);
      DedupStepFailure(criteria, rows);
    }
  }

  /** The first missing column of the rows before the final one is also the first missing column of all rows. */
  lemma MissingColumnAtPrefix(criteria: Criteria, rows: seq<Row>, i: int, j: int)
    requires |rows| > 0 && MissingColumnAt(criteria, rows[..|rows| - 1], i, j)
    ensures MissingColumnAt(criteria, rows, i, j)
  {
    assert forall k :: 0 <= k < |rows| - 1 ==> rows[..|rows| - 1][k] == rows[k];
  }

  /** If the rows before the final one are all complete, the final row is the first incomplete one. */
  lemma MissingColumnAtLast(criteria: Criteria, rows: seq<Row>, j: int)
    requires |rows| > 0 && Valid(criteria, rows[..|rows| - 1])
    requires IsFirstMissing(rows[|rows| - 1], Columns(criteria), j)
    ensures MissingColumnAt(criteria, rows, |rows| - 1, j)
  {
    assert forall k :: 0 <= k < |rows| - 1 ==> rows[..|rows| - 1][k] == rows[k];
  }

  /** With criteria that resolve, a run aborts with the first missing column of the first row that lacks one. */
  lemma {:induction false} DedupColumnError(criteria: Criteria, rows: seq<Row>)
    requires ResolveAll(criteria).Success? && !Valid(criteria, rows)
    ensures exists i, j :: MissingColumnAt(criteria, rows, i, j)
                           && RemoveDuplicates(criteria, rows) == Failure(MissingColumn(Columns(criteria)[j]))
  {
    var n := |rows| - 1;
    var prefix := rows[..n];
    if Valid(criteria, prefix) {
      assert !HasColumns(rows[n], Columns(criteria)) by {
        assert forall k :: 0 <= k < n ==> prefix[k] == rows[k];
      }
      DedupStepColumnError(criteria, rows);
      var cols, methods := Columns(criteria), ResolveAll(criteria).value;
      var e := TrackRow(rows[n], cols, methods, RemoveDuplicates(criteria, prefix).value.0).error;
      var j :| IsFirstMissing(rows[n], cols, j) && e == MissingColumn(cols[j]);
      MissingColumnAtLast(criteria, rows, j);
    } else {
      DedupColumnError(criteria, prefix);
      DedupStepFailure(criteria, rows);
      var i, j :| MissingColumnAt(criteria, prefix, i, j)
                  && RemoveDuplicates(criteria, prefix) == Failure(MissingColumn(Columns(criteria)[j]));
      MissingColumnAtPrefix(criteria, rows, i, j);
    }
  }
}
