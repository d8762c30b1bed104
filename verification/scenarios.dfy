/**
 Whole runs on small inputs: the case-insensitive name example, the
 alphanumeric code example, and the aliasing that the separator-less composite
 key allows.
 */
module Scenarios {
  import opened Wrappers
  import opened Normalizers
  import opened Dedup
  import opened DedupProperties

  /** The key of a row under one criteria column is that column's normalized value. */
  lemma KeyOfOneColumn(row: Row, col: string, m: Method)
    requires col in row
    ensures Key(row, [col], [m]) == Normalize(m, row[col])
  {
    var values := NormalizedValues(row, [col], [m]);
    assert values[0] == Normalize(m, row[col]);
    assert values[..0] == [];
    assert Concat(values) == Concat(values[..0]) + values[0];
  }

  /** The key of a row under two criteria columns is their normalized values run together, with nothing between them. */
  lemma KeyOfTwoColumns(row: Row, col1: string, col2: string, m1: Method, m2: Method)
    requires col1 in row && col2 in row
    ensures Key(row, [col1, col2], [m1, m2]) == Normalize(m1, row[col1]) + Normalize(m2, row[col2])
  {
    var values := NormalizedValues(row, [col1, col2], [m1, m2]);
    assert values == [Normalize(m1, row[col1]), Normalize(m2, row[col2])];
    assert values[..1] == [Normalize(m1, row[col1])];
    assert values[..1][..0] == [];
    assert Concat(values[..1]) == Concat(values[..1][..0]) + values[..1][0];
    assert Concat(values) == Concat(values[..1]) + values[1];
  }

  /** Criteria with one column resolve to that column's method. */
  lemma OneColumnCriteria(col: string, m: Method)
    ensures ResolveAll([(col, map[MethodKey := Name(m)])]) == Success([m])
    ensures Columns([(col, map[MethodKey := Name(m)])]) == [col]
  {
    var criteria := [(col, map[MethodKey := Name(m)])];
    ResolveName(m, criteria[0].1);
    assert criteria[..0] == [];
    assert ResolveAll(criteria[..0]) == Success([]);
    assert [] + [m] == [m];
  }

  /** Criteria with two columns resolve to the two columns' methods, in order. */
  lemma TwoColumnCriteria(col1: string, col2: string, m1: Method, m2: Method)
    ensures ResolveAll([(col1, map[MethodKey := Name(m1)]), (col2, map[MethodKey := Name(m2)])]) == Success([m1, m2])
    ensures Columns([(col1, map[MethodKey := Name(m1)]), (col2, map[MethodKey := Name(m2)])]) == [col1, col2]
  {
    var criteria := [(col1, map[MethodKey := Name(m1)]), (col2, map[MethodKey := Name(m2)])];
    OneColumnCriteria(col1, m1);
    assert criteria[..1] == [(col1, map[MethodKey := Name(m1)])];
    ResolveName(m2, criteria[1].1);
    assert [m1] + [m2] == [m1, m2];
  }

  // ---------------------------------------------------------------------------
  // No criteria

  /** With no criteria every row gets the empty key. */
  lemma EmptyCriteriaKeys(rows: seq<Row>)
    ensures Valid([], rows)
    ensures forall i :: 0 <= i < |rows| ==> RowKey([], rows[i]) == ""
  {
    assert ResolveAll([]) == Success([]);
    assert Columns([]) == [];
  }

  /** With no criteria all rows are duplicates of one another: only the last row is retained. */
  lemma EmptyCriteriaKeepsLast(rows: seq<Row>)
    requires |rows| > 0
    ensures RemoveDuplicates([], rows) == Success((map["" := rows[|rows| - 1]], |rows|))
  {
    var n := |rows| - 1;
    EmptyCriteriaKeys(rows);
    assert RowKey([], rows[n]) == "";
    assert KeySet([], rows) == {""};
    forall i | 0 <= i < n
      ensures !IsLastWithKey([], rows, i)
    {
      assert RowKey([], rows[i]) == RowKey([], rows[n]);
    }
    DedupDetermined([], rows, map["" := rows[n]]);
  }

  // ---------------------------------------------------------------------------
  // Names compared case-insensitively

  const NameCriteria: Criteria := [("name", map[MethodKey := CaseInsensitiveName])]
  const Alice: Row := map["id" := "1", "name" := "Alice"]
  const AliceLower: Row := map["id" := "2", "name" := "alice"]
  const Bob: Row := map["id" := "3", "name" := "Bob"]

  /** The rows' keys are their lower-cased names. */
  lemma NameKeys(rows: seq<Row>)
    requires rows == [Alice, AliceLower, Bob]
    ensures Valid(NameCriteria, rows)
    ensures RowKey(NameCriteria, rows[0]) == "alice"
    ensures RowKey(NameCriteria, rows[1]) == "alice"
    ensures RowKey(NameCriteria, rows[2]) == "bob"
  {
    OneColumnCriteria("name", CaseInsensitive);
    assert Valid(NameCriteria, rows);
    KeyOfOneColumn(Alice, "name", CaseInsensitive);
    KeyOfOneColumn(AliceLower, "name", CaseInsensitive);
    KeyOfOneColumn(Bob, "name", CaseInsensitive);
    assert LowerString("Alice") == "alice";
    assert LowerString("alice") == "alice";
    assert LowerString("Bob") == "bob";
  }

  /** "Alice" and "alice" collapse to the later row, "Bob" survives: one of three rows is removed. */
  lemma NameScenario(rows: seq<Row>)
    requires rows == [Alice, AliceLower, Bob]
    ensures RemoveDuplicates(NameCriteria, rows) == Success((map["alice" := AliceLower, "bob" := Bob], 3))
  {
    NameKeys(rows);
    assert KeySet(NameCriteria, rows) == {"alice", "bob"};
    assert !IsLastWithKey(NameCriteria, rows, 0);
    DedupDetermined(NameCriteria, rows, map["alice" := AliceLower, "bob" := Bob]);
  }

  // ---------------------------------------------------------------------------
  // Codes compared on lower-cased letters and digits

  const CodeCriteria: Criteria := [("code", map[MethodKey := LowerAlnumName])]
  const CodeA: Row := map["code" := "A-1"]
  const CodeB: Row := map["code" := "a1"]
  const CodeC: Row := map["code" := "A1 "]

  /** All three rows get the key "a1". */
  lemma CodeKeys(rows: seq<Row>)
    requires rows == [CodeA, CodeB, CodeC]
    ensures Valid(CodeCriteria, rows)
    ensures RowKey(CodeCriteria, rows[0]) == "a1"
    ensures RowKey(CodeCriteria, rows[1]) == "a1"
    ensures RowKey(CodeCriteria, rows[2]) == "a1"
  {
    OneColumnCriteria("code", LowerAlnum);
    assert Valid(CodeCriteria, rows);
    KeyOfOneColumn(CodeA, "code", LowerAlnum);
    KeyOfOneColumn(CodeB, "code", LowerAlnum);
    KeyOfOneColumn(CodeC, "code", LowerAlnum);
    LowerAlnumCollapse();
  }

  /** "A-1", "a1" and "A1 " all collapse to the last row: two of three rows are removed. */
  lemma CodeScenario(rows: seq<Row>)
    requires rows == [CodeA, CodeB, CodeC]
    ensures RemoveDuplicates(CodeCriteria, rows) == Success((map["a1" := CodeC], 3))
  {
    CodeKeys(rows);
    assert KeySet(CodeCriteria, rows) == {"a1"};
    assert !IsLastWithKey(CodeCriteria, rows, 0);
    assert !IsLastWithKey(CodeCriteria, rows, 1);
    DedupDetermined(CodeCriteria, rows, map["a1" := CodeC]);
  }

  // ---------------------------------------------------------------------------
  // Keys without a separator

  const PairCriteria: Criteria := [("a", map[MethodKey := ExactName]), ("b", map[MethodKey := ExactName])]
  const OneThenTwentyThree: Row := map["a" := "1", "b" := "23"]
  const TwelveThenThree: Row := map["a" := "12", "b" := "3"]

  /**
   The value pairs ("1", "23") and ("12", "3") differ, yet both rows get the
   key "123", so the first row is dropped as a duplicate of the second.
   */
  lemma SeparatorlessKeysCollide(rows: seq<Row>)
    requires rows == [OneThenTwentyThree, TwelveThenThree]
    ensures RemoveDuplicates(PairCriteria, rows) == Success((map["123" := TwelveThenThree], 2))
  {
    TwoColumnCriteria("a", "b", Exact, Exact);
    assert Valid(PairCriteria, rows);
    KeyOfTwoColumns(OneThenTwentyThree, "a", "b", Exact, Exact);
    KeyOfTwoColumns(TwelveThenThree, "a", "b", Exact, Exact);
    assert RowKey(PairCriteria, rows[0]) == "123";
    assert RowKey(PairCriteria, rows[1]) == "123";
    assert KeySet(PairCriteria, rows) == {"123"};
    assert !IsLastWithKey(PairCriteria, rows, 0);
    DedupDetermined(PairCriteria, rows, map["123" := TwelveThenThree]);
  }
}
