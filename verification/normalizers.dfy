/**
 The normalizer resolver: a criteria entry names one of three string
 normalizers, and two raw column values count as duplicates exactly when the
 column's normalizer maps them to the same string.

 Lower-casing is modelled on ASCII only, and the regular-expression deletion of
 runs of characters outside [a-z0-9] is modelled both literally (SubRuns,
 deleting whole maximal runs) and as a per-character filter (Filter); the two
 are proved equal.
 */
module Normalizers {
  import opened Wrappers
  import opened Errors

  /** The key of a criteria entry that holds the method name. */
  const MethodKey: string := "method"

  const ExactName: string := "exact"
  const CaseInsensitiveName: string := "exact_case_insensitive"
  const LowerAlnumName: string := "exact_lower_alphanumeric"

  /** The three supported normalization methods. */
  datatype Method = Exact | CaseInsensitive | LowerAlnum

  /** The name under which a method is selected in a criteria entry. */
  function Name(m: Method): string {
    match m
    case Exact => ExactName
    case CaseInsensitive => CaseInsensitiveName
    case LowerAlnum => LowerAlnumName
  }

  // ---------------------------------------------------------------------------
  // Characters

  predicate IsUpper(c: char) {
    'A' <= c <= 'Z'
  }

  predicate IsLowerAlnum(c: char) {
    'a' <= c <= 'z' || '0' <= c <= '9'
  }

  /** ASCII lower-casing of one character; every other character is kept. */
  function Lower(c: char): char {
    if IsUpper(c) then (c as int + 32) as char else c
  }

  /** Two characters that are equal once letter case is ignored, stated without Lower. */
  predicate SameLetterIgnoringCase(x: char, y: char) {
    || x == y
    || (IsUpper(x) && y as int == x as int + 32)
    || (IsUpper(y) && x as int == y as int + 32)
  }

  /** Swaps the case of an ASCII letter; every other character is kept. */
  function SwapCase(c: char): char {
    if IsUpper(c) then (c as int + 32) as char
    else if 'a' <= c <= 'z' then (c as int - 32) as char
    else c
  }

  // ---------------------------------------------------------------------------
  // Strings

  predicate NoUpper(s: string) {
    forall i :: 0 <= i < |s| ==> !IsUpper(s[i])
  }

  predicate AllLowerAlnum(s: string) {
    forall i :: 0 <= i < |s| ==> IsLowerAlnum(s[i])
  }

  /** Strings of equal length that agree position by position up to letter case. */
  predicate EqualIgnoringCase(a: string, b: string) {
    |a| == |b| && forall i :: 0 <= i < |a| ==> SameLetterIgnoringCase(a[i], b[i])
  }

  function LowerString(s: string): string {
    seq(|s|, i requires 0 <= i < |s| => Lower(s[i]))
  }

  function SwapCaseString(s: string): string {
    seq(|s|, i requires 0 <= i < |s| => SwapCase(s[i]))
  }

  /** Deletes, one at a time, every character outside [a-z0-9]. */
  function Filter(s: string): (r: string)
    ensures AllLowerAlnum(r)
    ensures |r| <= |s|
  {
    if |s| == 0 then ""
    else
      (if IsLowerAlnum(s[0]) then [s[0]] else []) + Filter(s[1..])
  }

  /** Length of the longest prefix of `s` made of characters outside [a-z0-9]. */
  function RunLength(s: string): (n: nat)
    ensures n <= |s|
    ensures forall i :: 0 <= i < n ==> !IsLowerAlnum(s[i])
    ensures n < |s| ==> IsLowerAlnum(s[n])
  {
    if |s| == 0 || IsLowerAlnum(s[0]) then 0 else 1 + RunLength(s[1..])
  }

  /**
   The substitution of the pattern [^a-z0-9]+ by the empty string: scanning from
   the left, a character in [a-z0-9] is kept, and at any other character the
   greedy match consumes the whole maximal run, which is deleted.
   */
  function SubRuns(s: string): string
    decreases |s|
  {
    if |s| == 0 then ""
    else if IsLowerAlnum(s[0]) then [s[0]] + SubRuns(s[1..])
    else SubRuns(s[RunLength(s)..])
  }

  /** Applies a normalization method to one raw column value. */
  function Normalize(m: Method, s: string): (r: string)
    ensures m == Exact ==> r == s
    ensures m == CaseInsensitive ==> NoUpper(r) && EqualIgnoringCase(s, r)
    ensures m == LowerAlnum ==> AllLowerAlnum(r) && |r| <= |s|
  {
    match m
    case Exact => s
    case CaseInsensitive => LowerString(s)
    case LowerAlnum => Filter(LowerString(s))
  }

  // ---------------------------------------------------------------------------
  // Resolution

  /**
   Turns a criteria entry into its normalization method: a missing "method" key
   and an unsupported method name are errors.
   */
  function Resolve(entry: map<string, string>): (r: Result<Method, Error>)
    ensures MethodKey !in entry ==> r == Failure(MissingMethod)
    ensures MethodKey in entry ==>
              (r.Success? <==> entry[MethodKey] in {ExactName, CaseInsensitiveName, LowerAlnumName})
    ensures MethodKey in entry && r.Failure? ==> r.error == UnknownMethod(entry[MethodKey])
    ensures r.Success? ==> MethodKey in entry && Name(r.value) == entry[MethodKey]
  {
    if MethodKey in entry then
      var name := entry[MethodKey];
      if name == ExactName then Success(Exact)
      else if name == CaseInsensitiveName then Success(CaseInsensitive)
      else if name == LowerAlnumName then Success(LowerAlnum)
      else Failure(UnknownMethod(name))
    else
      Failure(MissingMethod)
  }

  // ---------------------------------------------------------------------------
  // Properties

  /** Naming a method in an entry selects exactly that method, whatever else the entry holds. */
  lemma ResolveName(m: Method, entry: map<string, string>)
    requires MethodKey in entry && entry[MethodKey] == Name(m)
    ensures Resolve(entry) == Success(m)
  {
  }

  /** Distinct methods have distinct names, so resolution is a dispatch on the name alone. */
  lemma NameInjective(m1: Method, m2: Method)
    ensures Name(m1) == Name(m2) <==> m1 == m2
  {
    assert |ExactName| < |CaseInsensitiveName| < |LowerAlnumName|;
  }

  lemma LowerCharsAgree(x: char, y: char)
    ensures Lower(x) == Lower(y) <==> SameLetterIgnoringCase(x, y)
  {
  }

  /**
   Under "exact_case_insensitive" two values are duplicates exactly when they
   have the same length and differ at most in the case of ASCII letters.
   */
  lemma CaseInsensitiveEquivalence(a: string, b: string)
    ensures Normalize(CaseInsensitive, a) == Normalize(CaseInsensitive, b) <==> EqualIgnoringCase(a, b)
  {
    var la, lb := LowerString(a), LowerString(b);
    if la == lb {
      forall i | 0 <= i < |a|
        ensures SameLetterIgnoringCase(a[i], b[i])
      {
        assert la[i] == lb[i];
        LowerCharsAgree(a[i], b[i]);
      }
    }
    if EqualIgnoringCase(a, b) {
      forall i | 0 <= i < |a|
        ensures la[i] == lb[i]
      {
        LowerCharsAgree(a[i], b[i]);
      }
    }
  }

  /** Swapping the case of every letter does not change the case-insensitive normal form. */
  lemma CaseInsensitiveIgnoresSwapCase(s: string)
    ensures Normalize(CaseInsensitive, SwapCaseString(s)) == Normalize(CaseInsensitive, s)
  {
    CaseInsensitiveEquivalence(SwapCaseString(s), s);
  }

  /** Filtering keeps every occurrence of every character in [a-z0-9]: it deletes only the other characters. */
  lemma {:induction false} FilterKeepsAlnumCounts(s: string, c: char)
    requires IsLowerAlnum(c)
    ensures multiset(Filter(s))[c] == multiset(s)[c]
  {
    if |s| > 0 {
      FilterKeepsAlnumCounts(s[1..], c);
      assert s == [s[0]] + s[1..];
    }
  }

  /** Filtering keeps a string that is already made of [a-z0-9] unchanged. */
  lemma {:induction false} FilterKeepsClean(s: string)
    requires AllLowerAlnum(s)
    ensures Filter(s) == s
  {
    if |s| > 0 {
      FilterKeepsClean(s[1..]);
      assert s == [s[0]] + s[1..];
    }
  }

  /** Filtering skips a leading block of characters outside [a-z0-9]. */
  lemma {:induction false} FilterSkipsRun(s: string, k: nat)
    requires k <= |s|
    requires forall i :: 0 <= i < k ==> !IsLowerAlnum(s[i])
    ensures Filter(s) == Filter(s[k..])
  {
    if k > 0 {
      FilterSkipsRun(s[1..], k - 1);
      assert s[1..][k - 1..] == s[k..];
    }
  }

  /** Deleting whole maximal runs, as the regular expression does, is the same as deleting characters one at a time. */
  lemma {:induction false} SubRunsIsFilter(s: string)
    ensures SubRuns(s) == Filter(s)
    decreases |s|
  {
    if |s| > 0 {
      if IsLowerAlnum(s[0]) {
        SubRunsIsFilter(s[1..]);
      } else {
        var n := RunLength(s);
        SubRunsIsFilter(s[n..]);
        FilterSkipsRun(s, n);
      }
    }
  }

  /** The "exact_lower_alphanumeric" normalizer is the regular-expression substitution applied to the lower-cased value. */
  lemma LowerAlnumIsRegexSubstitution(s: string)
    ensures Normalize(LowerAlnum, s) == SubRuns(LowerString(s))
  {
    SubRunsIsFilter(LowerString(s));
  }

  /** Every normalizer is idempotent: a normalized value is its own normal form. */
  lemma NormalizeIdempotent(m: Method, s: string)
    ensures Normalize(m, Normalize(m, s)) == Normalize(m, s)
  {
    var r := Normalize(m, s);
    match m
    case Exact =>
    case CaseInsensitive =>
      assert LowerString(r) == r;
    case LowerAlnum =>
      assert LowerString(r) == r;
      FilterKeepsClean(r);
  }

  /** One step of filtering: the first character is kept exactly when it is in [a-z0-9]. */
  lemma FilterCons(c: char, s: string)
    ensures Filter([c] + s) == (if IsLowerAlnum(c) then [c] else []) + Filter(s)
  {
    assert ([c] + s)[1..] == s;
  }

  lemma FilterExampleTail()
    ensures Filter("12 cd") == "12cd"
  {
    FilterCons('d', "");
    assert "d" == ['d'] + "";
    FilterCons('c', "d");
    assert "cd" == ['c'] + "d";
    FilterCons(' ', "cd");
    assert " cd" == [' '] + "cd";
    FilterCons('2', " cd");
    assert "2 cd" == ['2'] + " cd";
    FilterCons('1', "2 cd");
    assert "12 cd" == ['1'] + "2 cd";
  }

  lemma FilterExample()
    ensures Filter("ab-12 cd") == "ab12cd"
  {
    FilterExampleTail();
    FilterCons('-', "12 cd");
    assert "-12 cd" == ['-'] + "12 cd";
    FilterCons('b', "-12 cd");
    assert "b-12 cd" == ['b'] + "-12 cd";
    FilterCons('a', "b-12 cd");
    assert "ab-12 cd" == ['a'] + "b-12 cd";
  }

  /** Worked example: "AB-12 cd" normalizes to "ab12cd". */
  lemma LowerAlnumExample()
    ensures Normalize(LowerAlnum, "AB-12 cd") == "ab12cd"
  {
    assert LowerString("AB-12 cd") == "ab-12 cd";
    FilterExample();
  }

  /** Worked example: "A-1", "a1" and "A1 " share the normal form "a1". */
  lemma LowerAlnumCollapse()
    ensures Normalize(LowerAlnum, "A-1") == "a1"
    ensures Normalize(LowerAlnum, "a1") == "a1"
    ensures Normalize(LowerAlnum, "A1 ") == "a1"
  {
    assert LowerString("A-1") == "a-1";
    assert LowerString("a1") == "a1";
    assert LowerString("A1 ") == "a1 ";
    FilterCons(' ', "");
    FilterCons('1', "");
    FilterCons('1', " ");
    FilterCons('-', "1");
    FilterCons('a', "1");
    FilterCons('a', "1 ");
    FilterCons('a', "-1");
  }
}
