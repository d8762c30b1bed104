# Duplicate-row removal, modelled in Dafny

`remove_duplicates.py` reads a CSV file and a JSON criteria object. The criteria
map column names to entries such as `{"method": "exact_case_insensitive"}`.
The script keeps one row per group of duplicates. Two rows are duplicates when
every criteria column's values become the same string under that column's
normalization method.

This project models the deduplication engine. It has two parts.

- **The normalizer resolver** (`get_value_hash_function`), in `normalizers.dfy`.
  - A criteria entry resolves to one of three methods:
    - `exact` is the identity.
    - `exact_case_insensitive` lower-cases.
    - `exact_lower_alphanumeric` lower-cases, then deletes every character outside `[a-z0-9]`.
  - A missing `"method"` key is an error.
  - An unknown method name is an error that carries the name.
- **Row tracking and the deduplication fold** (`track_row` and the loop of
  `remove_duplicates`), in `dedup.dfy`.
  - Each row gets a composite key: the normalized values of its criteria
    columns, joined in criteria order with no separator.
  - The row is written into a table under that key, so the last row with a key wins.
  - A row that lacks a criteria column aborts the run with an error naming
    the first missing column.
  - The run returns the table and the number of rows read.

`dedup_properties.dfy` proves what a whole run computes:
- the table's keys;
- last write wins;
- every retained row re-keys to its own key, so a second run over the output removes nothing;
- the removed count is zero exactly when the keys are distinct;
- which error an aborted run reports.

`scenarios.dfy` works through concrete runs. One of them shows that the
separator-less key makes the value pairs ("1", "23") and ("12", "3") collide.

`wrappers.dfy` holds the `Result` type and the three errors:
- `MissingMethod` stands for the `KeyError` at line 64.
- `UnknownMethod` stands for the `ValueError` at line 62.
- `MissingColumn` stands for the `KeyError` at line 82.

Representation:
- A CSV row is a `map<string, string>`.
- The criteria are a sequence of `(column, entry)` pairs. Python dict iteration order fixes the order in which values are concatenated.
- The retained rows are a `map<string, Row>` from composite key to row.

## Model

| member | source | states |
|---|---|---|
| `Normalizers.Resolve` | remove_duplicates.py:44-65 | No "method" key gives the missing-method error. Otherwise resolution succeeds exactly when the name is one of the three method names, and the resolved method carries that name. Any other name gives the unknown-method error carrying it. |
| `Normalizers.ResolveName` | remove_duplicates.py:53-60 | An entry whose "method" value is a method's name resolves to that method, whatever else the entry holds. |
| `Normalizers.NameInjective` | remove_duplicates.py:11-13 | The three method names are pairwise distinct, so the name alone selects the method. |
| `Normalizers.Normalize` | remove_duplicates.py:55-60 | `exact` returns the value unchanged. `exact_case_insensitive` returns a string with no upper-case letter that equals the input up to letter case. `exact_lower_alphanumeric` returns only characters in [a-z0-9] and is never longer than the input. |
| `Normalizers.CaseInsensitiveEquivalence` | remove_duplicates.py:57-58 | Two values normalize equally under `exact_case_insensitive` if and only if they have the same length and differ at most in the case of ASCII letters. |
| `Normalizers.CaseInsensitiveIgnoresSwapCase` | remove_duplicates.py:57-58 | Swapping the case of every letter leaves the case-insensitive normal form unchanged. |
| `Normalizers.Filter` | remove_duplicates.py:60 | Deleting the characters outside [a-z0-9] leaves only [a-z0-9] characters and never lengthens the string. |
| `Normalizers.RunLength` | remove_duplicates.py:60 | The greedy match of `[^a-z0-9]+` at a position ends exactly at the next [a-z0-9] character or at the end of the string. |
| `Normalizers.FilterKeepsAlnumCounts` | remove_duplicates.py:60 | The substitution removes no [a-z0-9] character: each one occurs as often in the output as in the input. |
| `Normalizers.FilterKeepsClean` | remove_duplicates.py:60 | A string made only of [a-z0-9] passes through the substitution unchanged. |
| `Normalizers.SubRunsIsFilter` | remove_duplicates.py:60 | Deleting whole maximal runs of non-[a-z0-9] characters, as `re.sub` with `+` does, gives the same string as deleting such characters one by one. |
| `Normalizers.LowerAlnumIsRegexSubstitution` | remove_duplicates.py:59-60 | The `exact_lower_alphanumeric` normalizer is the regular-expression substitution applied to the lower-cased value. |
| `Normalizers.NormalizeIdempotent` | remove_duplicates.py:55-60 | Every normalizer is idempotent: normalizing a normalized value changes nothing. |
| `Normalizers.LowerAlnumExample` | remove_duplicates.py:59-60 | "AB-12 cd" normalizes to "ab12cd". |
| `Normalizers.LowerAlnumCollapse` | remove_duplicates.py:59-60 | "A-1", "a1" and "A1 " all normalize to "a1". |
| `Dedup.ResolveAll` | remove_duplicates.py:36-37 | The criteria resolve exactly when every entry resolves. On success, each entry resolves to the method at its position. On failure, the error is that of the first entry, in criteria order, that does not resolve. |
| `Dedup.CompositeKey` | remove_duplicates.py:77-83 | A key is built exactly when the row has every criteria column. The key is the separator-less concatenation of the normalized values in criteria order. Otherwise the error names the first missing column in criteria order. |
| `Dedup.TrackRow` | remove_duplicates.py:68-86 | Tracking succeeds exactly when the row has every criteria column, and otherwise fails with the first missing column. On success the table gains the row's key and maps it to the row. Every other entry is unchanged. The size stays the same if the key was present and grows by one if not. |
| `Dedup.RemoveDuplicates` | remove_duplicates.py:30-41 | An empty input gives an empty table and a count of zero, whatever the criteria. A non-empty run succeeds exactly when the criteria resolve and every row has every criteria column. A successful run counts every row and retains no more rows than it read. |
| `DedupProperties.DedupKeys` | remove_duplicates.py:30-41 | The retained table's keys are exactly the composite keys of the input rows. |
| `DedupProperties.DedupLastWins` | remove_duplicates.py:85 | Each key is mapped to the last input row that has that key. |
| `DedupProperties.DedupDetermined` | remove_duplicates.py:30-41 | A table with the input's keys that maps each key to its last row is the table the run returns, with the row count. |
| `DedupProperties.DedupSelfKeyed` | remove_duplicates.py:78-85 | Every retained row has every criteria column and re-keys to the key it is filed under. |
| `DedupProperties.DedupDistinctKeys` | remove_duplicates.py:30-41 | If the input rows have pairwise distinct keys, every row is retained under its own key and nothing is removed. |
| `DedupProperties.KeySetSize` | remove_duplicates.py:39-40 | There are never more distinct keys than rows, so the reported removed count is never negative. The counts are equal only when no two rows share a key. |
| `DedupProperties.DedupRemovesNothingIff` | remove_duplicates.py:39-40 | The run reports zero removed rows if and only if no two input rows share a composite key. |
| `DedupProperties.DedupIdempotent` | remove_duplicates.py:30-41 | A second run over the retained rows, listed once each in any order, reproduces the same table and removes nothing. |
| `DedupProperties.DedupResolveErrorFirst` | remove_duplicates.py:34-38 | The criteria are resolved before any row is tracked. A criteria entry that does not resolve therefore aborts any non-empty run with its own error, even if the rows lack columns. |
| `DedupProperties.DedupColumnError` | remove_duplicates.py:34-38 | With criteria that resolve, an invalid run fails with the missing-column error of the first column missing from the first incomplete row. |
| `Scenarios.KeyOfTwoColumns` | remove_duplicates.py:77-80 | A two-column key is the first normalized value immediately followed by the second, with nothing between them. |
| `Scenarios.EmptyCriteriaKeepsLast` | remove_duplicates.py:77-85 | With no criteria every row gets the empty key, so only the last row is retained. |
| `Scenarios.NameScenario` | remove_duplicates.py:30-41 | Under `exact_case_insensitive` on "name", the rows "Alice", "alice" and "Bob" leave the later "alice" row and "Bob", after counting three rows. |
| `Scenarios.CodeScenario` | remove_duplicates.py:30-41 | Under `exact_lower_alphanumeric` on "code", the rows "A-1", "a1" and "A1 " leave only the last row, after counting three rows. |
| `Scenarios.SeparatorlessKeysCollide` | remove_duplicates.py:77-80 | Under `exact` on columns "a" and "b", the distinct value pairs ("1", "23") and ("12", "3") share the key "123", so the first row is dropped. |

## Left out

- Opening the CSV file and parsing it with `csv.DictReader` (lines 32-33): I/O. The input is a sequence of rows.
- The summary `print` (lines 39-40): output only. The run returns the row count and the table, from which the removed count is `count - |table|`.
- `main` (lines 89-100): JSON loading of the criteria file, the pandas CSV writer and output-path naming are I/O and foreign libraries.
- The command-line entry point (lines 103-133) and the usage message (lines 19-23): argument counting and path checks against the file system.
- `Normalize`: lower-casing is ASCII-only. Python's `str.lower()` also lower-cases non-ASCII letters. That affects `exact_case_insensitive`, and the alphanumeric method only through characters that lower-case into [a-z]. `CaseInsensitiveEquivalence` is stated for this ASCII lower-casing.
- The `re` engine at line 60 is not modelled. The substitution is modelled as deleting maximal runs (`SubRuns`), which is proved equal to a per-character filter.
- Output order (line 41): Python returns the retained rows in dict insertion order. The table here is an unordered map, and the order is incidental.
- `TrackRow`: on a missing column the Python dict is left untouched because the error is raised before the assignment at line 85. The model's failure result carries no table at all, and the run aborts either way.
- `TrackRow` and `CompositeKey` require as many methods as columns. The driver always builds the two lists from the same criteria.
- The criteria are a sequence, so unlike a Python dict they may repeat a column. Nothing in the model depends on columns being distinct.
- `ResolveAll` is evaluated once per row in the model, as in the source. Since it is pure, every row sees the same result.
