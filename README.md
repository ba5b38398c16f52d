# RowMerger change detection, modelled in Dafny

This project models `RowMerger`, the change detector behind the live table
demo of the Simple framework. One merger tracks one table row. It holds a
cache from column name to the last raw value seen, a revision cursor that
starts at -1, and the row's index. `merge(row, version)`:

1. refuses a row whose number of entries differs from the schema's number of
   columns (`IllegalArgumentException`);
2. swaps the cursor to `version`, then refuses the call as stale when the old
   cursor was higher and as a duplicate when it was equal
   (`IllegalStateException`);
3. walks the schema columns in order, recording a formatted value for each
   column whose non-null value changed and an explicit null for each column
   that went from non-null to null, updating the cache as it goes;
4. returns `null` when nothing changed, otherwise a `RowChange` with the
   diff, the row index and the version.

`row_merger.dfy` holds one module, `Extract`, named after the Java package:

- `MergeRow` is the pure specification of one `merge` call. It works on a
  `MergerState` (cache and cursor) and gives back the new state and a
  `MergeResult`, whose five cases are the two exceptions' three causes,
  `null`, and a `RowChange`.
- `Scanned` is the column loop as a function over a prefix of the columns.
  The lemmas `ScannedCache` and `ScannedDiff` characterise it without
  reference to the loop: the cache agrees with the row on every schema
  column, the cache is unchanged for every other name, and the diff holds
  exactly the columns whose value differed.
- `RowMerger` is the class itself. Its `Merge` method updates `cache` and
  `revision` in place with the same loop as the Java code. Its contract ties
  the new state and the result to `MergeRow` applied to the old state.

Modelling choices:

- Java `null` is `None`. The row and the cache are `map<string, Option<V>>`,
  because a Java `HashMap` can bind a key to `null`. `row.size()` counts such
  keys, and `cache.put(name, null)` keeps the key. `Get` reads a map the way
  `Map.get` does, so a missing key and a key bound to null both read as null.
- Value equality is Dafny equality on a type `V(==)`. It stands for
  `Object.equals`.
- The schema is the sequence of its column names. Duplicate names are not
  excluded: a repeated column is a no-op the second time, and the lemmas hold
  without a distinctness assumption.
- The formatter is a pure function `(string, V) -> Option<string>`, given to
  the constructor as the Java formatter is. Its result is optional because
  `formatRow` may return `null`. `merge` stores that `null` in the diff, where
  it reads exactly like a removal.
- Versions are Java `long`s and are only compared, so they are modelled as
  `int`.

The cursor is kept exactly as the code has it. It is overwritten before the
stale and duplicate checks, so a rejected call still moves it. Accepted
versions are therefore not monotone: `AcceptedVersionsNotMonotone` exhibits
version 5 accepted, then 3 rejected as stale, then 4 accepted.
`StaleRewindsCursor` states the general case.

## Model

| member | source | states |
|---|---|---|
| `Extract.RowMerger.constructor` | simple-demo/simple-demo-table/src/main/java/org/simpleframework/demo/table/extract/RowMerger.java:20-26 | a new merger has an empty cache, cursor -1, and the given schema, formatter and index |
| `Extract.RowMerger.Merge` | simple-demo/simple-demo-table/src/main/java/org/simpleframework/demo/table/extract/RowMerger.java:28-69 | the in-place update of `cache` and `revision` and the returned result are exactly those of `MergeRow` on the old state; the loop invariant ties the cache and diff built so far to the columns already walked |
| `Extract.MergeRow` | simple-demo/simple-demo-table/src/main/java/org/simpleframework/demo/table/extract/RowMerger.java:28-69 | a size mismatch fails with the two counts and changes nothing; once the size matches the cursor equals the version whatever the outcome; an older cursor gives stale and an equal one duplicate, both with the cache untouched; the call is accepted exactly when the size matches and the cursor was lower; then the cache agrees with the row on every column, is unchanged elsewhere, and the result is no-change for an empty diff or a change with a non-empty exact diff, the merger's index and the version |
| `Extract.ScannedCache` | simple-demo/simple-demo-table/src/main/java/org/simpleframework/demo/table/extract/RowMerger.java:46-63 | after the column loop every schema column reads as in the row (null and absent alike), and every other name keeps its cache entry |
| `Extract.ScannedDiff` | simple-demo/simple-demo-table/src/main/java/org/simpleframework/demo/table/extract/RowMerger.java:51-62 | the diff's keys are exactly the schema columns whose row value differs from the cached one; a non-null new value maps to what the formatter gives for it (possibly null) and a cleared one to null |
| `Extract.ScannedAgreeing` | simple-demo/simple-demo-table/src/main/java/org/simpleframework/demo/table/extract/RowMerger.java:46-64 | when the cache already agrees with the row on every column, the loop leaves the cache exactly as it was and the diff empty |
| `Extract.ScannedIgnoresOtherKeys` | simple-demo/simple-demo-table/src/main/java/org/simpleframework/demo/table/extract/RowMerger.java:46-48 | the loop reads the row only at schema columns: two rows that agree there give the same cache and diff |
| `Extract.NoChangeIffAgrees` | simple-demo/simple-demo-table/src/main/java/org/simpleframework/demo/table/extract/RowMerger.java:65-68 | an accepted merge reports no change if and only if the cache already agreed with the row on every column |
| `Extract.ResubmitIsNoChange` | simple-demo/simple-demo-table/src/main/java/org/simpleframework/demo/table/extract/RowMerger.java:44-68 | merging the row just accepted again under a higher version reports no change and leaves the cache exactly as it was |
| `Extract.SameVersionTwiceIsDuplicate` | simple-demo/simple-demo-table/src/main/java/org/simpleframework/demo/table/extract/RowMerger.java:36-43 | after any call that passes the size check, a second call of the right size with the same version fails as a duplicate, even if the first call failed |
| `Extract.StaleRewindsCursor` | simple-demo/simple-demo-table/src/main/java/org/simpleframework/demo/table/extract/RowMerger.java:36-40 | a stale call leaves the cache alone but sets the cursor to the stale version, so any later version above it is accepted, including one below the version accepted before |
| `Extract.AcceptedVersionsNotMonotone` | simple-demo/simple-demo-table/src/main/java/org/simpleframework/demo/table/extract/RowMerger.java:36-43 | on a one-column schema versions 5 and then 4 are both accepted, with a stale 3 between them: accepted versions are not monotone |
| `Extract.MissingColumnIsRemoval` | simple-demo/simple-demo-table/src/main/java/org/simpleframework/demo/table/extract/RowMerger.java:30-61 | the size check counts keys only: a row of the right size without a schema column whose cached value is non-null is accepted, and that column is reported and cached as null |
| `Extract.MergeIgnoresOtherKeys` | simple-demo/simple-demo-table/src/main/java/org/simpleframework/demo/table/extract/RowMerger.java:29-48 | two rows of the same size that agree on every schema column give the same new state and result: row keys outside the schema are ignored |

## Left out

- Thread safety: `merge` is `synchronized` and the cursor is an `AtomicLong`. The model is a single-threaded object with a plain integer cursor, and does not model interleavings.
- Exception messages: only the kind of each failure and the numbers it carries are modelled, not the message text.
- Formatter failures: the formatter is a total pure function here. An exception thrown by `RowFormatter.formatRow` would leave the cursor moved and the cache partly updated; that case is not modelled.
- `TableSchema`, `Column`, `RowFormatter` and `RowChange` are not part of this model; the schema is the sequence of its column names and `RowChange` is a plain record.
- Mutable values: the cache keeps the caller's object reference. If the caller mutates that object after a merge and submits it again, `equals` compares the object with itself and the Java code reports no change. The model treats values as immutable and would report the change.
- `Object.equals` and `HashMap` iteration order: values compare with Dafny equality, and the diff is a map with no order.
- Java `long` range for versions: versions are unbounded integers, which agrees with the code because it only compares them.
- `ServerCleaner`, the thread that stops the server's connector, executor and reactor in turn, is not part of this model: it is lifecycle plumbing with no state to verify.
