/**
 * A model of RowMerger, the per-row change detector of the table demo.
 *
 * A merger remembers, for one table row, the last raw value it saw in each
 * column and the last version it was handed. Merging a full row snapshot
 * checks the snapshot's size against the schema, swaps the version cursor,
 * rejects stale and duplicate versions, and then walks the schema columns in
 * order, recording in a diff every column whose raw value changed (formatted
 * for display) or was cleared (an explicit null).
 *
 * Java `null` is `None`. A Java map that is read with `get` answers `null`
 * both for a missing key and for a key bound to `null`; `Get` reads a model
 * map the same way.
 */
module Extract {

  datatype Option<T> = None | Some(value: T)

  /** A row snapshot or the cache: column name to raw value, where a key may be bound to null. */
  type Values<V> = map<string, Option<V>>

  /** The change record handed downstream: the changed cells, the row index and the version. */
  datatype RowChange = RowChange(changes: map<string, Option<string>>, index: int, version: int)

  /** What `merge` does: one of its three exceptions, `null` (no change), or a change record. */
  datatype MergeResult =
    | SchemaMismatch(require: int, actual: int)
    | StaleVersion(state: int, version: int)
    | DuplicateVersion(version: int)
    | NoChange
    | Changed(change: RowChange)

  /** The two mutable fields of a merger: the cache and the revision cursor. */
  datatype MergerState<V> = MergerState(cache: Values<V>, revision: int)

  datatype Outcome<V> = Outcome(state: MergerState<V>, result: MergeResult)

  /** The cursor value of a fresh merger, below every version. */
  const InitialRevision: int := -1

  /** Reads a column the way `Map.get` does: absent and null are both null. */
  function Get<V>(m: Values<V>, name: string): Option<V>
  {
    if name in m then m[name] else None
  }

  /**
   * The diff entry for a changed column: what the formatter makes of the new
   * value (the formatter may itself answer null), or null for a removal.
   */
  function Shown<V>(format: (string, V) -> Option<string>, name: string, current: Option<V>): Option<string>
  {
    match current
    case Some(c) => format(name, c)
    case None => None
  }

  /** The cache and the diff while the columns are being walked. */
  datatype Scan<V> = Scan(cache: Values<V>, diff: map<string, Option<string>>)

  /** One pass of the column loop: compare the row's value with the cached one and record a change. */
  function Step<V(==)>(format: (string, V) -> Option<string>, row: Values<V>, s: Scan<V>, name: string): Scan<V>
  {
    var current := Get(row, name);
    var previous := Get(s.cache, name);
    if current.Some? then
      if current != previous then Scan(s.cache[name := current], s.diff[name := format(name, current.value)])
      else s
    else if previous != None then Scan(s.cache[name := None], s.diff[name := None])
    else s
  }

  /** The column loop run over `names`, starting from `cache` and an empty diff. */
  function Scanned<V(==)>(format: (string, V) -> Option<string>, row: Values<V>, cache: Values<V>, names: seq<string>): Scan<V>
    decreases |names|
  {
    if names == [] then Scan(cache, map[])
    else Step(format, row, Scanned(format, row, cache, names[..|names| - 1]), names[|names| - 1])
  }

  /** After a merge, every schema column reads as it does in the row. */
  ghost predicate Agrees<V>(cache: Values<V>, row: Values<V>, names: seq<string>)
  {
    forall n :: n in names ==> Get(cache, n) == Get(row, n)
  }

  /** The cache entries of names outside the schema are exactly as they were. */
  ghost predicate SameOutside<V>(after: Values<V>, before: Values<V>, names: seq<string>)
  {
    forall n :: n !in names ==> (n in after <==> n in before) && (n in after ==> after[n] == before[n])
  }

  /**
   * `diff` holds exactly the schema columns whose row value differs from the
   * cached one, each bound to the formatted new value or to null for a removal
   * (a formatter that answers null makes a change look like a removal).
   */
  ghost predicate IsDiff<V>(diff: map<string, Option<string>>, format: (string, V) -> Option<string>,
                            before: Values<V>, row: Values<V>, names: seq<string>)
  {
    && (forall n :: n in diff <==> n in names && Get(row, n) != Get(before, n))
    && (forall n :: n in diff ==> diff[n] == Shown(format, n, Get(row, n)))
  }

  lemma {:induction false} ScannedCache<V>(format: (string, V) -> Option<string>, row: Values<V>, cache: Values<V>, names: seq<string>)
    ensures Agrees(Scanned(format, row, cache, names).cache, row, names)
    ensures SameOutside(Scanned(format, row, cache, names).cache, cache, names)
    decreases |names|
  {
    if names != [] {
      var init, last := names[..|names| - 1], names[|names| - 1];
      ScannedCache(format, row, cache, init);
      assert names == init + [last];
    }
  }

  lemma {:induction false} ScannedDiff<V>(format: (string, V) -> Option<string>, row: Values<V>, cache: Values<V>, names: seq<string>)
    ensures IsDiff(Scanned(format, row, cache, names).diff, format, cache, row, names)
    decreases |names|
  {
    if names != [] {
      var init, last := names[..|names| - 1], names[|names| - 1];
      ScannedDiff(format, row, cache, init);
      ScannedCache(format, row, cache, init);
      assert names == init + [last];
    }
  }

  /** A cache that already agrees with the row is left exactly as it is, with an empty diff. */
  lemma {:induction false} ScannedAgreeing<V>(format: (string, V) -> Option<string>, row: Values<V>, cache: Values<V>, names: seq<string>)
    requires Agrees(cache, row, names)
    ensures Scanned(format, row, cache, names) == Scan(cache, map[])
    decreases |names|
  {
    if names != [] {
      var init := names[..|names| - 1];
      assert forall n :: n in init ==> n in names;
      ScannedAgreeing(format, row, cache, init);
    }
  }

  /** Two rows that read alike on the schema columns scan alike: other row keys are ignored. */
  lemma {:induction false} ScannedIgnoresOtherKeys<V>(format: (string, V) -> Option<string>, row1: Values<V>, row2: Values<V>,
                                                      cache: Values<V>, names: seq<string>)
    requires forall n :: n in names ==> Get(row1, n) == Get(row2, n)
    ensures Scanned(format, row1, cache, names) == Scanned(format, row2, cache, names)
    decreases |names|
  {
    if names != [] {
      var init := names[..|names| - 1];
      assert forall n :: n in init ==> n in names;
      ScannedIgnoresOtherKeys(format, row1, row2, cache, init);
    }
  }

  /**
   * One call of `merge` on a merger whose schema has the column names
   * `columns`, whose formatter is `format` and whose row index is `index`.
   */
  function MergeRow<V(==)>(columns: seq<string>, format: (string, V) -> Option<string>, index: int,
                           s: MergerState<V>, row: Values<V>, version: int): (out: Outcome<V>)
    // shape check: by count only, and it changes nothing
    ensures |row| != |columns| <==> out.result.SchemaMismatch?
    ensures |row| != |columns| ==> out == Outcome(s, SchemaMismatch(|columns|, |row|))
    // once the shape check passes the cursor holds the submitted version, whatever follows
    ensures |row| == |columns| ==> out.state.revision == version
    // version errors leave the cache alone
    ensures |row| == |columns| && s.revision > version ==> out.result == StaleVersion(s.revision, version)
    ensures |row| == |columns| && s.revision == version ==> out.result == DuplicateVersion(version)
    ensures |row| == |columns| && s.revision >= version ==> out.state.cache == s.cache
    // an accepted merge
    ensures out.result.NoChange? || out.result.Changed? <==> |row| == |columns| && s.revision < version
    ensures out.result.NoChange? || out.result.Changed? ==>
              && Agrees(out.state.cache, row, columns)
              && SameOutside(out.state.cache, s.cache, columns)
    ensures out.result.NoChange? ==> IsDiff(map[], format, s.cache, row, columns)
    ensures out.result.Changed? ==>
              && out.result.change.changes != map[]
              && IsDiff(out.result.change.changes, format, s.cache, row, columns)
              && out.result.change.index == index
              && out.result.change.version == version
  {
    if |columns| != |row| then Outcome(s, SchemaMismatch(|columns|, |row|))
    else
      var state := s.revision;
      if state > version then Outcome(MergerState(s.cache, version), StaleVersion(state, version))
      else if state == version then Outcome(MergerState(s.cache, version), DuplicateVersion(version))
      else
        var scan := Scanned(format, row, s.cache, columns);
        ScannedCache(format, row, s.cache, columns);
        ScannedDiff(format, row, s.cache, columns);
        var result := if scan.diff != map[] then Changed(RowChange(scan.diff, index, version)) else NoChange;
        Outcome(MergerState(scan.cache, version), result)
  }

  /** An accepted merge reports no change exactly when the cache already agreed with the row. */
  lemma NoChangeIffAgrees<V>(columns: seq<string>, format: (string, V) -> Option<string>, index: int,
                            s: MergerState<V>, row: Values<V>, version: int)
    requires |row| == |columns| && s.revision < version
    ensures MergeRow(columns, format, index, s, row, version).result.NoChange? <==> Agrees(s.cache, row, columns)
  {
  }

  /**
   * Submitting, with a higher version, the very row that was just accepted
   * reports no change and leaves the cache as it was.
   */
  lemma ResubmitIsNoChange<V>(columns: seq<string>, format: (string, V) -> Option<string>, index: int,
                             s: MergerState<V>, row: Values<V>, version: int, later: int)
    requires |row| == |columns| && s.revision < version < later
    ensures var s1 := MergeRow(columns, format, index, s, row, version).state;
            MergeRow(columns, format, index, s1, row, later) == Outcome(MergerState(s1.cache, later), NoChange)
  {
    var s1 := MergeRow(columns, format, index, s, row, version).state;
    ScannedAgreeing(format, row, s1.cache, columns);
  }

  /** Once the shape check passes, handing the same version in again is a duplicate, whatever the first call did. */
  lemma SameVersionTwiceIsDuplicate<V>(columns: seq<string>, format: (string, V) -> Option<string>, index: int,
                                      s: MergerState<V>, row: Values<V>, row2: Values<V>, version: int)
    requires |row| == |columns| == |row2|
    ensures var s1 := MergeRow(columns, format, index, s, row, version).state;
            MergeRow(columns, format, index, s1, row2, version).result == DuplicateVersion(version)
  {
  }

  /**
   * A stale rejection moves the cursor down to the stale version, so a later
   * version that is still below the one accepted before is no longer refused.
   */
  lemma StaleRewindsCursor<V>(columns: seq<string>, format: (string, V) -> Option<string>, index: int,
                             s: MergerState<V>, row: Values<V>, row2: Values<V>, stale: int, later: int)
    requires |row| == |columns| == |row2|
    requires stale < s.revision && stale < later
    ensures var s1 := MergeRow(columns, format, index, s, row, stale);
            && s1.result == StaleVersion(s.revision, stale)
            && s1.state == MergerState(s.cache, stale)
            && var r := MergeRow(columns, format, index, s1.state, row2, later).result;
               r.NoChange? || r.Changed?
  {
  }

  /**
   * Accepted versions are not monotone: on a one-column schema, version 5 is
   * accepted, version 3 is refused as stale, and then version 4 is accepted.
   */
  lemma AcceptedVersionsNotMonotone()
    ensures var columns, format := ["a"], (n: string, v: int) => Some("cell");
            var s0 := MergerState(map[], InitialRevision);
            var o1 := MergeRow(columns, format, 0, s0, map["a" := Some(1)], 5);
            var o2 := MergeRow(columns, format, 0, o1.state, map["a" := Some(1)], 3);
            var o3 := MergeRow(columns, format, 0, o2.state, map["a" := Some(2)], 4);
            && o1.result.Changed? && o1.result.change.version == 5
            && o2.result == StaleVersion(5, 3)
            && o3.result.Changed? && o3.result.change.version == 4
  {
  }

  /**
   * The shape check counts keys only: a row of the right size that lacks a
   * schema column reads that column as null, which removes a cached value.
   */
  lemma MissingColumnIsRemoval<V>(columns: seq<string>, format: (string, V) -> Option<string>, index: int,
                                 s: MergerState<V>, row: Values<V>, version: int, name: string)
    requires |row| == |columns| && s.revision < version
    requires name in columns && name !in row && Get(s.cache, name) != None
    ensures var out := MergeRow(columns, format, index, s, row, version);
            && out.result.Changed?
            && name in out.result.change.changes
            && out.result.change.changes[name] == None
            && Get(out.state.cache, name) == None
  {
  }

  /** Rows of the same size that read alike on the schema columns merge alike. */
  lemma MergeIgnoresOtherKeys<V>(columns: seq<string>, format: (string, V) -> Option<string>, index: int,
                                s: MergerState<V>, row1: Values<V>, row2: Values<V>, version: int)
    requires |row1| == |row2|
    requires forall n :: n in columns ==> Get(row1, n) == Get(row2, n)
    ensures MergeRow(columns, format, index, s, row1, version) == MergeRow(columns, format, index, s, row2, version)
  {
    ScannedIgnoresOtherKeys(format, row1, row2, s.cache, columns);
  }

  /** The merger of one table row. */
  class RowMerger<V(==)> {
    var cache: Values<V>
    var revision: int
    const columns: seq<string>
    const format: (string, V) -> Option<string>
    const index: int

    function State(): MergerState<V>
      reads this
    {
      MergerState(cache, revision)
    }

    constructor (columns: seq<string>, format: (string, V) -> Option<string>, index: int)
      ensures State() == MergerState(map[], InitialRevision)
      ensures this.columns == columns && this.format == format && this.index == index
    {
      this.cache := map[];
      this.revision := InitialRevision;
      this.columns := columns;
      this.format := format;
      this.index := index;
    }

    method Merge(row: Values<V>, version: int) returns (r: MergeResult)
      modifies this
      ensures Outcome(State(), r) == MergeRow(columns, format, index, old(State()), row, version)
    {
      var require := |columns|;
      var actual := |row|;
      if require != actual {
        return SchemaMismatch(require, actual);
      }
      var state := revision;
      revision := version;
      if state > version {
        return StaleVersion(state, version);
      }
      if state == version {
        return DuplicateVersion(version);
      }
      var difference: map<string, Option<string>> := map[];
      var i := 0;
      while i < |columns|
        invariant 0 <= i <= |columns|
        invariant revision == version
        invariant Scan(cache, difference) == Scanned(format, row, old(cache), columns[..i])
      {
        var name := columns[i];
        var current := Get(row, name);
        var previous := Get(cache, name);
        if current.Some? {
          if current != previous {
            var value := format(name, current.value);
            difference := difference[name := value];
            cache := cache[name := current];
          }
        } else if previous != None {
          difference := difference[name := None];
          cache := cache[name := None];
        }
        assert columns[..i + 1][..i] == columns[..i];
        i := i + 1;
      }
      assert columns[..i] == columns;
      if difference != map[] {
        return Changed(RowChange(difference, index, version));
      }
      return NoChange;
    }
  }
}
