/** `clean_dataset`: strip every cell, drop repeated rows, fill blank cells, drop
    columns and rename columns, in that order, reporting each step that applied. */
module CsvClean {
  import opened Options
  import opened Strings
  import opened Dicts
  import opened FirstOccurrence
  import opened CsvProfile
  import opened Seqs

  /** The keys `clean_dataset` reads from its config dict. A key the caller left
      out is `None` (or empty), which selects the documented default. */
  datatype CleanConfig = CleanConfig(
    stripWhitespace: Option<bool>,
    removeDuplicates: Option<bool>,
    fillNulls: Dict<string>,
    dropColumns: seq<string>,
    renameColumns: Dict<string>)

  /** `config = None` (or `{}`). */
  const DefaultConfig := CleanConfig(None, None, [], [], [])

  /** One line of the cleaning report. */
  datatype Change =
    | Stripped
    | RemovedDuplicates(removed: nat)
    | Filled(column: string, count: nat, value: string)
    | Dropped(columns: seq<string>)
    | Renamed(mapping: Dict<string>)

  // ---------------------------------------------------------------------------
  // Strip whitespace

  /** A row with every cell stripped, the keys left in place. */
  function StripRow(row: Row): (r: Row)
    ensures |r| == |row|
    ensures forall m :: 0 <= m < |row| ==> r[m] == Entry(row[m].key, Strip(row[m].value))
  {
    seq(|row|, m requires 0 <= m < |row| => Entry(row[m].key, Strip(row[m].value)))
  }

  function StripRows(rows: seq<Row>): (r: seq<Row>)
    ensures |r| == |rows|
    ensures forall i :: 0 <= i < |rows| ==> r[i] == StripRow(rows[i])
  {
    seq(|rows|, i requires 0 <= i < |rows| => StripRow(rows[i]))
  }

  /** Looking a key up in a stripped row gives the stripped value, and the keys are
      those of the row. */
  lemma {:induction false} GetStripRow(row: Row, k: string)
    ensures Keys(StripRow(row)) == Keys(row)
    ensures Get(StripRow(row), k) == match Get(row, k) case Some(v) => Some(Strip(v)) case None => None
    decreases |row|
  {
    if row != [] {
      GetStripRow(row[1..], k);
      assert StripRow(row)[1..] == StripRow(row[1..]);
    }
  }

  /** The loop of `clean_dataset` that strips every value of every row. */
  method StripWhitespace(rows: seq<Row>) returns (out: seq<Row>)
    ensures out == StripRows(rows)
  {
    out := rows;
    for i := 0 to |out|
      invariant |out| == |rows|
      invariant forall j :: 0 <= j < i ==> out[j] == StripRow(rows[j])
      invariant forall j :: i <= j < |rows| ==> out[j] == rows[j]
    {
      var row := out[i];
      for m := 0 to |row|
        invariant |row| == |rows[i]|
        invariant forall n :: 0 <= n < m ==> row[n] == Entry(rows[i][n].key, Strip(rows[i][n].value))
        invariant forall n :: m <= n < |row| ==> row[n] == rows[i][n]
      {
        row := row[m := Entry(row[m].key, Strip(row[m].value))];
      }
      out := out[i := row];
    }
  }

  // ---------------------------------------------------------------------------
  // Remove duplicates

  /** `tuple(sorted(row.items()))`: two rows get the same key exactly when they hold
      the same items (`AsMapEqualIffSameItems`). */
  function RowKey(row: Row): map<string, string> {
    AsMap(row)
  }

  function Deduplicated(rows: seq<Row>): seq<Row> {
    FirstByKey(rows, RowKey, AdmitAll)
  }

  /** The loop with the `seen` set and the `unique` list. */
  method RemoveDuplicateRows(rows: seq<Row>) returns (unique: seq<Row>)
    ensures unique == Deduplicated(rows)
  {
    var seen: set<map<string, string>> := {};
    unique := [];
    for i := 0 to |rows|
      invariant unique == FirstByKey(rows[..i], RowKey, AdmitAll)
      invariant seen == KeySet(unique, RowKey)
    {
      FirstByKeyStep(rows, i, RowKey, AdmitAll);
      var key := RowKey(rows[i]);
      if key !in seen {
        KeySetAppend(unique, rows[i], RowKey);
        seen := seen + {key};
        unique := unique + [rows[i]];
      }
    }
    assert rows[..|rows|] == rows;
  }

  /** After deduplication no two rows hold the same items, and the rows kept are the
      first occurrences, in order, of the input. */
  lemma DeduplicatedFacts(rows: seq<Row>)
    ensures DistinctKeys(Deduplicated(rows), RowKey)
    ensures Deduplicated(rows) == FirstOccurrences(rows, RowKey, AdmitAll)
    ensures IsSubsequence(Deduplicated(rows), rows)
    ensures Deduplicated(Deduplicated(rows)) == Deduplicated(rows)
  {
    FirstByKeyDistinct(rows, RowKey, AdmitAll);
    FirstByKeyIsFirstOccurrences(rows, RowKey, AdmitAll);
    FirstByKeySubsequence(rows, RowKey, AdmitAll);
    FirstByKeyIdempotent(rows, RowKey, AdmitAll);
  }

  /** Two rows with the same columns whose values agree once stripped. */
  ghost predicate SameUpToWhitespace(a: Row, b: Row) {
    (forall k :: k in Keys(a) <==> k in Keys(b))
    && forall k :: k in Keys(a) ==> Strip(Get(a, k).value) == Strip(Get(b, k).value)
  }

  /** With stripping on, rows that differ only in surrounding whitespace have the
      same key, so only the first of them survives deduplication. */
  lemma WhitespaceVariantsCollapse(rows: seq<Row>, i: nat, j: nat)
    requires i < j < |rows| && SameUpToWhitespace(rows[i], rows[j])
    ensures RowKey(StripRow(rows[i])) == RowKey(StripRow(rows[j]))
    ensures !IsFirst(StripRows(rows), j, RowKey, AdmitAll)
  {
    var a, b := StripRow(rows[i]), StripRow(rows[j]);
    forall k ensures k in AsMap(a) <==> k in AsMap(b) {
      GetStripRow(rows[i], k);
      GetStripRow(rows[j], k);
    }
    forall k | k in AsMap(a) ensures AsMap(a)[k] == AsMap(b)[k] {
      GetStripRow(rows[i], k);
      GetStripRow(rows[j], k);
    }
    assert AsMap(a) == AsMap(b);
  }

  /** A stripped row strips to itself. */
  lemma StripRowIdempotent(row: Row)
    ensures StripRow(StripRow(row)) == StripRow(row)
  {
    forall m | 0 <= m < |row| ensures Strip(Strip(row[m].value)) == Strip(row[m].value) {
      StripIdempotent(row[m].value);
    }
  }

  // ---------------------------------------------------------------------------
  // Fill nulls

  /** The cell `row.get(col, "")` is missing or blank. */
  predicate NeedsFill(row: Row, col: string) {
    IsBlank(GetOr(row, col, ""))
  }

  /** `if not row.get(col, "").strip(): row[col] = value`. */
  function FillRow(row: Row, col: string, value: string): Row {
    if NeedsFill(row, col) then Set(row, col, value) else row
  }

  function FilledRows(rows: seq<Row>, col: string, value: string): (r: seq<Row>)
    ensures |r| == |rows|
    ensures forall i :: 0 <= i < |rows| ==> r[i] == FillRow(rows[i], col, value)
  {
    seq(|rows|, i requires 0 <= i < |rows| => FillRow(rows[i], col, value))
  }

  /** Filling a column gives the cell the fill value where it was missing or
      blank, and changes nothing else; a non-blank fill value leaves no row with
      that column missing or blank. */
  lemma FillRowFacts(row: Row, col: string, value: string)
    ensures var r := FillRow(row, col, value);
      && col in Keys(r)
      && (NeedsFill(row, col) ==> Get(r, col) == Some(value))
      && (!NeedsFill(row, col) ==> r == row)
      && (forall k :: k != col ==> Get(r, k) == Get(row, k))
      && (Valid(row) ==> Valid(r))
      && (!IsBlank(value) ==> !NeedsFill(r, col))
  {
    if NeedsFill(row, col) {
      if Valid(row) {
        SetValid(row, col, value);
      }
    }
  }

  /** Filling a column twice with a non-blank value is filling it once. */
  lemma FillRowIdempotent(row: Row, col: string, value: string)
    requires !IsBlank(value)
    ensures FillRow(FillRow(row, col, value), col, value) == FillRow(row, col, value)
  {
    FillRowFacts(row, col, value);
  }

  /** One entry of `fill_nulls`: fills the column in every row and counts the cells filled. */
  method FillColumn(rows: seq<Row>, col: string, value: string) returns (out: seq<Row>, count: nat)
    ensures out == FilledRows(rows, col, value)
    ensures count == |BlankPositions(ColumnValues(rows, col))|
  {
    var values := ColumnValues(rows, col);
    out := rows;
    count := 0;
    for i := 0 to |rows|
      invariant |out| == |rows|
      invariant forall j :: 0 <= j < i ==> out[j] == FillRow(rows[j], col, value)
      invariant forall j :: i <= j < |rows| ==> out[j] == rows[j]
      invariant count == |BlankPositions(values[..i])|
    {
      BlankPositionsStep(values, i);
      var row := out[i];
      if IsBlank(GetOr(row, col, "")) {
        row := Set(row, col, value);
        count := count + 1;
      }
      assert row == FillRow(rows[i], col, value);
      out := out[i := row];
    }
    assert values[..|rows|] == values;
  }

  /** All of `fill_nulls`, one column after another. */
  function FillAll(rows: seq<Row>, fills: Dict<string>): (r: seq<Row>)
    ensures |r| == |rows|
    decreases |fills|
  {
    if fills == [] then rows
    else
      var f := fills[|fills| - 1];
      FilledRows(FillAll(rows, fills[..|fills| - 1]), f.key, f.value)
  }

  /** The report lines of the fill step: one per column with at least one cell filled. */
  function FillLog(rows: seq<Row>, fills: Dict<string>): seq<Change>
    decreases |fills|
  {
    if fills == [] then []
    else
      var init := fills[..|fills| - 1];
      var f := fills[|fills| - 1];
      var count := |BlankPositions(ColumnValues(FillAll(rows, init), f.key))|;
      FillLog(rows, init) + (if count > 0 then [Filled(f.key, count, f.value)] else [])
  }

  // ---------------------------------------------------------------------------
  // Drop and rename columns

  /** `{k: v for k, v in row.items() if k not in drop}`. */
  function DropRow(row: Row, drop: seq<string>): (r: Row)
    ensures |r| <= |row|
    decreases |row|
  {
    if row == [] then []
    else
      var e := row[|row| - 1];
      DropRow(row[..|row| - 1], drop) + (if e.key in drop then [] else [e])
  }

  function DropRows(rows: seq<Row>, drop: seq<string>): (r: seq<Row>)
    ensures |r| == |rows|
    ensures forall i :: 0 <= i < |rows| ==> r[i] == DropRow(rows[i], drop)
  {
    seq(|rows|, i requires 0 <= i < |rows| => DropRow(rows[i], drop))
  }

  /** Dropping removes the dropped columns, keeps every other pair, and keeps the
      remaining pairs in their order. */
  lemma DropRowFacts(row: Row, drop: seq<string>)
    ensures forall k :: k in Keys(DropRow(row, drop)) <==> k in Keys(row) && k !in drop
    ensures forall k :: k !in drop ==> Get(DropRow(row, drop), k) == Get(row, k)
    ensures IsSubsequence(DropRow(row, drop), row)
    ensures Valid(row) ==> Valid(DropRow(row, drop))
  {
    DropRowKeys(row, drop);
    DropRowGet(row, drop);
    DropRowSubsequence(row, drop);
    if Valid(row) {
      DropRowValid(row, drop);
    }
  }

  lemma {:induction false} DropRowKeys(row: Row, drop: seq<string>)
    ensures forall k :: k in Keys(DropRow(row, drop)) <==> k in Keys(row) && k !in drop
    decreases |row|
  {
    if row != [] {
      var n := |row| - 1;
      var init, e := row[..n], row[n];
      InitLast(row);
      DropRowKeys(init, drop);
      KeysAppend(init, e);
      var rest := DropRow(init, drop);
      if e.key !in drop {
        assert DropRow(row, drop) == rest + [e];
        KeysAppend(rest, e);
        assert Keys(DropRow(row, drop)) == Keys(rest) + [e.key];
      } else {
        AppendEmpty(rest);
        assert DropRow(row, drop) == rest;
      }
      forall k ensures k in Keys(DropRow(row, drop)) <==> k in Keys(row) && k !in drop {
        assert k in Keys(row) <==> k in Keys(init) || k == e.key;
      }
    }
  }

  lemma {:induction false} DropRowGet(row: Row, drop: seq<string>)
    ensures forall k :: k !in drop ==> Get(DropRow(row, drop), k) == Get(row, k)
    decreases |row|
  {
    if row != [] {
      var n := |row| - 1;
      var init, e := row[..n], row[n];
      InitLast(row);
      DropRowGet(init, drop);
      if e.key in drop {
        GetAppendDropped(init, e, drop);
      } else {
        DropRowKeys(init, drop);
        GetAppendKept(init, DropRow(init, drop), e, drop);
      }
    }
  }

  lemma {:induction false} DropRowSubsequence(row: Row, drop: seq<string>)
    ensures IsSubsequence(DropRow(row, drop), row)
    decreases |row|
  {
    if row != [] {
      var n := |row| - 1;
      var init, e := row[..n], row[n];
      DropRowSubsequence(init, drop);
      var rest := DropRow(init, drop);
      if e.key !in drop {
        assert DropRow(row, drop) == rest + [e];
        TakeAppend(rest, e);
      } else {
        AppendEmpty(rest);
        assert DropRow(row, drop) == rest;
      }
    }
  }

  lemma {:induction false} DropRowValid(row: Row, drop: seq<string>)
    requires Valid(row)
    ensures Valid(DropRow(row, drop))
    decreases |row|
  {
    if row != [] {
      var n := |row| - 1;
      var init, e := row[..n], row[n];
      assert Valid(init) by {
        forall i, j | 0 <= i < j < n ensures init[i].key != init[j].key {
          assert init[i] == row[i] && init[j] == row[j];
        }
      }
      DropRowValid(init, drop);
      if e.key !in drop {
        DropRowKeys(init, drop);
        assert e.key !in Keys(init) by {
          forall m | 0 <= m < n ensures Keys(init)[m] != e.key {
            assert init[m] == row[m];
          }
        }
        ValidAppend(DropRow(init, drop), e);
      }
    }
  }

  lemma KeysAppend<V>(d: Dict<V>, e: Entry<V>)
    ensures Keys(d + [e]) == Keys(d) + [e.key]
  {
  }

  lemma ValidAppend<V>(d: Dict<V>, e: Entry<V>)
    requires Valid(d) && e.key !in Keys(d)
    ensures Valid(d + [e])
  {
    var r := d + [e];
    forall i, j | 0 <= i < j < |r| ensures r[i].key != r[j].key {
      if j == |d| {
        assert Keys(d)[i] == r[i].key;
      } else {
        assert r[i] == d[i] && r[j] == d[j];
      }
    }
  }

  lemma {:induction false} GetAppend<V>(d: Dict<V>, e: Entry<V>, k: string)
    ensures Get(d + [e], k) == if k in Keys(d) then Get(d, k) else if k == e.key then Some(e.value) else None
    decreases |d|
  {
    if d != [] {
      assert (d + [e])[1..] == d[1..] + [e];
      GetAppend(d[1..], e, k);
      assert Keys(d) == [d[0].key] + Keys(d[1..]);
    }
  }

  lemma GetAppendDropped(init: Row, e: Entry<string>, drop: seq<string>)
    requires e.key in drop
    requires forall k :: k !in drop ==> Get(DropRow(init, drop), k) == Get(init, k)
    ensures forall k :: k !in drop ==> Get(DropRow(init + [e], drop), k) == Get(init + [e], k)
  {
    TakeAppend(init, e);
    var r := DropRow(init, drop);
    assert DropRow(init + [e], drop) == r;
    forall k | k !in drop ensures Get(r, k) == Get(init + [e], k) {
      GetAppend(init, e, k);
      assert k != e.key;
      assert Get(r, k) == Get(init, k);
      if k in Keys(init) {
      } else {
        assert Get(init, k) == None;
      }
    }
  }

  lemma GetAppendKept(init: Row, rest: Row, e: Entry<string>, drop: seq<string>)
    requires e.key !in drop && rest == DropRow(init, drop)
    requires forall k :: k in Keys(rest) <==> k in Keys(init) && k !in drop
    requires forall k :: k !in drop ==> Get(rest, k) == Get(init, k)
    ensures forall k :: k !in drop ==> Get(DropRow(init + [e], drop), k) == Get(init + [e], k)
  {
    TakeAppend(init, e);
    assert DropRow(init + [e], drop) == rest + [e];
    forall k | k !in drop ensures Get(rest + [e], k) == Get(init + [e], k) {
      GetAppend(init, e, k);
      GetAppend(rest, e, k);
    }
  }

  /** `rename.get(k, k)`. */
  function NewName(rename: Dict<string>, k: string): string {
    GetOr(rename, k, k)
  }

  /** The row's keys under their new names, in order, repeats included. */
  function RenamedKeys(row: Row, rename: Dict<string>): (ks: seq<string>)
    ensures |ks| == |row|
    ensures forall i :: 0 <= i < |row| ==> ks[i] == NewName(rename, row[i].key)
  {
    seq(|row|, i requires 0 <= i < |row| => NewName(rename, row[i].key))
  }

  function Values(row: Row): (vs: seq<string>)
    ensures |vs| == |row|
    ensures forall i :: 0 <= i < |row| ==> vs[i] == row[i].value
  {
    seq(|row|, i requires 0 <= i < |row| => row[i].value)
  }

  /** `{rename.get(k, k): v for k, v in row.items()}`: each pair is assigned in turn
      under its new name, so a name produced twice keeps its first position and its
      last value. */
  function RenameRow(row: Row, rename: Dict<string>): Row {
    Assign([], RenamedKeys(row, rename), Values(row))
  }

  function RenameRows(rows: seq<Row>, rename: Dict<string>): (r: seq<Row>)
    ensures |r| == |rows|
    ensures forall i :: 0 <= i < |rows| ==> r[i] == RenameRow(rows[i], rename)
  {
    seq(|rows|, i requires 0 <= i < |rows| => RenameRow(rows[i], rename))
  }

  /** The renamed row is keyed by the distinct new names, in order of first
      appearance, and is a valid dict; a name no key is renamed to is absent. */
  lemma RenameRowKeys(row: Row, rename: Dict<string>)
    ensures Keys(RenameRow(row, rename)) == Distinct(RenamedKeys(row, rename))
    ensures Valid(RenameRow(row, rename))
    ensures forall k :: k in Keys(RenameRow(row, rename)) <==> k in RenamedKeys(row, rename)
  {
    var ks := RenamedKeys(row, rename);
    AssignKeys(ks, Values(row));
    DistinctFacts(ks);
  }

  /** Each new name holds the value of the last pair renamed to it: a pair with no
      later pair taking the same name keeps its value. */
  lemma RenameLastWins(row: Row, rename: Dict<string>, i: nat)
    requires i < |row|
    requires forall j :: i < j < |row| ==> NewName(rename, row[j].key) != NewName(rename, row[i].key)
    ensures Get(RenameRow(row, rename), NewName(rename, row[i].key)) == Some(row[i].value)
  {
    var ks := RenamedKeys(row, rename);
    AssignLastWins([], ks, Values(row), i);
  }

  // ---------------------------------------------------------------------------
  // The whole cleaning

  /** The stages of `clean_dataset`, each on the result of the one before. */
  function AfterStrip(rows: seq<Row>, config: CleanConfig): seq<Row> {
    if config.stripWhitespace.GetOr(true) then StripRows(rows) else rows
  }

  function AfterDedup(rows: seq<Row>, config: CleanConfig): seq<Row> {
    var s := AfterStrip(rows, config);
    if config.removeDuplicates.GetOr(true) then Deduplicated(s) else s
  }

  function AfterFill(rows: seq<Row>, config: CleanConfig): seq<Row> {
    FillAll(AfterDedup(rows, config), config.fillNulls)
  }

  function AfterDrop(rows: seq<Row>, config: CleanConfig): seq<Row> {
    var f := AfterFill(rows, config);
    if config.dropColumns != [] then DropRows(f, config.dropColumns) else f
  }

  /** The rows `clean_dataset` returns. */
  function Cleaned(rows: seq<Row>, config: CleanConfig): seq<Row> {
    var d := AfterDrop(rows, config);
    if config.renameColumns != [] then RenameRows(d, config.renameColumns) else d
  }

  /** The report `clean_dataset` prints, step by step. */
  function StripLog(config: CleanConfig): seq<Change> {
    if config.stripWhitespace.GetOr(true) then [Stripped] else []
  }

  function DedupLog(rows: seq<Row>, config: CleanConfig): seq<Change> {
    var s := AfterStrip(rows, config);
    var removed := |s| - |Deduplicated(s)|;
    if config.removeDuplicates.GetOr(true) && removed > 0 then [RemovedDuplicates(removed)] else []
  }

  function DropLog(config: CleanConfig): seq<Change> {
    if config.dropColumns != [] then [Dropped(config.dropColumns)] else []
  }

  function RenameLog(config: CleanConfig): seq<Change> {
    if config.renameColumns != [] then [Renamed(config.renameColumns)] else []
  }

  function CleanLog(rows: seq<Row>, config: CleanConfig): seq<Change> {
    StripLog(config) + DedupLog(rows, config) + FillLog(AfterDedup(rows, config), config.fillNulls)
    + DropLog(config) + RenameLog(config)
  }

  /** The `fill_nulls` loop: each column in turn, with a report line for each
      column where something was filled. */
  method FillNulls(rows: seq<Row>, fills: Dict<string>) returns (out: seq<Row>, log: seq<Change>)
    ensures out == FillAll(rows, fills)
    ensures log == FillLog(rows, fills)
  {
    out := rows;
    log := [];
    for f := 0 to |fills|
      invariant out == FillAll(rows, fills[..f])
      invariant log == FillLog(rows, fills[..f])
    {
      TakeTake(fills, f);
      var col, value := fills[f].key, fills[f].value;
      var filled, count := FillColumn(out, col, value);
      if count > 0 {
        log := log + [Filled(col, count, value)];
      }
      out := filled;
    }
    TakeAll(fills);
  }

  /** `clean_dataset(headers, rows, config)`. The rows are values, so the caller's
      rows are never changed; `headers` is accepted and not used, as in the source. */
  method CleanDataset(headers: seq<string>, rows: seq<Row>, config: CleanConfig)
    returns (cleaned: seq<Row>, changes: seq<Change>)
    ensures cleaned == Cleaned(rows, config)
    ensures changes == CleanLog(rows, config)
  {
    cleaned := rows;
    changes := [];

    if config.stripWhitespace.GetOr(true) {
      cleaned := StripWhitespace(cleaned);
      changes := changes + [Stripped];
    }
    assert cleaned == AfterStrip(rows, config);
    assert changes == StripLog(config);

    if config.removeDuplicates.GetOr(true) {
      var unique := RemoveDuplicateRows(cleaned);
      var removed := |cleaned| - |unique|;
      if removed > 0 {
        changes := changes + [RemovedDuplicates(removed)];
      }
      cleaned := unique;
    }
    assert cleaned == AfterDedup(rows, config);
    assert changes == StripLog(config) + DedupLog(rows, config);

    var filled, fillLog := FillNulls(cleaned, config.fillNulls);
    cleaned := filled;
    changes := changes + fillLog;
    assert cleaned == AfterFill(rows, config);

    if config.dropColumns != [] {
      cleaned := DropRows(cleaned, config.dropColumns);
      changes := changes + [Dropped(config.dropColumns)];
    }
    assert cleaned == AfterDrop(rows, config);

    if config.renameColumns != [] {
      cleaned := RenameRows(cleaned, config.renameColumns);
      changes := changes + [Renamed(config.renameColumns)];
    }
  }

  /** Filling, dropping and renaming keep the number of rows; only deduplication
      can make it smaller, and with it off every row is kept. */
  lemma CleanedRowCount(rows: seq<Row>, config: CleanConfig)
    ensures |Cleaned(rows, config)| == |AfterDedup(rows, config)| <= |rows|
    ensures !config.removeDuplicates.GetOr(true) ==> |Cleaned(rows, config)| == |rows|
  {
  }

  /** With deduplication on, the deduplicated rows hold pairwise different items
      and are the first occurrences of the (stripped) rows. */
  lemma AfterDedupFacts(rows: seq<Row>, config: CleanConfig)
    requires config.removeDuplicates.GetOr(true)
    ensures DistinctKeys(AfterDedup(rows, config), RowKey)
    ensures AfterDedup(rows, config) == FirstOccurrences(AfterStrip(rows, config), RowKey, AdmitAll)
    ensures IsSubsequence(AfterDedup(rows, config), AfterStrip(rows, config))
  {
    DeduplicatedFacts(AfterStrip(rows, config));
  }

  /** Stripping and deduplicating a second time changes nothing. */
  lemma StripDedupIdempotent(rows: seq<Row>, config: CleanConfig)
    ensures AfterDedup(AfterDedup(rows, config), config) == AfterDedup(rows, config)
  {
    var s := AfterStrip(rows, config);
    var d := AfterDedup(rows, config);
    if config.stripWhitespace.GetOr(true) {
      assert AfterStrip(d, config) == d by {
        StripRowsOfSubsequence(rows, d, config);
      }
    }
    if config.removeDuplicates.GetOr(true) {
      DeduplicatedFacts(s);
    }
  }

  lemma StripRowsOfSubsequence(rows: seq<Row>, d: seq<Row>, config: CleanConfig)
    requires config.stripWhitespace.GetOr(true)
    requires d == AfterDedup(rows, config)
    ensures StripRows(d) == d
  {
    var s := StripRows(rows);
    forall r | r in s ensures StripRow(r) == r {
      var i :| 0 <= i < |s| && s[i] == r;
      StripRowIdempotent(rows[i]);
    }
    if config.removeDuplicates.GetOr(true) {
      FirstByKeySubsequence(s, RowKey, AdmitAll);
      SubsequenceMembers(d, s);
    }
    forall i | 0 <= i < |d| ensures StripRows(d)[i] == d[i] {
      assert d[i] in d;
    }
  }

  lemma {:induction false} SubsequenceMembers<T>(a: seq<T>, b: seq<T>)
    requires IsSubsequence(a, b)
    ensures forall x :: x in a ==> x in b
    decreases |b|
  {
    if a != [] {
      var a', b' := a[..|a| - 1], b[..|b| - 1];
      if a[|a| - 1] == b[|b| - 1] && IsSubsequence(a', b') {
        SubsequenceMembers(a', b');
        assert a == a' + [a[|a| - 1]];
        assert b == b' + [b[|b| - 1]];
      } else {
        SubsequenceMembers(a, b');
        assert b == b' + [b[|b| - 1]];
      }
    }
  }
}
