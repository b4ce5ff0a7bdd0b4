/** `aggregate`: group rows by one column and reduce the numbers of another,
    one record per group, groups in ascending key order. */
module CsvAggregate {
  import opened Options
  import opened Seqs
  import opened Numbers
  import opened Dicts
  import opened FirstOccurrence
  import opened StringOrder
  import opened CsvProfile

  /** The reductions `aggregate` knows by name. */
  datatype Reducer = SumOf | MeanOf | CountOf | MinOf | MaxOf

  /** `{...}.get(agg_func, sum(values))`: an unknown name falls back to the sum. */
  function ReducerOf(aggFunc: string): (r: Reducer)
    ensures aggFunc !in ["sum", "mean", "count", "min", "max"] ==> r == SumOf
  {
    if aggFunc == "mean" then MeanOf
    else if aggFunc == "count" then CountOf
    else if aggFunc == "min" then MinOf
    else if aggFunc == "max" then MaxOf
    else SumOf
  }

  /** The value of one reduction over a group's numbers (before rounding). */
  function Reduce(r: Reducer, values: seq<real>): real
    requires values != []
  {
    match r
    case SumOf => Sum(values)
    case MeanOf => Mean(values)
    case CountOf => |values| as real
    case MinOf => SeqMin(values)
    case MaxOf => SeqMax(values)
  }

  /** One output record: `{group_by: key, f"{agg_func}_{agg_col}": value, "count": n}`. */
  datatype AggRow = AggRow(key: string, valueName: string, value: real, count: nat)

  /** `row.get(group_by, "")`. */
  function GroupKey(row: Row, groupBy: string): string {
    GetOr(row, groupBy, "")
  }

  /** `float(row.get(agg_col, 0))`: a missing column reads as 0, a cell that does not
      parse is `None` and its row is skipped. */
  function RowValue(row: Row, aggCol: string): (v: Option<real>)
    ensures aggCol !in Keys(row) ==> v == Some(0.0)
  {
    match Get(row, aggCol)
    case None => Some(0.0)
    case Some(s) => ParseNumber(s)
  }

  /** The group key of every row whose value parses, in row order. */
  function ParsedKeys(rows: seq<Row>, groupBy: string, aggCol: string): seq<string>
    decreases |rows|
  {
    if rows == [] then []
    else
      var row := rows[|rows| - 1];
      ParsedKeys(rows[..|rows| - 1], groupBy, aggCol)
      + (if RowValue(row, aggCol).Some? then [GroupKey(row, groupBy)] else [])
  }

  /** The numbers of the rows in group `key`, in row order. */
  function GroupValues(rows: seq<Row>, groupBy: string, aggCol: string, key: string): seq<real>
    decreases |rows|
  {
    if rows == [] then []
    else
      var row := rows[|rows| - 1];
      GroupValues(rows[..|rows| - 1], groupBy, aggCol, key)
      + (if RowValue(row, aggCol).Some? && GroupKey(row, groupBy) == key then [RowValue(row, aggCol).value] else [])
  }

  /** The `groups` dict after the first loop: `groups.setdefault(key, []).append(val)` per row. */
  function Groups(rows: seq<Row>, groupBy: string, aggCol: string): Dict<seq<real>>
    decreases |rows|
  {
    if rows == [] then []
    else
      var g := Groups(rows[..|rows| - 1], groupBy, aggCol);
      var row := rows[|rows| - 1];
      match RowValue(row, aggCol)
      case None => g
      case Some(v) =>
        var k := GroupKey(row, groupBy);
        Set(g, k, GetOr(g, k, []) + [v])
  }

  /** A key has numbers exactly when some row with that key parses. */
  lemma {:induction false} GroupValuesEmpty(rows: seq<Row>, groupBy: string, aggCol: string, k: string)
    ensures GroupValues(rows, groupBy, aggCol, k) == [] <==> k !in ParsedKeys(rows, groupBy, aggCol)
    decreases |rows|
  {
    if rows != [] {
      var n := |rows| - 1;
      var init, row := rows[..n], rows[n];
      GroupValuesEmpty(init, groupBy, aggCol, k);
      var ks := ParsedKeys(init, groupBy, aggCol);
      var tail := if RowValue(row, aggCol).Some? then [GroupKey(row, groupBy)] else [];
      assert k in ParsedKeys(rows, groupBy, aggCol) <==> k in ks || k in tail;
    }
  }

  /** Each group holds exactly the numbers of its rows; keys of rows whose value does
      not parse get no group. */
  lemma {:induction false} GroupsGet(rows: seq<Row>, groupBy: string, aggCol: string, k: string)
    ensures Get(Groups(rows, groupBy, aggCol), k)
         == if k in ParsedKeys(rows, groupBy, aggCol) then Some(GroupValues(rows, groupBy, aggCol, k)) else None
    decreases |rows|
  {
    if rows != [] {
      var n := |rows| - 1;
      var init, row := rows[..n], rows[n];
      GroupsGet(init, groupBy, aggCol, k);
      var ks := ParsedKeys(init, groupBy, aggCol);
      var vs := GroupValues(init, groupBy, aggCol, k);
      if RowValue(row, aggCol).None? {
        assert ParsedKeys(rows, groupBy, aggCol) == ks + [];
        assert GroupValues(rows, groupBy, aggCol, k) == vs + [];
        AppendEmpty(ks);
        AppendEmpty(vs);
      } else if GroupKey(row, groupBy) != k {
        var key := GroupKey(row, groupBy);
        assert k in ParsedKeys(rows, groupBy, aggCol) <==> k in ks;
        assert GroupValues(rows, groupBy, aggCol, k) == vs + [];
        AppendEmpty(vs);
      } else {
        GroupValuesEmpty(init, groupBy, aggCol, k);
        assert k in ParsedKeys(rows, groupBy, aggCol);
      }
    }
  }

  /** The groups are keyed by the distinct parsed keys, in order of first appearance. */
  lemma {:induction false} GroupsKeys(rows: seq<Row>, groupBy: string, aggCol: string)
    ensures Keys(Groups(rows, groupBy, aggCol)) == Distinct(ParsedKeys(rows, groupBy, aggCol))
    ensures Valid(Groups(rows, groupBy, aggCol))
    decreases |rows|
  {
    if rows != [] {
      var n := |rows| - 1;
      var init, row := rows[..n], rows[n];
      GroupsKeys(init, groupBy, aggCol);
      var g := Groups(init, groupBy, aggCol);
      var ks := ParsedKeys(init, groupBy, aggCol);
      if RowValue(row, aggCol).None? {
        assert ParsedKeys(rows, groupBy, aggCol) == ks + [];
        AppendEmpty(ks);
      } else {
        var v := RowValue(row, aggCol).value;
        var key := GroupKey(row, groupBy);
        var vs := GetOr(g, key, []) + [v];
        assert Groups(rows, groupBy, aggCol) == Set(g, key, vs);
        assert ParsedKeys(rows, groupBy, aggCol) == ks + [key];
        SetKeysAppend(g, ks, key, vs);
        SetValid(g, key, vs);
      }
    }
  }

  /** A key with at least one parsed row has a non-empty group. */
  lemma GroupValuesNonEmpty(rows: seq<Row>, groupBy: string, aggCol: string, k: string)
    requires k in ParsedKeys(rows, groupBy, aggCol)
    ensures GroupValues(rows, groupBy, aggCol, k) != []
  {
    GroupValuesEmpty(rows, groupBy, aggCol, k);
  }

  /** A row whose value does not parse changes no group. */
  lemma SkipUnparsed(rows: seq<Row>, row: Row, groupBy: string, aggCol: string, key: string)
    requires RowValue(row, aggCol).None?
    ensures GroupValues(rows + [row], groupBy, aggCol, key) == GroupValues(rows, groupBy, aggCol, key)
    ensures ParsedKeys(rows + [row], groupBy, aggCol) == ParsedKeys(rows, groupBy, aggCol)
  {
    TakeAppend(rows, row);
    AppendEmpty(GroupValues(rows, groupBy, aggCol, key));
    AppendEmpty(ParsedKeys(rows, groupBy, aggCol));
  }

  /** A row without the value column counts as 0 in its group, and a row without
      the group column falls in the group `""`. */
  lemma MissingColumns(rows: seq<Row>, row: Row, groupBy: string, aggCol: string)
    requires aggCol !in Keys(row)
    ensures GroupValues(rows + [row], groupBy, aggCol, GroupKey(row, groupBy))
         == GroupValues(rows, groupBy, aggCol, GroupKey(row, groupBy)) + [0.0]
    ensures groupBy !in Keys(row) ==> GroupKey(row, groupBy) == ""
  {
    TakeAppend(rows, row);
  }

  /** `{group_by: key, f"{agg_func}_{agg_col}": value, "count": len(values)}` for one group. */
  function MakeRecord(key: string, aggCol: string, aggFunc: string, values: seq<real>): AggRow
    requires values != []
  {
    AggRow(key, aggFunc + "_" + aggCol, Reduce(ReducerOf(aggFunc), values), |values|)
  }

  /** The output record of group `key`. */
  function Record(rows: seq<Row>, groupBy: string, aggCol: string, aggFunc: string, key: string): AggRow
    requires key in ParsedKeys(rows, groupBy, aggCol)
  {
    GroupValuesNonEmpty(rows, groupBy, aggCol, key);
    MakeRecord(key, aggCol, aggFunc, GroupValues(rows, groupBy, aggCol, key))
  }

  /** The sorted group keys. */
  function GroupKeys(rows: seq<Row>, groupBy: string, aggCol: string): seq<string> {
    Sort(Keys(Groups(rows, groupBy, aggCol)))
  }

  /** The output records, one per group in ascending key order. */
  function Aggregated(rows: seq<Row>, groupBy: string, aggCol: string, aggFunc: string): seq<AggRow> {
    var keys := GroupKeys(rows, groupBy, aggCol);
    GroupKeysFacts(rows, groupBy, aggCol);
    seq(|keys|, m requires 0 <= m < |keys| => Record(rows, groupBy, aggCol, aggFunc, keys[m]))
  }

  /** The sorted group keys are strictly ascending and are exactly the parsed keys. */
  lemma GroupKeysFacts(rows: seq<Row>, groupBy: string, aggCol: string)
    ensures var keys := GroupKeys(rows, groupBy, aggCol);
      && StrictlyAscending(keys)
      && (forall k :: k in keys <==> k in ParsedKeys(rows, groupBy, aggCol))
  {
    var ks := Keys(Groups(rows, groupBy, aggCol));
    var keys := Sort(ks);
    GroupsKeys(rows, groupBy, aggCol);
    DistinctFacts(ParsedKeys(rows, groupBy, aggCol));
    SortAscending(ks);
    forall k ensures k in keys <==> k in ks {
      assert k in keys <==> k in multiset(keys);
    }
  }

  /** The records are in strictly ascending key order, there is one per parsed key,
      and each holds its group's reduction, size and value column name. */
  lemma AggregatedFacts(rows: seq<Row>, groupBy: string, aggCol: string, aggFunc: string)
    ensures var result := Aggregated(rows, groupBy, aggCol, aggFunc);
      && (forall i, j :: 0 <= i < j < |result| ==> Less(result[i].key, result[j].key))
      && (forall k :: (exists j :: 0 <= j < |result| && result[j].key == k) <==> k in ParsedKeys(rows, groupBy, aggCol))
      && (forall j :: 0 <= j < |result| ==>
            var values := GroupValues(rows, groupBy, aggCol, result[j].key);
            && values != []
            && result[j].count == |values|
            && result[j].value == Reduce(ReducerOf(aggFunc), values)
            && result[j].valueName == aggFunc + "_" + aggCol)
  {
    var result := Aggregated(rows, groupBy, aggCol, aggFunc);
    var keys := GroupKeys(rows, groupBy, aggCol);
    GroupKeysFacts(rows, groupBy, aggCol);
    assert forall j :: 0 <= j < |result| ==> result[j].key == keys[j];
    forall j | 0 <= j < |result| ensures GroupValues(rows, groupBy, aggCol, result[j].key) != [] {
      assert keys[j] in keys;
      GroupValuesNonEmpty(rows, groupBy, aggCol, keys[j]);
    }
    forall k ensures (exists j :: 0 <= j < |result| && result[j].key == k) <==> k in ParsedKeys(rows, groupBy, aggCol) {
      if k in ParsedKeys(rows, groupBy, aggCol) {
        assert k in keys;
        var j :| 0 <= j < |keys| && keys[j] == k;
        assert result[j].key == k;
      }
    }
  }

  /** Each sorted group key is a parsed key whose entry in the groups dict is its
      non-empty group. */
  lemma GroupsLookup(rows: seq<Row>, groupBy: string, aggCol: string)
    ensures var keys := GroupKeys(rows, groupBy, aggCol);
      forall l :: 0 <= l < |keys| ==>
        && keys[l] in ParsedKeys(rows, groupBy, aggCol)
        && GetOr(Groups(rows, groupBy, aggCol), keys[l], []) == GroupValues(rows, groupBy, aggCol, keys[l])
        && GroupValues(rows, groupBy, aggCol, keys[l]) != []
  {
    var keys := GroupKeys(rows, groupBy, aggCol);
    GroupKeysFacts(rows, groupBy, aggCol);
    forall l | 0 <= l < |keys|
      ensures keys[l] in ParsedKeys(rows, groupBy, aggCol)
      ensures GetOr(Groups(rows, groupBy, aggCol), keys[l], []) == GroupValues(rows, groupBy, aggCol, keys[l])
      ensures GroupValues(rows, groupBy, aggCol, keys[l]) != []
    {
      assert keys[l] in keys;
      GroupsGet(rows, groupBy, aggCol, keys[l]);
      GroupValuesNonEmpty(rows, groupBy, aggCol, keys[l]);
    }
  }

  /** The records built from the groups dict, one per sorted key, are the output. */
  lemma AggregatedByRecords(rows: seq<Row>, groupBy: string, aggCol: string, aggFunc: string, result: seq<AggRow>)
    requires var keys := GroupKeys(rows, groupBy, aggCol);
      && |result| == |keys|
      && forall l :: 0 <= l < |keys| ==>
           var values := GetOr(Groups(rows, groupBy, aggCol), keys[l], []);
           values != [] && result[l] == MakeRecord(keys[l], aggCol, aggFunc, values)
    ensures result == Aggregated(rows, groupBy, aggCol, aggFunc)
  {
    GroupsLookup(rows, groupBy, aggCol);
  }

  /** The first loop of `aggregate`: collect each group's numbers. */
  method BuildGroups(rows: seq<Row>, groupBy: string, aggCol: string) returns (groups: Dict<seq<real>>)
    ensures groups == Groups(rows, groupBy, aggCol)
  {
    groups := [];
    for i := 0 to |rows|
      invariant groups == Groups(rows[..i], groupBy, aggCol)
    {
      TakeTake(rows, i);
      var key := GetOr(rows[i], groupBy, "");
      var parsed := RowValue(rows[i], aggCol);
      if parsed.Some? {
        groups := Set(groups, key, GetOr(groups, key, []) + [parsed.value]);
      }
    }
    TakeAll(rows);
  }

  /** The second loop of `aggregate`: one record per key, from that key's group. */
  method ReduceGroups(groups: Dict<seq<real>>, keys: seq<string>, aggCol: string, aggFunc: string)
    returns (result: seq<AggRow>)
    requires forall l :: 0 <= l < |keys| ==> GetOr(groups, keys[l], []) != []
    ensures |result| == |keys|
    ensures forall l :: 0 <= l < |keys| ==> result[l] == MakeRecord(keys[l], aggCol, aggFunc, GetOr(groups, keys[l], []))
  {
    var reducer := ReducerOf(aggFunc);
    result := [];
    for m := 0 to |keys|
      invariant |result| == m
      invariant forall l :: 0 <= l < m ==> result[l] == MakeRecord(keys[l], aggCol, aggFunc, GetOr(groups, keys[l], []))
    {
      var key := keys[m];
      var values := GetOr(groups, key, []);
      result := result + [AggRow(key, aggFunc + "_" + aggCol, Reduce(reducer, values), |values|)];
    }
  }

  /** `aggregate(rows, group_by, agg_col, agg_func)` (values not rounded). */
  method Aggregate(rows: seq<Row>, groupBy: string, aggCol: string, aggFunc: string) returns (result: seq<AggRow>)
    ensures result == Aggregated(rows, groupBy, aggCol, aggFunc)
    ensures forall i, j :: 0 <= i < j < |result| ==> Less(result[i].key, result[j].key)
    ensures forall k :: (exists j :: 0 <= j < |result| && result[j].key == k) <==> k in ParsedKeys(rows, groupBy, aggCol)
    ensures forall j :: 0 <= j < |result| ==>
      var values := GroupValues(rows, groupBy, aggCol, result[j].key);
      && values != []
      && result[j].count == |values|
      && result[j].value == Reduce(ReducerOf(aggFunc), values)
      && result[j].valueName == aggFunc + "_" + aggCol
  {
    var groups := BuildGroups(rows, groupBy, aggCol);
    var keys := Sort(Keys(groups));
    assert keys == GroupKeys(rows, groupBy, aggCol);
    GroupsLookup(rows, groupBy, aggCol);
    result := ReduceGroups(groups, keys, aggCol, aggFunc);
    AggregatedByRecords(rows, groupBy, aggCol, aggFunc, result);
    AggregatedFacts(rows, groupBy, aggCol, aggFunc);
  }
}
