/** `profile_column` and `profile_dataset`: per-column statistics of a table whose
    rows are dicts from column name to cell text. */
module CsvProfile {
  import opened Options
  import opened Strings
  import opened Numbers
  import opened Dicts
  import opened FirstOccurrence
  import opened Seqs

  /** A CSV row as `csv.DictReader` yields it. */
  type Row = Dict<string>

  function Min(a: nat, b: nat): nat {
    if a <= b then a else b
  }

  /** `[row.get(col, "") for row in rows]`: one cell per row, `""` where the row has no such column. */
  function ColumnValues(rows: seq<Row>, col: string): (vs: seq<string>)
    ensures |vs| == |rows|
    ensures forall i :: 0 <= i < |rows| ==> vs[i] == GetOr(rows[i], col, "")
  {
    seq(|rows|, i requires 0 <= i < |rows| => GetOr(rows[i], col, ""))
  }

  /** `[v for v in values if v and v.strip()]`: the values that are not blank. */
  function NonBlank(values: seq<string>): (r: seq<string>)
    ensures |r| <= |values|
    ensures forall i :: 0 <= i < |r| ==> !IsBlank(r[i]) && r[i] in values
    decreases |values|
  {
    if values == [] then []
    else
      var init := NonBlank(values[..|values| - 1]);
      var v := values[|values| - 1];
      if IsBlank(v) then init else init + [v]
  }

  /** Positions of the blank values: the cells the profile counts as null. */
  function BlankPositions(values: seq<string>): set<nat> {
    set i: nat | i < |values| && IsBlank(values[i])
  }

  /** One more value: its position is added when it is blank. */
  lemma BlankPositionsStep(values: seq<string>, i: nat)
    requires i < |values|
    ensures BlankPositions(values[..i + 1])
         == BlankPositions(values[..i]) + (if IsBlank(values[i]) then {i} else {})
  {
    var a, b := values[..i + 1], values[..i];
    assert forall j :: 0 <= j < i ==> a[j] == b[j];
    assert a[i] == values[i];
  }

  /** The values kept by `NonBlank` and the blank ones account for every value. */
  lemma {:induction false} NonBlankCount(values: seq<string>)
    ensures |NonBlank(values)| + |BlankPositions(values)| == |values|
    decreases |values|
  {
    if values != [] {
      var n := |values| - 1;
      var init := values[..n];
      NonBlankCount(init);
      var b, b' := BlankPositions(init), BlankPositions(values);
      assert forall i: nat :: i < n ==> init[i] == values[i];
      if IsBlank(values[n]) {
        assert b' == b + {n};
      } else {
        assert b' == b;
      }
    }
  }

  /** `float(v.replace(",", ""))` for each value, keeping the ones that parse. */
  function NumericValues(values: seq<string>): (r: seq<real>)
    ensures |r| <= |values|
    decreases |values|
  {
    if values == [] then []
    else
      var init := NumericValues(values[..|values| - 1]);
      match ParseNumber(ReplaceChar(values[|values| - 1], ',', ""))
      case Some(x) => init + [x]
      case None => init
  }

  lemma NumericValuesStep(values: seq<string>, i: nat)
    requires i < |values|
    ensures NumericValues(values[..i + 1])
         == match ParseNumber(ReplaceChar(values[i], ',', ""))
            case Some(x) => NumericValues(values[..i]) + [x]
            case None => NumericValues(values[..i])
  {
    assert values[..i + 1][..i] == values[..i];
  }

  function Sum(xs: seq<real>): real
    decreases |xs|
  {
    if xs == [] then 0.0 else Sum(xs[..|xs| - 1]) + xs[|xs| - 1]
  }

  /** `min(xs)`. */
  function SeqMin(xs: seq<real>): (m: real)
    requires xs != []
    ensures m in xs
    ensures forall i :: 0 <= i < |xs| ==> m <= xs[i]
    decreases |xs|
  {
    if |xs| == 1 then xs[0]
    else
      var m := SeqMin(xs[..|xs| - 1]);
      assert forall i :: 0 <= i < |xs| - 1 ==> xs[..|xs| - 1][i] == xs[i];
      if xs[|xs| - 1] < m then xs[|xs| - 1] else m
  }

  /** `max(xs)`. */
  function SeqMax(xs: seq<real>): (m: real)
    requires xs != []
    ensures m in xs
    ensures forall i :: 0 <= i < |xs| ==> xs[i] <= m
    decreases |xs|
  {
    if |xs| == 1 then xs[0]
    else
      var m := SeqMax(xs[..|xs| - 1]);
      assert forall i :: 0 <= i < |xs| - 1 ==> xs[..|xs| - 1][i] == xs[i];
      if xs[|xs| - 1] > m then xs[|xs| - 1] else m
  }

  /** `statistics.mean(xs)`, exactly. */
  function Mean(xs: seq<real>): real
    requires xs != []
  {
    Sum(xs) / |xs| as real
  }

  /** The mean lies between the minimum and the maximum. */
  lemma {:induction false} MeanBounds(xs: seq<real>)
    requires xs != []
    ensures SeqMin(xs) <= Mean(xs) <= SeqMax(xs)
  {
    var n := |xs| as real;
    SumBounds(xs, SeqMin(xs), SeqMax(xs));
    QuotientBounds(SeqMin(xs), Sum(xs), SeqMax(xs), n);
  }

  lemma QuotientBounds(lo: real, s: real, hi: real, n: real)
    requires n > 0.0 && lo * n <= s <= hi * n
    ensures lo <= s / n <= hi
  {
    assert s / n * n == s;
  }

  lemma {:induction false} SumBounds(xs: seq<real>, lo: real, hi: real)
    requires forall i :: 0 <= i < |xs| ==> lo <= xs[i] <= hi
    ensures lo * |xs| as real <= Sum(xs) <= hi * |xs| as real
    decreases |xs|
  {
    if xs != [] {
      var init, x := xs[..|xs| - 1], xs[|xs| - 1];
      assert forall i :: 0 <= i < |init| ==> init[i] == xs[i];
      SumBounds(init, lo, hi);
      var k := |init| as real;
      assert Sum(xs) == Sum(init) + x;
      assert |xs| as real == k + 1.0;
      assert lo <= x <= hi;
      assert lo * (k + 1.0) == lo * k + lo;
      assert hi * (k + 1.0) == hi * k + hi;
    }
  }

  // ---------------------------------------------------------------------------
  // Counter(non_empty).most_common(5)

  /** `Counter(xs).items()`: each distinct value, in order of first occurrence,
      with the number of times it occurs. */
  function Tally(xs: seq<string>): (t: seq<(string, nat)>)
    ensures |t| == |Distinct(xs)|
    ensures forall i :: 0 <= i < |t| ==> t[i] == (Distinct(xs)[i], multiset(xs)[Distinct(xs)[i]])
  {
    var d := Distinct(xs);
    seq(|d|, i requires 0 <= i < |d| => (d[i], multiset(xs)[d[i]]))
  }

  /** In the tally `t`, position `p` ranks ahead of position `q`: a higher count, or
      the same count and an earlier position. This is the order a stable sort by
      descending count leaves the items in. */
  predicate RankBefore(t: seq<(string, nat)>, p: nat, q: nat) {
    p < |t| && q < |t| && (t[p].1 > t[q].1 || (t[p].1 == t[q].1 && p < q))
  }

  /** Every earlier position in `r` ranks ahead of every later one. */
  predicate Ranked(t: seq<(string, nat)>, r: seq<nat>) {
    forall i, j :: 0 <= i < j < |r| ==> RankBefore(t, r[i], r[j])
  }

  /** Inserts position `p` in front of the first position it ranks ahead of. */
  function InsertRank(t: seq<(string, nat)>, p: nat, s: seq<nat>): (r: seq<nat>)
    ensures |r| == |s| + 1
    ensures forall q :: q in r <==> q == p || q in s
    ensures forall i :: 0 <= i < |r| ==> r[i] == p || r[i] in s
    decreases |s|
  {
    if s == [] || RankBefore(t, p, s[0]) then [p] + s
    else [s[0]] + InsertRank(t, p, s[1..])
  }

  lemma RankBeforeTransitive(t: seq<(string, nat)>, a: nat, b: nat, c: nat)
    requires RankBefore(t, a, b) && RankBefore(t, b, c)
    ensures RankBefore(t, a, c)
  {
  }

  /** When `p` does not rank ahead of the head of `s`, the head ranks ahead of
      everything the insertion into the tail holds. */
  lemma HeadRanksFirst(t: seq<(string, nat)>, p: nat, s: seq<nat>)
    requires Ranked(t, s) && s != [] && !RankBefore(t, p, s[0])
    requires p < |t| && p !in s && s[0] < |t|
    ensures var u := InsertRank(t, p, s[1..]);
      forall k :: 0 <= k < |u| ==> RankBefore(t, s[0], u[k])
  {
    var u := InsertRank(t, p, s[1..]);
    assert s[0] in s;
    forall k | 0 <= k < |u| ensures RankBefore(t, s[0], u[k]) {
      if u[k] != p {
        assert u[k] in s[1..];
        var m :| 0 <= m < |s[1..]| && s[1..][m] == u[k];
        assert s[m + 1] == u[k];
      }
    }
  }

  lemma {:induction false} InsertRankRanked(t: seq<(string, nat)>, p: nat, s: seq<nat>)
    requires Ranked(t, s) && p < |t| && p !in s
    requires forall q :: q in s ==> q < |t|
    ensures Ranked(t, InsertRank(t, p, s))
    decreases |s|
  {
    var r := InsertRank(t, p, s);
    if s == [] || RankBefore(t, p, s[0]) {
      forall i, j | 0 <= i < j < |r| ensures RankBefore(t, r[i], r[j]) {
        assert r[j] == s[j - 1];
        if i == 0 {
          if j > 1 {
            RankBeforeTransitive(t, p, s[0], s[j - 1]);
          }
        } else {
          assert r[i] == s[i - 1];
        }
      }
    } else {
      assert s[0] in s;
      assert forall q :: q in s[1..] ==> q in s;
      InsertRankRanked(t, p, s[1..]);
      HeadRanksFirst(t, p, s);
      var u := InsertRank(t, p, s[1..]);
      assert r == [s[0]] + u;
      forall i, j | 0 <= i < j < |r| ensures RankBefore(t, r[i], r[j]) {
        assert r[j] == u[j - 1];
        if i > 0 {
          assert r[i] == u[i - 1];
        }
      }
    }
  }

  /** The first `n` positions of the tally, sorted by rank (an insertion sort). */
  function Ranking(t: seq<(string, nat)>, n: nat): (r: seq<nat>)
    requires n <= |t|
    ensures |r| == n
    ensures forall q: int :: q in r <==> 0 <= q < n
    ensures forall i :: 0 <= i < |r| ==> r[i] < n
    ensures Ranked(t, r)
  {
    if n == 0 then []
    else
      var s := Ranking(t, n - 1);
      InsertRankRanked(t, n - 1, s);
      InsertRank(t, n - 1, s)
  }

  /** `counter.most_common(n)`: the `n` items that rank first, in rank order. */
  function MostCommon(xs: seq<string>, n: nat): seq<(string, nat)> {
    var t := Tally(xs);
    var r := Ranking(t, |t|);
    seq(Min(n, |t|), i requires 0 <= i < Min(n, |t|) => t[r[i]])
  }

  /** `a` occurs in `xs` before the first occurrence of `b`. */
  ghost predicate OccursBefore(xs: seq<string>, a: string, b: string) {
    exists i :: 0 <= i < |xs| && xs[i] == a && b !in xs[..i]
  }

  /** Order in `Distinct(xs)` is order of first occurrence in `xs`. */
  lemma {:induction false} DistinctOrder(xs: seq<string>, p: nat, q: nat)
    requires p < q < |Distinct(xs)|
    ensures OccursBefore(xs, Distinct(xs)[p], Distinct(xs)[q])
    decreases |xs|
  {
    var n := |xs| - 1;
    var init := xs[..n];
    DistinctStep(xs, n);
    assert xs[..n + 1] == xs;
    var d, d0 := Distinct(xs), Distinct(init);
    if q < |d0| {
      DistinctOrder(init, p, q);
      var i :| 0 <= i < |init| && init[i] == d0[p] && d0[q] !in init[..i];
      assert init[..i] == xs[..i];
    } else {
      DistinctFacts(init);
      assert d0[p] in d0;
      var i :| 0 <= i < |init| && init[i] == d0[p];
      assert d[q] == xs[n] && xs[n] !in init;
      assert xs[n] !in xs[..i] by {
        assert forall c :: c in xs[..i] ==> c in init;
      }
    }
  }

  /** `most_common(n)` lists at most `n` distinct values of `xs` with their counts,
      in non-increasing count; no value left out has a higher count than a listed
      one, and ties go to the value that occurs first. */
  lemma MostCommonSpec(xs: seq<string>, n: nat)
    ensures var top := MostCommon(xs, n);
      && |top| == Min(n, |set x | x in xs|)
      && (forall i :: 0 <= i < |top| ==> top[i].0 in xs && top[i].1 == multiset(xs)[top[i].0])
      && (forall i, j :: 0 <= i < j < |top| ==> top[i].0 != top[j].0 && top[i].1 >= top[j].1)
      && (forall i, j :: 0 <= i < j < |top| && top[i].1 == top[j].1 ==> OccursBefore(xs, top[i].0, top[j].0))
      && (forall v, i :: v in xs && (forall k :: 0 <= k < |top| ==> top[k].0 != v) && 0 <= i < |top| ==>
            multiset(xs)[v] < top[i].1 || (multiset(xs)[v] == top[i].1 && OccursBefore(xs, top[i].0, v)))
  {
    DistinctFacts(xs);
    MostCommonEntries(xs, n);
    MostCommonOrder(xs, n);
    MostCommonMaximal(xs, n);
  }

  lemma MostCommonEntries(xs: seq<string>, n: nat)
    ensures var top := MostCommon(xs, n);
      forall i :: 0 <= i < |top| ==> top[i].0 in xs && top[i].1 == multiset(xs)[top[i].0]
  {
    var top := MostCommon(xs, n);
    var t := Tally(xs);
    var d := Distinct(xs);
    var r := Ranking(t, |t|);
    DistinctFacts(xs);
    forall i | 0 <= i < |top| ensures top[i].0 in xs && top[i].1 == multiset(xs)[top[i].0] {
      assert top[i] == t[r[i]];
      assert d[r[i]] in d;
    }
  }

  lemma MostCommonOrder(xs: seq<string>, n: nat)
    ensures var top := MostCommon(xs, n);
      && (forall i, j :: 0 <= i < j < |top| ==> top[i].0 != top[j].0 && top[i].1 >= top[j].1)
      && (forall i, j :: 0 <= i < j < |top| && top[i].1 == top[j].1 ==> OccursBefore(xs, top[i].0, top[j].0))
  {
    var top := MostCommon(xs, n);
    var t := Tally(xs);
    var r := Ranking(t, |t|);
    DistinctFacts(xs);
    forall i, j | 0 <= i < j < |top|
      ensures top[i].0 != top[j].0 && top[i].1 >= top[j].1
      ensures top[i].1 == top[j].1 ==> OccursBefore(xs, top[i].0, top[j].0)
    {
      assert top[i] == t[r[i]] && top[j] == t[r[j]];
      assert RankBefore(t, r[i], r[j]);
      if r[i] < r[j] {
        DistinctOrder(xs, r[i], r[j]);
      }
    }
  }

  lemma MostCommonMaximal(xs: seq<string>, n: nat)
    ensures var top := MostCommon(xs, n);
      forall v, i :: v in xs && (forall k :: 0 <= k < |top| ==> top[k].0 != v) && 0 <= i < |top| ==>
        multiset(xs)[v] < top[i].1 || (multiset(xs)[v] == top[i].1 && OccursBefore(xs, top[i].0, v))
  {
    var top := MostCommon(xs, n);
    var t := Tally(xs);
    var d := Distinct(xs);
    var r := Ranking(t, |t|);
    DistinctFacts(xs);
    forall v, i | v in xs && (forall k :: 0 <= k < |top| ==> top[k].0 != v) && 0 <= i < |top|
      ensures multiset(xs)[v] < top[i].1 || (multiset(xs)[v] == top[i].1 && OccursBefore(xs, top[i].0, v))
    {
      var q :| 0 <= q < |d| && d[q] == v;
      assert q in r;
      var j :| 0 <= j < |r| && r[j] == q;
      assert forall k :: 0 <= k < |top| ==> top[k] == t[r[k]];
      assert top[i] == t[r[i]];
      assert RankBefore(t, r[i], r[j]);
      if r[i] < q {
        DistinctOrder(xs, r[i], q);
      }
    }
  }

  // ---------------------------------------------------------------------------
  // The profile

  /** The type-specific part of a column profile. */
  datatype Summary =
    | Numeric(min: real, max: real, mean: real, hasStdev: bool)
    | Categorical(top5: seq<(string, nat)>, sample: seq<string>)

  /** The dict `profile_column` returns. `nullPct` is the exact percentage that
      the source rounds to one decimal place. */
  datatype ColumnProfile = ColumnProfile(
    column: string,
    totalRows: nat,
    nonNull: nat,
    nullCount: nat,
    nullPct: real,
    uniqueCount: nat,
    summary: Summary)

  /** `round(null_count / total * 100, 1) if total else 0`, without the rounding. */
  function NullPct(nullCount: nat, total: nat): real {
    if total != 0 then nullCount as real / total as real * 100.0 else 0.0
  }

  /** The profile built from the column name, the number of values, the non-blank
      values and the numbers parsed from them. */
  function BuildProfile(name: string, total: nat, nonEmpty: seq<string>, numeric: seq<real>): ColumnProfile
    requires |nonEmpty| <= total
  {
    var nullCount := total - |nonEmpty|;
    ColumnProfile(
      name, total, |nonEmpty|, nullCount,
      NullPct(nullCount, total),
      |set v | v in nonEmpty|,
      if numeric != [] && |numeric| as real > |nonEmpty| as real * 0.5 then
        Numeric(SeqMin(numeric), SeqMax(numeric), Mean(numeric), |numeric| > 1)
      else
        Categorical(MostCommon(nonEmpty, 5), nonEmpty[..Min(3, |nonEmpty|)]))
  }

  /** What `profile_column(values, name)` returns. */
  function ProfileOf(values: seq<string>, name: string): ColumnProfile {
    var nonEmpty := NonBlank(values);
    BuildProfile(name, |values|, nonEmpty, NumericValues(nonEmpty))
  }

  /** `profile_column`: the parsing loop collects the numbers, then the profile is assembled. */
  method ProfileColumn(values: seq<string>, name: string) returns (p: ColumnProfile)
    ensures p == ProfileOf(values, name)
  {
    var nonEmpty := NonBlank(values);
    var numeric: seq<real> := [];
    for i := 0 to |nonEmpty|
      invariant numeric == NumericValues(nonEmpty[..i])
    {
      NumericValuesStep(nonEmpty, i);
      var parsed := ParseNumber(ReplaceChar(nonEmpty[i], ',', ""));
      if parsed.Some? {
        numeric := numeric + [parsed.value];
      }
    }
    assert nonEmpty[..|nonEmpty|] == nonEmpty;
    p := BuildProfile(name, |values|, nonEmpty, numeric);
  }

  /** The counts of a profile: null and non-null cells add up to the rows, the null
      cells are exactly the blank ones, and the unique count is the number of
      distinct non-blank values. */
  lemma ProfileCounts(values: seq<string>, name: string)
    ensures var p := ProfileOf(values, name);
      && p.column == name
      && p.totalRows == |values|
      && p.nonNull + |BlankPositions(values)| == p.totalRows
      && p.nullCount == |BlankPositions(values)|
      && p.uniqueCount == |set v | v in values && !IsBlank(v)|
  {
    var nonEmpty := NonBlank(values);
    NonBlankCount(values);
    NonBlankMembers(values);
    assert (set v | v in nonEmpty) == (set v | v in values && !IsBlank(v));
  }

  /** The null percentage is the share of null cells, and 0 for an empty column. */
  lemma NullPctBounds(nullCount: nat, total: nat)
    requires nullCount <= total
    ensures 0.0 <= NullPct(nullCount, total) <= 100.0
    ensures total == 0 ==> NullPct(nullCount, total) == 0.0
    ensures total > 0 ==> NullPct(nullCount, total) * total as real == nullCount as real * 100.0
  {
    if total > 0 {
      QuotientBounds(0.0, nullCount as real, 1.0, total as real);
    }
  }

  /** `NonBlank` keeps exactly the non-blank values. */
  lemma {:induction false} NonBlankMembers(values: seq<string>)
    ensures forall v :: v in NonBlank(values) <==> v in values && !IsBlank(v)
    decreases |values|
  {
    if values != [] {
      var init := values[..|values| - 1];
      NonBlankMembers(init);
      assert values == init + [values[|values| - 1]];
    }
  }

  /** A column is numeric exactly when some values parse and they are more than
      half of the non-blank values; exactly half is categorical. */
  lemma ProfileType(values: seq<string>, name: string)
    ensures var nonEmpty := NonBlank(values);
      var numeric := NumericValues(nonEmpty);
      && (ProfileOf(values, name).summary.Numeric? <==> numeric != [] && 2 * |numeric| > |nonEmpty|)
      && (2 * |numeric| == |nonEmpty| ==> ProfileOf(values, name).summary.Categorical?)
  {
  }

  /** A numeric profile holds the least and greatest parsed number and a mean
      between them; a standard deviation is present exactly when two or more
      values parse. */
  lemma ProfileNumeric(values: seq<string>, name: string)
    requires ProfileOf(values, name).summary.Numeric?
    ensures var s := ProfileOf(values, name).summary;
      var numeric := NumericValues(NonBlank(values));
      && s.min in numeric && s.max in numeric
      && (forall x :: x in numeric ==> s.min <= x <= s.max)
      && s.min <= s.mean <= s.max
      && (s.hasStdev <==> |numeric| >= 2)
  {
    var numeric := NumericValues(NonBlank(values));
    MeanBounds(numeric);
  }

  /** A categorical profile lists at most five values with their counts and samples
      the first three non-blank values. */
  lemma ProfileCategorical(values: seq<string>, name: string)
    requires ProfileOf(values, name).summary.Categorical?
    ensures var s := ProfileOf(values, name).summary;
      var nonEmpty := NonBlank(values);
      && |s.top5| <= 5
      && |s.top5| == Min(5, ProfileOf(values, name).uniqueCount)
      && (forall i :: 0 <= i < |s.top5| ==> s.top5[i].0 in nonEmpty && s.top5[i].1 == multiset(nonEmpty)[s.top5[i].0])
      && s.sample == nonEmpty[..Min(3, |nonEmpty|)]
  {
    MostCommonSpec(NonBlank(values), 5);
  }

  /** The dict `profile_dataset` builds: `profiles[col] = profile_column(values, col)`
      for each column in turn. */
  function Profiles(headers: seq<string>, rows: seq<Row>): Dict<ColumnProfile>
    decreases |headers|
  {
    if headers == [] then []
    else
      var col := headers[|headers| - 1];
      Set(Profiles(headers[..|headers| - 1], rows), col, ProfileOf(ColumnValues(rows, col), col))
  }

  /** The profiles are keyed by the distinct column names, in header order. */
  lemma {:induction false} ProfilesKeys(headers: seq<string>, rows: seq<Row>)
    ensures Valid(Profiles(headers, rows))
    ensures Keys(Profiles(headers, rows)) == Distinct(headers)
    decreases |headers|
  {
    if headers != [] {
      var n := |headers| - 1;
      var col := headers[n];
      ProfilesKeys(headers[..n], rows);
      SetKeysDistinct(Profiles(headers[..n], rows), headers, n, ProfileOf(ColumnValues(rows, col), col));
      SetValid(Profiles(headers[..n], rows), col, ProfileOf(ColumnValues(rows, col), col));
      assert headers[..n + 1] == headers;
    }
  }

  /** Every column's entry is the profile of that column's values. */
  lemma {:induction false} ProfilesGet(headers: seq<string>, rows: seq<Row>, c: string)
    requires c in headers
    ensures Get(Profiles(headers, rows), c) == Some(ProfileOf(ColumnValues(rows, c), c))
    decreases |headers|
  {
    var n := |headers| - 1;
    if headers[n] != c {
      var j :| 0 <= j < |headers| && headers[j] == c;
      assert headers[..n][j] == c;
      ProfilesGet(headers[..n], rows, c);
    }
  }

  /** What the profiles dict holds: one profile per distinct column, in header order. */
  lemma ProfilesFacts(headers: seq<string>, rows: seq<Row>)
    ensures Valid(Profiles(headers, rows))
    ensures Keys(Profiles(headers, rows)) == Distinct(headers)
    ensures forall c :: c in Keys(Profiles(headers, rows)) <==> c in headers
    ensures forall c :: c in headers ==> Get(Profiles(headers, rows), c) == Some(ProfileOf(ColumnValues(rows, c), c))
  {
    ProfilesKeys(headers, rows);
    DistinctFacts(headers);
    forall c | c in headers ensures Get(Profiles(headers, rows), c) == Some(ProfileOf(ColumnValues(rows, c), c)) {
      ProfilesGet(headers, rows, c);
    }
  }

  /** `profile_dataset`: one profile per column of `headers`, under the column's name. */
  method ProfileDataset(headers: seq<string>, rows: seq<Row>) returns (profiles: Dict<ColumnProfile>)
    ensures profiles == Profiles(headers, rows)
    ensures Valid(profiles)
    ensures Keys(profiles) == Distinct(headers)
    ensures forall c :: c in Keys(profiles) <==> c in headers
    ensures forall c :: c in headers ==> Get(profiles, c) == Some(ProfileOf(ColumnValues(rows, c), c))
  {
    profiles := [];
    for i := 0 to |headers|
      invariant profiles == Profiles(headers[..i], rows)
    {
      var col := headers[i];
      var values := ColumnValues(rows, col);
      var p := ProfileColumn(values, col);
      TakeTake(headers, i);
      profiles := Set(profiles, col, p);
    }
    TakeAll(headers);
    ProfilesFacts(headers, rows);
  }
}
