/** Python dictionaries with string keys, as ordered association lists. Python
    dicts remember insertion order, and the pipeline's output column order follows
    it, so a dict is a sequence of entries with distinct keys. */
module Dicts {
  import opened Options
  import opened FirstOccurrence
  import opened Seqs

  datatype Entry<V> = Entry(key: string, value: V)

  type Dict<V> = seq<Entry<V>>

  /** `list(d.keys())`. */
  function Keys<V>(d: Dict<V>): (ks: seq<string>)
    ensures |ks| == |d|
    ensures forall i :: 0 <= i < |d| ==> ks[i] == d[i].key
    decreases |d|
  {
    if d == [] then [] else [d[0].key] + Keys(d[1..])
  }

  /** No key occurs twice, as in every Python dict. */
  predicate Valid<V>(d: Dict<V>) {
    forall i, j :: 0 <= i < j < |d| ==> d[i].key != d[j].key
  }

  /** `d.get(k)`: the value stored under `k`, if any. */
  function Get<V>(d: Dict<V>, k: string): (r: Option<V>)
    ensures r.None? <==> k !in Keys(d)
    ensures r.Some? ==> exists i :: 0 <= i < |d| && d[i] == Entry(k, r.value)
    decreases |d|
  {
    if d == [] then None
    else if d[0].key == k then Some(d[0].value)
    else
      var r := Get(d[1..], k);
      assert Keys(d) == [d[0].key] + Keys(d[1..]);
      if r.Some? then ShiftWitness(d, Entry(k, r.value)); r else r
  }

  lemma ShiftWitness<V>(d: Dict<V>, e: Entry<V>)
    requires d != [] && exists i :: 0 <= i < |d[1..]| && d[1..][i] == e
    ensures exists i :: 0 <= i < |d| && d[i] == e
  {
    var i :| 0 <= i < |d[1..]| && d[1..][i] == e;
    assert d[i + 1] == e;
  }

  /** In a valid dict the value under a key is the one its entry holds. */
  lemma {:induction false} GetAt<V>(d: Dict<V>, i: nat)
    requires Valid(d) && i < |d|
    ensures Get(d, d[i].key) == Some(d[i].value)
    decreases i
  {
    if i > 0 {
      assert d[0].key != d[i].key;
      assert d[1..][i - 1] == d[i];
      GetAt(d[1..], i - 1);
    }
  }

  /** `d.get(k, default)`. */
  function GetOr<V>(d: Dict<V>, k: string, default: V): (v: V)
    ensures k !in Keys(d) ==> v == default
    ensures k in Keys(d) ==> Get(d, k) == Some(v)
  {
    Get(d, k).GetOr(default)
  }

  /** `d[k] = v`: an existing key keeps its position and takes the new value;
      a new key is appended at the end. */
  function Set<V>(d: Dict<V>, k: string, v: V): (r: Dict<V>)
    ensures Get(r, k) == Some(v)
    ensures forall k' :: k' != k ==> Get(r, k') == Get(d, k')
    decreases |d|
  {
    if d == [] then [Entry(k, v)]
    else if d[0].key == k then [Entry(k, v)] + d[1..]
    else [d[0]] + Set(d[1..], k, v)
  }

  /** `d[k] = v` keeps the key order, appending `k` when it is new. */
  lemma {:induction false} SetKeys<V>(d: Dict<V>, k: string, v: V)
    ensures Keys(Set(d, k, v)) == if k in Keys(d) then Keys(d) else Keys(d) + [k]
    decreases |d|
  {
    if d != [] {
      assert Keys(d) == [d[0].key] + Keys(d[1..]);
      if d[0].key != k {
        SetKeys(d[1..], k, v);
        assert Keys(Set(d, k, v)) == [d[0].key] + Keys(Set(d[1..], k, v));
      }
    }
  }

  /** Setting a key keeps the keys distinct. */
  lemma SetValid<V>(d: Dict<V>, k: string, v: V)
    requires Valid(d)
    ensures Valid(Set(d, k, v))
  {
    var r := Set(d, k, v);
    var ks := Keys(d);
    SetKeys(d, k, v);
    assert forall i, j :: 0 <= i < j < |ks| ==> ks[i] != ks[j];
    forall i, j | 0 <= i < j < |r| ensures r[i].key != r[j].key {
      assert Keys(r)[i] == r[i].key && Keys(r)[j] == r[j].key;
    }
  }

  /** The dict as a mathematical map: what `==` on two Python dicts compares. */
  function AsMap<V>(d: Dict<V>): (m: map<string, V>)
    ensures forall k :: k in m <==> k in Keys(d)
    ensures forall k :: k in m ==> Get(d, k) == Some(m[k])
    decreases |d|
  {
    if d == [] then map[]
    else
      assert Keys(d) == [d[0].key] + Keys(d[1..]);
      AsMap(d[1..])[d[0].key := d[0].value]
  }

  /** The set of `(key, value)` items, the content `sorted(d.items())` lists. */
  ghost function Items<V>(d: Dict<V>): set<Entry<V>> {
    set i | 0 <= i < |d| :: d[i]
  }

  /** Two valid dicts are equal as maps exactly when they hold the same items, so
      comparing `AsMap` is comparing `tuple(sorted(row.items()))`. */
  lemma {:induction false} AsMapEqualIffSameItems<V>(a: Dict<V>, b: Dict<V>)
    requires Valid(a) && Valid(b)
    ensures AsMap(a) == AsMap(b) <==> Items(a) == Items(b)
  {
    if AsMap(a) == AsMap(b) {
      forall e | e in Items(a) ensures e in Items(b) {
        ItemInOther(a, b, e);
      }
      forall e | e in Items(b) ensures e in Items(a) {
        ItemInOther(b, a, e);
      }
    }
    if Items(a) == Items(b) {
      forall k | k in Keys(a) ensures k in Keys(b) && Get(a, k) == Get(b, k) {
        KeyFromItems(a, b, k);
      }
      forall k | k in Keys(b) ensures k in Keys(a) && Get(a, k) == Get(b, k) {
        KeyFromItems(b, a, k);
      }
      assert AsMap(a).Keys == AsMap(b).Keys;
    }
  }

  lemma ItemInOther<V>(a: Dict<V>, b: Dict<V>, e: Entry<V>)
    requires Valid(a) && Valid(b) && AsMap(a) == AsMap(b) && e in Items(a)
    ensures e in Items(b)
  {
    var i :| 0 <= i < |a| && a[i] == e;
    GetAt(a, i);
    assert Keys(a)[i] == e.key;
    assert e.key in AsMap(b);
    var r := Get(b, e.key);
    var j :| 0 <= j < |b| && b[j] == Entry(e.key, r.value);
  }

  lemma KeyFromItems<V>(a: Dict<V>, b: Dict<V>, k: string)
    requires Valid(a) && Valid(b) && Items(a) == Items(b) && k in Keys(a)
    ensures k in Keys(b) && Get(a, k) == Get(b, k)
  {
    var i :| 0 <= i < |a| && Keys(a)[i] == k;
    assert a[i] in Items(b);
    var j :| 0 <= j < |b| && b[j] == a[i];
    assert Keys(b)[j] == k;
    GetAt(a, i);
    GetAt(b, j);
  }

  /** Assigning the keys of `ks` one after another, in order, leaves the dict's keys
      in order of first assignment. */
  lemma SetKeysDistinct<V>(d: Dict<V>, ks: seq<string>, i: nat, v: V)
    requires i < |ks| && Keys(d) == Distinct(ks[..i])
    ensures Keys(Set(d, ks[i], v)) == Distinct(ks[..i + 1])
  {
    DistinctStep(ks, i);
    SetKeys(d, ks[i], v);
  }

  /** The same, for a key appended to the list of keys assigned so far. */
  lemma SetKeysAppend<V>(d: Dict<V>, ks: seq<string>, k: string, v: V)
    requires Keys(d) == Distinct(ks)
    ensures Keys(Set(d, k, v)) == Distinct(ks + [k])
  {
    TakeAppend(ks, k);
    SetKeysDistinct(d, ks + [k], |ks|, v);
    TakeAll(ks + [k]);
  }

  /** The dict after `d[ks[0]] = vs[0]`, `d[ks[1]] = vs[1]`, ... in turn. */
  function Assign<V>(d: Dict<V>, ks: seq<string>, vs: seq<V>): Dict<V>
    requires |ks| == |vs|
    decreases |ks|
  {
    if ks == [] then d
    else Set(Assign(d, ks[..|ks| - 1], vs[..|vs| - 1]), ks[|ks| - 1], vs[|vs| - 1])
  }

  /** Assigning into an empty dict keys it by the distinct keys, in order of first assignment. */
  lemma {:induction false} AssignKeys<V>(ks: seq<string>, vs: seq<V>)
    requires |ks| == |vs|
    ensures Keys(Assign([], ks, vs)) == Distinct(ks)
    ensures Valid(Assign([], ks, vs))
    decreases |ks|
  {
    if ks != [] {
      var n := |ks| - 1;
      AssignKeys(ks[..n], vs[..n]);
      SetKeysDistinct(Assign([], ks[..n], vs[..n]), ks, n, vs[n]);
      SetValid(Assign([], ks[..n], vs[..n]), ks[n], vs[n]);
      TakeAll(ks);
    }
  }

  /** A key holds the value of its last assignment. */
  lemma {:induction false} AssignLastWins<V>(d: Dict<V>, ks: seq<string>, vs: seq<V>, i: nat)
    requires |ks| == |vs| && i < |ks|
    requires forall j :: i < j < |ks| ==> ks[j] != ks[i]
    ensures Get(Assign(d, ks, vs), ks[i]) == Some(vs[i])
    decreases |ks|
  {
    var n := |ks| - 1;
    if i < n {
      assert ks[..n][i] == ks[i];
      AssignLastWins(d, ks[..n], vs[..n], i);
    }
  }

  /** A key never assigned keeps its old value. */
  lemma {:induction false} AssignUnassigned<V>(d: Dict<V>, ks: seq<string>, vs: seq<V>, k: string)
    requires |ks| == |vs| && k !in ks
    ensures Get(Assign(d, ks, vs), k) == Get(d, k)
    decreases |ks|
  {
    if ks != [] {
      var n := |ks| - 1;
      assert k !in ks[..n];
      AssignUnassigned(d, ks[..n], vs[..n], k);
    }
  }
}
