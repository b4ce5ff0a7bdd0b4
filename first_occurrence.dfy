/** "Keep the first element for each key": the `seen`-set loop that both
    `clean_dataset` (rows keyed by their items) and `deduplicate_paragraphs`
    (paragraphs keyed by `strip().lower()`) run, stated once for any key. */
module FirstOccurrence {

  /** The keys of the elements of `xs`. */
  function KeySet<T, K(==)>(xs: seq<T>, key: T -> K): set<K> {
    set i | 0 <= i < |xs| :: key(xs[i])
  }

  /** The keys of the elements of `xs` that `admit` accepts. */
  ghost function AdmittedKeys<T, K>(xs: seq<T>, key: T -> K, admit: K -> bool): set<K> {
    set i | 0 <= i < |xs| && admit(key(xs[i])) :: key(xs[i])
  }

  /** What the loop builds: scanning `xs` in order, an element is kept when its key
      is admitted and is not the key of an element kept before it. */
  function FirstByKey<T, K(==)>(xs: seq<T>, key: T -> K, admit: K -> bool): (r: seq<T>)
    ensures |r| <= |xs|
    decreases |xs|
  {
    if xs == [] then []
    else
      var kept := FirstByKey(xs[..|xs| - 1], key, admit);
      var x := xs[|xs| - 1];
      if admit(key(x)) && key(x) !in KeySet(kept, key) then kept + [x] else kept
  }

  /** Position `i` holds the first occurrence of an admitted key. */
  ghost predicate IsFirst<T, K>(xs: seq<T>, i: nat, key: T -> K, admit: K -> bool)
    requires i < |xs|
  {
    admit(key(xs[i])) && forall j :: 0 <= j < i ==> key(xs[j]) != key(xs[i])
  }

  /** Reference definition: the elements at first-occurrence positions, in order. */
  ghost function FirstOccurrences<T, K>(xs: seq<T>, key: T -> K, admit: K -> bool): seq<T>
    decreases |xs|
  {
    if xs == [] then []
    else
      FirstOccurrences(xs[..|xs| - 1], key, admit)
      + (if IsFirst(xs, |xs| - 1, key, admit) then [xs[|xs| - 1]] else [])
  }

  /** No two elements of `xs` share a key. */
  ghost predicate DistinctKeys<T, K>(xs: seq<T>, key: T -> K) {
    forall i, j :: 0 <= i < j < |xs| ==> key(xs[i]) != key(xs[j])
  }

  /** Every element of `xs` has an admitted key. */
  ghost predicate AllAdmitted<T, K>(xs: seq<T>, key: T -> K, admit: K -> bool) {
    forall i :: 0 <= i < |xs| ==> admit(key(xs[i]))
  }

  /** `a` is `b` with some elements left out, the rest in their original order. */
  ghost predicate IsSubsequence<T>(a: seq<T>, b: seq<T>)
    decreases |b|
  {
    a == [] ||
    (b != [] &&
     ((a[|a| - 1] == b[|b| - 1] && IsSubsequence(a[..|a| - 1], b[..|b| - 1]))
      || IsSubsequence(a, b[..|b| - 1])))
  }

  lemma KeySetAppend<T, K>(xs: seq<T>, x: T, key: T -> K)
    ensures KeySet(xs + [x], key) == KeySet(xs, key) + {key(x)}
  {
    var ys := xs + [x];
    forall k | k in KeySet(ys, key) ensures k in KeySet(xs, key) + {key(x)} {
      var i :| 0 <= i < |ys| && key(ys[i]) == k;
      if i < |xs| {
        assert ys[i] == xs[i];
      }
    }
    forall k | k in KeySet(xs, key) ensures k in KeySet(ys, key) {
      var i :| 0 <= i < |xs| && key(xs[i]) == k;
      assert ys[i] == xs[i];
    }
    assert ys[|xs|] == x;
  }

  lemma AdmittedKeysAppend<T, K>(xs: seq<T>, x: T, key: T -> K, admit: K -> bool)
    ensures AdmittedKeys(xs + [x], key, admit)
         == AdmittedKeys(xs, key, admit) + (if admit(key(x)) then {key(x)} else {})
  {
    var ys := xs + [x];
    forall k | k in AdmittedKeys(ys, key, admit)
      ensures k in AdmittedKeys(xs, key, admit) + (if admit(key(x)) then {key(x)} else {})
    {
      var i :| 0 <= i < |ys| && admit(key(ys[i])) && key(ys[i]) == k;
      if i < |xs| {
        assert ys[i] == xs[i];
      }
    }
    forall k | k in AdmittedKeys(xs, key, admit) ensures k in AdmittedKeys(ys, key, admit) {
      var i :| 0 <= i < |xs| && admit(key(xs[i])) && key(xs[i]) == k;
      assert ys[i] == xs[i];
    }
    assert ys[|xs|] == x;
  }

  /** One more step of the loop: how the result for `xs[..i + 1]` follows from the one for `xs[..i]`. */
  lemma FirstByKeyStep<T, K>(xs: seq<T>, i: nat, key: T -> K, admit: K -> bool)
    requires i < |xs|
    ensures FirstByKey(xs[..i + 1], key, admit)
         == var kept := FirstByKey(xs[..i], key, admit);
            if admit(key(xs[i])) && key(xs[i]) !in KeySet(kept, key) then kept + [xs[i]] else kept
  {
    assert xs[..i + 1][..i] == xs[..i];
  }

  /** The keys kept are exactly the admitted keys of the input. */
  lemma {:induction false} KeySetOfFirstByKey<T, K>(xs: seq<T>, key: T -> K, admit: K -> bool)
    ensures KeySet(FirstByKey(xs, key, admit), key) == AdmittedKeys(xs, key, admit)
    decreases |xs|
  {
    if xs != [] {
      var init, x := xs[..|xs| - 1], xs[|xs| - 1];
      assert xs == init + [x];
      var kept := FirstByKey(init, key, admit);
      KeySetOfFirstByKey(init, key, admit);
      AdmittedKeysAppend(init, x, key, admit);
      KeySetAppend(kept, x, key);
    }
  }

  /** The loop keeps exactly the first occurrence of every admitted key. */
  lemma {:induction false} FirstByKeyIsFirstOccurrences<T, K>(xs: seq<T>, key: T -> K, admit: K -> bool)
    ensures FirstByKey(xs, key, admit) == FirstOccurrences(xs, key, admit)
    decreases |xs|
  {
    if xs != [] {
      var n := |xs| - 1;
      var init, x := xs[..n], xs[n];
      FirstByKeyIsFirstOccurrences(init, key, admit);
      KeySetOfFirstByKey(init, key, admit);
      var kept := FirstByKey(init, key, admit);
      if admit(key(x)) {
        if key(x) in KeySet(kept, key) {
          var j :| 0 <= j < n && admit(key(init[j])) && key(init[j]) == key(x);
          assert xs[j] == init[j];
          assert !IsFirst(xs, n, key, admit);
        } else {
          forall j | 0 <= j < n ensures key(xs[j]) != key(xs[n]) {
            assert xs[j] == init[j];
          }
        }
      }
    }
  }

  /** No two kept elements share a key. */
  lemma {:induction false} FirstByKeyDistinct<T, K>(xs: seq<T>, key: T -> K, admit: K -> bool)
    ensures DistinctKeys(FirstByKey(xs, key, admit), key)
    decreases |xs|
  {
    if xs != [] {
      var init, x := xs[..|xs| - 1], xs[|xs| - 1];
      FirstByKeyDistinct(init, key, admit);
      var kept := FirstByKey(init, key, admit);
      if admit(key(x)) && key(x) !in KeySet(kept, key) {
        var r := kept + [x];
        forall i, j | 0 <= i < j < |r| ensures key(r[i]) != key(r[j]) {
          if j == |kept| {
            assert r[i] == kept[i] && r[j] == x;
            assert key(kept[i]) in KeySet(kept, key);
            assert key(kept[i]) != key(x);
          } else {
            assert r[i] == kept[i] && r[j] == kept[j];
            assert key(kept[i]) != key(kept[j]);
          }
        }
      }
    }
  }

  /** Every kept element has an admitted key. */
  lemma {:induction false} FirstByKeyAdmitted<T, K>(xs: seq<T>, key: T -> K, admit: K -> bool)
    ensures AllAdmitted(FirstByKey(xs, key, admit), key, admit)
    decreases |xs|
  {
    if xs != [] {
      var init, x := xs[..|xs| - 1], xs[|xs| - 1];
      FirstByKeyAdmitted(init, key, admit);
      var kept := FirstByKey(init, key, admit);
      if admit(key(x)) && key(x) !in KeySet(kept, key) {
        var r := kept + [x];
        forall i | 0 <= i < |r| ensures admit(key(r[i])) {
          if i < |kept| {
            assert r[i] == kept[i];
          }
        }
      }
    }
  }

  /** The kept elements form a subsequence of the input. */
  lemma {:induction false} FirstByKeySubsequence<T, K>(xs: seq<T>, key: T -> K, admit: K -> bool)
    ensures IsSubsequence(FirstByKey(xs, key, admit), xs)
    decreases |xs|
  {
    if xs != [] {
      var init, x := xs[..|xs| - 1], xs[|xs| - 1];
      var kept := FirstByKey(init, key, admit);
      FirstByKeySubsequence(init, key, admit);
      if admit(key(x)) && key(x) !in KeySet(kept, key) {
        assert (kept + [x])[..|kept|] == kept;
      } else {
        SubsequenceExtend(kept, init, x);
        assert init + [x] == xs;
      }
    }
  }

  lemma {:induction false} SubsequenceExtend<T>(a: seq<T>, b: seq<T>, x: T)
    requires IsSubsequence(a, b)
    ensures IsSubsequence(a, b + [x])
  {
    assert (b + [x])[..|b|] == b;
  }

  /** An input whose keys are already distinct and admitted is kept whole. */
  lemma {:induction false} FirstByKeyOfDistinct<T, K>(xs: seq<T>, key: T -> K, admit: K -> bool)
    requires AllAdmitted(xs, key, admit)
    requires DistinctKeys(xs, key)
    ensures FirstByKey(xs, key, admit) == xs
    decreases |xs|
  {
    if xs != [] {
      var n := |xs| - 1;
      var init, x := xs[..n], xs[n];
      FirstByKeyOfDistinct(init, key, admit);
      assert init + [x] == xs;
    }
  }

  /** Running the loop on its own output changes nothing. */
  lemma FirstByKeyIdempotent<T, K>(xs: seq<T>, key: T -> K, admit: K -> bool)
    ensures var r := FirstByKey(xs, key, admit);
            FirstByKey(r, key, admit) == r
  {
    FirstByKeyDistinct(xs, key, admit);
    FirstByKeyAdmitted(xs, key, admit);
    FirstByKeyOfDistinct(FirstByKey(xs, key, admit), key, admit);
  }

  /** One element is kept per admitted key. */
  lemma {:induction false} FirstByKeyLength<T, K>(xs: seq<T>, key: T -> K, admit: K -> bool)
    ensures |FirstByKey(xs, key, admit)| == |AdmittedKeys(xs, key, admit)|
    decreases |xs|
  {
    KeySetOfFirstByKey(xs, key, admit);
    if xs != [] {
      var init, x := xs[..|xs| - 1], xs[|xs| - 1];
      var kept := FirstByKey(init, key, admit);
      FirstByKeyLength(init, key, admit);
      KeySetOfFirstByKey(init, key, admit);
      KeySetAppend(kept, x, key);
    }
  }

  function Identity<T>(x: T): T { x }

  function AdmitAll<T>(x: T): bool { true }

  /** The distinct elements of `xs` in order of first occurrence (the key order of
      `dict.fromkeys(xs)`, and the insertion order of a `Counter`). */
  function Distinct<T(==)>(xs: seq<T>): seq<T> {
    FirstByKey(xs, Identity, AdmitAll)
  }

  /** `Distinct` keeps every element once and only the elements of the input. */
  lemma DistinctFacts<T>(xs: seq<T>)
    ensures var d := Distinct(xs);
            (forall i, j :: 0 <= i < j < |d| ==> d[i] != d[j])
            && (forall x :: x in d <==> x in xs)
            && |d| == |set x | x in xs|
  {
    var d := Distinct(xs);
    FirstByKeyDistinct(xs, Identity, AdmitAll);
    KeySetOfFirstByKey(xs, Identity, AdmitAll);
    FirstByKeyLength(xs, Identity, AdmitAll);
    var ks := KeySet(d, Identity);
    forall x ensures x in d <==> x in ks {
      if x in d {
        var i :| 0 <= i < |d| && d[i] == x;
        assert Identity(d[i]) == x;
      }
    }
    forall x ensures x in xs <==> x in AdmittedKeys(xs, Identity, AdmitAll) {
      if x in xs {
        var i :| 0 <= i < |xs| && xs[i] == x;
        assert AdmitAll(Identity(xs[i])) && Identity(xs[i]) == x;
      }
    }
    assert AdmittedKeys(xs, Identity, AdmitAll) == set x | x in xs;
  }

  /** One more element: `Distinct` appends it when it is new. */
  lemma DistinctStep<T>(xs: seq<T>, i: nat)
    requires i < |xs|
    ensures Distinct(xs[..i + 1])
         == if xs[i] in Distinct(xs[..i]) then Distinct(xs[..i]) else Distinct(xs[..i]) + [xs[i]]
  {
    FirstByKeyStep(xs, i, Identity, AdmitAll);
    var d := Distinct(xs[..i]);
    if xs[i] in d {
      var j :| 0 <= j < |d| && d[j] == xs[i];
      assert Identity(d[j]) == xs[i];
    }
  }
}
