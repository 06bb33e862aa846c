/**
 * A Python dictionary with its iteration order: `keys` lists the keys in the
 * order they were first inserted, `values` maps each key to its value.
 */
module Dicts {

  datatype Dict<K(==,!new), V> = Dict(keys: seq<K>, values: map<K, V>)

  predicate Distinct<K(==,!new)>(ks: seq<K>)
  {
    forall i, j :: 0 <= i < j < |ks| ==> ks[i] != ks[j]
  }

  /** Every key is listed once, and the listed keys are exactly the mapped ones. */
  ghost predicate Valid<K(!new), V>(d: Dict<K, V>)
  {
    Distinct(d.keys) && forall k :: k in d.values <==> k in d.keys
  }

  /** `d[k] = v`: a new key goes to the end of the order, an existing key keeps its place. */
  function Insert<K(==,!new), V>(d: Dict<K, V>, k: K, v: V): (r: Dict<K, V>)
    requires Valid(d)
    ensures Valid(r)
    ensures r.values == d.values[k := v]
    ensures d.keys <= r.keys
  {
    if k in d.values then Dict(d.keys, d.values[k := v]) else Dict(d.keys + [k], d.values[k := v])
  }

  /** The keys other than `k`, in their order. */
  function Without<K(==,!new)>(ks: seq<K>, k: K): (r: seq<K>)
    ensures forall x :: x in r <==> x in ks && x != k
    ensures Distinct(ks) ==> Distinct(r)
  {
    if |ks| == 0 then []
    else
      assert Distinct(ks) ==> Distinct(ks[1..]) && ks[0] !in ks[1..];
      (if ks[0] == k then [] else [ks[0]]) + Without(ks[1..], k)
  }

  /** `del d[k]` on a key the dictionary holds; the other keys keep their order. */
  function Remove<K(==,!new), V>(d: Dict<K, V>, k: K): (r: Dict<K, V>)
    requires Valid(d) && k in d.values
    ensures Valid(r)
    ensures r.values == d.values - {k}
    ensures r.keys == Without(d.keys, k)
  {
    Dict(Without(d.keys, k), d.values - {k})
  }

  lemma {:induction false} WithoutAbsent<K(!new)>(ks: seq<K>, k: K)
    requires k !in ks
    ensures Without(ks, k) == ks
  {
    if |ks| > 0 {
      WithoutAbsent(ks[1..], k);
    }
  }

  /** Removing a key that occurs once leaves the keys before and after it, in their order. */
  lemma {:induction false} WithoutKeepsOrder<K(!new)>(xs: seq<K>, k: K, ys: seq<K>)
    requires k !in xs && k !in ys
    ensures Without(xs + [k] + ys, k) == xs + ys
  {
    if |xs| == 0 {
      assert (xs + [k] + ys)[1..] == ys;
      WithoutAbsent(ys, k);
    } else {
      assert (xs + [k] + ys)[1..] == xs[1..] + [k] + ys;
      WithoutKeepsOrder(xs[1..], k, ys);
      assert xs + ys == [xs[0]] + (xs[1..] + ys);
    }
  }

  /** A key of a duplicate-free sequence splits it into the keys before and after it, neither holding it. */
  lemma DistinctSplit<K(!new)>(ks: seq<K>, i: nat)
    requires Distinct(ks) && i < |ks|
    ensures ks == ks[..i] + [ks[i]] + ks[i + 1..]
    ensures ks[i] !in ks[..i] && ks[i] !in ks[i + 1..]
  {
    var before, after := ks[..i], ks[i + 1..];
    forall j | 0 <= j < |before| ensures before[j] != ks[i] {
      assert before[j] == ks[j];
    }
    forall j | 0 <= j < |after| ensures after[j] != ks[i] {
      assert after[j] == ks[i + 1 + j];
    }
  }

  /** `del d[k]` takes `k` out of its place in the order and keeps every other key where it was. */
  lemma RemoveKeepsOrder<K(!new), V>(d: Dict<K, V>, k: K)
    requires Valid(d) && k in d.values
    ensures exists i :: 0 <= i < |d.keys| && d.keys[i] == k
                        && Remove(d, k).keys == d.keys[..i] + d.keys[i + 1..]
  {
    var i :| 0 <= i < |d.keys| && d.keys[i] == k;
    DistinctSplit(d.keys, i);
    WithoutKeepsOrder(d.keys[..i], k, d.keys[i + 1..]);
  }

  /** `d[k] = v` for each pair in turn (`d.update(...)` and the scanning loop both do this). */
  function InsertAll<K(==,!new), V>(d: Dict<K, V>, pairs: seq<(K, V)>): (r: Dict<K, V>)
    requires Valid(d)
    ensures Valid(r)
    ensures d.keys <= r.keys
  {
    if |pairs| == 0 then d
    else
      var init := pairs[..|pairs| - 1];
      var last := pairs[|pairs| - 1];
      assert pairs == init + [last];
      Insert(InsertAll(d, init), last.0, last.1)
  }

  /** Pair `i` sets `k` to `v`, and no later pair names `k`. */
  ghost predicate LastSetter<K, V>(pairs: seq<(K, V)>, k: K, v: V, i: int)
  {
    0 <= i < |pairs| && pairs[i] == (k, v) && forall j :: i < j < |pairs| ==> pairs[j].0 != k
  }

  lemma InsertAllStep<K(!new), V>(d: Dict<K, V>, pairs: seq<(K, V)>)
    requires Valid(d) && |pairs| > 0
    ensures InsertAll(d, pairs).values
            == InsertAll(d, pairs[..|pairs| - 1]).values[pairs[|pairs| - 1].0 := pairs[|pairs| - 1].1]
  {
  }

  /** Appending a pair that names another key keeps the last setter of `k`. */
  lemma LastSetterExtend<K, V>(pairs: seq<(K, V)>, k: K, v: V, i: int)
    requires |pairs| > 0 && pairs[|pairs| - 1].0 != k
    requires LastSetter(pairs[..|pairs| - 1], k, v, i)
    ensures LastSetter(pairs, k, v, i)
  {
    var init := pairs[..|pairs| - 1];
    forall j | i < j < |pairs| ensures pairs[j].0 != k {
      if j < |pairs| - 1 { assert pairs[j] == init[j]; }
    }
  }

  /** A key some pair names holds the value of the last pair that names it. */
  lemma {:induction false} InsertAllLastWins<K(!new), V>(d: Dict<K, V>, pairs: seq<(K, V)>, k: K, i0: nat)
    requires Valid(d)
    requires i0 < |pairs| && pairs[i0].0 == k
    ensures k in InsertAll(d, pairs).values
    ensures exists i :: LastSetter(pairs, k, InsertAll(d, pairs).values[k], i)
  {
    var n := |pairs| - 1;
    var init := pairs[..n];
    InsertAllStep(d, pairs);
    var before := InsertAll(d, init).values;
    var after := InsertAll(d, pairs).values;
    if pairs[n].0 == k {
      assert LastSetter(pairs, k, after[k], n);
    } else {
      assert init[i0].0 == k;
      InsertAllLastWins(d, init, k, i0);
      var i :| LastSetter(init, k, before[k], i);
      LastSetterExtend(pairs, k, before[k], i);
      assert after[k] == before[k];
    }
  }

  /** A key no pair names is present and valued exactly as before. */
  lemma {:induction false} InsertAllUntouched<K(!new), V>(d: Dict<K, V>, pairs: seq<(K, V)>, k: K)
    requires Valid(d)
    requires forall i :: 0 <= i < |pairs| ==> pairs[i].0 != k
    ensures k in InsertAll(d, pairs).values <==> k in d.values
    ensures k in d.values ==> InsertAll(d, pairs).values[k] == d.values[k]
  {
    if |pairs| > 0 {
      var n := |pairs| - 1;
      var init := pairs[..n];
      assert forall i :: 0 <= i < |init| ==> init[i] == pairs[i];
      InsertAllUntouched(d, init, k);
    }
  }
}
