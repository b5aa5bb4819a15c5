/** Python dictionaries keep their keys in insertion order, and the core's
    results depend on that order (which keys come first, which write comes
    last). A `Dict` is a map together with the order in which its keys were
    first inserted. `CountAll` is `collections.Counter` over a sequence. */
module Dicts {

  ghost predicate Distinct<T>(s: seq<T>) {
    forall i, j :: 0 <= i < j < |s| ==> s[i] != s[j]
  }

  /** An element of a sequence without repeats occurs in it at most once. */
  lemma {:induction false} DistinctOnce<T>(xs: seq<T>, x: T)
    requires Distinct(xs)
    ensures multiset(xs)[x] <= 1
    decreases |xs|
  {
    if xs != [] {
      var p := xs[..|xs| - 1];
      assert xs == p + [xs[|xs| - 1]];
      DistinctOnce(p, x);
      if x == xs[|xs| - 1] {
        forall i | 0 <= i < |p| ensures p[i] != x {
          assert p[i] == xs[i];
        }
      }
    }
  }

  /** An element listed at two positions occurs at least twice. */
  lemma Twice<T>(xs: seq<T>, i: nat, j: nat)
    requires i < j < |xs| && xs[i] == xs[j]
    ensures multiset(xs)[xs[i]] >= 2
  {
    assert xs == xs[..j] + xs[j..];
    assert xs[..j][i] == xs[i];
    assert xs[j..][0] == xs[j];
  }

  /** A sub-multiset of a sequence without repeats has no repeats. */
  lemma SubDistinct<T>(ys: seq<T>, xs: seq<T>)
    requires Distinct(xs)
    requires multiset(ys) <= multiset(xs)
    ensures Distinct(ys)
  {
    forall i, j | 0 <= i < j < |ys| ensures ys[i] != ys[j] {
      DistinctOnce(xs, ys[i]);
      if ys[i] == ys[j] {
        Twice(ys, i, j);
      }
    }
  }

  datatype Dict<K(==, !new), V> = Dict(keys: seq<K>, vals: map<K, V>) {

    /** Keys are listed once each, and exactly the keys of the map. */
    ghost predicate Valid() {
      && Distinct(keys)
      && (forall k :: k in vals <==> k in keys)
    }

    /** Python's `d.get(k, default)`. */
    function Get(k: K, default: V): V {
      if k in vals then vals[k] else default
    }

    /** Python's `d[k] = v`: a new key goes to the end, an existing key keeps
        its place. */
    function Put(k: K, v: V): (d: Dict<K, V>)
      requires Valid()
      ensures d.Valid()
      ensures d.vals == vals[k := v]
      ensures k in vals ==> d.keys == keys
      ensures k !in vals ==> d.keys == keys + [k]
    {
      if k in vals then Dict(keys, vals[k := v]) else Dict(keys + [k], vals[k := v])
    }
  }

  function Empty<K(==, !new), V>(): (d: Dict<K, V>)
    ensures d.Valid() && d.keys == []
  {
    Dict([], map[])
  }

  /** Python's `c[k] += 1` on a Counter `c`. */
  function Bump<K(==, !new)>(d: Dict<K, nat>, k: K): (d': Dict<K, nat>)
    requires d.Valid()
    ensures d'.Valid()
  {
    d.Put(k, d.Get(k, 0) + 1)
  }

  /** `collections.Counter(ks)`: each distinct element of `ks` with the number
      of times it occurs, keys in order of first occurrence. */
  function CountAll<K(==, !new)>(ks: seq<K>): (d: Dict<K, nat>)
    ensures d.Valid()
    ensures forall k :: k in d.vals <==> k in ks
    ensures forall k :: d.Get(k, 0) == multiset(ks)[k]
    decreases |ks|
  {
    if ks == [] then Empty()
    else
      var prefix := ks[..|ks| - 1];
      assert ks == prefix + [ks[|ks| - 1]];
      Bump(CountAll(prefix), ks[|ks| - 1])
  }

  /** Counting one more element updates the Counter the way `c[k] += 1` does. */
  lemma CountAllSnoc<K(!new)>(ks: seq<K>, k: K)
    ensures CountAll(ks + [k]) == Bump(CountAll(ks), k)
  {
    var ks' := ks + [k];
    assert ks'[..|ks'| - 1] == ks;
    assert ks'[|ks'| - 1] == k;
  }

  /** Sum of the values of `m` over the keys listed in `ks` (a key missing
      from `m` contributes nothing). */
  function Sum<K(==, !new)>(ks: seq<K>, m: map<K, nat>): nat {
    if ks == [] then 0
    else
      var k := ks[|ks| - 1];
      Sum(ks[..|ks| - 1], m) + (if k in m then m[k] else 0)
  }

  lemma {:induction false} SumFrame<K(!new)>(ks: seq<K>, m: map<K, nat>, m': map<K, nat>)
    requires forall k :: k in ks ==> (k in m <==> k in m') && (k in m ==> m[k] == m'[k])
    ensures Sum(ks, m) == Sum(ks, m')
  {
    if ks != [] {
      SumFrame(ks[..|ks| - 1], m, m');
    }
  }

  /** Raising the value of a key listed exactly once raises the sum by as much. */
  lemma {:induction false} SumBump<K(!new)>(ks: seq<K>, m: map<K, nat>, k: K, v: nat)
    requires forall x :: x in ks ==> x in m
    requires Distinct(ks) && k in ks
    ensures Sum(ks, m[k := m[k] + v]) == Sum(ks, m) + v
  {
    var n := |ks| - 1;
    var prefix := ks[..n];
    if ks[n] == k {
      forall i | 0 <= i < n ensures prefix[i] != k {
        assert ks[i] != ks[n];
      }
      SumFrame(prefix, m, m[k := m[k] + v]);
    } else {
      assert k in prefix by {
        var i :| 0 <= i < |ks| && ks[i] == k;
        assert i < n;
      }
      SumBump(prefix, m, k, v);
    }
  }

  /** `c[k] += 1` raises the sum of the counts by one. */
  lemma SumBumpOne<K(!new)>(d: Dict<K, nat>, k: K)
    requires d.Valid()
    ensures Sum(Bump(d, k).keys, Bump(d, k).vals) == Sum(d.keys, d.vals) + 1
  {
    if k in d.vals {
      SumBump(d.keys, d.vals, k, 1);
    } else {
      var d' := Bump(d, k);
      assert d'.keys[..|d.keys|] == d.keys;
      SumFrame(d.keys, d.vals, d'.vals);
    }
  }

  /** The counts of a Counter add up to the length of the counted sequence. */
  lemma {:induction false} CountAllSum<K(!new)>(ks: seq<K>)
    ensures Sum(CountAll(ks).keys, CountAll(ks).vals) == |ks|
    decreases |ks|
  {
    if ks != [] {
      var prefix := ks[..|ks| - 1];
      assert ks == prefix + [ks[|ks| - 1]];
      assert CountAll(ks) == Bump(CountAll(prefix), ks[|ks| - 1]);
      CountAllSum(prefix);
      SumBumpOne(CountAll(prefix), ks[|ks| - 1]);
    }
  }

  /** The position at which `x` first occurs in `ks`. */
  function First<K(==)>(ks: seq<K>, x: K): (i: nat)
    requires x in ks
    ensures i < |ks| && ks[i] == x
    ensures forall j :: 0 <= j < i ==> ks[j] != x
  {
    if ks[0] == x then 0 else 1 + First(ks[1..], x)
  }

  /** Appending an element does not move the first occurrence of an earlier one. */
  lemma FirstSnoc<K>(ks: seq<K>, k: K, x: K)
    requires x in ks
    ensures First(ks + [k], x) == First(ks, x)
  {
    assert (ks + [k])[First(ks, x)] == x;
  }

  /** `keys` lists elements of `ks` in the order of their first occurrence. */
  ghost predicate FirstOrder<K(!new)>(keys: seq<K>, ks: seq<K>) {
    && (forall x :: x in keys <==> x in ks)
    && (forall i, j :: 0 <= i < j < |keys| ==> First(ks, keys[i]) < First(ks, keys[j]))
  }

  /** An element seen before leaves the first-occurrence order unchanged. */
  lemma OrderSnocOld<K(!new)>(keys: seq<K>, ks: seq<K>, k: K)
    requires FirstOrder(keys, ks) && k in ks
    ensures FirstOrder(keys, ks + [k])
  {
    forall i, j | 0 <= i < j < |keys| ensures First(ks + [k], keys[i]) < First(ks + [k], keys[j]) {
      FirstSnoc(ks, k, keys[i]);
      FirstSnoc(ks, k, keys[j]);
    }
  }

  /** A new element goes to the end of the first-occurrence order. */
  lemma OrderSnocNew<K(!new)>(keys: seq<K>, ks: seq<K>, k: K)
    requires FirstOrder(keys, ks) && k !in ks
    ensures FirstOrder(keys + [k], ks + [k])
  {
    var ks', keys' := ks + [k], keys + [k];
    assert First(ks', k) == |ks|;
    forall i, j | 0 <= i < j < |keys'| ensures First(ks', keys'[i]) < First(ks', keys'[j]) {
      assert keys'[i] == keys[i];
      FirstSnoc(ks, k, keys[i]);
      if j < |keys| {
        assert keys'[j] == keys[j];
        FirstSnoc(ks, k, keys[j]);
      }
    }
  }

  /** A Counter lists its keys in the order of their first occurrence. */
  lemma {:induction false} CountAllOrder<K(!new)>(ks: seq<K>)
    ensures forall x :: x in CountAll(ks).keys <==> x in ks
    ensures forall i, j :: 0 <= i < j < |CountAll(ks).keys| ==>
      First(ks, CountAll(ks).keys[i]) < First(ks, CountAll(ks).keys[j])
    decreases |ks|
  {
    if ks != [] {
      var prefix, k := ks[..|ks| - 1], ks[|ks| - 1];
      assert ks == prefix + [k];
      var d := CountAll(prefix);
      assert CountAll(ks) == Bump(d, k);
      CountAllOrder(prefix);
      if k in prefix {
        assert Bump(d, k).keys == d.keys;
        OrderSnocOld(d.keys, prefix, k);
      } else {
        assert Bump(d, k).keys == d.keys + [k];
        OrderSnocNew(d.keys, prefix, k);
      }
    }
  }

  /** Every key of a Counter has a positive count. */
  lemma CountAllPositive<K(!new)>(ks: seq<K>)
    ensures forall k :: k in CountAll(ks).vals ==> CountAll(ks).vals[k] >= 1
  {
    var d := CountAll(ks);
    forall k | k in d.vals ensures d.vals[k] >= 1 {
      assert d.Get(k, 0) == multiset(ks)[k];
    }
  }
}
