/** Python's `sorted(xs, key=key, reverse=True)`: a stable sort into
    descending key order (with `reverse=True`, elements with equal keys keep
    their original relative order), and the `[:n]` slice taken after it. */
module Sorting {

  ghost predicate SortedDesc<T>(xs: seq<T>, key: T -> int) {
    forall i, j :: 0 <= i < j < |xs| ==> key(xs[i]) >= key(xs[j])
  }

  /** The elements of `xs` whose key is `v`, in their order in `xs`. */
  function KeyClass<T>(xs: seq<T>, key: T -> int, v: int): seq<T> {
    if xs == [] then []
    else (if key(xs[0]) == v then [xs[0]] else []) + KeyClass(xs[1..], key, v)
  }

  /** Inserts `x` into descending `ys` after every element whose key is at
      least `key(x)`. */
  function Insert<T>(ys: seq<T>, x: T, key: T -> int): (r: seq<T>)
    requires SortedDesc(ys, key)
    ensures |r| == |ys| + 1
    ensures r[0] == x || (ys != [] && r[0] == ys[0])
    ensures SortedDesc(r, key)
    ensures multiset(r) == multiset(ys) + multiset{x}
  {
    if ys == [] then [x]
    else if key(x) > key(ys[0]) then [x] + ys
    else
      assert ys == [ys[0]] + ys[1..];
      [ys[0]] + Insert(ys[1..], x, key)
  }

  /** `sorted(xs, key=key, reverse=True)`. */
  function SortDesc<T>(xs: seq<T>, key: T -> int): (r: seq<T>)
    ensures SortedDesc(r, key)
    ensures multiset(r) == multiset(xs)
  {
    if xs == [] then []
    else
      assert xs == xs[..|xs| - 1] + [xs[|xs| - 1]];
      Insert(SortDesc(xs[..|xs| - 1], key), xs[|xs| - 1], key)
  }

  /** `xs[:n]`. */
  function Take<T>(xs: seq<T>, n: nat): (r: seq<T>)
    ensures |r| == if |xs| <= n then |xs| else n
    ensures r == xs[..|r|]
  {
    if |xs| <= n then xs else xs[..n]
  }

  lemma {:induction false} KeyClassAppend<T>(a: seq<T>, b: seq<T>, key: T -> int, v: int)
    ensures KeyClass(a + b, key, v) == KeyClass(a, key, v) + KeyClass(b, key, v)
    decreases |a|
  {
    if a == [] {
      assert a + b == b;
    } else {
      assert a == [a[0]] + a[1..];
      assert a + b == [a[0]] + (a[1..] + b);
      KeyClassCons(a[0], a[1..] + b, key, v);
      KeyClassCons(a[0], a[1..], key, v);
      KeyClassAppend(a[1..], b, key, v);
    }
  }

  lemma {:induction false} KeyClassBelow<T>(xs: seq<T>, key: T -> int, v: int)
    requires forall i :: 0 <= i < |xs| ==> key(xs[i]) < v
    ensures KeyClass(xs, key, v) == []
    decreases |xs|
  {
    if xs != [] {
      KeyClassBelow(xs[1..], key, v);
    }
  }

  /** Inserting in front of a descending sequence whose keys are all below
      the new key. */
  lemma KeyClassInsertFront<T>(ys: seq<T>, x: T, key: T -> int, v: int)
    requires SortedDesc(ys, key) && ys != [] && key(x) > key(ys[0])
    ensures KeyClass([x] + ys, key, v) == KeyClass(ys, key, v) + (if key(x) == v then [x] else [])
  {
    var r := [x] + ys;
    assert r[0] == x && r[1..] == ys;
    if key(x) == v {
      forall i | 0 <= i < |ys| ensures key(ys[i]) < v {
        if i > 0 {
          assert key(ys[0]) >= key(ys[i]);
        }
      }
      KeyClassBelow(ys, key, v);
    }
  }

  /** The head of `ys` heads the key class when it carries the key. */
  lemma KeyClassCons<T>(y: T, ys: seq<T>, key: T -> int, v: int)
    ensures KeyClass([y] + ys, key, v) == (if key(y) == v then [y] else []) + KeyClass(ys, key, v)
  {
    assert ([y] + ys)[0] == y && ([y] + ys)[1..] == ys;
  }

  lemma {:induction false} KeyClassInsert<T>(ys: seq<T>, x: T, key: T -> int, v: int)
    requires SortedDesc(ys, key)
    ensures KeyClass(Insert(ys, x, key), key, v)
         == KeyClass(ys, key, v) + (if key(x) == v then [x] else [])
    decreases |ys|
  {
    if ys == [] {
    } else if key(x) > key(ys[0]) {
      KeyClassInsertFront(ys, x, key, v);
    } else {
      var rest := Insert(ys[1..], x, key);
      assert Insert(ys, x, key) == [ys[0]] + rest;
      KeyClassCons(ys[0], rest, key, v);
      assert ys == [ys[0]] + ys[1..];
      KeyClassCons(ys[0], ys[1..], key, v);
      KeyClassInsert(ys[1..], x, key, v);
    }
  }

  /** The sort is stable: for every key value, the elements carrying it come
      out in the order they went in. */
  lemma {:induction false} SortDescStable<T>(xs: seq<T>, key: T -> int, v: int)
    ensures KeyClass(SortDesc(xs, key), key, v) == KeyClass(xs, key, v)
    decreases |xs|
  {
    if xs != [] {
      var prefix := xs[..|xs| - 1];
      var x := xs[|xs| - 1];
      var tail := if key(x) == v then [x] else [];
      assert xs == prefix + [x];
      assert SortDesc(xs, key) == Insert(SortDesc(prefix, key), x, key);
      SortDescStable(prefix, key, v);
      KeyClassInsert(SortDesc(prefix, key), x, key, v);
      KeyClassAppend(prefix, [x], key, v);
      assert [x][1..] == [];
      assert KeyClass([x], key, v) == tail + KeyClass([], key, v);
    }
  }

  lemma {:induction false} KeyClassAll<T>(xs: seq<T>, key: T -> int, v: int)
    requires forall i :: 0 <= i < |xs| ==> key(xs[i]) == v
    ensures KeyClass(xs, key, v) == xs
    decreases |xs|
  {
    if xs != [] {
      KeyClassAll(xs[1..], key, v);
      assert [xs[0]] + xs[1..] == xs;
    }
  }

  /** When every element has the same key the sort leaves the order alone. */
  lemma SortDescConstant<T>(xs: seq<T>, key: T -> int, v: int)
    requires forall i :: 0 <= i < |xs| ==> key(xs[i]) == v
    ensures SortDesc(xs, key) == xs
  {
    var r := SortDesc(xs, key);
    forall i | 0 <= i < |r| ensures key(r[i]) == v {
      assert r[i] in multiset(r);
      assert r[i] in multiset(xs);
    }
    SortDescStable(xs, key, v);
    KeyClassAll(xs, key, v);
    KeyClassAll(r, key, v);
  }

  /** The first `n` of a descending sort are elements of `xs`, in
      descending order. */
  lemma TopSorted<T>(xs: seq<T>, key: T -> int, n: nat)
    ensures var t := Take(SortDesc(xs, key), n);
            && |t| == (if |xs| <= n then |xs| else n)
            && SortedDesc(t, key)
            && (forall i :: 0 <= i < |t| ==> t[i] in xs)
            && multiset(t) <= multiset(xs)
  {
    var s := SortDesc(xs, key);
    var t := Take(s, n);
    assert |s| == |xs| by {
      assert |multiset(s)| == |multiset(xs)|;
    }
    assert s == t + s[|t|..];
    assert multiset(s) == multiset(t) + multiset(s[|t|..]);
    forall i | 0 <= i < |t| ensures t[i] in xs {
      assert t[i] == s[i];
      assert s[i] in multiset(xs);
    }
  }

  /** No element left out of the first `n` of a descending sort has a
      larger key than one kept. */
  lemma TopBeats<T>(xs: seq<T>, key: T -> int, n: nat, p: T, i: nat)
    requires p in xs && p !in Take(SortDesc(xs, key), n) && i < |Take(SortDesc(xs, key), n)|
    ensures key(Take(SortDesc(xs, key), n)[i]) >= key(p)
  {
    var s := SortDesc(xs, key);
    var t := Take(s, n);
    assert p in multiset(s);
    var j :| 0 <= j < |s| && s[j] == p;
    assert forall k | 0 <= k < |t| :: t[k] == s[k];
    assert i < j;
  }
}
