/**
 * The JavaScript collection built-ins the compressor relies on: a `Map`,
 * which remembers the order in which keys were first set, `new Map(entries)`,
 * the stable `Array.prototype.sort` used with a numeric comparator, and
 * `Array.prototype.slice(0, n)`.
 */
module JsCollections {

  datatype Option<T> = None | Some(value: T)

  predicate Unique<K(==)>(xs: seq<K>) {
    forall i, j :: 0 <= i < j < |xs| ==> xs[i] != xs[j]
  }

  /** The elements of `xs` in order of first appearance. */
  function Distinct<K(==)>(xs: seq<K>): seq<K> {
    if xs == [] then []
    else
      var d := Distinct(xs[..|xs| - 1]);
      if xs[|xs| - 1] in d then d else d + [xs[|xs| - 1]]
  }

  function Firsts<K, V>(es: seq<(K, V)>): (r: seq<K>)
    ensures |r| == |es| && forall i :: 0 <= i < |es| ==> r[i] == es[i].0
  {
    seq(|es|, i requires 0 <= i < |es| => es[i].0)
  }

  /** `xs.slice(0, n)` for n >= 0. */
  function Take<T>(xs: seq<T>, n: nat): seq<T> {
    if n <= |xs| then xs[..n] else xs
  }

  /** A JavaScript `Map`: its keys in insertion order, and what each maps to. */
  datatype JsMap<K(==,!new), V> = JsMap(keys: seq<K>, vals: map<K, V>) {

    ghost predicate Valid() {
      Unique(keys) && forall k :: k in vals <==> k in keys
    }

    /** `m.set(k, v)`: a new key goes last; an existing key keeps its place. */
    function Set(k: K, v: V): (m: JsMap<K, V>)
      ensures Valid() ==> m.Valid()
      ensures m.Get(k) == Some(v)
      ensures forall k' :: k' != k ==> m.Get(k') == Get(k')
      ensures k in vals ==> m.keys == keys
      ensures k !in vals ==> m.keys == keys + [k]
    {
      if k in vals then JsMap(keys, vals[k := v]) else JsMap(keys + [k], vals[k := v])
    }

    /** `m.get(k)`, with None for `undefined`. */
    function Get(k: K): Option<V> {
      if k in vals then Some(vals[k]) else None
    }

    /** `Array.from(m.entries())` */
    function Entries(): (es: seq<(K, V)>)
      requires Valid()
      ensures Firsts(es) == keys
      ensures forall i :: 0 <= i < |es| ==> es[i].0 in vals && es[i].1 == vals[es[i].0]
    {
      seq(|keys|, i requires 0 <= i < |keys| && keys[i] in vals => (keys[i], vals[keys[i]]))
    }
  }

  function EmptyMap<K(==,!new), V>(): (m: JsMap<K, V>)
    ensures m.Valid() && m.keys == []
  {
    JsMap([], map[])
  }

  /** `new Map(entries)`: the entries set one after another. */
  function FromEntries<K(==,!new), V>(es: seq<(K, V)>): (m: JsMap<K, V>)
    ensures m.Valid()
  {
    if es == [] then EmptyMap() else FromEntries(es[..|es| - 1]).Set(es[|es| - 1].0, es[|es| - 1].1)
  }

  /** Setting a key the map does not hold yet appends one entry. */
  lemma EntriesSetNew<K(!new), V>(m: JsMap<K, V>, k: K, v: V)
    requires m.Valid() && k !in m.vals
    ensures m.Set(k, v).Entries() == m.Entries() + [(k, v)]
  {
    var es, es' := m.Entries(), m.Set(k, v).Entries();
    forall i | 0 <= i < |es'| ensures es'[i] == (es + [(k, v)])[i] {
      if i < |es| {
        assert m.keys[i] != k;
      }
    }
  }

  // ---------------------------------------------------------------------
  // Stable sort, largest key first
  // ---------------------------------------------------------------------

  predicate NonIncreasing<T>(s: seq<(T, int)>) {
    forall i, j :: 0 <= i < j < |s| ==> s[i].1 >= s[j].1
  }

  /** The elements whose key is `k`, in order. */
  function WithKey<T>(s: seq<(T, int)>, k: int): seq<(T, int)> {
    if s == [] then []
    else (if s[0].1 == k then [s[0]] else []) + WithKey(s[1..], k)
  }

  /** Inserts `x` after every element whose key is at least that of `x`. */
  function Insert<T>(x: (T, int), s: seq<(T, int)>): seq<(T, int)> {
    if s == [] then [x]
    else if s[0].1 >= x.1 then [s[0]] + Insert(x, s[1..])
    else [x] + s
  }

  /**
   * `s.sort((a, b) => b[1] - a[1])`: the sort the language guarantees to be
   * stable, here as an insertion sort taking the elements left to right.
   */
  function SortDesc<T>(s: seq<(T, int)>): seq<(T, int)> {
    if s == [] then [] else Insert(s[|s| - 1], SortDesc(s[..|s| - 1]))
  }

  // ---------------------------------------------------------------------
  // Lemmas
  // ---------------------------------------------------------------------

  lemma {:induction false} DistinctSpec<K>(xs: seq<K>)
    ensures Unique(Distinct(xs))
    ensures forall x :: x in Distinct(xs) <==> x in xs
  {
    if xs != [] {
      DistinctSpec(xs[..|xs| - 1]);
      assert xs == xs[..|xs| - 1] + [xs[|xs| - 1]];
    }
  }

  lemma {:induction false} DistinctOfUnique<K>(xs: seq<K>)
    requires Unique(xs)
    ensures Distinct(xs) == xs
  {
    if xs != [] {
      DistinctOfUnique(xs[..|xs| - 1]);
      assert xs == xs[..|xs| - 1] + [xs[|xs| - 1]];
    }
  }

  /**
   * `new Map(entries)` keeps the keys in order of first appearance and, for a
   * key given more than once, the value of its last entry.
   */
  lemma {:induction false} FromEntriesSpec<K(!new), V>(es: seq<(K, V)>)
    ensures FromEntries(es).keys == Distinct(Firsts(es))
    ensures forall i :: 0 <= i < |es| && (forall j :: i < j < |es| ==> es[j].0 != es[i].0) ==>
              FromEntries(es).Get(es[i].0) == Some(es[i].1)
  {
    if es != [] {
      var init := es[..|es| - 1];
      FromEntriesSpec(init);
      DistinctSpec(Firsts(init));
      assert Firsts(es)[..|es| - 1] == Firsts(init);
      forall i | 0 <= i < |es| - 1 && (forall j :: i < j < |es| ==> es[j].0 != es[i].0)
        ensures FromEntries(es).Get(es[i].0) == Some(es[i].1)
      {
        assert init[i] == es[i];
      }
    }
  }

  lemma {:induction false} InsertSorted<T>(x: (T, int), s: seq<(T, int)>)
    requires NonIncreasing(s)
    ensures NonIncreasing(Insert(x, s))
    ensures |Insert(x, s)| == |s| + 1
    ensures Insert(x, s)[0] == x || (s != [] && Insert(x, s)[0] == s[0])
  {
    if s != [] && s[0].1 >= x.1 {
      InsertSorted(x, s[1..]);
    }
  }

  lemma {:induction false} InsertPerm<T>(x: (T, int), s: seq<(T, int)>)
    ensures multiset(Insert(x, s)) == multiset(s) + multiset{x}
  {
    if s != [] && s[0].1 >= x.1 {
      InsertPerm(x, s[1..]);
      assert s == [s[0]] + s[1..];
    }
  }

  lemma {:induction false} InsertStable<T>(x: (T, int), s: seq<(T, int)>, k: int)
    requires NonIncreasing(s)
    ensures WithKey(Insert(x, s), k) == WithKey(s, k) + (if x.1 == k then [x] else [])
  {
    if s == [] {
    } else if s[0].1 >= x.1 {
      InsertStable(x, s[1..], k);
      assert Insert(x, s) == [s[0]] + Insert(x, s[1..]);
      assert ([s[0]] + Insert(x, s[1..]))[1..] == Insert(x, s[1..]);
    } else {
      assert ([x] + s)[1..] == s;
      if x.1 == k {
        WithKeyAbsent(s, k);
      }
    }
  }

  lemma {:induction false} WithKeyAppend<T>(s: seq<(T, int)>, y: (T, int), k: int)
    ensures WithKey(s + [y], k) == WithKey(s, k) + (if y.1 == k then [y] else [])
  {
    if s != [] {
      WithKeyAppend(s[1..], y, k);
      assert (s + [y])[1..] == s[1..] + [y];
    }
  }

  /** In a non-increasing sequence that starts below `k`, nothing has key `k`. */
  lemma {:induction false} WithKeyAbsent<T>(s: seq<(T, int)>, k: int)
    requires NonIncreasing(s) && s != [] && s[0].1 < k
    ensures WithKey(s, k) == []
    decreases |s|
  {
    if |s| > 1 {
      WithKeyAbsent(s[1..], k);
    }
  }

  lemma {:induction false} SortDescSorted<T>(s: seq<(T, int)>)
    ensures NonIncreasing(SortDesc(s)) && |SortDesc(s)| == |s|
  {
    if s != [] {
      SortDescSorted(s[..|s| - 1]);
      InsertSorted(s[|s| - 1], SortDesc(s[..|s| - 1]));
    }
  }

  lemma {:induction false} SortDescPerm<T>(s: seq<(T, int)>)
    ensures multiset(SortDesc(s)) == multiset(s)
  {
    if s != [] {
      SortDescPerm(s[..|s| - 1]);
      InsertPerm(s[|s| - 1], SortDesc(s[..|s| - 1]));
      assert s == s[..|s| - 1] + [s[|s| - 1]];
    }
  }

  lemma {:induction false} SortDescStable<T>(s: seq<(T, int)>, k: int)
    ensures WithKey(SortDesc(s), k) == WithKey(s, k)
  {
    if s != [] {
      var init := s[..|s| - 1];
      SortDescStable(init, k);
      SortDescSorted(init);
      InsertStable(s[|s| - 1], SortDesc(init), k);
      WithKeyAppend(init, s[|s| - 1], k);
      assert s == init + [s[|s| - 1]];
    }
  }

  lemma FirstsCons<K, V>(y: (K, V), t: seq<(K, V)>)
    ensures Firsts([y] + t) == [y.0] + Firsts(t)
  {
  }

  lemma {:induction false} FirstsInsert<T>(x: (T, int), s: seq<(T, int)>)
    ensures multiset(Firsts(Insert(x, s))) == multiset(Firsts(s)) + multiset{x.0}
  {
    if s == [] {
      assert Insert(x, s) == [x];
      assert Firsts([x]) == [x.0];
    } else if s[0].1 >= x.1 {
      var rest := Insert(x, s[1..]);
      FirstsInsert(x, s[1..]);
      assert Insert(x, s) == [s[0]] + rest;
      FirstsCons(s[0], rest);
      FirstsCons(s[0], s[1..]);
      assert [s[0]] + s[1..] == s;
      assert multiset(Firsts(Insert(x, s))) == multiset{s[0].0} + multiset(Firsts(rest));
      assert multiset(Firsts(s)) == multiset{s[0].0} + multiset(Firsts(s[1..]));
    } else {
      assert Insert(x, s) == [x] + s;
      FirstsCons(x, s);
    }
  }

  /** Sorting only reorders the items. */
  lemma {:induction false} FirstsSortDesc<T>(s: seq<(T, int)>)
    ensures multiset(Firsts(SortDesc(s))) == multiset(Firsts(s))
  {
    if s != [] {
      var init := s[..|s| - 1];
      FirstsSortDesc(init);
      FirstsInsert(s[|s| - 1], SortDesc(init));
      assert Firsts(s) == Firsts(init) + [s[|s| - 1].0];
    }
  }

  /**
   * The sort is a permutation, orders by non-increasing key, and is stable:
   * the elements with any one key keep their relative order.
   */
  lemma SortDescSpec<T>(s: seq<(T, int)>)
    ensures NonIncreasing(SortDesc(s)) && |SortDesc(s)| == |s|
    ensures multiset(SortDesc(s)) == multiset(s)
    ensures forall k :: WithKey(SortDesc(s), k) == WithKey(s, k)
  {
    SortDescSorted(s);
    SortDescPerm(s);
    forall k ensures WithKey(SortDesc(s), k) == WithKey(s, k) {
      SortDescStable(s, k);
    }
  }
}
