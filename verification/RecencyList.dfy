/**
  A recency list keeps the most recently used element first.  The `lru` crate's index is such a
  list of keys; paired with a map it stands for one list of entries, which is what the two-structure
  caches of the proxy are proved to refine.
*/
module RecencyList {

  ghost predicate Distinct<T(!new)>(s: seq<T>) {
    forall i, j :: 0 <= i < j < |s| ==> s[i] != s[j]
  }

  ghost function Elements<T(!new)>(s: seq<T>): set<T> {
    set x | x in s
  }

  /** The list without x; order is kept. */
  function Without<T(==, !new)>(s: seq<T>, x: T): (r: seq<T>)
    ensures |r| <= |s|
    ensures forall y :: y in r <==> y in s && y != x
  {
    if s == [] then [] else
    if s[0] == x then Without(s[1..], x) else [s[0]] + Without(s[1..], x)
  }

  /** `LruCache::put`: x becomes the most recent element. */
  function Touch<T(==, !new)>(s: seq<T>, x: T): seq<T> {
    [x] + Without(s, x)
  }

  lemma {:induction false} WithoutDistinct<T(!new)>(s: seq<T>, x: T)
    requires Distinct(s)
    ensures Distinct(Without(s, x))
    ensures x in s ==> |Without(s, x)| == |s| - 1
    ensures x !in s ==> Without(s, x) == s
  {
    if s != [] {
      WithoutDistinct(s[1..], x);
      assert s == [s[0]] + s[1..];
      assert s[0] !in s[1..];
    }
  }

  lemma TouchDistinct<T(!new)>(s: seq<T>, x: T)
    requires Distinct(s)
    ensures Distinct(Touch(s, x)) && Elements(Touch(s, x)) == Elements(s) + {x}
  {
    WithoutDistinct(s, x);
  }

  lemma {:induction false} DistinctCardinality<T(!new)>(s: seq<T>)
    requires Distinct(s)
    ensures |Elements(s)| == |s|
  {
    if s != [] {
      DistinctCardinality(s[1..]);
      assert Elements(s) == {s[0]} + Elements(s[1..]);
    }
  }

  lemma {:induction false} SubsetSize<T>(a: set<T>, b: set<T>)
    requires a <= b
    ensures |a| <= |b|
  {
    if a != {} {
      var x :| x in a;
      SubsetSize(a - {x}, b - {x});
    }
  }

  /** The list of entries that an index and a map stand for together. */
  ghost function Zip<K(!new), E(!new)>(index: seq<K>, entries: map<K, E>): (r: seq<(K, E)>)
    requires forall k :: k in index ==> k in entries
    ensures |r| == |index|
    ensures forall i :: 0 <= i < |r| ==> r[i] == (index[i], entries[index[i]])
  {
    seq(|index|, i requires 0 <= i < |index| => (index[i], entries[index[i]]))
  }

  /** The entries of the list whose key is not in ks. */
  ghost function DropKeys<K(!new), E(!new)>(items: seq<(K, E)>, ks: set<K>): (r: seq<(K, E)>)
    ensures |r| <= |items|
    ensures forall p :: p in r <==> p in items && p.0 !in ks
  {
    if items == [] then [] else
    if items[0].0 in ks then DropKeys(items[1..], ks) else [items[0]] + DropKeys(items[1..], ks)
  }

  lemma {:induction false} DropKeysTwice<K(!new), E(!new)>(items: seq<(K, E)>, a: set<K>, b: set<K>)
    ensures DropKeys(DropKeys(items, a), b) == DropKeys(items, a + b)
  {
    if items != [] {
      DropKeysTwice(items[1..], a, b);
    }
  }

  lemma {:induction false} DropNoKeys<K(!new), E(!new)>(items: seq<(K, E)>, ks: set<K>)
    requires forall p :: p in items ==> p.0 !in ks
    ensures DropKeys(items, ks) == items
  {
    if items != [] {
      DropNoKeys(items[1..], ks);
    }
  }

  ghost predicate HasKey<K(!new), E(!new)>(items: seq<(K, E)>, k: K) {
    exists i :: 0 <= i < |items| && items[i].0 == k
  }

  /** The entry of k nearest the most recent end. */
  ghost function Lookup<K(!new), E(!new)>(items: seq<(K, E)>, k: K): (e: E)
    requires HasKey(items, k)
    ensures (k, e) in items
  {
    if items[0].0 == k then items[0].1 else Lookup(items[1..], k)
  }

  lemma ZipLookup<K(!new), E(!new)>(index: seq<K>, entries: map<K, E>, k: K)
    requires Elements(index) == entries.Keys
    ensures HasKey(Zip(index, entries), k) <==> k in entries
    ensures k in entries ==> Lookup(Zip(index, entries), k) == entries[k]
  {
    var z := Zip(index, entries);
    if k in entries {
      assert k in Elements(index);
      var i :| 0 <= i < |index| && index[i] == k;
      assert z[i].0 == k;
      var e := Lookup(z, k);
      var j :| 0 <= j < |z| && z[j] == (k, e);
    }
  }

  lemma ZipCons<K(!new), E(!new)>(k: K, rest: seq<K>, entries: map<K, E>)
    requires k in entries && forall y :: y in rest ==> y in entries
    ensures Zip([k] + rest, entries) == [(k, entries[k])] + Zip(rest, entries)
  {
  }

  lemma DropKeysCons<K(!new), E(!new)>(p: (K, E), rest: seq<(K, E)>, k: K)
    ensures DropKeys([p] + rest, {k}) == if p.0 == k then DropKeys(rest, {k}) else [p] + DropKeys(rest, {k})
  {
    assert ([p] + rest)[1..] == rest;
  }

  /** Removing a key from the index alone removes its entry from the list. */
  lemma {:induction false} ZipWithout<K(!new), E(!new)>(index: seq<K>, entries: map<K, E>, after: map<K, E>, k: K)
    requires forall y :: y in index ==> y in entries
    requires forall y :: y in index && y != k ==> y in after && after[y] == entries[y]
    ensures forall y :: y in Without(index, k) ==> y in after
    ensures Zip(Without(index, k), after) == DropKeys(Zip(index, entries), {k})
  {
    if index != [] {
      var head, rest := index[0], index[1..];
      ZipWithout(rest, entries, after, k);
      ZipCons(head, rest, entries);
      assert [head] + rest == index;
      DropKeysCons((head, entries[head]), Zip(rest, entries), k);
      if head != k {
        ZipCons(head, Without(rest, k), after);
      }
    }
  }

  /** Giving k a new entry at the front of the index and in the map. */
  lemma ZipTouch<K(!new), E(!new)>(index: seq<K>, entries: map<K, E>, k: K, e: E)
    requires Distinct(index) && Elements(index) == entries.Keys
    ensures Distinct(Touch(index, k)) && Elements(Touch(index, k)) == entries[k := e].Keys
    ensures forall y :: y in Touch(index, k) ==> y in entries[k := e]
    ensures Zip(Touch(index, k), entries[k := e]) == [(k, e)] + DropKeys(Zip(index, entries), {k})
  {
    assert forall y :: y in index ==> y in Elements(index);
    var after := entries[k := e];
    TouchDistinct(index, k);
    ZipWithout(index, entries, after, k);
    ZipCons(k, Without(index, k), after);
  }

  /** Popping k from the index and removing it from the map. */
  lemma ZipPop<K(!new), E(!new)>(index: seq<K>, entries: map<K, E>, k: K)
    requires Distinct(index) && Elements(index) == entries.Keys
    ensures Distinct(Without(index, k)) && Elements(Without(index, k)) == (entries - {k}).Keys
    ensures forall y :: y in Without(index, k) ==> y in entries - {k}
    ensures Zip(Without(index, k), entries - {k}) == DropKeys(Zip(index, entries), {k})
  {
    var after := entries - {k};
    assert forall y :: y in index ==> y in Elements(index);
    WithoutDistinct(index, k);
    ZipWithout(index, entries, after, k);
  }

  /** Popping the least recent key from the index and removing it from the map. */
  lemma ZipPopLast<K(!new), E(!new)>(index: seq<K>, entries: map<K, E>)
    requires Distinct(index) && Elements(index) == entries.Keys && index != []
    requires forall y :: y in index ==> y in entries
    ensures var n := |index| - 1;
            var after := entries - {index[n]};
            && Distinct(index[..n]) && Elements(index[..n]) == after.Keys
            && (forall y :: y in index[..n] ==> y in after)
            && Zip(index[..n], after) == Zip(index, entries)[..n]
  {
    var n := |index| - 1;
    assert index == index[..n] + [index[n]];
    assert forall k :: k in Elements(index) ==> k in index[..n] || k == index[n];
  }

  // ---------- Order ----------

  ghost predicate Precedes<K, E>(stamp: E -> int, p: (K, E), q: (K, E)) {
    p.0 != q.0 && stamp(p.1) >= stamp(q.1)
  }

  /** Distinct keys, latest stamp first. */
  ghost predicate Ordered<K, E>(stamp: E -> int, items: seq<(K, E)>) {
    forall i, j :: 0 <= i < j < |items| ==> Precedes(stamp, items[i], items[j])
  }

  lemma ConsOrdered<K(!new), E(!new)>(stamp: E -> int, p: (K, E), rest: seq<(K, E)>)
    requires Ordered(stamp, rest) && forall q :: q in rest ==> Precedes(stamp, p, q)
    ensures Ordered(stamp, [p] + rest)
  {
    var r := [p] + rest;
    forall i, j | 0 <= i < j < |r| ensures Precedes(stamp, r[i], r[j]) {
      assert r[j] == rest[j - 1];
    }
  }

  lemma {:induction false} DropKeysKeepsOrder<K(!new), E(!new)>(stamp: E -> int, items: seq<(K, E)>, ks: set<K>)
    requires Ordered(stamp, items)
    ensures Ordered(stamp, DropKeys(items, ks))
  {
    if items != [] {
      assert forall q :: q in items[1..] ==> Precedes(stamp, items[0], q);
      DropKeysKeepsOrder(stamp, items[1..], ks);
      ConsOrdered(stamp, items[0], DropKeys(items[1..], ks));
    }
  }

  /** Putting an entry with the latest stamp in front keeps the order. */
  lemma TouchKeepsOrder<K(!new), E(!new)>(stamp: E -> int, items: seq<(K, E)>, k: K, e: E, t: int)
    requires Ordered(stamp, items)
    requires t <= stamp(e) && forall p :: p in items ==> stamp(p.1) <= t
    ensures Ordered(stamp, [(k, e)] + DropKeys(items, {k}))
  {
    DropKeysKeepsOrder(stamp, items, {k});
    ConsOrdered(stamp, (k, e), DropKeys(items, {k}));
  }
}
