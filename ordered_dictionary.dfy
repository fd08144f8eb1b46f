/**
 * The `OrderedDictionary` of swift-collections, as far as the navigation path
 * manager uses it: a sequence of pairwise distinct keys that fixes the order,
 * plus a map that gives each key its value.
 */
module OrderedDictionary {
  import opened Wrappers

  /** No element occurs twice. */
  ghost predicate Distinct<K(!new)>(ks: seq<K>) {
    forall i, j | 0 <= i < j < |ks| :: ks[i] != ks[j]
  }

  /** The elements of a sequence, as a set. */
  function Elems<K(!new)>(ks: seq<K>): (r: set<K>)
    ensures forall k :: k in r <==> k in ks
  {
    set k | k in ks
  }

  /** `Array.firstIndex(of:)`: the position of the first occurrence of `k`. */
  function FirstIndex<K(==,!new)>(ks: seq<K>, k: K): (r: Option<nat>)
    ensures r.None? <==> k !in ks
    ensures r.Some? ==> r.value < |ks| && ks[r.value] == k && k !in ks[..r.value]
  {
    if ks == [] then None
    else if ks[0] == k then Some(0)
    else
      match FirstIndex(ks[1..], k)
      case None => None
      case Some(i) =>
        assert ks[..i + 1] == [ks[0]] + ks[1..][..i];
        Some(i + 1)
  }

  /** In a duplicate-free sequence the first occurrence is the only one. */
  lemma {:induction false} FirstIndexUnique<K(!new)>(ks: seq<K>, i: nat)
    requires Distinct(ks) && i < |ks|
    ensures FirstIndex(ks, ks[i]) == Some(i)
  {
  }

  /** `ks` with every element of `drop` taken out, the order of the rest kept. */
  function Without<K(==,!new)>(ks: seq<K>, drop: set<K>): (r: seq<K>)
    ensures forall k :: k in r <==> k in ks && k !in drop
    ensures |r| <= |ks|
  {
    if ks == [] then []
    else (if ks[0] in drop then [] else [ks[0]]) + Without(ks[1..], drop)
  }

  lemma {:induction false} WithoutDistinct<K(!new)>(ks: seq<K>, drop: set<K>)
    requires Distinct(ks)
    ensures Distinct(Without(ks, drop))
  {
    if ks != [] {
      WithoutDistinct(ks[1..], drop);
      var tail := Without(ks[1..], drop);
      assert ks[0] !in ks[1..];
    }
  }

  /** Taking elements out distributes over concatenation. */
  lemma {:induction false} WithoutConcat<K(!new)>(a: seq<K>, b: seq<K>, drop: set<K>)
    ensures Without(a + b, drop) == Without(a, drop) + Without(b, drop)
  {
    if a != [] {
      assert (a + b)[1..] == a[1..] + b;
      WithoutConcat(a[1..], b, drop);
    } else {
      assert a + b == b;
    }
  }

  /** Taking out elements that do not occur changes nothing. */
  lemma {:induction false} WithoutNone<K(!new)>(ks: seq<K>, drop: set<K>)
    requires forall k | k in ks :: k !in drop
    ensures Without(ks, drop) == ks
  {
    if ks != [] {
      WithoutNone(ks[1..], drop);
      assert [ks[0]] + ks[1..] == ks;
    }
  }

  /** Taking out everything leaves nothing. */
  lemma {:induction false} WithoutAll<K(!new)>(ks: seq<K>, drop: set<K>)
    requires forall k | k in ks :: k in drop
    ensures Without(ks, drop) == []
  {
    if ks != [] {
      WithoutAll(ks[1..], drop);
    }
  }

  /** Two removals in a row are one removal of both sets. */
  lemma {:induction false} WithoutTwice<K(!new)>(ks: seq<K>, a: set<K>, b: set<K>)
    ensures Without(Without(ks, a), b) == Without(ks, a + b)
  {
    if ks != [] {
      WithoutTwice(ks[1..], a, b);
      var head := if ks[0] in a then [] else [ks[0]];
      WithoutConcat(head, Without(ks[1..], a), b);
      if ks[0] !in a {
        assert Without(head, b) == Without(head[1..], b) + (if ks[0] in b then [] else [ks[0]]);
        assert head[1..] == [];
      }
    }
  }

  /**
   * The ordered dictionary: `keys` fixes the iteration order, `values`
   * holds the value of each key.
   */
  datatype OrderedDict<K(==,!new), V> = OrderedDict(keys: seq<K>, values: map<K, V>) {

    /** Keys are pairwise distinct and are exactly the domain of `values`. */
    ghost predicate Valid() {
      Distinct(keys) && forall k :: k in values <==> k in keys
    }

    /** `dictionary[key]` */
    function Get(k: K): (r: Option<V>)
      requires Valid()
      ensures r.Some? <==> k in keys
      ensures r.Some? ==> r.value == values[k]
    {
      if k in values then Some(values[k]) else None
    }

    /** `elements.first?.key` */
    function FirstKey(): (r: Option<K>)
      ensures r.None? <==> keys == []
      ensures r.Some? ==> r.value == keys[0]
    {
      if keys == [] then None else Some(keys[0])
    }

    /**
     * `dictionary[key] = value`: replaces the value in place when the key is
     * present, otherwise appends the key at the end.
     */
    function Assign(k: K, v: V): (d: OrderedDict<K, V>)
      requires Valid()
      ensures d.Valid()
      ensures d.values == values[k := v]
      ensures k in keys ==> d.keys == keys
      ensures k !in keys ==> d.keys == keys + [k]
    {
      if k in values then OrderedDict(keys, values[k := v])
      else OrderedDict(keys + [k], values[k := v])
    }

    /** `removeValue(forKey:)` for every key of `drop`. */
    function RemoveAll(drop: set<K>): (d: OrderedDict<K, V>)
      requires Valid()
      ensures d.Valid()
      ensures d.keys == Without(keys, drop)
      ensures forall k :: k in d.values ==> k in values && d.values[k] == values[k]
    {
      WithoutDistinct(keys, drop);
      OrderedDict(Without(keys, drop), values - drop)
    }

    /** `removeValue(forKey:)` */
    function RemoveValue(k: K): (d: OrderedDict<K, V>)
      requires Valid()
      ensures d == RemoveAll({k})
      ensures d.Valid() && k !in d.keys
    {
      RemoveAll({k})
    }

    /** The first `n` entries. */
    function Prefix(n: nat): (d: OrderedDict<K, V>)
      requires Valid() && n <= |keys|
      ensures d.Valid()
      ensures d.keys == keys[..n]
      ensures forall k :: k in d.values ==> k in values && d.values[k] == values[k]
    {
      assert keys[..n] + keys[n..] == keys;
      OrderedDict(keys[..n], map k | k in values && k in keys[..n] :: values[k])
    }
  }

  /** Removing no key changes nothing. */
  lemma RemoveNothing<K(!new), V>(d: OrderedDict<K, V>)
    requires d.Valid()
    ensures d.RemoveAll({}) == d
  {
    WithoutNone(d.keys, {});
    assert d.values - {} == d.values;
  }

  /** Two removals in a row are one removal of both sets. */
  lemma RemoveAllTwice<K(!new), V>(d: OrderedDict<K, V>, a: set<K>, b: set<K>)
    requires d.Valid()
    ensures d.RemoveAll(a).RemoveAll(b) == d.RemoveAll(a + b)
  {
    WithoutTwice(d.keys, a, b);
    assert d.values - a - b == d.values - (a + b);
  }

  /** In a duplicate-free sequence, removing the elements from position `n` on keeps the first `n`. */
  lemma WithoutSuffix<K(!new)>(ks: seq<K>, n: nat)
    requires Distinct(ks) && n <= |ks|
    ensures Without(ks, Elems(ks[n..])) == ks[..n]
  {
    var tail := Elems(ks[n..]);
    assert ks == ks[..n] + ks[n..];
    WithoutConcat(ks[..n], ks[n..], tail);
    forall k | k in ks[..n] ensures k !in tail {
      var i :| 0 <= i < n && ks[i] == k;
      assert forall j | n <= j < |ks| :: ks[i] != ks[j];
    }
    WithoutNone(ks[..n], tail);
    WithoutAll(ks[n..], tail);
    assert ks[..n] + [] == ks[..n];
  }

  /**
   * Removing every key from position `n` on is taking the first `n`
   * entries.
   */
  lemma RemoveSuffixIsPrefix<K(!new), V>(d: OrderedDict<K, V>, n: nat)
    requires d.Valid() && n <= |d.keys|
    ensures d.RemoveAll(Elems(d.keys[n..])) == d.Prefix(n)
  {
    WithoutSuffix(d.keys, n);
    var r := d.RemoveAll(Elems(d.keys[n..]));
    var p := d.Prefix(n);
    assert r.keys == p.keys;
    assert r.values.Keys == p.values.Keys;
    assert r.values == p.values;
  }
}
