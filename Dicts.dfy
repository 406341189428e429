/** A Python dict: a finite map that also remembers the order in which its keys
    were first inserted.  Assigning to a present key keeps its position;
    assigning to a new key appends it.  Iteration follows `keys`. */
module Dicts {

  datatype Dict<K, V> = Dict(keys: seq<K>, items: map<K, V>) {

    /** Keys are listed once each, and exactly the keys of the map are listed. */
    ghost predicate Valid() {
      && (forall i, j :: 0 <= i < j < |keys| ==> keys[i] != keys[j])
      && items.Keys == set k | k in keys
    }

    /** `d[k] = v` */
    function Put(k: K, v: V): (d: Dict<K, V>)
      requires Valid()
      ensures d.Valid()
      ensures d.items == items[k := v]
      ensures d.keys == if k in items then keys else keys + [k]
    {
      if k in items then Dict(keys, items[k := v]) else Dict(keys + [k], items[k := v])
    }
  }

  /** `{}` */
  function Empty<K, V>(): (d: Dict<K, V>)
    ensures d.Valid() && d.keys == [] && d.items == map[]
  {
    Dict([], map[])
  }

  /** Assigns the pairs one after the other, as a loop of `d[k] = v` does. */
  function PutAll<K, V>(d: Dict<K, V>, ps: seq<(K, V)>): (r: Dict<K, V>)
    requires d.Valid()
    ensures r.Valid()
    decreases |ps|
  {
    if ps == [] then d else PutAll(d.Put(ps[0].0, ps[0].1), ps[1..])
  }

  /** The pairs of `m` for the keys `ks`, in the order of `ks`. */
  function PairsOf<K, V>(m: map<K, V>, ks: seq<K>): (r: seq<(K, V)>)
    requires forall k :: k in ks ==> k in m
    ensures |r| == |ks|
    ensures forall i :: 0 <= i < |ks| ==> r[i] == (ks[i], m[ks[i]])
    decreases |ks|
  {
    if ks == [] then [] else [(ks[0], m[ks[0]])] + PairsOf(m, ks[1..])
  }

  /** `d.items()` */
  function Pairs<K, V>(d: Dict<K, V>): seq<(K, V)>
    requires d.Valid()
  {
    PairsOf(d.items, d.keys)
  }

  /** Assigning the pairs of `ks` assigns the first, then the pairs of the rest. */
  lemma PutAllPairsStep<K, V>(d: Dict<K, V>, m: map<K, V>, ks: seq<K>)
    requires d.Valid() && ks != [] && forall k :: k in ks ==> k in m
    ensures PutAll(d, PairsOf(m, ks)) == PutAll(d.Put(ks[0], m[ks[0]]), PairsOf(m, ks[1..]))
  {
    var ps := PairsOf(m, ks);
    assert ps[0] == (ks[0], m[ks[0]]);
    assert ps[1..] == PairsOf(m, ks[1..]);
  }

  /** The first `n` entries of `d`, in order. */
  ghost function Prefix<K, V>(d: Dict<K, V>, n: nat): (r: Dict<K, V>)
    requires d.Valid() && n <= |d.keys|
    ensures r.Valid()
  {
    var ks := d.keys[..n];
    Dict(ks, map k | k in ks :: d.items[k])
  }

  /** Assigning to the same key twice leaves what the second assignment alone leaves. */
  lemma PutTwice<K, V>(d: Dict<K, V>, k: K, v1: V, v2: V)
    requires d.Valid()
    ensures d.Put(k, v1).Put(k, v2) == d.Put(k, v2)
  {
    assert d.items[k := v1][k := v2] == d.items[k := v2];
  }

  /** Updating a map at the same key twice leaves what the second update alone leaves. */
  lemma MapUpdateTwice<K, V>(m: map<K, V>, k: K, a: V, b: V)
    ensures m[k := a][k := b] == m[k := b]
  {
  }

  /** Assigning the next entry of `d` to its first `n` entries gives its first `n + 1`. */
  lemma PrefixStep<K, V>(d: Dict<K, V>, n: nat)
    requires d.Valid() && n < |d.keys|
    ensures Prefix(d, n).Put(d.keys[n], d.items[d.keys[n]]) == Prefix(d, n + 1)
  {
    var k := d.keys[n];
    var p := Prefix(d, n);
    assert k !in p.items;
    assert d.keys[..n + 1] == d.keys[..n] + [k];
    assert p.items[k := d.items[k]] == Prefix(d, n + 1).items;
  }

  /** All the entries of `d`, in order, are `d`. */
  lemma PrefixAll<K, V>(d: Dict<K, V>)
    requires d.Valid()
    ensures Prefix(d, |d.keys|) == d
  {
    assert d.keys[..|d.keys|] == d.keys;
    assert Prefix(d, |d.keys|).items == d.items;
  }

  /** Replaying the remaining pairs of `d` onto its first `n` entries rebuilds `d`. */
  lemma {:induction false} PutAllFrom<K, V>(d: Dict<K, V>, n: nat)
    requires d.Valid() && n <= |d.keys|
    ensures PutAll(Prefix(d, n), Pairs(d)[n..]) == d
    decreases |d.keys| - n
  {
    var ps := Pairs(d);
    if n == |d.keys| {
      assert ps[n..] == [];
      PrefixAll(d);
    } else {
      assert ps[n..][0] == (d.keys[n], d.items[d.keys[n]]);
      assert ps[n..][1..] == ps[n + 1..];
      PrefixStep(d, n);
      PutAllFrom(d, n + 1);
    }
  }

  /** Building a dict from the pairs of `d`, in order, gives back `d` itself
      (same entries and same key order). */
  lemma FromPairs<K, V>(d: Dict<K, V>)
    requires d.Valid()
    ensures PutAll(Empty(), Pairs(d)) == d
  {
    PutAllFrom(d, 0);
    assert Prefix(d, 0) == Empty();
    assert Pairs(d)[0..] == Pairs(d);
  }
}
