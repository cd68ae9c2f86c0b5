/**
 * One collision chain of the map: the `(key, value)` pairs that share a
 * bucket, in storage order (`Vec<(K, V)>` in src/lib.rs). The functions here
 * are the chain operations the map relies on: the linear scans for a key
 * (`position`, `find`), the in-place update or append of `insert`, and
 * `Vec::swap_remove`.
 */
module Chains {
  import opened Wrappers

  type Chain<K, V> = seq<(K, V)>

  /** No two entries of the chain have equal keys. */
  ghost predicate KeysUnique<K, V>(c: Chain<K, V>) {
    forall x, y :: 0 <= x < |c| && 0 <= y < |c| && x != y ==> c[x].0 != c[y].0
  }

  /** The index of the first entry whose key equals `key` (`iter().position`). */
  function Position<K(==), V>(c: Chain<K, V>, key: K): (r: Option<nat>)
    ensures r.Some? ==> r.value < |c| && c[r.value].0 == key
    ensures r.Some? ==> forall m :: 0 <= m < r.value ==> c[m].0 != key
    ensures r.None? ==> forall m :: 0 <= m < |c| ==> c[m].0 != key
  {
    if c == [] then None
    else if c[0].0 == key then Some(0)
    else match Position(c[1..], key)
      case None => None
      case Some(j) => Some(j + 1)
  }

  /** The value of the first entry whose key equals `key` (`iter().find(..).map(..)`). */
  function Lookup<K(==), V>(c: Chain<K, V>, key: K): (r: Option<V>)
    ensures r.Some? ==> (key, r.value) in c
    ensures r.None? <==> forall m :: 0 <= m < |c| ==> c[m].0 != key
  {
    match Position(c, key)
    case Some(j) => Some(c[j].1)
    case None => None
  }

  /** In a chain with unique keys, the lookup finds exactly the stored pairs. */
  lemma LookupUnique<K, V>(c: Chain<K, V>, key: K, v: V)
    requires KeysUnique(c)
    ensures Lookup(c, key) == Some(v) <==> (key, v) in c
  {
    if (key, v) in c {
      var m :| 0 <= m < |c| && c[m] == (key, v);
      var p := Position(c, key).value;
      assert p == m;
    }
  }

  /**
   * The chain after `insert` has scanned it: the first entry with an equal
   * key keeps its key and its place and takes the new value; when there is
   * none, the pair is pushed at the end.
   */
  function Upsert<K(==), V>(c: Chain<K, V>, key: K, value: V): (r: Chain<K, V>)
    ensures |c| <= |r| <= |c| + 1
    ensures forall m :: 0 <= m < |c| ==> r[m].0 == c[m].0
    ensures |r| == |c| + 1 ==> r[|c|] == (key, value)
  {
    match Position(c, key)
    case Some(j) => c[j := (c[j].0, value)]
    case None => c + [(key, value)]
  }

  /** After `Upsert`, `key` maps to the new value and every other key to what it mapped to. */
  lemma UpsertLookup<K, V>(c: Chain<K, V>, key: K, value: V, k: K)
    ensures Lookup(Upsert(c, key, value), k) == if k == key then Some(value) else Lookup(c, k)
  {
    var r := Upsert(c, key, value);
    match Position(c, key)
    case Some(j) =>
      assert r == c[j := (c[j].0, value)];
      var p := Position(r, k);
      var q := Position(c, k);
      if k == key {
        assert p == Some(j);
      } else if q.Some? {
        assert p == q;
      } else {
        assert p.None?;
      }
    case None =>
      assert r == c + [(key, value)];
      var p := Position(r, k);
      if k == key {
        assert p == Some(|c|);
      } else {
        assert p == Position(c, k);
      }
  }

  /** `Upsert` replaces the pair of `key`, if any, and adds `(key, value)`: the multiset of pairs changes by exactly that. */
  lemma UpsertEntries<K, V>(c: Chain<K, V>, key: K, value: V)
    ensures match Lookup(c, key)
      case Some(v) => multiset(Upsert(c, key, value)) + multiset{(key, v)} == multiset(c) + multiset{(key, value)}
      case None => multiset(Upsert(c, key, value)) == multiset(c) + multiset{(key, value)}
  {
    match Position(c, key)
    case Some(j) =>
      assert c[j] == (key, c[j].1);
      assert multiset(c[j := (key, value)]) == multiset(c) - multiset{c[j]} + multiset{(key, value)};
    case None =>
  }

  /** `Upsert` never puts a second entry with the same key into a chain. */
  lemma UpsertKeepsUnique<K, V>(c: Chain<K, V>, key: K, value: V)
    requires KeysUnique(c)
    ensures KeysUnique(Upsert(c, key, value))
  {
    var r := Upsert(c, key, value);
    forall x, y | 0 <= x < |r| && 0 <= y < |r| && x != y
      ensures r[x].0 != r[y].0
    {
      if x < |c| && y < |c| {
        assert r[x].0 == c[x].0 && r[y].0 == c[y].0;
      } else {
        assert Position(c, key).None?;
      }
    }
  }

  /**
   * `Vec::swap_remove`: the entry at `i` is removed and the last entry is
   * moved into its place, so the chain loses exactly `c[i]`.
   */
  function SwapRemove<K, V>(c: Chain<K, V>, i: nat): (r: Chain<K, V>)
    requires i < |c|
    ensures |r| == |c| - 1
    ensures multiset(r) == multiset(c) - multiset{c[i]}
    ensures forall m :: 0 <= m < |r| ==> r[m] == c[if m == i then |c| - 1 else m]
  {
    var moved := c[i := c[|c| - 1]];
    var r := moved[..|c| - 1];
    assert multiset(moved) == multiset(c) - multiset{c[i]} + multiset{c[|c| - 1]};
    assert moved == r + [c[|c| - 1]];
    Cancel(multiset(r), multiset(c) - multiset{c[i]}, multiset{c[|c| - 1]});
    r
  }

  /** The same multiset cancels on both sides of a multiset equation. */
  lemma Cancel<T>(a: multiset<T>, b: multiset<T>, m: multiset<T>)
    requires a + m == b + m
    ensures a == b
  {
    assert forall e :: a[e] == (a + m)[e] - m[e];
  }

  /** Removing an entry keeps the remaining keys distinct. */
  lemma SwapRemoveKeepsUnique<K, V>(c: Chain<K, V>, i: nat)
    requires i < |c| && KeysUnique(c)
    ensures KeysUnique(SwapRemove(c, i))
  {
    var r := SwapRemove(c, i);
    forall x, y | 0 <= x < |r| && 0 <= y < |r| && x != y
      ensures r[x].0 != r[y].0
    {
      var x' := if x == i then |c| - 1 else x;
      var y' := if y == i then |c| - 1 else y;
      assert r[x] == c[x'] && r[y] == c[y'];
    }
  }

  /**
   * After swap-removing the entry at `i` from a chain with unique keys, its
   * key is gone and every other key maps to what it mapped to.
   */
  lemma SwapRemoveLookup<K, V>(c: Chain<K, V>, i: nat, k: K)
    requires i < |c| && KeysUnique(c)
    ensures Lookup(SwapRemove(c, i), k) == if k == c[i].0 then None else Lookup(c, k)
  {
    var r := SwapRemove(c, i);
    SwapRemoveKeepsUnique(c, i);
    if k == c[i].0 {
      forall m | 0 <= m < |r| ensures r[m].0 != k {
        var m' := if m == i then |c| - 1 else m;
        assert r[m] == c[m'] && m' != i;
      }
    } else {
      match Lookup(c, k)
      case Some(v) =>
        LookupUnique(c, k, v);
        assert (k, v) != c[i];
        assert (k, v) in multiset(c);
        assert (k, v) in multiset(r);
        LookupUnique(r, k, v);
      case None =>
        match Lookup(r, k)
        case Some(w) =>
          assert (k, w) in multiset(r);
          assert (k, w) in c;
          LookupUnique(c, k, w);
          assert false;
        case None =>
    }
  }
}
