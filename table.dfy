/**
 * The bucket array of the map (`Vec<Vec<(K, V)>>` in src/lib.rs) as a value,
 * with the invariants the map keeps on it and the effect of each state-changing
 * operation written as a function of the old array: growth (`resize`), the
 * update of one chain by `insert`, and the swap-removal of `remove`.
 */
module Table {
  import opened Wrappers
  import opened Chains

  type Buckets<K, V> = seq<Chain<K, V>>

  /** Bucket count of the first allocation. */
  const INITIAL_NBUCKETS: nat := 1

  /** The bucket a key is addressed to among `n` buckets: its hash modulo `n`. */
  function Slot<K>(h: K -> nat, n: nat, key: K): (i: nat)
    requires n > 0
    ensures i < n
  {
    h(key) % n
  }

  /** All entries, chain after chain, in the order `resize` drains them. */
  function Flatten<K, V>(b: Buckets<K, V>): Chain<K, V> {
    if b == [] then [] else Flatten(b[..|b| - 1]) + b[|b| - 1]
  }

  /** The multiset of `(key, value)` entries stored in the buckets. */
  ghost function Entries<K, V>(b: Buckets<K, V>): multiset<(K, V)> {
    multiset(Flatten(b))
  }

  /** The sum of the chain lengths. */
  function EntryCount<K, V>(b: Buckets<K, V>): (n: nat)
    ensures n == |Entries(b)|
  {
    if b == [] then 0 else EntryCount(b[..|b| - 1]) + |b[|b| - 1]|
  }

  /** Every entry sits in the chain its key is addressed to among `n` buckets. */
  ghost predicate Placed<K, V>(h: K -> nat, b: Buckets<K, V>, n: nat) {
    forall i, j :: 0 <= i < |b| && 0 <= j < |b[i]| ==> n > 0 && Slot(h, n, b[i][j].0) == i
  }

  /** No chain holds two entries with equal keys. */
  ghost predicate ChainsUnique<K, V>(b: Buckets<K, V>) {
    forall i :: 0 <= i < |b| ==> KeysUnique(b[i])
  }

  ghost predicate PowerOfTwo(n: nat) {
    n == 1 || (n >= 2 && n % 2 == 0 && PowerOfTwo(n / 2))
  }

  /** The bucket count after a resize: 1 for an unallocated table, twice the count otherwise. */
  function NextSize(n: nat): (m: nat)
    ensures m > n
    ensures n == 0 || PowerOfTwo(n) ==> PowerOfTwo(m)
  {
    if n == 0 then INITIAL_NBUCKETS else 2 * n
  }

  /**
   * The growth trigger of `insert`: no buckets yet, or more items than 3/4 of
   * the bucket count rounded down, which is the same as a load above 3/4.
   */
  predicate ResizeNeeded(n: nat, items: nat): (r: bool)
    ensures r <==> n == 0 || 4 * items > 3 * n
  {
    n == 0 || items > 3 * n / 4
  }

  /**
   * The invariant the map keeps on its state as the code is written: entries
   * are placed and unique per chain, the counter is at least the number of
   * entries (an update is counted too), the bucket count is 0 or a power of
   * two, and the counter stays within one of the 3/4 load threshold.
   */
  ghost predicate TableInv<K, V>(h: K -> nat, b: Buckets<K, V>, items: nat) {
    && Placed(h, b, |b|)
    && ChainsUnique(b)
    && EntryCount(b) <= items
    && (|b| == 0 || PowerOfTwo(|b|))
    && (|b| == 0 ==> items == 0)
    && items <= 3 * |b| / 4 + 1
  }

  function EmptyBuckets<K, V>(n: nat): (b: Buckets<K, V>)
    ensures |b| == n && forall i :: 0 <= i < n ==> b[i] == []
  {
    seq(n, _ => [])
  }

  /** Pushes `e` onto the chain its key is addressed to. */
  function Place<K, V>(h: K -> nat, b: Buckets<K, V>, e: (K, V)): (r: Buckets<K, V>)
    requires |b| > 0
    ensures |r| == |b|
  {
    var t := Slot(h, |b|, e.0);
    b[t := b[t] + [e]]
  }

  /** `n` fresh chains into which every entry of `s` has been pushed, in order. */
  function Rehash<K, V>(h: K -> nat, n: nat, s: Chain<K, V>): (b: Buckets<K, V>)
    requires n > 0
    ensures |b| == n
  {
    if s == [] then EmptyBuckets(n) else Place(h, Rehash(h, n, s[..|s| - 1]), s[|s| - 1])
  }

  /** The buckets after `resize`. */
  function Resized<K, V>(h: K -> nat, b: Buckets<K, V>): (r: Buckets<K, V>)
    ensures |r| == NextSize(|b|)
  {
    Rehash(h, NextSize(|b|), Flatten(b))
  }

  /** The buckets `insert` works on: resized first when the trigger fires. */
  function Grown<K, V>(h: K -> nat, b: Buckets<K, V>, items: nat): (g: Buckets<K, V>)
    ensures |g| > 0
  {
    if ResizeNeeded(|b|, items) then Resized(h, b) else b
  }

  /** The buckets after storing `(key, value)` in the chain `key` is addressed to. */
  function InsertInto<K(==), V>(h: K -> nat, b: Buckets<K, V>, key: K, value: V): (r: Buckets<K, V>)
    requires |b| > 0
    ensures |r| == |b|
  {
    var t := Slot(h, |b|, key);
    b[t := Upsert(b[t], key, value)]
  }

  /** The buckets after `remove(key)`: the entry of `key`, if any, swap-removed from its chain. */
  function RemoveFrom<K(==), V>(h: K -> nat, b: Buckets<K, V>, key: K): (r: Buckets<K, V>)
    requires |b| > 0
    ensures |r| == |b|
  {
    var t := Slot(h, |b|, key);
    match Position(b[t], key)
    case None => b
    case Some(i) => b[t := SwapRemove(b[t], i)]
  }

  // ---------------------------------------------------------------------------
  // Entries of the bucket array

  /** An entry is stored iff some chain holds it. */
  lemma {:induction false} FlattenMember<K, V>(b: Buckets<K, V>, e: (K, V))
    ensures e in Flatten(b) <==> exists i :: 0 <= i < |b| && e in b[i]
  {
    if b != [] {
      var p := b[..|b| - 1];
      FlattenMember(p, e);
      assert forall i :: 0 <= i < |p| ==> p[i] == b[i];
    }
  }

  /** A table of empty chains holds no entry. */
  lemma {:induction false} FlattenAllEmpty<K, V>(b: Buckets<K, V>)
    requires forall i :: 0 <= i < |b| ==> b[i] == []
    ensures Flatten(b) == []
  {
    if b != [] {
      FlattenAllEmpty(b[..|b| - 1]);
    }
  }

  /** Replacing one chain replaces its entries in the multiset of all entries. */
  lemma {:induction false} EntriesUpdate<K, V>(b: Buckets<K, V>, t: nat, c: Chain<K, V>)
    requires t < |b|
    ensures Entries(b[t := c]) + multiset(b[t]) == Entries(b) + multiset(c)
  {
    var n := |b|;
    var b' := b[t := c];
    if t == n - 1 {
      assert b'[..n - 1] == b[..n - 1];
      assert Flatten(b') == Flatten(b[..n - 1]) + c;
    } else {
      var p := b[..n - 1];
      EntriesUpdate(p, t, c);
      assert b'[..n - 1] == p[t := c] && b'[n - 1] == b[n - 1];
      assert Entries(b') == Entries(p[t := c]) + multiset(b[n - 1]);
      assert Entries(b) == Entries(p) + multiset(b[n - 1]);
      assert p[t] == b[t];
      calc {
        Entries(b') + multiset(b[t]);
        Entries(p[t := c]) + multiset(b[n - 1]) + multiset(b[t]);
        Entries(p[t := c]) + multiset(p[t]) + multiset(b[n - 1]);
        Entries(p) + multiset(c) + multiset(b[n - 1]);
        Entries(b) + multiset(c);
      }
    }
  }

  /** A placed entry of key `key` is in the chain `key` is addressed to. */
  lemma EntryInSlot<K, V>(h: K -> nat, b: Buckets<K, V>, e: (K, V))
    requires |b| > 0 && Placed(h, b, |b|)
    ensures e in Entries(b) ==> e in b[Slot(h, |b|, e.0)]
  {
    FlattenMember(b, e);
    if e in Entries(b) {
      var i :| 0 <= i < |b| && e in b[i];
      var j :| 0 <= j < |b[i]| && b[i][j] == e;
    }
  }

  /**
   * Lookup in the addressed chain finds exactly the stored entries: `get`
   * agrees with the multiset of entries of a table that keeps its invariant.
   */
  lemma TableLookup<K, V>(h: K -> nat, b: Buckets<K, V>, key: K)
    requires |b| > 0 && Placed(h, b, |b|) && ChainsUnique(b)
    ensures forall v :: Lookup(b[Slot(h, |b|, key)], key) == Some(v) <==> (key, v) in Entries(b)
  {
    var t := Slot(h, |b|, key);
    forall v ensures Lookup(b[t], key) == Some(v) <==> (key, v) in Entries(b) {
      LookupUnique(b[t], key, v);
      EntryInSlot(h, b, (key, v));
      FlattenMember(b, (key, v));
    }
  }

  /** The first `k` chains of a table keep its placement and uniqueness. */
  lemma PrefixKeepsShape<K, V>(h: K -> nat, b: Buckets<K, V>, n: nat, k: nat)
    requires Placed(h, b, n) && ChainsUnique(b) && k <= |b|
    ensures Placed(h, b[..k], n)
    ensures ChainsUnique(b[..k])
  {
    var p: Buckets<K, V> := b[..k];
    forall i, j | 0 <= i < |p| && 0 <= j < |p[i]|
      ensures n > 0 && Slot(h, n, p[i][j].0) == i
    {
      assert p[i][j] == b[i][j];
    }
    assert Placed(h, p, n);
    forall i | 0 <= i < |p|
      ensures KeysUnique(p[i])
    {
      assert p[i] == b[i];
    }
  }

  /** With entries placed and chains unique, no two entries anywhere share a key. */
  lemma {:induction false} UniqueFlatten<K, V>(h: K -> nat, b: Buckets<K, V>, n: nat)
    requires Placed(h, b, n) && ChainsUnique(b)
    ensures KeysUnique(Flatten(b))
  {
    if b != [] {
      var p: Buckets<K, V>, c: Chain<K, V> := b[..|b| - 1], b[|b| - 1];
      PrefixKeepsShape(h, b, n, |b| - 1);
      UniqueFlatten(h, p, n);
      var f: Chain<K, V> := Flatten(p);
      assert Flatten(b) == f + c;
      forall x, y | 0 <= x < |f + c| && 0 <= y < |f + c| && x != y
        ensures (f + c)[x].0 != (f + c)[y].0
      {
        if x < |f| && y < |f| {
        } else if x >= |f| && y >= |f| {
          assert KeysUnique(c);
        } else {
          var a, d := if x < |f| then x else y, if x < |f| then y else x;
          FlattenMember(p, f[a]);
          var i :| 0 <= i < |p| && f[a] in p[i];
          var j :| 0 <= j < |p[i]| && p[i][j] == f[a];
          assert Slot(h, n, f[a].0) == i;
          assert Slot(h, n, c[d - |f|].0) == |p|;
        }
      }
    }
  }

  // ---------------------------------------------------------------------------
  // resize

  /** Draining one more chain extends the drained entries by that chain. */
  lemma FlattenPrefix<K, V>(b: Buckets<K, V>, i: nat)
    requires i < |b|
    ensures Flatten(b[..i + 1]) == Flatten(b[..i]) + b[i]
  {
    assert b[..i + 1][..i] == b[..i];
  }

  /** Rehashing one more entry pushes it onto the chain its key is addressed to. */
  lemma RehashStep<K, V>(h: K -> nat, n: nat, s: Chain<K, V>, e: (K, V))
    requires n > 0
    ensures Rehash(h, n, s + [e]) == Place(h, Rehash(h, n, s), e)
  {
    assert (s + [e])[..|s|] == s;
  }

  /** Every rehashed entry sits in the chain its key is addressed to among the new `n` buckets. */
  lemma {:induction false} RehashPlaced<K, V>(h: K -> nat, n: nat, s: Chain<K, V>)
    requires n > 0
    ensures Placed(h, Rehash(h, n, s), n)
  {
    if s != [] {
      RehashPlaced(h, n, s[..|s| - 1]);
    }
  }

  /** Rehashing loses and invents no entry. */
  lemma {:induction false} RehashEntries<K, V>(h: K -> nat, n: nat, s: Chain<K, V>)
    requires n > 0
    ensures Entries(Rehash(h, n, s)) == multiset(s)
  {
    if s == [] {
      FlattenAllEmpty(EmptyBuckets<K, V>(n));
    } else {
      var s', e := s[..|s| - 1], s[|s| - 1];
      var r' := Rehash(h, n, s');
      var t := Slot(h, n, e.0);
      RehashEntries(h, n, s');
      EntriesUpdate(r', t, r'[t] + [e]);
      assert s == s' + [e];
      Cancel(Entries(Rehash(h, n, s)), Entries(r') + multiset{e}, multiset(r'[t]));
    }
  }

  /** Rehashing entries whose keys are distinct yields chains whose keys are distinct. */
  lemma {:induction false} RehashUnique<K, V>(h: K -> nat, n: nat, s: Chain<K, V>)
    requires n > 0 && KeysUnique(s)
    ensures ChainsUnique(Rehash(h, n, s))
  {
    if s != [] {
      var s', e := s[..|s| - 1], s[|s| - 1];
      var r' := Rehash(h, n, s');
      var t := Slot(h, n, e.0);
      RehashUnique(h, n, s');
      RehashEntries(h, n, s');
      var c := r'[t] + [e];
      forall x, y | 0 <= x < |c| && 0 <= y < |c| && x != y
        ensures c[x].0 != c[y].0
      {
        if x < |r'[t]| && y < |r'[t]| {
          assert KeysUnique(r'[t]);
        } else {
          var a := if x < |r'[t]| then x else y;
          FlattenMember(r', c[a]);
          assert c[a] in multiset(s');
          var k :| 0 <= k < |s'| && s'[k] == c[a];
          assert s[k] == c[a] && s[|s| - 1] == e;
        }
      }
    }
  }

  /**
   * `resize` keeps the invariant and the multiset of entries: every entry is
   * re-addressed against the new bucket count, and none is lost or doubled.
   */
  lemma ResizeKeepsInv<K, V>(h: K -> nat, b: Buckets<K, V>, items: nat)
    requires TableInv(h, b, items)
    ensures TableInv(h, Resized(h, b), items)
    ensures Entries(Resized(h, b)) == Entries(b)
  {
    var n := NextSize(|b|);
    RehashPlaced(h, n, Flatten(b));
    RehashEntries(h, n, Flatten(b));
    UniqueFlatten(h, b, |b|);
    RehashUnique(h, n, Flatten(b));
    assert |b| > 0 ==> 3 * n / 4 >= 3 * |b| / 4 + 1;
  }

  /**
   * The growth trigger fires early enough: after `insert` has grown the table,
   * the counter is at most 3/4 of the bucket count, so the insertion keeps the
   * counter within one of the threshold.
   */
  lemma GrowthMakesRoom<K, V>(h: K -> nat, b: Buckets<K, V>, items: nat)
    requires TableInv(h, b, items)
    ensures TableInv(h, Grown(h, b, items), items)
    ensures Entries(Grown(h, b, items)) == Entries(b)
    ensures !ResizeNeeded(|Grown(h, b, items)|, items)
  {
    if ResizeNeeded(|b|, items) {
      ResizeKeepsInv(h, b, items);
      var n := |b|;
      if n > 1 {
        assert 3 * n / 4 >= 1;
        assert 3 * (2 * n) / 4 >= 2 * (3 * n / 4);
      }
    }
  }

  // ---------------------------------------------------------------------------
  // insert

  /** After `insert`, `key` maps to the new value and every other key to what it mapped to. */
  lemma InsertIntoLookup<K, V>(h: K -> nat, b: Buckets<K, V>, key: K, value: V, k: K)
    requires |b| > 0
    ensures var r := InsertInto(h, b, key, value);
      Lookup(r[Slot(h, |r|, k)], k) == if k == key then Some(value) else Lookup(b[Slot(h, |b|, k)], k)
  {
    if Slot(h, |b|, k) == Slot(h, |b|, key) {
      UpsertLookup(b[Slot(h, |b|, key)], key, value, k);
    }
  }

  /** `insert` replaces the entry of `key`, if there is one, and adds `(key, value)`. */
  lemma InsertIntoEntries<K, V>(h: K -> nat, b: Buckets<K, V>, key: K, value: V)
    requires |b| > 0
    ensures var r := InsertInto(h, b, key, value);
      match Lookup(b[Slot(h, |b|, key)], key)
      case Some(v) => Entries(r) + multiset{(key, v)} == Entries(b) + multiset{(key, value)}
      case None => Entries(r) == Entries(b) + multiset{(key, value)}
  {
    var t := Slot(h, |b|, key);
    var c := Upsert(b[t], key, value);
    EntriesUpdate(b, t, c);
    UpsertEntries(b[t], key, value);
    var r := b[t := c];
    match Lookup(b[t], key)
    case Some(v) =>
      assert multiset(c) + multiset{(key, v)} == multiset(b[t]) + multiset{(key, value)};
      calc {
        Entries(r) + multiset{(key, v)} + multiset(b[t]);
        Entries(b) + multiset(c) + multiset{(key, v)};
        Entries(b) + multiset{(key, value)} + multiset(b[t]);
      }
      Cancel(Entries(r) + multiset{(key, v)}, Entries(b) + multiset{(key, value)}, multiset(b[t]));
    case None =>
      assert multiset(c) == multiset(b[t]) + multiset{(key, value)};
      Cancel(Entries(r), Entries(b) + multiset{(key, value)}, multiset(b[t]));
  }

  /** Storing a pair into a table that need not grow keeps the invariant, with the counter one higher. */
  lemma InsertIntoKeepsInv<K, V>(h: K -> nat, b: Buckets<K, V>, items: nat, key: K, value: V)
    requires TableInv(h, b, items) && !ResizeNeeded(|b|, items)
    ensures TableInv(h, InsertInto(h, b, key, value), items + 1)
  {
    var t := Slot(h, |b|, key);
    var r := InsertInto(h, b, key, value);
    UpsertKeepsUnique(b[t], key, value);
    InsertIntoEntries(h, b, key, value);
    assert ChainsUnique(r) by {
      forall i | 0 <= i < |r| ensures KeysUnique(r[i]) {
        if i != t { assert r[i] == b[i]; }
      }
    }
    assert Placed(h, r, |r|) by {
      forall i, j | 0 <= i < |r| && 0 <= j < |r[i]| ensures Slot(h, |r|, r[i][j].0) == i {
        if i == t && j < |b[t]| {
          assert r[i][j].0 == b[t][j].0;
        }
      }
    }
  }

  // ---------------------------------------------------------------------------
  // remove

  /** After `remove`, `key` is absent and every other key maps to what it mapped to. */
  lemma RemoveFromLookup<K, V>(h: K -> nat, b: Buckets<K, V>, key: K, k: K)
    requires |b| > 0 && ChainsUnique(b)
    ensures var r := RemoveFrom(h, b, key);
      Lookup(r[Slot(h, |r|, k)], k) == if k == key then None else Lookup(b[Slot(h, |b|, k)], k)
  {
    var t := Slot(h, |b|, key);
    match Position(b[t], key)
    case None =>
    case Some(i) =>
      if Slot(h, |b|, k) == t {
        SwapRemoveLookup(b[t], i, k);
      }
  }

  /** `remove` takes exactly the entry of `key`, if there is one, out of the table. */
  lemma RemoveFromEntries<K, V>(h: K -> nat, b: Buckets<K, V>, key: K)
    requires |b| > 0
    ensures var r := RemoveFrom(h, b, key);
      match Lookup(b[Slot(h, |b|, key)], key)
      case Some(v) => Entries(r) + multiset{(key, v)} == Entries(b)
      case None => r == b
  {
    var t := Slot(h, |b|, key);
    match Position(b[t], key)
    case None =>
    case Some(i) =>
      var c := SwapRemove(b[t], i);
      var e := b[t][i];
      EntriesUpdate(b, t, c);
      assert e == (key, e.1) && Lookup(b[t], key) == Some(e.1);
      assert multiset(b[t]) == multiset(c) + multiset{e};
      assert Entries(b[t := c]) + multiset{e} + multiset(c) == Entries(b) + multiset(c);
      Cancel(Entries(b[t := c]) + multiset{e}, Entries(b), multiset(c));
  }

  /** `remove` keeps the invariant; a removal decrements the counter, which the invariant keeps positive. */
  lemma RemoveFromKeepsInv<K, V>(h: K -> nat, b: Buckets<K, V>, items: nat, key: K)
    requires TableInv(h, b, items) && |b| > 0
    ensures var found := Lookup(b[Slot(h, |b|, key)], key);
      && (found.Some? ==> items >= 1)
      && TableInv(h, RemoveFrom(h, b, key), if found.Some? then items - 1 else items)
  {
    var t := Slot(h, |b|, key);
    var r := RemoveFrom(h, b, key);
    RemoveFromEntries(h, b, key);
    match Position(b[t], key)
    case None =>
    case Some(i) =>
      SwapRemoveKeepsUnique(b[t], i);
      assert ChainsUnique(r) by {
        forall m | 0 <= m < |r| ensures KeysUnique(r[m]) {
          if m != t { assert r[m] == b[m]; }
        }
      }
      assert Placed(h, r, |r|) by {
        forall m, j | 0 <= m < |r| && 0 <= j < |r[m]| ensures Slot(h, |r|, r[m][j].0) == m {
          if m == t {
            var j' := if j == i then |b[t]| - 1 else j;
            assert r[m][j] == b[t][j'];
          }
        }
      }
  }
}
