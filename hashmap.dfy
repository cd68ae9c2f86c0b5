/**
 * The hash map of src/lib.rs: a growable array of collision chains plus a
 * counter, updated in place by `insert`, `resize` and `remove`. The key
 * hasher (`DefaultHasher` in the source) is a deterministic function
 * `hash` fixed when the map is created.
 */
module BasicHash {
  import opened Wrappers
  import opened Chains
  import opened Table

  class HashMap<K(==), V(!new)> {
    const hash: K -> nat
    var buckets: Buckets<K, V>
    var items: nat

    ghost predicate Valid()
      reads this
    {
      TableInv(hash, buckets, items)
    }

    /** `HashMap::new`: no buckets allocated, counter zero. */
    constructor (hash: K -> nat)
      ensures Valid()
      ensures this.hash == hash && buckets == [] && items == 0
    {
      this.hash := hash;
      buckets := [];
      items := 0;
    }

    /** `bucket`: the index of the chain that holds every entry of `key`. */
    function Bucket(key: K): (i: nat)
      reads this
      requires |buckets| > 0
      ensures i < |buckets|
      ensures Valid() ==> forall v :: (key, v) in Entries(buckets) ==> (key, v) in buckets[i]
    {
      assert Valid() ==> forall v :: (key, v) in Entries(buckets) ==> (key, v) in buckets[Slot(hash, |buckets|, key)] by {
        forall v | Valid() ensures (key, v) in Entries(buckets) ==> (key, v) in buckets[Slot(hash, |buckets|, key)] {
          EntryInSlot(hash, buckets, (key, v));
        }
      }
      Slot(hash, |buckets|, key)
    }

    /**
     * `insert`: grows the table when the trigger fires, counts the call, then
     * overwrites the value of an entry with an equal key in place or pushes
     * the pair onto the key's chain. Returns the value that was replaced.
     */
    method Insert(key: K, value: V) returns (r: Option<V>)
      requires Valid()
      modifies this
      ensures buckets == InsertInto(hash, Grown(hash, old(buckets), old(items)), key, value)
      ensures items == old(items) + 1
      ensures Valid() && |buckets| > 0
      ensures |buckets| == if ResizeNeeded(old(|buckets|), old(items)) then NextSize(old(|buckets|)) else old(|buckets|)
      ensures forall v :: r == Some(v) <==> (key, v) in old(Entries(buckets))
      ensures match r
        case Some(v) => Entries(buckets) + multiset{(key, v)} == old(Entries(buckets)) + multiset{(key, value)}
        case None => Entries(buckets) == old(Entries(buckets)) + multiset{(key, value)}
      ensures Get(key) == Some(value)
    {
      ghost var b0, items0 := buckets, items;
      GrowthMakesRoom(hash, b0, items0);
      ghost var g := Grown(hash, b0, items0);
      InsertIntoKeepsInv(hash, g, items0, key, value);
      InsertIntoEntries(hash, g, key, value);
      InsertIntoLookup(hash, g, key, value, key);
      TableLookup(hash, g, key);

      if ResizeNeeded(|buckets|, items) {
        Resize();
      }
      var b := Bucket(key);
      items := items + 1;
      var chain := buckets[b];
      var j := 0;
      while j < |chain| && chain[j].0 != key
        modifies {}
        invariant j <= |chain|
        invariant forall m :: 0 <= m < j ==> chain[m].0 != key
      {
        j := j + 1;
      }
      if j < |chain| {
        r := Some(chain[j].1);
        buckets := buckets[b := chain[j := (chain[j].0, value)]];
      } else {
        r := None;
        buckets := buckets[b := chain + [(key, value)]];
      }
    }

    /** `get`: the value stored for `key`, if any. */
    function Get(key: K): (r: Option<V>)
      reads this
      requires Valid() && |buckets| > 0
      ensures forall v :: r == Some(v) <==> (key, v) in Entries(buckets)
    {
      TableLookup(hash, buckets, key);
      Lookup(buckets[Bucket(key)], key)
    }

    /**
     * `resize`: allocates 1 chain for an unallocated table and twice as many
     * otherwise, drains every old chain in order and pushes each entry onto
     * the new chain its key is addressed to, then replaces the bucket array.
     */
    method Resize()
      requires Valid()
      modifies this
      ensures buckets == Resized(hash, old(buckets))
      ensures items == old(items)
      ensures Valid()
      ensures Entries(buckets) == old(Entries(buckets))
    {
      var targetSize := if |buckets| == 0 then INITIAL_NBUCKETS else 2 * |buckets|;
      var newBuckets: Buckets<K, V> := EmptyBuckets(targetSize);
      ghost var src := buckets;
      var i := 0;
      while i < |buckets|
        invariant |buckets| == |src| && i <= |src|
        invariant forall m :: 0 <= m < i ==> buckets[m] == []
        invariant forall m :: i <= m < |src| ==> buckets[m] == src[m]
        invariant newBuckets == Rehash(hash, targetSize, Flatten(src[..i]))
        invariant items == old(items)
      {
        var chain := buckets[i];
        newBuckets := DrainInto(hash, newBuckets, chain, Flatten(src[..i]));
        buckets := buckets[i := []];
        FlattenPrefix(src, i);
        i := i + 1;
      }
      assert src[..i] == src;
      buckets := newBuckets;
      ResizeKeepsInv(hash, src, items);
    }

    /**
     * `remove`: swap-removes the entry of `key` from its chain, decrements the
     * counter and returns the removed value; an absent key changes nothing.
     */
    method Remove(key: K) returns (r: Option<V>)
      requires Valid() && |buckets| > 0
      modifies this
      ensures buckets == RemoveFrom(hash, old(buckets), key)
      ensures items == if r.Some? then old(items) - 1 else old(items)
      ensures Valid() && |buckets| == old(|buckets|)
      ensures forall v :: r == Some(v) <==> (key, v) in old(Entries(buckets))
      ensures match r
        case Some(v) => Entries(buckets) + multiset{(key, v)} == old(Entries(buckets))
        case None => Entries(buckets) == old(Entries(buckets))
      ensures Get(key) == None
    {
      RemoveFromKeepsInv(hash, buckets, items, key);
      RemoveFromEntries(hash, buckets, key);
      RemoveFromLookup(hash, buckets, key, key);
      TableLookup(hash, buckets, key);

      var b := Bucket(key);
      var chain := buckets[b];
      var found := Position(chain, key);
      if found.None? {
        return None;
      }
      var i := found.value;
      items := items - 1;
      r := Some(chain[i].1);
      buckets := buckets[b := SwapRemove(chain, i)];
    }

    /** `len`: the counter, which bounds the number of entries from above and stays within the load threshold. */
    function Len(): (n: nat)
      reads this
      requires Valid()
      ensures EntryCount(buckets) <= n <= 3 * |buckets| / 4 + 1
      ensures n == items
    {
      items
    }

    /** `is_empty`: whether the counter is zero; a zero counter means no entry is stored. */
    function IsEmpty(): (e: bool)
      reads this
      requires Valid()
      ensures e <==> items == 0
      ensures e ==> Entries(buckets) == multiset{}
    {
      items == 0
    }

    /** `contains_key`: whether `get` finds a value. */
    function ContainsKey(key: K): (c: bool)
      reads this
      requires Valid() && |buckets| > 0
      ensures c <==> exists v :: (key, v) in Entries(buckets)
    {
      Get(key).Some?
    }
  }

  /**
   * The body of `resize`'s loop for one old chain: every entry it yields, in
   * order, is pushed onto the new chain its key is addressed to, which
   * extends the rehash of the entries drained so far by this chain.
   */
  method DrainInto<K, V>(hash: K -> nat, newBuckets: Buckets<K, V>, chain: Chain<K, V>, ghost drained: Chain<K, V>)
    returns (r: Buckets<K, V>)
    requires |newBuckets| > 0 && newBuckets == Rehash(hash, |newBuckets|, drained)
    ensures r == Rehash(hash, |newBuckets|, drained + chain)
  {
    r := newBuckets;
    var j := 0;
    assert drained + chain[..j] == drained;
    while j < |chain|
      invariant j <= |chain|
      invariant r == Rehash(hash, |newBuckets|, drained + chain[..j])
    {
      var entry := chain[j];
      var slot := Slot(hash, |r|, entry.0);
      r := r[slot := r[slot] + [entry]];
      RehashStep(hash, |newBuckets|, drained + chain[..j], entry);
      assert drained + chain[..j + 1] == drained + chain[..j] + [entry];
      j := j + 1;
    }
    assert chain[..j] == chain;
  }
}
