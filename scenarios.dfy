/**
 * The unit tests of src/lib.rs, and worked examples of the map's behaviour,
 * as client methods: each builds a map and states the outcome the test
 * asserts, which follows from the contracts of `HashMap` alone.
 */
module Scenarios {
  import opened Wrappers
  import opened Chains
  import opened Table
  import opened BasicHash

  /** Test `insert`: a value just inserted is found by `get`. */
  method InsertThenGet<K(==), V(!new)>(hash: K -> nat, key: K, value: V) returns (found: Option<V>)
    ensures found == Some(value)
  {
    var table := new HashMap<K, V>(hash);
    var previous := table.Insert(key, value);
    found := table.Get(key);
  }

  /** Test `remove`: after removing the only key, `get` finds nothing and the counter is back to zero. */
  method InsertThenRemove<K(==), V(!new)>(hash: K -> nat, key: K, value: V)
    returns (removed: Option<V>, found: Option<V>, empty: bool)
    ensures removed == Some(value) && found == None && empty
  {
    var table := new HashMap<K, V>(hash);
    var previous := table.Insert(key, value);
    removed := table.Remove(key);
    found := table.Get(key);
    empty := table.IsEmpty();
  }

  /** Test `is_empty`: a new table is empty. */
  method NewIsEmpty<K(==), V(!new)>(hash: K -> nat) returns (empty: bool, count: nat)
    ensures empty && count == 0
  {
    var table := new HashMap<K, V>(hash);
    empty := table.IsEmpty();
    count := table.Len();
  }

  /** Test `len`: one insertion into a new table gives length 1. */
  method LenAfterInsert<K(==), V(!new)>(hash: K -> nat, key: K, value: V) returns (count: nat)
    ensures count == 1
  {
    var table := new HashMap<K, V>(hash);
    var previous := table.Insert(key, value);
    count := table.Len();
  }

  /** Test `contains`: an inserted key is contained. */
  method ContainsAfterInsert<K(==), V(!new)>(hash: K -> nat, key: K, value: V) returns (contained: bool)
    ensures contained
  {
    var table := new HashMap<K, V>(hash);
    var previous := table.Insert(key, value);
    contained := table.ContainsKey(key);
  }

  /**
   * Inserting the same key twice into a new map: the second call returns
   * the first value and `get` sees the second, but as the code is written
   * both calls are counted, so `len` is 2 for a single stored entry.
   */
  method UpdateIsCounted<K(==), V(!new)>(hash: K -> nat, key: K, v1: V, v2: V)
    returns (first: Option<V>, second: Option<V>, found: Option<V>, count: nat, entries: nat)
    ensures first == None && second == Some(v1) && found == Some(v2)
    ensures count == 2 && entries == 1
  {
    var table := new HashMap<K, V>(hash);
    first, second, found := InsertTwice(table, key, v1, v2);
    count := table.Len();
    entries := EntryCount(table.buckets);
  }

  /**
   * Inserting one key twice into a new map and then removing it: nothing is
   * stored and `get` finds nothing, but the counter was raised twice and
   * lowered once, so `len` is 1 and `is_empty` is false.
   */
  method UpdateThenRemove<K(==), V(!new)>(hash: K -> nat, key: K, v1: V, v2: V)
    returns (removed: Option<V>, found: Option<V>, empty: bool, count: nat, entries: nat)
    ensures removed == Some(v2) && found == None
    ensures !empty && count == 1 && entries == 0
  {
    var table := new HashMap<K, V>(hash);
    var first, second, got := InsertTwice(table, key, v1, v2);
    removed := table.Remove(key);
    found := table.Get(key);
    empty := table.IsEmpty();
    count := table.Len();
    entries := EntryCount(table.buckets);
  }

  /** Two insertions of one key into any map: the entries grow by at most one, the counter by two. */
  method InsertTwice<K(==), V(!new)>(table: HashMap<K, V>, key: K, v1: V, v2: V)
    returns (first: Option<V>, second: Option<V>, found: Option<V>)
    requires table.Valid()
    modifies table
    ensures table.Valid() && |table.buckets| > 0
    ensures second == Some(v1) && found == Some(v2) && (key, v2) in Entries(table.buckets)
    ensures table.items == old(table.items) + 2
    ensures first.None? <==> forall v :: (key, v) !in old(Entries(table.buckets))
    ensures |Entries(table.buckets)| == |old(Entries(table.buckets))| + (if first.None? then 1 else 0)
  {
    first := Put(table, key, v1);
    second := Put(table, key, v2);
    found := table.Get(key);
  }

  /**
   * A worked example on a new map: three distinct keys
   * are all found, one is removed, the other two are kept.
   */
  method ThreeKeys<K(==), V(!new)>(hash: K -> nat, foo: K, bar: K, buz: K, v1: V, v2: V, v3: V)
    returns (count: nat, gotFoo: Option<V>, removed: Option<V>, gotBar: Option<V>, gotBuz: Option<V>, countAfter: nat)
    requires foo != bar && foo != buz && bar != buz
    ensures count == 3 && gotFoo == Some(v1)
    ensures removed == Some(v2) && gotBar == None && gotBuz == Some(v3) && countAfter == 2
  {
    var table := new HashMap<K, V>(hash);
    count, gotFoo := InsertThree(table, foo, bar, buz, v1, v2, v3);
    removed := table.Remove(bar);
    assert (buz, v3) in Entries(table.buckets);
    gotBar := table.Get(bar);
    gotBuz := table.Get(buz);
    countAfter := table.Len();
  }

  /** Three insertions of distinct keys into any map: each key is then found with its value. */
  method InsertThree<K(==), V(!new)>(table: HashMap<K, V>, foo: K, bar: K, buz: K, v1: V, v2: V, v3: V)
    returns (count: nat, gotFoo: Option<V>)
    requires table.Valid() && foo != bar && foo != buz && bar != buz
    modifies table
    ensures table.Valid() && |table.buckets| > 0
    ensures count == old(table.items) + 3 && table.items == count
    ensures gotFoo == Some(v1)
    ensures (bar, v2) in Entries(table.buckets) && (buz, v3) in Entries(table.buckets)
  {
    var p1 := Put(table, foo, v1);
    var p2 := Put(table, bar, v2);
    var p3 := Put(table, buz, v3);
    count := table.Len();
    gotFoo := table.Get(foo);
  }

  /**
   * One insertion seen from outside: the pair is stored, every entry of
   * another key is kept, and the previous value is returned.
   */
  method Put<K(==), V(!new)>(table: HashMap<K, V>, key: K, value: V) returns (previous: Option<V>)
    requires table.Valid()
    modifies table
    ensures table.Valid() && |table.buckets| > 0 && table.items == old(table.items) + 1
    ensures forall v :: previous == Some(v) <==> (key, v) in old(Entries(table.buckets))
    ensures (key, value) in Entries(table.buckets)
    ensures |Entries(table.buckets)| == |old(Entries(table.buckets))| + (if previous.None? then 1 else 0)
    ensures forall e :: e in old(Entries(table.buckets)) && e.0 != key ==> e in Entries(table.buckets)
  {
    ghost var e0 := Entries(table.buckets);
    previous := table.Insert(key, value);
    ghost var e1 := Entries(table.buckets);
    match previous
    case Some(v) =>
      forall e | e in e0 && e.0 != key ensures e in e1 {
        assert (e1 + multiset{(key, v)})[e] == (e0 + multiset{(key, value)})[e];
      }
    case None =>
  }
}
