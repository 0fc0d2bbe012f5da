/**
  The sharded LRU cache as it is built: per shard a map from keys to list
  elements and a list of those elements, front first, both updated in place.
 */
module LruCache {
  import opened Common
  import opened LruSpec

  /** A list element; its identity is what the map points to. */
  type Elem = nat

  // The operations of a list of elements.

  function Position(list: seq<Elem>, e: Elem): (i: nat)
    requires e in list
    ensures i < |list| && list[i] == e
    ensures forall j :: 0 <= j < i ==> list[j] != e
  {
    if list[0] == e then 0 else 1 + Position(list[1..], e)
  }

  function Unlink(list: seq<Elem>, e: Elem): seq<Elem>
    requires e in list
  {
    var i := Position(list, e);
    list[..i] + list[i + 1..]
  }

  ghost predicate NoRepeats(list: seq<Elem>) {
    forall i, j :: 0 <= i < j < |list| ==> list[i] != list[j]
  }

  /** The map and the list hold the same elements, one for each key. */
  ghost predicate Linked<K, V>(items: map<K, Elem>, list: seq<Elem>, values: map<Elem, (K, V)>) {
    && NoRepeats(list)
    && (forall e :: e in list ==> e in values && values[e].0 in items && items[values[e].0] == e)
    && (forall k :: k in items ==> items[k] in list && values[items[k]].0 == k)
  }

  /** The entries the list stands for. */
  ghost function Entries<K, V>(list: seq<Elem>, values: map<Elem, (K, V)>): (r: Recency<K, V>)
    requires forall e :: e in list ==> e in values
    ensures |r| == |list|
    ensures forall i :: 0 <= i < |r| ==> r[i] == values[list[i]]
  {
    seq(|list|, i requires 0 <= i < |list| => values[list[i]])
  }

  /** Looking a key up in the map finds the element that searching the list would. */
  lemma FindIsPosition<K, V>(items: map<K, Elem>, list: seq<Elem>, values: map<Elem, (K, V)>, key: K)
    requires Linked(items, list, values)
    ensures key in items <==> Find(Entries(list, values), key) < |list|
    ensures key in items ==> Find(Entries(list, values), key) == Position(list, items[key])
  {
  }

  lemma UnlinkStaysLinked<K, V>(items: map<K, Elem>, list: seq<Elem>, values: map<Elem, (K, V)>, e: Elem)
    requires Linked(items, list, values) && e in list
    ensures Linked(items - {values[e].0}, Unlink(list, e), values)
  {
  }

  lemma FrontStaysLinked<K, V>(items: map<K, Elem>, list: seq<Elem>, values: map<Elem, (K, V)>, e: Elem)
    requires Linked(items, list, values) && e in list
    ensures Linked(items, [e] + Unlink(list, e), values) && e !in Unlink(list, e)
    ensures forall value :: Linked(items, [e] + Unlink(list, e), values[e := (values[e].0, value)])
  {
  }

  lemma UnlinkIsRemove<K, V>(list: seq<Elem>, values: map<Elem, (K, V)>, e: Elem)
    requires e in list && forall x :: x in list ==> x in values
    ensures forall x :: x in Unlink(list, e) ==> x in values
    ensures Entries(Unlink(list, e), values) == Remove(Entries(list, values), Position(list, e))
  {
  }

  lemma FrontIsCons<K, V>(list: seq<Elem>, values: map<Elem, (K, V)>, e: Elem)
    requires e in values && forall x :: x in list ==> x in values
    ensures Entries([e] + list, values) == [values[e]] + Entries(list, values)
  {
  }

  lemma OthersUnchanged<K, V>(list: seq<Elem>, values: map<Elem, (K, V)>, e: Elem, entry: (K, V))
    requires e !in list && forall x :: x in list ==> x in values
    ensures Entries(list, values[e := entry]) == Entries(list, values)
  {
  }

  lemma PushIsLinked<K, V>(items: map<K, Elem>, list: seq<Elem>, values: map<Elem, (K, V)>, e: Elem, key: K, value: V)
    requires Linked(items, list, values) && e !in values && key !in items
    ensures Linked(items[key := e], [e] + list, values[e := (key, value)])
    ensures Entries([e] + list, values[e := (key, value)]) == [(key, value)] + Entries(list, values)
  {
  }

  /** The two ways in which Set stores a value. */
  lemma SetCases<K, V>(r: Recency<K, V>, capacity: nat, key: K, value: V, opts: SetOptions)
    ensures Accepts(r, key, opts) && Find(r, key) < |r| ==>
              && AfterSet(r, capacity, key, value, opts) == Pushed(r, key, value)
              && SetDrops(r, capacity, key, value, opts) == DeleteDrops(r, key)
    ensures Accepts(r, key, opts) && Find(r, key) == |r| ==>
              var pushed := [(key, value)] + r;
              && AfterSet(r, capacity, key, value, opts) ==
                 (if |pushed| > capacity then pushed[..|pushed| - 1] else pushed)
              && SetDrops(r, capacity, key, value, opts) ==
                 (if |pushed| > capacity then [pushed[|pushed| - 1]] else [])
  {
  }

  class Shard<K(==), V> {
    var items: map<K, Elem>
    var list: seq<Elem>             // front first
    var values: map<Elem, (K, V)>   // what each element holds
    var nextElem: Elem              // the next element to be allocated
    const capacity: nat

    ghost predicate Valid()
      reads this
    {
      && 0 < capacity && |list| <= capacity
      && Linked(items, list, values)
      && forall e :: e in values ==> e < nextElem
    }

    /** The abstract shard. */
    ghost function Recency(): Recency<K, V>
      requires Valid()
      reads this
    {
      Entries(list, values)
    }

    constructor (capacity: nat)
      requires capacity > 0
      ensures Valid() && Recency() == [] && this.capacity == capacity
    {
      this.capacity := capacity;
      items, list, values, nextElem := map[], [], map[], 0;
    }

    method Get(key: K) returns (r: Option<V>)
      requires Valid()
      modifies this
      ensures Valid()
      ensures r == Lookup(old(Recency()), key)
      ensures Recency() == AfterGet(old(Recency()), key)
    {
      FindIsPosition(items, list, values, key);
      if key !in items {
        return None;
      }
      var elem := items[key];
      FrontStaysLinked(items, list, values, elem);
      UnlinkIsRemove(list, values, elem);
      FrontIsCons(Unlink(list, elem), values, elem);
      list := [elem] + Unlink(list, elem);
      r := Some(values[elem].1);
    }

    method Has(key: K) returns (found: bool)
      requires Valid()
      ensures found <==> Lookup(Recency(), key).Some?
    {
      FindIsPosition(items, list, values, key);
      found := key in items;
    }

    method Delete(key: K) returns (dropped: seq<(K, V)>)
      requires Valid()
      modifies this
      ensures Valid()
      ensures Recency() == AfterDelete(old(Recency()), key)
      ensures dropped == DeleteDrops(old(Recency()), key)
    {
      FindIsPosition(items, list, values, key);
      if key !in items {
        return [];
      }
      var elem := items[key];
      UnlinkStaysLinked(items, list, values, elem);
      UnlinkIsRemove(list, values, elem);
      dropped := [values[elem]];
      list := Unlink(list, elem);
      items := items - {key};
    }

    method Set(key: K, value: V, opts: SetOptions) returns (ok: bool, dropped: seq<(K, V)>)
      requires Valid()
      modifies this
      ensures Valid()
      ensures SetOutcome(old(Recency()), Recency(), key, value, opts, ok, dropped)
      ensures Recency() == AfterSet(old(Recency()), capacity, key, value, opts)
      ensures dropped == SetDrops(old(Recency()), capacity, key, value, opts)
    {
      FindIsPosition(items, list, values, key);
      SetCases(Recency(), capacity, key, value, opts);
      assert Accepts(Recency(), key, opts) ==> Lookup(Pushed(Recency(), key, value), key) == Some(value);
      if key in items && opts.skipExisting {
        return false, [];
      }
      if key !in items && opts.updateExistingOnly {
        return false, [];
      }
      ok := true;
      if key in items {
        dropped := Overwrite(key, value);
      } else {
        dropped := Insert(key, value);
      }
    }

    /** The branch of Set for a key that is present. */
    method Overwrite(key: K, value: V) returns (dropped: seq<(K, V)>)
      requires Valid() && key in items
      modifies this
      ensures Valid()
      ensures Recency() == Pushed(old(Recency()), key, value)
      ensures dropped == DeleteDrops(old(Recency()), key)
    {
      FindIsPosition(items, list, values, key);
      var elem := items[key];
      dropped := [values[elem]];
      UnlinkIsRemove(list, values, elem);
      FrontStaysLinked(items, list, values, elem);
      OthersUnchanged(Unlink(list, elem), values, elem, (key, value));
      values := values[elem := (key, value)];
      FrontIsCons(Unlink(list, elem), values, elem);
      list := [elem] + Unlink(list, elem);
    }

    /** The branch of Set for a key that is absent. */
    method Insert(key: K, value: V) returns (dropped: seq<(K, V)>)
      requires Valid() && key !in items
      modifies this
      ensures Valid()
      ensures var pushed := [(key, value)] + old(Recency());
              && Recency() == (if |pushed| > capacity then pushed[..|pushed| - 1] else pushed)
              && dropped == (if |pushed| > capacity then [pushed[|pushed| - 1]] else [])
    {
      PushFront(key, value);
      dropped := [];
      if |list| > capacity {
        dropped := EvictBack();
      }
    }

    /** A new element at the front of the list, and in the map. */
    method PushFront(key: K, value: V)
      requires Valid() && key !in items
      modifies this
      ensures Linked(items, list, values) && forall e :: e in values ==> e < nextElem
      ensures Entries(list, values) == [(key, value)] + old(Recency())
    {
      var elem := nextElem;
      PushIsLinked(items, list, values, elem, key, value);
      nextElem := nextElem + 1;
      values := values[elem := (key, value)];
      list := [elem] + list;
      items := items[key := elem];
    }

    /** Takes the last element off the list and out of the map. */
    method EvictBack() returns (dropped: seq<(K, V)>)
      requires |list| == capacity + 1 > 1 && Linked(items, list, values)
      modifies this`list, this`items
      ensures Linked(items, list, values) && |list| == capacity
      ensures Entries(list, values) == old(Entries(list, values)[..capacity])
      ensures dropped == [old(Entries(list, values)[capacity])]
    {
      var tail := list[|list| - 1];
      UnlinkStaysLinked(items, list, values, tail);
      UnlinkIsRemove(list, values, tail);
      assert Unlink(list, tail) == list[..capacity];
      assert Remove(Entries(list, values), capacity) == Entries(list, values)[..capacity];
      dropped := [values[tail]];
      list := list[..|list| - 1];
      items := items - {values[tail].0};
    }
  }

  // --------------------------------------------------------------- the cache

  const FNV_OFFSET: nat := 14695981039346656037
  const FNV_PRIME: nat := 1099511628211

  /** The exclusive or with an octet, which reaches the lowest eight bits only. */
  function XorLow(h: nat, b: byte): nat {
    h - h % 256 + ((h % 256) as bv8 ^ b as bv8) as nat
  }

  /** FNV-1a, 64 bits. */
  function Fnv1a(bytes: seq<byte>): (h: nat)
    ensures h < 0x1_0000_0000_0000_0000
  {
    if bytes == [] then FNV_OFFSET
    else XorLow(Fnv1a(bytes[..|bytes| - 1]), bytes[|bytes| - 1]) * FNV_PRIME % 0x1_0000_0000_0000_0000
  }

  /** Two known values of the hash. */
  lemma Fnv1aKnownValues()
    ensures Fnv1a([]) == 0xcbf2_9ce4_8422_2325
    ensures Fnv1a([0x61]) == 0xaf63_dc4c_8601_ec8c
  {
    assert [0x61 as byte][..0] == [];
    assert (0x25 as bv8) ^ (0x61 as bv8) == 0x44;
    assert XorLow(0xcbf2_9ce4_8422_2325, 0x61) == 0xcbf2_9ce4_8422_2344;
  }

  /** What is left of `x` after as many times `n` as it holds. */
  function Remainder(x: nat, n: nat): (r: nat)
    requires n > 0
    ensures r < n && exists q: nat :: x == q * n + r
  {
    assert x == x / n * n + x % n;
    x % n
  }

  predicate IsPowerOfTwo(n: nat) {
    n == 1 || (n > 0 && n % 2 == 0 && IsPowerOfTwo(n / 2))
  }

  function CapacityPerShard(numShards: nat, totalCapacity: int): (c: nat)
    requires numShards > 0
    ensures c > 0
    ensures totalCapacity >= numShards ==> c * numShards <= totalCapacity < c * numShards + numShards
    ensures totalCapacity < numShards ==> c == 1
  {
    if totalCapacity / numShards <= 0 then 1 else totalCapacity / numShards
  }

  lemma SameBut<T>(before: seq<T>, after: seq<T>, i: nat, x: T)
    requires |before| == |after| && i < |after| && after[i] == x
    requires forall j :: 0 <= j < |after| && j != i ==> after[j] == before[j]
    ensures after == before[i := x]
  {
  }

  class LruCache<K(==), V> {
    const shards: seq<Shard<K, V>>
    const bytesOf: K -> seq<byte>
    var invalidated: seq<(K, V)>  // the calls of onInvalidate so far

    ghost predicate Valid()
      reads shards
    {
      && IsPowerOfTwo(|shards|)
      && (forall i :: 0 <= i < |shards| ==> shards[i].Valid())
      && (forall i, j :: 0 <= i < j < |shards| ==> shards[i] != shards[j])
    }

    /** The hash masked by the number of shards less one; the number is a power of two. */
    function Place(key: K): (i: nat)
      requires |shards| > 0
      ensures i < |shards| && exists q: nat :: Fnv1a(bytesOf(key)) == q * |shards| + i
    {
      Remainder(Fnv1a(bytesOf(key)), |shards|)
    }

    ghost function View(): (v: seq<Recency<K, V>>)
      requires Valid()
      reads shards
      ensures |v| == |shards|
      ensures forall i :: 0 <= i < |v| ==> v[i] == shards[i].Recency()
    {
      seq(|shards|, i requires 0 <= i < |shards| && Valid() reads shards => shards[i].Recency())
    }

    constructor (numShards: nat, totalCapacity: int, bytesOf: K -> seq<byte>)
      requires IsPowerOfTwo(numShards)
      ensures Valid() && |shards| == numShards && this.bytesOf == bytesOf && invalidated == []
      ensures View() == seq(numShards, _ => [])
      ensures forall i :: 0 <= i < numShards ==> shards[i].capacity == CapacityPerShard(numShards, totalCapacity)
      ensures fresh(shards)
    {
      var made: seq<Shard<K, V>> := [];
      while |made| < numShards
        invariant |made| <= numShards && fresh(made)
        invariant forall i :: 0 <= i < |made| ==>
                    && made[i].Valid() && made[i].Recency() == []
                    && made[i].capacity == CapacityPerShard(numShards, totalCapacity)
        invariant forall i, j :: 0 <= i < j < |made| ==> made[i] != made[j]
      {
        var shard := new Shard(CapacityPerShard(numShards, totalCapacity));
        made := made + [shard];
      }
      shards := made;
      this.bytesOf := bytesOf;
      invalidated := [];
    }

    /** The part of Get done under the shard's lock. */
    method GetInShard(i: nat, key: K) returns (r: Option<V>)
      requires Valid() && i < |shards|
      modifies shards[i]
      ensures Valid()
      ensures r == Lookup(old(View())[i], key)
      ensures View() == old(View())[i := AfterGet(old(View())[i], key)]
    {
      ghost var before := View();
      r := shards[i].Get(key);
      forall j | 0 <= j < |shards| && j != i
        ensures shards[j].Valid() && shards[j].Recency() == before[j]
      {
      }
      assert Valid();
      SameBut(before, View(), i, AfterGet(before[i], key));
    }

    method Get(key: K) returns (r: Option<V>)
      requires Valid()
      modifies shards
      ensures Valid()
      ensures r == Lookup(old(View())[Place(key)], key)
      ensures View() == old(View())[Place(key) := AfterGet(old(View())[Place(key)], key)]
    {
      r := GetInShard(Place(key), key);
    }

    /** The part of Set done under the shard's lock. */
    method SetInShard(i: nat, key: K, value: V, opts: SetOptions) returns (ok: bool, dropped: seq<(K, V)>)
      requires Valid() && i < |shards|
      modifies shards[i]
      ensures Valid()
      ensures SetOutcome(old(View())[i], View()[i], key, value, opts, ok, dropped)
      ensures View() == old(View())[i := AfterSet(old(View())[i], shards[i].capacity, key, value, opts)]
      ensures dropped == SetDrops(old(View())[i], shards[i].capacity, key, value, opts)
    {
      ghost var before := View();
      ok, dropped := shards[i].Set(key, value, opts);
      forall j | 0 <= j < |shards| && j != i
        ensures shards[j].Valid() && shards[j].Recency() == before[j]
      {
      }
      assert Valid();
      SameBut(before, View(), i, AfterSet(before[i], shards[i].capacity, key, value, opts));
    }

    /** The part of Delete done under the shard's lock. */
    method DeleteInShard(i: nat, key: K) returns (dropped: seq<(K, V)>)
      requires Valid() && i < |shards|
      modifies shards[i]
      ensures Valid()
      ensures View() == old(View())[i := AfterDelete(old(View())[i], key)]
      ensures dropped == DeleteDrops(old(View())[i], key)
    {
      ghost var before := View();
      dropped := shards[i].Delete(key);
      forall j | 0 <= j < |shards| && j != i
        ensures shards[j].Valid() && shards[j].Recency() == before[j]
      {
      }
      assert Valid();
      SameBut(before, View(), i, AfterDelete(before[i], key));
    }

    method Set(key: K, value: V, opts: SetOptions) returns (ok: bool)
      requires Valid()
      modifies this`invalidated, shards
      ensures Valid()
      ensures invalidated ==
        old(invalidated) + SetDrops(old(View())[Place(key)], shards[Place(key)].capacity, key, value, opts)
      ensures var r, capacity := old(View())[Place(key)], shards[Place(key)].capacity;
              && SetOutcome(r, View()[Place(key)], key, value, opts, ok, invalidated[|old(invalidated)|..])
              && View() == old(View())[Place(key) := AfterSet(r, capacity, key, value, opts)]
    {
      var dropped;
      ok, dropped := SetInShard(Place(key), key, value, opts);
      invalidated := invalidated + dropped;
    }

    method Delete(key: K)
      requires Valid()
      modifies this`invalidated, shards
      ensures Valid()
      ensures View() == old(View())[Place(key) := AfterDelete(old(View())[Place(key)], key)]
      ensures invalidated == old(invalidated) + DeleteDrops(old(View())[Place(key)], key)
    {
      var dropped := DeleteInShard(Place(key), key);
      invalidated := invalidated + dropped;
    }

    method Has(key: K) returns (found: bool)
      requires Valid()
      ensures found <==> Lookup(View()[Place(key)], key).Some?
    {
      found := shards[Place(key)].Has(key);
    }

    method Size() returns (total: nat)
      requires Valid()
      ensures total == |Present(View())|
    {
      ghost var view := View();
      total := 0;
      for i := 0 to |shards|
        invariant total == Lengths(view[..i])
      {
        assert view[..i + 1][..i] == view[..i] && |view[i]| == |shards[i].list|;
        total := total + |shards[i].list|;
      }
      assert view[..|shards|] == view;
      LengthsCountPresent(view);
    }
  }

  ghost function Lengths<K, V>(shards: seq<Recency<K, V>>): nat {
    if shards == [] then 0 else Lengths(shards[..|shards| - 1]) + |shards[|shards| - 1]|
  }

  lemma {:induction false} LengthsCountPresent<K, V>(shards: seq<Recency<K, V>>)
    ensures Lengths(shards) == |Present(shards)|
  {
    if shards == [] {
    } else {
      var front, r := shards[..|shards| - 1], shards[|shards| - 1];
      LengthsCountPresent(front);
      assert shards == front + [r];
      PresentAppend(front, r);
    }
  }

  lemma {:induction false} PresentAppend<K, V>(shards: seq<Recency<K, V>>, r: Recency<K, V>)
    ensures Present(shards + [r]) == Present(shards) + multiset(r)
  {
    if shards == [] {
      assert shards + [r] == [r] && [r][1..] == [];
    } else {
      assert (shards + [r])[1..] == shards[1..] + [r];
      PresentAppend(shards[1..], r);
    }
  }

  // ------------------------------------------------------------- runs

  /** The shard of each key, as the specification has it. */
  ghost function Placed<K, V>(cache: LruCache<K, V>): Placement<K>
    requires |cache.shards| > 0
  {
    key => cache.Place(key)
  }

  /** Every shard has this capacity. */
  ghost predicate Uniform<K, V>(cache: LruCache<K, V>, capacity: nat) {
    forall i :: 0 <= i < |cache.shards| ==> cache.shards[i].capacity == capacity
  }

  /** One operation: the shard of its key changes and entries are reported as the specification says. */
  method Apply<K, V(==)>(cache: LruCache<K, V>, capacity: nat, op: Op<K, V>)
    requires cache.Valid() && Uniform(cache, capacity)
    modifies cache`invalidated, cache.shards
    ensures cache.Valid()
    ensures var i := cache.Place(op.key);
      cache.View() == old(cache.View())[i := ShardAfter(capacity, old(cache.View())[i], op)]
    ensures cache.invalidated == old(cache.invalidated) + Drops(capacity, old(cache.View())[cache.Place(op.key)], op)
  {
    match op {
      case Get(key) =>
        var value := cache.Get(key);
      case Set(key, value, opts) =>
        var ok := cache.Set(key, value, opts);
      case Delete(key) =>
        cache.Delete(key);
    }
  }

  /** The cache holds and has reported what the specification says of a run. */
  ghost predicate Agrees<K, V>(c: Cache<K, V>, view: seq<Recency<K, V>>, invalidated: seq<(K, V)>) {
    c.shards == view && c.reported == multiset(invalidated)
  }

  lemma StepAgrees<K, V>(place: Placement<K>, c: Cache<K, V>, op: Op<K, V>,
                         view: seq<Recency<K, V>>, view': seq<Recency<K, V>>,
                         invalidated: seq<(K, V)>, invalidated': seq<(K, V)>)
    requires place(op.key) < |view| && Agrees(c, view, invalidated)
    requires view' == view[place(op.key) := ShardAfter(c.capacity, view[place(op.key)], op)]
    requires invalidated' == invalidated + Drops(c.capacity, view[place(op.key)], op)
    ensures Agrees(Step(place, c, op), view', invalidated')
  {
  }

  lemma AfterAppend<K, V>(place: Placement<K>, shards: nat, capacity: nat, ops: seq<Op<K, V>>, n: nat)
    requires n < |ops| && forall op :: op in ops ==> place(op.key) < shards
    ensures
      After(place, shards, capacity, ops[..n + 1]) == Step(place, After(place, shards, capacity, ops[..n]), ops[n])
  {
    assert ops[..n + 1][..n] == ops[..n];
  }

  /** A run of the cache from its making is a run of the specification. */
  method Run<K(!new, ==), V(==)>(numShards: nat, totalCapacity: int, bytesOf: K -> seq<byte>, ops: seq<Op<K, V>>)
    returns (cache: LruCache<K, V>)
    requires IsPowerOfTwo(numShards)
    ensures cache.Valid() && |cache.shards| == numShards > 0
    ensures var c := After(Placed(cache), numShards, CapacityPerShard(numShards, totalCapacity), ops);
      Agrees(c, cache.View(), cache.invalidated) && LruSpec.Inv(Placed(cache), c)
  {
    cache := new LruCache(numShards, totalCapacity, bytesOf);
    var capacity := CapacityPerShard(numShards, totalCapacity);
    for n := 0 to |ops|
      invariant cache.Valid() && Uniform(cache, capacity) && |cache.shards| == numShards
      invariant fresh(cache) && fresh(cache.shards)
      invariant Agrees(After(Placed(cache), numShards, capacity, ops[..n]), cache.View(), cache.invalidated)
    {
      ghost var view, invalidated := cache.View(), cache.invalidated;
      Apply(cache, capacity, ops[n]);
      AfterAppend(Placed(cache), numShards, capacity, ops, n);
      StepAgrees(Placed(cache), After(Placed(cache), numShards, capacity, ops[..n]), ops[n],
                 view, cache.View(), invalidated, cache.invalidated);
    }
    assert ops[..|ops|] == ops;
    EveryRunKeepsInv(Placed(cache), numShards, capacity, ops);
  }
}
