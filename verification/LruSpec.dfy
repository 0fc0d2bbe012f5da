/**
  What a shard of the LRU cache is meant to be: a sequence of entries, the most
  recently used first. The laws of the cache are proved here, over all runs.
 */
module LruSpec {
  import opened Common

  /** The entries of one shard, most recently used first. */
  type Recency<K, V> = seq<(K, V)>

  /** The position of a key, or the length when it is absent. */
  function Find<K(==), V>(r: Recency<K, V>, key: K): (i: nat)
    ensures i <= |r|
    ensures i < |r| ==> r[i].0 == key
    ensures forall j :: 0 <= j < i ==> r[j].0 != key
  {
    if r == [] || r[0].0 == key then 0 else 1 + Find(r[1..], key)
  }

  function Remove<K, V>(r: Recency<K, V>, i: nat): Recency<K, V>
    requires i < |r|
  {
    r[..i] + r[i + 1..]
  }

  function Lookup<K(==), V>(r: Recency<K, V>, key: K): Option<V> {
    var i := Find(r, key);
    if i < |r| then Some(r[i].1) else None
  }

  function AfterGet<K(==), V>(r: Recency<K, V>, key: K): Recency<K, V> {
    var i := Find(r, key);
    if i < |r| then [r[i]] + Remove(r, i) else r
  }

  function AfterDelete<K(==), V>(r: Recency<K, V>, key: K): Recency<K, V> {
    var i := Find(r, key);
    if i < |r| then Remove(r, i) else r
  }

  datatype SetOptions = SetOptions(skipExisting: bool, updateExistingOnly: bool)

  /** Set stores the value unless an option forbids it. */
  predicate Accepts<K(==), V>(r: Recency<K, V>, key: K, opts: SetOptions) {
    if Find(r, key) < |r| then !opts.skipExisting else !opts.updateExistingOnly
  }

  /** The entries with the new one in front, before anything is evicted. */
  function Pushed<K(==), V>(r: Recency<K, V>, key: K, value: V): Recency<K, V> {
    [(key, value)] + AfterDelete(r, key)
  }

  function AfterSet<K(==), V>(r: Recency<K, V>, capacity: nat, key: K, value: V, opts: SetOptions): Recency<K, V> {
    if !Accepts(r, key, opts) then r
    else
      var pushed := Pushed(r, key, value);
      if |pushed| > capacity && Find(r, key) == |r| then pushed[..|pushed| - 1] else pushed
  }

  /** What Set reports to onInvalidate: the value it overwrote, or the entry it evicted. */
  function SetDrops<K(==), V>(r: Recency<K, V>, capacity: nat, key: K, value: V, opts: SetOptions): seq<(K, V)> {
    if !Accepts(r, key, opts) then []
    else if Find(r, key) < |r| then [r[Find(r, key)]]
    else if |r| + 1 > capacity then [Pushed(r, key, value)[|r|]]
    else []
  }

  function DeleteDrops<K(==), V>(r: Recency<K, V>, key: K): seq<(K, V)> {
    if Find(r, key) < |r| then [r[Find(r, key)]] else []
  }

  // ------------------------------------------------------------ single steps

  lemma RemoveMultiset<K, V>(r: Recency<K, V>, i: nat)
    requires i < |r|
    ensures multiset(r) == multiset(Remove(r, i)) + multiset{r[i]}
  {
    assert r == r[..i] + [r[i]] + r[i + 1..];
  }

  lemma PushedConserves<K, V>(r: Recency<K, V>, key: K, value: V)
    ensures multiset(Pushed(r, key, value)) + multiset(DeleteDrops(r, key)) == multiset(r) + multiset{(key, value)}
  {
    DeleteConserves(r, key);
    assert multiset(Pushed(r, key, value)) == multiset{(key, value)} + multiset(AfterDelete(r, key));
  }

  /** A Set conserves entries: those before and the new one are those after and the one reported. */
  lemma SetConserves<K, V>(r: Recency<K, V>, capacity: nat, key: K, value: V, opts: SetOptions)
    ensures multiset(r) + (if Accepts(r, key, opts) then multiset{(key, value)} else multiset{}) ==
            multiset(AfterSet(r, capacity, key, value, opts)) + multiset(SetDrops(r, capacity, key, value, opts))
  {
    if Accepts(r, key, opts) {
      var pushed := Pushed(r, key, value);
      PushedConserves(r, key, value);
      if Find(r, key) < |r| || |r| + 1 <= capacity {
        assert AfterSet(r, capacity, key, value, opts) == pushed;
        assert SetDrops(r, capacity, key, value, opts) == DeleteDrops(r, key);
      } else {
        assert AfterSet(r, capacity, key, value, opts) == pushed[..|r|] == Remove(pushed, |r|);
        assert SetDrops(r, capacity, key, value, opts) == [pushed[|r|]];
        RemoveMultiset(pushed, |r|);
      }
    }
  }

  lemma DeleteConserves<K, V>(r: Recency<K, V>, key: K)
    ensures multiset(r) == multiset(AfterDelete(r, key)) + multiset(DeleteDrops(r, key))
  {
    if Find(r, key) < |r| {
      RemoveMultiset(r, Find(r, key));
    }
  }

  lemma GetConserves<K, V>(r: Recency<K, V>, key: K)
    ensures multiset(AfterGet(r, key)) == multiset(r)
    ensures Lookup(AfterGet(r, key), key) == Lookup(r, key)
  {
    if Find(r, key) < |r| {
      RemoveMultiset(r, Find(r, key));
    }
  }

  /** A successful Set can be read back at once. */
  lemma SetThenGet<K, V>(r: Recency<K, V>, capacity: nat, key: K, value: V, opts: SetOptions)
    requires capacity > 0 && |r| <= capacity && Accepts(r, key, opts)
    ensures Lookup(AfterSet(r, capacity, key, value, opts), key) == Some(value)
    ensures |AfterSet(r, capacity, key, value, opts)| <= capacity
  {
  }

  /** A key is found exactly when an entry has it, and then with that entry's value. */
  lemma LookupFinds<K, V>(r: Recency<K, V>, key: K)
    ensures Lookup(r, key).Some? <==> exists i :: 0 <= i < |r| && r[i].0 == key
    ensures Lookup(r, key).Some? ==> (key, Lookup(r, key).value) in r
  {
    assert Lookup(r, key).Some? ==> r[Find(r, key)].0 == key;
  }

  /** What a caller sees of a Set: refused without effect, or done and read back. */
  ghost predicate SetOutcome<K, V>(r: Recency<K, V>, r': Recency<K, V>, key: K, value: V, opts: SetOptions, ok: bool,
                                   dropped: seq<(K, V)>)
  {
    && (Lookup(r, key).Some? && opts.skipExisting ==> !ok)
    && (Lookup(r, key).None? && opts.updateExistingOnly ==> !ok)
    && ((if Lookup(r, key).Some? then !opts.skipExisting else !opts.updateExistingOnly) ==>
          ok && Lookup(r', key) == Some(value))
    && (!ok ==> r' == r && dropped == [])
  }

  /** A key that is there and may not be overwritten, or is missing and may not be added: nothing happens. */
  lemma SetIsRefused<K, V>(r: Recency<K, V>, capacity: nat, key: K, value: V, opts: SetOptions)
    requires if Lookup(r, key).Some? then opts.skipExisting else opts.updateExistingOnly
    ensures AfterSet(r, capacity, key, value, opts) == r && SetDrops(r, capacity, key, value, opts) == []
  {
  }

  /** A missing key is added in front; only a full shard loses an entry, its last. */
  lemma SetAdds<K, V>(r: Recency<K, V>, capacity: nat, key: K, value: V, opts: SetOptions)
    requires 0 < capacity && |r| <= capacity && Lookup(r, key).None? && !opts.updateExistingOnly
    ensures var kept := if |r| < capacity then |r| else capacity - 1;
      && AfterSet(r, capacity, key, value, opts) == [(key, value)] + r[..kept]
      && SetDrops(r, capacity, key, value, opts) == r[kept..]
  {
    assert Find(r, key) == |r|;
    var pushed := Pushed(r, key, value);
    if |r| < capacity {
      assert r[..|r|] == r;
    } else {
      assert pushed[..|r|] == [(key, value)] + r[..capacity - 1];
    }
  }

  /** A key that is there gets the new value and moves to the front; its old entry is reported. */
  lemma SetReplaces<K, V>(r: Recency<K, V>, capacity: nat, key: K, value: V, opts: SetOptions)
    requires Lookup(r, key).Some? && !opts.skipExisting
    ensures exists i :: 0 <= i < |r| && r[i].0 == key
                        && AfterSet(r, capacity, key, value, opts) == [(key, value)] + (r[..i] + r[i + 1..])
                        && SetDrops(r, capacity, key, value, opts) == [r[i]]
  {
    assert r[Find(r, key)].0 == key;
  }

  /** A Get that finds its key moves the entry to the front, and any other leaves everything as it was. */
  lemma GetLaw<K, V>(r: Recency<K, V>, key: K)
    ensures Lookup(r, key).None? ==> AfterGet(r, key) == r
    ensures Lookup(r, key).Some? ==>
      exists i :: 0 <= i < |r| && r[i] == (key, Lookup(r, key).value)
                  && AfterGet(r, key) == [r[i]] + (r[..i] + r[i + 1..])
  {
    assert Lookup(r, key).Some? ==> r[Find(r, key)].0 == key;
  }

  /** A Delete takes out the key's entry alone, and reports it. */
  lemma DeleteLaw<K, V>(r: Recency<K, V>, key: K)
    ensures Lookup(r, key).None? ==> AfterDelete(r, key) == r && DeleteDrops(r, key) == []
    ensures Lookup(r, key).Some? ==>
      exists i :: 0 <= i < |r| && r[i].0 == key
                  && AfterDelete(r, key) == r[..i] + r[i + 1..] && DeleteDrops(r, key) == [r[i]]
  {
  }

  // -------------------------------------------------------------------- runs

  datatype Op<K, V> =
    | Get(key: K)
    | Set(key: K, value: V, opts: SetOptions)
    | Delete(key: K)

  /** A cache of several shards, with its history: entries stored, entries reported, and last uses. */
  datatype Cache<!K(==), !V(==)> = Cache(
    capacity: nat,
    shards: seq<Recency<K, V>>,
    stored: multiset<(K, V)>,
    reported: multiset<(K, V)>,
    clock: nat,
    lastUse: map<K, nat>)

  /** The shard a key belongs to. */
  type Placement<!K> = K -> nat

  /** The key's shard after an operation. */
  function ShardAfter<K(==), V>(capacity: nat, r: Recency<K, V>, op: Op<K, V>): Recency<K, V> {
    match op
    case Get(key) => AfterGet(r, key)
    case Set(key, value, opts) => AfterSet(r, capacity, key, value, opts)
    case Delete(key) => AfterDelete(r, key)
  }

  /** The entry an operation stores, if any. */
  function Stores<K(==), V(==)>(r: Recency<K, V>, op: Op<K, V>): multiset<(K, V)> {
    if op.Set? && Accepts(r, op.key, op.opts) then multiset{(op.key, op.value)} else multiset{}
  }

  /** What an operation reports to onInvalidate. */
  function Drops<K(==), V>(capacity: nat, r: Recency<K, V>, op: Op<K, V>): seq<(K, V)> {
    match op
    case Get(_) => []
    case Set(key, value, opts) => SetDrops(r, capacity, key, value, opts)
    case Delete(key) => DeleteDrops(r, key)
  }

  /** A key is used when a Get finds it or a Set stores it. */
  predicate Uses<K(==), V>(r: Recency<K, V>, op: Op<K, V>) {
    (op.Get? && Find(r, op.key) < |r|) || (op.Set? && Accepts(r, op.key, op.opts))
  }

  function Step<K(==), V(==)>(place: Placement<K>, c: Cache<K, V>, op: Op<K, V>): Cache<K, V>
    requires place(op.key) < |c.shards|
  {
    var i := place(op.key);
    var r := c.shards[i];
    Cache(c.capacity,
          c.shards[i := ShardAfter(c.capacity, r, op)],
          c.stored + Stores(r, op),
          c.reported + multiset(Drops(c.capacity, r, op)),
          c.clock + 1,
          if Uses(r, op) then c.lastUse[op.key := c.clock] else c.lastUse)
  }

  /** Everything held in the shards. */
  ghost function Present<K, V>(shards: seq<Recency<K, V>>): multiset<(K, V)> {
    if shards == [] then multiset{} else multiset(shards[0]) + Present(shards[1..])
  }

  lemma {:induction false} PresentUpdate<K, V>(shards: seq<Recency<K, V>>, i: nat, r: Recency<K, V>)
    requires i < |shards|
    ensures Present(shards[i := r]) + multiset(shards[i]) == Present(shards) + multiset(r)
  {
    var updated := shards[i := r];
    assert Present(updated) == multiset(updated[0]) + Present(updated[1..]);
    if i == 0 {
      assert updated[1..] == shards[1..];
    } else {
      assert updated[1..] == shards[1..][i - 1 := r];
      PresentUpdate(shards[1..], i - 1, r);
      assert Present(updated) + multiset(shards[i]) ==
             multiset(shards[0]) + (Present(updated[1..]) + multiset(shards[1..][i - 1]));
    }
  }

  /** The entries belong to shard `i` and stand in the order of their last use, the latest first. */
  ghost predicate Ordered<K, V>(place: Placement<K>, i: nat, clock: nat, lastUse: map<K, nat>, r: Recency<K, V>) {
    && (forall j :: 0 <= j < |r| ==> place(r[j].0) == i && r[j].0 in lastUse && lastUse[r[j].0] < clock)
    && (forall j, k :: 0 <= j < k < |r| ==> lastUse[r[j].0] > lastUse[r[k].0])
  }

  lemma OrderedRemove<K, V>(place: Placement<K>, i: nat, clock: nat, lastUse: map<K, nat>, r: Recency<K, V>, n: nat)
    requires Ordered(place, i, clock, lastUse, r) && n < |r|
    ensures Ordered(place, i, clock, lastUse, Remove(r, n))
    ensures forall j :: 0 <= j < |r| - 1 ==> Remove(r, n)[j].0 != r[n].0
  {
  }

  lemma OrderedUse<K, V>(place: Placement<K>, i: nat, clock: nat, lastUse: map<K, nat>, r: Recency<K, V>, key: K)
    requires Ordered(place, i, clock, lastUse, r) && forall j :: 0 <= j < |r| ==> r[j].0 != key
    ensures Ordered(place, i, clock + 1, lastUse[key := clock], r)
    ensures place(key) == i ==> forall value :: Ordered(place, i, clock + 1, lastUse[key := clock], [(key, value)] + r)
  {
  }

  ghost predicate Inv<K(!new), V>(place: Placement<K>, c: Cache<K, V>) {
    && c.capacity > 0
    && (forall i :: 0 <= i < |c.shards| ==> |c.shards[i]| <= c.capacity)
    && (forall i :: 0 <= i < |c.shards| ==> Ordered(place, i, c.clock, c.lastUse, c.shards[i]))
    && c.stored == Present(c.shards) + c.reported
  }

  /** The shard of the key after each kind of operation. */
  lemma UseKeepsOrder<K, V>(place: Placement<K>, i: nat, clock: nat, lastUse: map<K, nat>, r: Recency<K, V>, key: K)
    requires Ordered(place, i, clock, lastUse, r) && place(key) == i
    ensures Ordered(place, i, clock + 1, lastUse, AfterDelete(r, key))
    ensures forall value :: Ordered(place, i, clock + 1, lastUse[key := clock], Pushed(r, key, value))
    ensures Find(r, key) < |r| ==> AfterGet(r, key) == Pushed(r, key, r[Find(r, key)].1)
  {
    if Find(r, key) < |r| {
      OrderedRemove(place, i, clock, lastUse, r, Find(r, key));
    }
    OrderedUse(place, i, clock, lastUse, AfterDelete(r, key), key);
  }

  lemma ShardKeepsOrder<K, V>(place: Placement<K>, i: nat, clock: nat, lastUse: map<K, nat>,
                              capacity: nat, r: Recency<K, V>, op: Op<K, V>)
    requires Ordered(place, i, clock, lastUse, r) && place(op.key) == i
    ensures Ordered(place, i, clock + 1, if Uses(r, op) then lastUse[op.key := clock] else lastUse,
                    ShardAfter(capacity, r, op))
  {
    UseKeepsOrder(place, i, clock, lastUse, r, op.key);
    if op.Set? {
      assert Ordered(place, i, clock + 1, lastUse[op.key := clock], Pushed(r, op.key, op.value));
    }
  }

  lemma ShardFits<K, V>(capacity: nat, r: Recency<K, V>, op: Op<K, V>)
    requires 0 < capacity && |r| <= capacity
    ensures |ShardAfter(capacity, r, op)| <= capacity
  {
  }

  lemma ShardConserves<K, V>(capacity: nat, r: Recency<K, V>, op: Op<K, V>)
    ensures multiset(r) + Stores(r, op) == multiset(ShardAfter(capacity, r, op)) + multiset(Drops(capacity, r, op))
  {
    match op
    case Get(key) => GetConserves(r, key);
    case Set(key, value, opts) => SetConserves(r, capacity, key, value, opts);
    case Delete(key) => DeleteConserves(r, key);
  }

  lemma StepKeepsOrder<K(!new), V>(place: Placement<K>, c: Cache<K, V>, op: Op<K, V>, i: nat)
    requires Inv(place, c) && place(op.key) < |c.shards| && i < |c.shards|
    ensures var c' := Step(place, c, op);
            |c'.shards[i]| <= c'.capacity && Ordered(place, i, c'.clock, c'.lastUse, c'.shards[i])
  {
    var r := c.shards[i];
    if i == place(op.key) {
      ShardKeepsOrder(place, i, c.clock, c.lastUse, c.capacity, r, op);
      ShardFits(c.capacity, r, op);
    } else {
      assert Ordered(place, i, c.clock + 1, c.lastUse, r);
      OrderedUse(place, i, c.clock, c.lastUse, r, op.key);
    }
  }

  lemma Balance<T>(stored: multiset<T>, reported: multiset<T>, present: multiset<T>, present': multiset<T>,
                   shard: multiset<T>, shard': multiset<T>, added: multiset<T>, dropped: multiset<T>)
    requires stored == present + reported
    requires present' + shard == present + shard'
    requires shard + added == shard' + dropped
    ensures stored + added == present' + (reported + dropped)
  {
    forall x
      ensures (stored + added)[x] == (present' + (reported + dropped))[x]
    {
      assert (present' + shard)[x] == (present + shard')[x];
      assert (shard + added)[x] == (shard' + dropped)[x];
    }
  }

  lemma StepConserves<K(!new), V>(place: Placement<K>, c: Cache<K, V>, op: Op<K, V>)
    requires Inv(place, c) && place(op.key) < |c.shards|
    ensures Step(place, c, op).stored == Present(Step(place, c, op).shards) + Step(place, c, op).reported
  {
    var i := place(op.key);
    var r, r' := c.shards[i], ShardAfter(c.capacity, c.shards[i], op);
    PresentUpdate(c.shards, i, r');
    ShardConserves(c.capacity, r, op);
    Balance(c.stored, c.reported, Present(c.shards), Present(c.shards[i := r']), multiset(r), multiset(r'),
            Stores(r, op), multiset(Drops(c.capacity, r, op)));
  }

  /** The cache after a series of operations on a new one. */
  function After<K(==), V(==)>(place: Placement<K>, shards: nat, capacity: nat, ops: seq<Op<K, V>>): (c: Cache<K, V>)
    requires forall op :: op in ops ==> place(op.key) < shards
    ensures |c.shards| == shards && c.capacity == capacity && c.clock == |ops|
  {
    if ops == [] then Cache(capacity, seq(shards, _ => []), multiset{}, multiset{}, 0, map[])
    else Step(place, After(place, shards, capacity, ops[..|ops| - 1]), ops[|ops| - 1])
  }

  lemma {:induction false} NothingPresent<K, V>(shards: seq<Recency<K, V>>)
    requires forall i :: 0 <= i < |shards| ==> shards[i] == []
    ensures Present(shards) == multiset{}
  {
    if shards == [] {
    } else {
      NothingPresent(shards[1..]);
    }
  }

  lemma StepKeepsInv<K(!new), V>(place: Placement<K>, c: Cache<K, V>, op: Op<K, V>)
    requires Inv(place, c) && place(op.key) < |c.shards|
    ensures Inv(place, Step(place, c, op))
  {
    StepConserves(place, c, op);
    forall i: nat | i < |c.shards|
      ensures var c' := Step(place, c, op);
              |c'.shards[i]| <= c'.capacity && Ordered(place, i, c'.clock, c'.lastUse, c'.shards[i])
    {
      StepKeepsOrder(place, c, op, i);
    }
  }

  /**
    After every run: entries stored are those present and those reported, each
    once; every key is in its own shard; no shard is over capacity; and each
    shard stands in the order of last use.
   */
  lemma {:induction false} EveryRunKeepsInv<K(!new), V>(place: Placement<K>, shards: nat, capacity: nat,
                                                        ops: seq<Op<K, V>>)
    requires capacity > 0 && forall op :: op in ops ==> place(op.key) < shards
    ensures Inv(place, After(place, shards, capacity, ops))
  {
    if ops == [] {
      NothingPresent(After(place, shards, capacity, ops).shards);
    } else {
      var front, op := ops[..|ops| - 1], ops[|ops| - 1];
      EveryRunKeepsInv(place, shards, capacity, front);
      StepKeepsInv(place, After(place, shards, capacity, front), op);
    }
  }

  /** No operation brings another key than its own into a shard. */
  lemma OnlyItsKeyEnters<K, V>(capacity: nat, r: Recency<K, V>, op: Op<K, V>, key: K)
    requires 0 < capacity && |r| <= capacity
    requires Lookup(ShardAfter(capacity, r, op), key).Some? && op.key != key
    ensures Lookup(r, key).Some?
  {
    LookupFinds(ShardAfter(capacity, r, op), key);
    LookupFinds(r, key);
    var after := ShardAfter(capacity, r, op);
    var i :| 0 <= i < |after| && after[i].0 == key;
    match op
    case Get(k) =>
    case Set(k, value, opts) =>
      if i > 0 && Accepts(r, k, opts) && Lookup(r, k).None? {
        SetAdds(r, capacity, k, value, opts);
      }
    case Delete(k) =>
  }

  lemma DeletedIsGone<K, V>(place: Placement<K>, i: nat, clock: nat, lastUse: map<K, nat>, r: Recency<K, V>, key: K)
    requires Ordered(place, i, clock, lastUse, r)
    ensures Lookup(AfterDelete(r, key), key).None?
  {
    if Find(r, key) < |r| {
      OrderedRemove(place, i, clock, lastUse, r, Find(r, key));
    }
  }

  /** A key that is there after an operation was used by it, or was there and has not been used by it. */
  lemma UsedOrKept<K(!new), V>(place: Placement<K>, c: Cache<K, V>, op: Op<K, V>, key: K)
    requires Inv(place, c) && place(op.key) < |c.shards| && place(key) < |c.shards|
    requires Lookup(Step(place, c, op).shards[place(key)], key).Some?
    ensures key in Step(place, c, op).lastUse
    ensures
      || (op.key == key && !op.Delete? && Step(place, c, op).lastUse[key] == c.clock)
      || (&& Lookup(c.shards[place(key)], key).Some? && key in c.lastUse
          && Step(place, c, op).lastUse[key] == c.lastUse[key]
          && (op.key == key ==> op.Set? && op.opts.skipExisting))
  {
    var i := place(key);
    if op.key == key {
      if op.Delete? {
        DeletedIsGone(place, i, c.clock, c.lastUse, c.shards[i], key);
      }
    } else if place(op.key) == i {
      OnlyItsKeyEnters(c.capacity, c.shards[i], op, key);
    }
  }

  /** `n` is the place of the last use of a present key: what came later for it were refused Sets. */
  ghost predicate LastUsed<K, V>(ops: seq<Op<K, V>>, key: K, n: nat) {
    && n < |ops| && ops[n].key == key && !ops[n].Delete?
    && forall m :: n < m < |ops| && ops[m].key == key ==> ops[m].Set? && ops[m].opts.skipExisting
  }

  lemma UsedNow<K, V>(ops: seq<Op<K, V>>, key: K)
    requires ops != [] && ops[|ops| - 1].key == key && !ops[|ops| - 1].Delete?
    ensures LastUsed(ops, key, |ops| - 1)
  {
  }

  lemma StillLastUsed<K, V>(ops: seq<Op<K, V>>, key: K, n: nat)
    requires ops != [] && LastUsed(ops[..|ops| - 1], key, n)
    requires ops[|ops| - 1].key == key ==> ops[|ops| - 1].Set? && ops[|ops| - 1].opts.skipExisting
    ensures LastUsed(ops, key, n)
  {
  }

  /** If the key is present, the time of its last use is the place of that operation in the run. */
  ghost predicate Dated<K, V>(place: Placement<K>, c: Cache<K, V>, ops: seq<Op<K, V>>, key: K)
    requires place(key) < |c.shards|
  {
    Lookup(c.shards[place(key)], key).Some? ==> key in c.lastUse && LastUsed(ops, key, c.lastUse[key])
  }

  lemma StepDates<K(!new), V>(place: Placement<K>, c: Cache<K, V>, c': Cache<K, V>, ops: seq<Op<K, V>>, key: K)
    requires ops != [] && place(ops[|ops| - 1].key) < |c.shards| && c' == Step(place, c, ops[|ops| - 1])
    requires Inv(place, c) && place(key) < |c.shards| && c.clock == |ops| - 1
    requires Dated(place, c, ops[..|ops| - 1], key)
    ensures Dated(place, c', ops, key)
  {
    if Lookup(c'.shards[place(key)], key).Some? {
      UsedOrKept(place, c, ops[|ops| - 1], key);
      if c'.lastUse[key] == c.clock && ops[|ops| - 1].key == key && !ops[|ops| - 1].Delete? {
        UsedNow(ops, key);
      } else {
        StillLastUsed(ops, key, c.lastUse[key]);
      }
    }
  }

  lemma NothingDated<K, V>(place: Placement<K>, shards: nat, capacity: nat, key: K)
    requires place(key) < shards
    ensures Dated(place, After<K, V>(place, shards, capacity, []), [], key)
  {
  }

  /** The order of a shard is that of the last Get or successful Set of each key in the run. */
  lemma {:induction false} LastUseIsLatest<K(!new), V>(place: Placement<K>, shards: nat, capacity: nat,
                                                       ops: seq<Op<K, V>>, key: K)
    requires capacity > 0 && (forall op :: op in ops ==> place(op.key) < shards) && place(key) < shards
    ensures Dated(place, After(place, shards, capacity, ops), ops, key)
  {
    if ops == [] {
      NothingDated<K, V>(place, shards, capacity, key);
    } else {
      var front := ops[..|ops| - 1];
      EveryRunKeepsInv(place, shards, capacity, front);
      LastUseIsLatest(place, shards, capacity, front, key);
      StepDates(place, After(place, shards, capacity, front), After(place, shards, capacity, ops), ops, key);
    }
  }

  /** What a Set evicts was used less recently than everything that stays. */
  lemma EvictsLeastRecentlyUsed<K(!new), V>(place: Placement<K>, c: Cache<K, V>, op: Op<K, V>, j: nat)
    requires Inv(place, c) && op.Set? && place(op.key) < |c.shards|
    requires var r := c.shards[place(op.key)];
             Accepts(r, op.key, op.opts) && Find(r, op.key) == |r| == c.capacity && j < c.capacity - 1
    ensures var i := place(op.key);
            var victim := SetDrops(c.shards[i], c.capacity, op.key, op.value, op.opts);
            && victim == [c.shards[i][c.capacity - 1]]
            && Step(place, c, op).shards[i] == [(op.key, op.value)] + c.shards[i][..c.capacity - 1]
            && c.lastUse[victim[0].0] < c.lastUse[c.shards[i][j].0]
  {
  }
}
