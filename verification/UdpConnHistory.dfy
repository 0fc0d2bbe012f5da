/**
  The life of a pooled connection, told from the steps of a run: when it was
  returned, which one a Get is handed, and when a sweep closes it.
 */
module UdpConnHistory {
  import opened Common
  import opened UdpConnPool
  import opened UdpConnPoolRuns

  /** The pool before step `i` of a run. */
  ghost function Before(steps: seq<Step>, i: nat): (s: Pool)
    requires i <= |steps|
    ensures WellFormed(s)
  {
    var s := After(steps[..i]);
    if s.Some? then s.value else Init()
  }

  /** `step` is taken after `steps`. */
  ghost predicate Takes(steps: seq<Step>, step: Step, s: Pool) {
    After(steps) == Some(s) && Enabled(s, step)
  }

  lemma TakenNext(steps: seq<Step>, step: Step, s: Pool)
    requires Takes(steps, step, s)
    ensures Before(steps + [step], |steps|) == s && (steps + [step])[|steps|] == step
    ensures After(steps + [step]) == Some(Do(s, step))
  {
    assert (steps + [step])[..|steps|] == steps;
  }

  lemma PrefixIsSame(steps: seq<Step>, step: Step, i: nat)
    requires i <= |steps|
    ensures Before(steps + [step], i) == Before(steps, i)
  {
    assert (steps + [step])[..i] == steps[..i];
  }

  /** Step `i` puts the connection into the pool for the address, at that time. */
  ghost predicate ReturnedAt(steps: seq<Step>, i: nat, addr: Addr, p: PooledConn) {
    && i < |steps| && steps[i].PutAdd? && steps[i].now == p.lastUsed
    && Before(steps, i).At(steps[i].t) == Admitted(addr, p.conn)
    && |Before(steps, i).Pooled(addr)| < 4
  }

  ghost predicate Returns(steps: seq<Step>, i: nat, conn: Conn) {
    exists addr, p: PooledConn :: p.conn == conn && ReturnedAt(steps, i, addr, p)
  }

  /** And no later step puts it into the pool again. */
  ghost predicate LastReturnedAt(steps: seq<Step>, i: nat, addr: Addr, p: PooledConn) {
    ReturnedAt(steps, i, addr, p) && forall j :: i < j < |steps| ==> !Returns(steps, j, p.conn)
  }

  /** Two pooled connections of an address, the first of which was returned before the second. */
  ghost predicate InOrder(steps: seq<Step>, addr: Addr, p: PooledConn, q: PooledConn) {
    exists i: nat, j: nat :: i < j && LastReturnedAt(steps, i, addr, p) && LastReturnedAt(steps, j, addr, q)
  }

  ghost predicate Sourced(steps: seq<Step>, addr: Addr, p: PooledConn) {
    exists i: nat :: LastReturnedAt(steps, i, addr, p)
  }

  /** The pooled connections of an address stand in the order in which they were returned. */
  ghost predicate ByReturn(steps: seq<Step>, addr: Addr, conns: seq<PooledConn>) {
    && (forall k :: 0 <= k < |conns| ==> Sourced(steps, addr, conns[k]))
    && (forall k, l :: 0 <= k < l < |conns| ==> InOrder(steps, addr, conns[k], conns[l]))
  }

  lemma ReturnsBefore(steps: seq<Step>, step: Step, i: nat, conn: Conn)
    requires i < |steps|
    ensures Returns(steps + [step], i, conn) <==> Returns(steps, i, conn)
    ensures forall addr, p :: ReturnedAt(steps + [step], i, addr, p) <==> ReturnedAt(steps, i, addr, p)
  {
    PrefixIsSame(steps, step, i);
    assert (steps + [step])[i] == steps[i];
    if Returns(steps, i, conn) {
      var addr, p: PooledConn :| p.conn == conn && ReturnedAt(steps, i, addr, p);
      assert ReturnedAt(steps + [step], i, addr, p);
    }
    if Returns(steps + [step], i, conn) {
      var addr, p: PooledConn :| p.conn == conn && ReturnedAt(steps + [step], i, addr, p);
      assert ReturnedAt(steps, i, addr, p);
    }
  }

  lemma LastReturnedNext(steps: seq<Step>, step: Step, i: nat, addr: Addr, p: PooledConn)
    requires LastReturnedAt(steps, i, addr, p) && !Returns(steps + [step], |steps|, p.conn)
    ensures LastReturnedAt(steps + [step], i, addr, p)
  {
    ReturnsBefore(steps, step, i, p.conn);
    forall j | i < j < |steps + [step]|
      ensures !Returns(steps + [step], j, p.conn)
    {
      if j < |steps| {
        ReturnsBefore(steps, step, j, p.conn);
      }
    }
  }

  /** Connections that the step does not return stay in their order. */
  lemma ByReturnNext(steps: seq<Step>, step: Step, addr: Addr, conns: seq<PooledConn>)
    requires ByReturn(steps, addr, conns)
    requires forall k :: 0 <= k < |conns| ==> !Returns(steps + [step], |steps|, conns[k].conn)
    ensures ByReturn(steps + [step], addr, conns)
  {
    forall k | 0 <= k < |conns|
      ensures Sourced(steps + [step], addr, conns[k])
    {
      assert Sourced(steps, addr, conns[k]);
      var i: nat :| LastReturnedAt(steps, i, addr, conns[k]);
      LastReturnedNext(steps, step, i, addr, conns[k]);
    }
    forall k, l | 0 <= k < l < |conns|
      ensures InOrder(steps + [step], addr, conns[k], conns[l])
    {
      assert InOrder(steps, addr, conns[k], conns[l]);
      var i: nat, j: nat :|
        i < j && LastReturnedAt(steps, i, addr, conns[k]) && LastReturnedAt(steps, j, addr, conns[l]);
      LastReturnedNext(steps, step, i, addr, conns[k]);
      LastReturnedNext(steps, step, j, addr, conns[l]);
    }
  }

  /** Connections still in use stand in the order they had. */
  lemma {:induction false} ActiveKeepsOrder(conns: seq<PooledConn>, now: Time, k: nat, l: nat) returns (m: nat, n: nat)
    requires k < l < |Active(conns, now)|
    ensures m < n < |conns| && conns[m] == Active(conns, now)[k] && conns[n] == Active(conns, now)[l]
  {
    var front := conns[..|conns| - 1];
    if l < |Active(front, now)| {
      m, n := ActiveKeepsOrder(front, now, k, l);
    } else {
      assert Active(front, now)[k] in front;
      m :| 0 <= m < |front| && front[m] == Active(front, now)[k];
      n := |conns| - 1;
    }
  }

  lemma ActiveIsByReturn(steps: seq<Step>, addr: Addr, conns: seq<PooledConn>, now: Time)
    requires ByReturn(steps, addr, conns)
    ensures ByReturn(steps, addr, Active(conns, now))
  {
    var active := Active(conns, now);
    forall k | 0 <= k < |active|
      ensures Sourced(steps, addr, active[k])
    {
      assert active[k] in conns;
    }
    forall k, l | 0 <= k < l < |active|
      ensures InOrder(steps, addr, active[k], active[l])
    {
      var m, n := ActiveKeepsOrder(conns, now, k, l);
    }
  }

  /** What a step makes of the pooled connections of an address. */
  ghost function PooledNext(s: Pool, step: Step, addr: Addr): seq<PooledConn>
    requires WellFormed(s) && Enabled(s, step)
  {
    var conns, pc := s.Pooled(addr), s.At(step.t);
    if step.GetHit? && step.addr == addr then conns[..|conns| - 1]
    else if step.PutAdd? && pc.addr == addr && |conns| < 4 then conns + [PooledConn(pc.conn, step.now)]
    else if step.CleanShard? && ShardOf(addr) == pc.next then Active(conns, pc.now)
    else if step.CloseShard? && ShardOf(addr) == pc.next then []
    else conns
  }

  lemma PooledAfter(s: Pool, step: Step, addr: Addr)
    requires WellFormed(s) && Enabled(s, step)
    ensures Do(s, step).Pooled(addr) == PooledNext(s, step, addr)
  {
  }

  /** Only the connection that a Put carries is returned, and that is not in the pool. */
  lemma ReturnedWasOut(steps: seq<Step>, step: Step, s: Pool, addr: Addr, k: nat)
    requires Takes(steps, step, s) && k < |s.Pooled(addr)|
    ensures !Returns(steps + [step], |steps|, s.Pooled(addr)[k].conn)
  {
    EveryRunIsSafe(steps);
    TakenNext(steps, step, s);
    var c := s.Pooled(addr)[k].conn;
    assert IsAt(s, c, InPool(addr));
    assert s.At(step.t).Admitted? && s.At(step.t).conn == c ==> IsAt(s, c, With(step.t));
  }

  lemma ReturnedHere(steps: seq<Step>, step: Step, s: Pool)
    requires Takes(steps, step, s) && step.PutAdd? && |s.Pooled(s.At(step.t).addr)| < 4
    ensures LastReturnedAt(steps + [step], |steps|, s.At(step.t).addr, PooledConn(s.At(step.t).conn, step.now))
  {
    TakenNext(steps, step, s);
  }

  lemma ReturnedEarlier(steps: seq<Step>, addr: Addr, q: PooledConn, p: PooledConn, i: nat)
    requires steps != [] && ReturnedAt(steps, |steps| - 1, addr, p) && ReturnedAt(steps, i, addr, q) && q.conn != p.conn
    ensures i < |steps| - 1
  {
  }

  lemma AppendIsByReturn(steps: seq<Step>, addr: Addr, conns: seq<PooledConn>, p: PooledConn)
    requires steps != [] && ByReturn(steps, addr, conns) && LastReturnedAt(steps, |steps| - 1, addr, p)
    requires forall k :: 0 <= k < |conns| ==> conns[k].conn != p.conn
    ensures ByReturn(steps, addr, conns + [p])
  {
    assert Sourced(steps, addr, p);
    forall k | 0 <= k < |conns|
      ensures InOrder(steps, addr, conns[k], p)
    {
      assert Sourced(steps, addr, conns[k]);
      var i: nat :| LastReturnedAt(steps, i, addr, conns[k]);
      ReturnedEarlier(steps, addr, conns[k], p, i);
    }
    OneMoreInOrder(steps, addr, conns, p);
  }

  lemma OneMoreInOrder(steps: seq<Step>, addr: Addr, conns: seq<PooledConn>, p: PooledConn)
    requires ByReturn(steps, addr, conns) && Sourced(steps, addr, p)
    requires forall k :: 0 <= k < |conns| ==> InOrder(steps, addr, conns[k], p)
    ensures ByReturn(steps, addr, conns + [p])
  {
  }

  lemma FrontIsByReturn(steps: seq<Step>, addr: Addr, conns: seq<PooledConn>)
    requires conns != [] && ByReturn(steps, addr, conns)
    ensures ByReturn(steps, addr, conns[..|conns| - 1])
  {
  }

  lemma PutKeepsByReturn(steps: seq<Step>, step: Step, s: Pool)
    requires Takes(steps, step, s) && step.PutAdd? && |s.Pooled(s.At(step.t).addr)| < 4
    requires ByReturn(steps + [step], s.At(step.t).addr, s.Pooled(s.At(step.t).addr))
    ensures ByReturn(steps + [step], s.At(step.t).addr,
                     s.Pooled(s.At(step.t).addr) + [PooledConn(s.At(step.t).conn, step.now)])
  {
    var addr, p := s.At(step.t).addr, PooledConn(s.At(step.t).conn, step.now);
    ReturnedHere(steps, step, s);
    assert Returns(steps + [step], |steps|, p.conn);
    forall k | 0 <= k < |s.Pooled(addr)|
      ensures s.Pooled(addr)[k].conn != p.conn
    {
      ReturnedWasOut(steps, step, s, addr, k);
    }
    AppendIsByReturn(steps + [step], addr, s.Pooled(addr), p);
  }

  lemma StepKeepsByReturn(steps: seq<Step>, step: Step, s: Pool, addr: Addr)
    requires Takes(steps, step, s) && ByReturn(steps, addr, s.Pooled(addr))
    ensures ByReturn(steps + [step], addr, Do(s, step).Pooled(addr))
  {
    var conns, pc := s.Pooled(addr), s.At(step.t);
    PooledAfter(s, step, addr);
    forall k | 0 <= k < |conns|
      ensures !Returns(steps + [step], |steps|, conns[k].conn)
    {
      ReturnedWasOut(steps, step, s, addr, k);
    }
    ByReturnNext(steps, step, addr, conns);
    if step.PutAdd? && pc.addr == addr && |conns| < 4 {
      PutKeepsByReturn(steps, step, s);
    } else if step.CleanShard? {
      ActiveIsByReturn(steps + [step], addr, conns, pc.now);
    } else if step.GetHit? && step.addr == addr {
      FrontIsByReturn(steps + [step], addr, conns);
    }
  }

  lemma NextIsByReturn(steps: seq<Step>, step: Step, all: seq<Step>, s: Pool, conns: seq<PooledConn>, addr: Addr)
    requires all == steps + [step] && Takes(steps, step, s) && conns == Do(s, step).Pooled(addr)
    requires ByReturn(steps, addr, s.Pooled(addr))
    ensures ByReturn(all, addr, conns)
  {
    StepKeepsByReturn(steps, step, s, addr);
  }

  /** After every run the pooled connections of an address stand in the order of their last return. */
  lemma {:induction false} EveryRunIsByReturn(steps: seq<Step>, s: Pool, addr: Addr)
    requires After(steps) == Some(s)
    ensures ByReturn(steps, addr, s.Pooled(addr))
    decreases |steps|
  {
    if steps == [] {
    } else {
      var front, step := steps[..|steps| - 1], steps[|steps| - 1];
      var before := After(front).value;
      assert steps == front + [step];
      EveryRunIsByReturn(front, before, addr);
      NextIsByReturn(front, step, steps, before, s.Pooled(addr), addr);
    }
  }

  lemma PooledWasReturned(steps: seq<Step>, s: Pool, addr: Addr, p: PooledConn) returns (i: nat)
    requires After(steps) == Some(s) && p in s.Pooled(addr)
    ensures LastReturnedAt(steps, i, addr, p) && steps[i].now == p.lastUsed
  {
    EveryRunIsByReturn(steps, s, addr);
    var k :| 0 <= k < |s.Pooled(addr)| && s.Pooled(addr)[k] == p;
    assert Sourced(steps, addr, s.Pooled(addr)[k]);
    i :| LastReturnedAt(steps, i, addr, p);
  }

  lemma OneLastReturn(steps: seq<Step>, addr: Addr, p: PooledConn, i: nat, j: nat)
    requires LastReturnedAt(steps, i, addr, p) && LastReturnedAt(steps, j, addr, p)
    ensures i == j
  {
    assert Returns(steps, i, p.conn) && Returns(steps, j, p.conn);
  }

  lemma OthersWereReturnedEarlier(steps: seq<Step>, addr: Addr, conns: seq<PooledConn>, q: PooledConn, i: nat)
    requires ByReturn(steps, addr, conns) && q in conns && q != conns[|conns| - 1]
    requires LastReturnedAt(steps, i, addr, conns[|conns| - 1])
    ensures exists j: nat :: j < i && LastReturnedAt(steps, j, addr, q)
  {
    var k :| 0 <= k < |conns| && conns[k] == q;
    var p := conns[|conns| - 1];
    assert InOrder(steps, addr, conns[k], p);
    var j: nat, l: nat :| j < l && LastReturnedAt(steps, j, addr, q) && LastReturnedAt(steps, l, addr, p);
    OneLastReturn(steps, addr, p, i, l);
  }

  lemma LastIsTaken(s: Pool, t: Thread, addr: Addr)
    requires WellFormed(s) && Enabled(s, GetHit(t, addr))
    ensures
      var p, s' := s.Pooled(addr)[|s.Pooled(addr)| - 1], Do(s, GetHit(t, addr));
      s'.out == s.out + {p.conn} && s'.Pooled(addr) == s.Pooled(addr)[..|s.Pooled(addr)| - 1]
  {
  }

  /** Everything else among the connections was returned before step `i`, which returned the last of them. */
  ghost predicate IsLatest(steps: seq<Step>, addr: Addr, conns: seq<PooledConn>, p: PooledConn, i: nat) {
    && LastReturnedAt(steps, i, addr, p)
    && forall q :: q in conns && q != p ==> exists j: nat :: j < i && LastReturnedAt(steps, j, addr, q)
  }

  lemma LastIsLatest(steps: seq<Step>, addr: Addr, conns: seq<PooledConn>, i: nat)
    requires conns != [] && ByReturn(steps, addr, conns) && LastReturnedAt(steps, i, addr, conns[|conns| - 1])
    ensures IsLatest(steps, addr, conns, conns[|conns| - 1], i)
  {
    forall q | q in conns && q != conns[|conns| - 1]
      ensures exists j: nat :: j < i && LastReturnedAt(steps, j, addr, q)
    {
      OthersWereReturnedEarlier(steps, addr, conns, q, i);
    }
  }

  lemma LatestOf(steps: seq<Step>, s: Pool, addr: Addr, conns: seq<PooledConn>) returns (i: nat)
    requires After(steps) == Some(s) && conns == s.Pooled(addr) != []
    ensures IsLatest(steps, addr, conns, conns[|conns| - 1], i)
  {
    assert ByReturn(steps, addr, conns) by {
      EveryRunIsByReturn(steps, s, addr);
    }
    i := PooledWasReturned(steps, s, addr, conns[|conns| - 1]);
    LastIsLatest(steps, addr, conns, i);
  }

  /** A Get that finds pooled connections is handed the one that was returned last. */
  lemma GetIsHandedTheLatest(steps: seq<Step>, s: Pool, t: Thread, addr: Addr) returns (p: PooledConn, i: nat)
    requires Takes(steps, GetHit(t, addr), s)
    ensures IsLatest(steps, addr, s.Pooled(addr), p, i)
    ensures Do(s, GetHit(t, addr)).out == s.out + {p.conn}
    ensures s.Pooled(addr) == Do(s, GetHit(t, addr)).Pooled(addr) + [p]
  {
    p := s.Pooled(addr)[|s.Pooled(addr)| - 1];
    i := LatestOf(steps, s, addr, s.Pooled(addr));
    LastIsTaken(s, t, addr);
  }

  /** Two entries of one shard for one connection are the same. */
  lemma SameConnection(s: Pool, addr: Addr, p: PooledConn, a: Addr, q: PooledConn)
    requires WellFormed(s) && Placed(s) && Bounded(s) && p in s.Pooled(addr) && p.conn == q.conn
    requires a in s.shards[ShardOf(addr)] && q in s.shards[ShardOf(addr)][a]
    ensures p == q
  {
    assert IsAt(s, p.conn, InPool(addr)) && IsAt(s, p.conn, InPool(a));
    assert Distinct(s.Pooled(addr));
  }

  lemma StaleMemberIff(s: Pool, addr: Addr, p: PooledConn, now: Time)
    requires WellFormed(s) && Placed(s) && Bounded(s) && p in s.Pooled(addr)
    ensures p.conn in StaleMembers(s.shards[ShardOf(addr)], now) <==> now - p.lastUsed > 30_000_000_000
  {
    var shard := s.shards[ShardOf(addr)];
    if p.conn in StaleMembers(shard, now) {
      var a :| a in shard && p.conn in StaleConns(shard[a], now);
      var q :| q in shard[a] && Stale(q, now) && q.conn == p.conn;
      SameConnection(s, addr, p, a, q);
    }
    if Stale(p, now) {
      assert p.conn in StaleConns(shard[addr], now);
    }
  }

  lemma SweptIff(s: Pool, t: Thread, addr: Addr, p: PooledConn)
    requires Inv(s) && Enabled(s, CleanShard(t)) && s.At(t).next == ShardOf(addr) && p in s.Pooled(addr)
    ensures p.conn in Do(s, CleanShard(t)).dead <==> s.At(t).now - p.lastUsed > 30_000_000_000
    ensures p in Do(s, CleanShard(t)).Pooled(addr) <==> s.At(t).now - p.lastUsed <= 30_000_000_000
  {
    PooledAfter(s, CleanShard(t), addr);
    StaleMemberIff(s, addr, p, s.At(t).now);
    assert IsAt(s, p.conn, InPool(addr));
    assert !IsAt(s, p.conn, Dead);
  }

  /** A sweep of its shard closes a pooled connection exactly when it was returned over thirty seconds before. */
  lemma SweepClosesIff(steps: seq<Step>, s: Pool, t: Thread, addr: Addr, p: PooledConn) returns (i: nat)
    requires Takes(steps, CleanShard(t), s) && s.At(t).next == ShardOf(addr) && p in s.Pooled(addr)
    ensures LastReturnedAt(steps, i, addr, p)
    ensures p.conn in Do(s, CleanShard(t)).dead <==> s.At(t).now - steps[i].now > 30_000_000_000
    ensures p in Do(s, CleanShard(t)).Pooled(addr) <==> s.At(t).now - steps[i].now <= 30_000_000_000
  {
    i := PooledWasReturned(steps, s, addr, p);
    EveryRunIsSafe(steps);
    SweptIff(s, t, addr, p);
  }

  // ------------------------------------------------------------- what goroutines carry

  /** Since step `i` the goroutine has only locked the shard and looked at the flag. */
  ghost predicate PuttingSince(steps: seq<Step>, i: nat, t: Thread) {
    forall j :: i < j < |steps| && steps[j].t == t ==> steps[j].PutLock? || steps[j].PutCheck?
  }

  /** Since step `i` the goroutine has only swept shards. */
  ghost predicate SweepingSince(steps: seq<Step>, i: nat, t: Thread) {
    forall j :: i < j < |steps| && steps[j].t == t ==> steps[j].CleanShard?
  }

  /** A Put carries the connection and the address it was called with, and a sweep the time at which it began. */
  ghost predicate Explained(steps: seq<Step>, t: Thread, pc: Pc) {
    && (pc.Waiting? || pc.Holding? || pc.Admitted? ==>
          exists i :: 0 <= i < |steps| && steps[i] == PutStart(t, pc.addr, pc.conn) && PuttingSince(steps, i, t))
    && (pc.Cleaning? ==>
          exists i :: 0 <= i < |steps| && steps[i] == CleanStart(t, pc.now) && SweepingSince(steps, i, t))
  }

  lemma PuttingNext(steps: seq<Step>, step: Step, t: Thread, pc: Pc, i: nat)
    requires pc.Waiting? || pc.Holding? || pc.Admitted?
    requires i < |steps| && steps[i] == PutStart(t, pc.addr, pc.conn) && PuttingSince(steps, i, t)
    requires step.t == t ==> step.PutLock? || step.PutCheck?
    ensures Explained(steps + [step], t, pc)
  {
    assert (steps + [step])[i] == PutStart(t, pc.addr, pc.conn) && PuttingSince(steps + [step], i, t);
  }

  lemma SweepingNext(steps: seq<Step>, step: Step, t: Thread, pc: Pc, i: nat)
    requires pc.Cleaning? && i < |steps| && steps[i] == CleanStart(t, pc.now) && SweepingSince(steps, i, t)
    requires step.t == t ==> step.CleanShard?
    ensures Explained(steps + [step], t, pc)
  {
    assert (steps + [step])[i] == CleanStart(t, pc.now) && SweepingSince(steps + [step], i, t);
  }

  lemma StepIsExplained(steps: seq<Step>, step: Step, s: Pool, t: Thread)
    requires WellFormed(s) && Enabled(s, step) && Explained(steps, t, s.At(t))
    ensures Explained(steps + [step], t, Do(s, step).At(t))
  {
    var pc, pc' := s.At(t), Do(s, step).At(t);
    assert (steps + [step])[|steps|] == step;
    if pc'.Waiting? || pc'.Holding? || pc'.Admitted? {
      if step.t == t && step.PutStart? {
        assert PuttingSince(steps + [step], |steps|, t);
      } else {
        var i :| 0 <= i < |steps| && steps[i] == PutStart(t, pc.addr, pc.conn) && PuttingSince(steps, i, t);
        PuttingNext(steps, step, t, pc', i);
      }
    } else if pc'.Cleaning? {
      if step.t == t && step.CleanStart? {
        assert SweepingSince(steps + [step], |steps|, t);
      } else {
        var i :| 0 <= i < |steps| && steps[i] == CleanStart(t, pc.now) && SweepingSince(steps, i, t);
        SweepingNext(steps, step, t, pc', i);
      }
    }
  }

  lemma {:induction false} EveryGoroutineIsExplained(steps: seq<Step>, s: Pool, t: Thread)
    requires After(steps) == Some(s)
    ensures Explained(steps, t, s.At(t))
    decreases |steps|
  {
    if steps == [] {
    } else {
      var front, step := steps[..|steps| - 1], steps[|steps| - 1];
      var before := After(front).value;
      EveryGoroutineIsExplained(front, before, t);
      assert steps == front + [step];
      StepIsExplained(front, step, before, t);
    }
  }

  /** A Put on a pool that is closed already does not ask for the lock. */
  lemma PutLooksFirst(s: Pool, t: Thread, addr: Addr, conn: Conn)
    requires WellFormed(s) && Enabled(s, PutStart(t, addr, conn))
    ensures
      var s' := Do(s, PutStart(t, addr, conn));
      s'.out == s.out - {conn} && s'.At(t) == if s.closed then Dropping(conn) else Waiting(addr, conn)
  {
  }

  /** A Put keeps its connection exactly when the pool is not closed and holds fewer than four for the address. */
  lemma PutKeepsIff(s: Pool, t: Thread, now: Time)
    requires WellFormed(s) && s.At(t).Holding?
    ensures
      var pc, checked := s.At(t), Do(s, PutCheck(t));
      if s.closed then checked.At(t) == Dropping(pc.conn) && checked.shards == s.shards
      else
        && Enabled(checked, PutAdd(t, now))
        && var added := Do(checked, PutAdd(t, now));
        if |s.Pooled(pc.addr)| < 4 then
          added.Pooled(pc.addr) == s.Pooled(pc.addr) + [PooledConn(pc.conn, now)] && added.At(t).Idle?
        else added.At(t) == Dropping(pc.conn) && added.shards == s.shards
  {
  }
}
