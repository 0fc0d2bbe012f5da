/**
  Interleavings of Get, Put, Discard, cleanupStale and Close on one pool. A step
  is an action no other goroutine can be seen in the middle of: a critical
  section, or a single load or store of the closed flag.
 */
module UdpConnPoolRuns {
  import opened Common
  import opened UdpConnPool

  type Thread = nat

  /** What a goroutine is about to do. */
  datatype Pc =
    | Idle
    | Dialing(addr: Addr)                 // Get found no pooled connection
    | Waiting(addr: Addr, conn: Conn)     // Put saw the pool open and wants the shard's mutex
    | Holding(addr: Addr, conn: Conn)     // Put holds the mutex
    | Admitted(addr: Addr, conn: Conn)    // Put holds the mutex and saw the pool open again
    | Dropping(conn: Conn)                // Put is about to close the connection
    | Cleaning(now: Time, next: nat)      // cleanupStale is about to lock shard `next`
    | Closing(next: nat)                  // Close has set the flag and is about to lock shard `next`
  {
    predicate Carries(c: Conn) {
      (Waiting? || Holding? || Admitted? || Dropping?) && conn == c
    }

    predicate Locks(i: nat) {
      (Holding? || Admitted?) && ShardOf(addr) == i
    }
  }

  datatype Pool = Pool(
    shards: seq<Shard>,
    owner: seq<Option<Thread>>,  // who holds each shard's mutex between two steps
    closed: bool,
    pcs: map<Thread, Pc>,
    out: set<Conn>,              // handed to callers of Get
    dead: set<Conn>,             // closed
    dialled: set<Conn>,          // every connection ever dialled
    swept: set<nat>,             // shards emptied by a Close
    closeReturned: bool)
  {
    function At(t: Thread): Pc {
      if t in pcs then pcs[t] else Idle
    }

    function Free(i: nat): bool
      requires i < |owner|
    {
      owner[i] == None
    }

    function Pooled(addr: Addr): seq<PooledConn>
      requires |shards| == SHARDS
    {
      Conns(shards[ShardOf(addr)], addr)
    }
  }

  datatype Step =
    | GetHit(t: Thread, addr: Addr)
    | GetMiss(t: Thread, addr: Addr)
    | DialOk(t: Thread, conn: Conn)
    | DialFail(t: Thread)
    | PutStart(t: Thread, addr: Addr, conn: Conn)
    | PutLock(t: Thread)
    | PutCheck(t: Thread)
    | PutAdd(t: Thread, now: Time)
    | PutDrop(t: Thread)
    | Discard(t: Thread, conn: Conn)
    | CleanStart(t: Thread, now: Time)
    | CleanShard(t: Thread)
    | CleanEnd(t: Thread)
    | CloseStart(t: Thread)
    | CloseShard(t: Thread)
    | CloseEnd(t: Thread)

  predicate WellFormed(s: Pool) {
    |s.shards| == SHARDS && |s.owner| == SHARDS
  }

  function Init(): Pool {
    Pool(seq(SHARDS, _ => map[]), seq(SHARDS, _ => None), false, map[], {}, {}, {}, {}, false)
  }

  /** Callers only return or discard connections that were handed to them. */
  predicate Enabled(s: Pool, step: Step)
    requires WellFormed(s)
  {
    match step
    case GetHit(t, addr) => s.At(t).Idle? && s.Free(ShardOf(addr)) && s.Pooled(addr) != []
    case GetMiss(t, addr) => s.At(t).Idle? && s.Free(ShardOf(addr)) && s.Pooled(addr) == []
    case DialOk(t, conn) => s.At(t).Dialing? && conn !in s.dialled
    case DialFail(t) => s.At(t).Dialing?
    case PutStart(t, addr, conn) => s.At(t).Idle? && conn in s.out
    case PutLock(t) => s.At(t).Waiting? && s.Free(ShardOf(s.At(t).addr))
    case PutCheck(t) => s.At(t).Holding?
    case PutAdd(t, now) => s.At(t).Admitted?
    case PutDrop(t) => s.At(t).Dropping?
    case Discard(t, conn) => s.At(t).Idle? && conn in s.out
    case CleanStart(t, now) => s.At(t).Idle?
    case CleanShard(t) => s.At(t).Cleaning? && s.At(t).next < SHARDS && s.Free(s.At(t).next)
    case CleanEnd(t) => s.At(t).Cleaning? && s.At(t).next == SHARDS
    case CloseStart(t) => s.At(t).Idle?
    case CloseShard(t) => s.At(t).Closing? && s.At(t).next < SHARDS && s.Free(s.At(t).next)
    case CloseEnd(t) => s.At(t).Closing? && s.At(t).next == SHARDS
  }

  function Do(s: Pool, step: Step): (s': Pool)
    requires WellFormed(s) && Enabled(s, step)
    ensures WellFormed(s')
    ensures forall u :: u != step.t ==> s'.At(u) == s.At(u)
  {
    match step
    case GetHit(t, addr) =>
      var i, conns := ShardOf(addr), s.Pooled(addr);
      s.(shards := s.shards[i := Taken(s.shards[i], addr)],
         out := s.out + {conns[|conns| - 1].conn})
    case GetMiss(t, addr) => s.(pcs := s.pcs[t := Dialing(addr)])
    case DialOk(t, conn) =>
      s.(pcs := s.pcs[t := Idle], out := s.out + {conn}, dialled := s.dialled + {conn})
    case DialFail(t) => s.(pcs := s.pcs[t := Idle])
    case PutStart(t, addr, conn) =>
      s.(pcs := s.pcs[t := if s.closed then Dropping(conn) else Waiting(addr, conn)], out := s.out - {conn})
    case PutLock(t) =>
      var pc := s.At(t);
      s.(pcs := s.pcs[t := Holding(pc.addr, pc.conn)], owner := s.owner[ShardOf(pc.addr) := Some(t)])
    case PutCheck(t) =>
      var pc := s.At(t);
      if s.closed then s.(pcs := s.pcs[t := Dropping(pc.conn)], owner := s.owner[ShardOf(pc.addr) := None])
      else s.(pcs := s.pcs[t := Admitted(pc.addr, pc.conn)])
    case PutAdd(t, now) =>
      var pc := s.At(t);
      var i, conns := ShardOf(pc.addr), s.Pooled(pc.addr);
      var unlocked := s.(owner := s.owner[i := None]);
      if |conns| >= MAX_CONNS_PER_ADDR then unlocked.(pcs := s.pcs[t := Dropping(pc.conn)])
      else unlocked.(pcs := s.pcs[t := Idle],
                     shards := s.shards[i := Extended(s.shards[i], pc.addr, pc.conn, now)])
    case PutDrop(t) => s.(pcs := s.pcs[t := Idle], dead := s.dead + {s.At(t).conn})
    case Discard(t, conn) => s.(out := s.out - {conn}, dead := s.dead + {conn})
    case CleanStart(t, now) => s.(pcs := s.pcs[t := Cleaning(now, 0)])
    case CleanShard(t) =>
      var now, i := s.At(t).now, s.At(t).next;
      s.(pcs := s.pcs[t := Cleaning(now, i + 1)],
         shards := s.shards[i := WithoutStale(s.shards[i], now)],
         dead := s.dead + StaleMembers(s.shards[i], now))
    case CleanEnd(t) => s.(pcs := s.pcs[t := Idle])
    case CloseStart(t) => s.(pcs := s.pcs[t := Closing(0)], closed := true)
    case CloseShard(t) =>
      var i := s.At(t).next;
      s.(pcs := s.pcs[t := Closing(i + 1)],
         shards := s.shards[i := map[]],
         dead := s.dead + Members(s.shards[i]),
         swept := s.swept + {i})
    case CloseEnd(t) => s.(pcs := s.pcs[t := Idle], closeReturned := true)
  }

  // -------------------------------------------------------------- invariant

  /** Where a connection can be. */
  datatype Place = Out | Dead | With(t: Thread) | InPool(addr: Addr)

  ghost predicate IsAt(s: Pool, c: Conn, place: Place)
    requires WellFormed(s)
  {
    match place
    case Out => c in s.out
    case Dead => c in s.dead
    case With(t) => s.At(t).Carries(c)
    case InPool(addr) => Holds(s.Pooled(addr), c)
  }

  /** Every connection ever dialled is in exactly one place, and at most once in the pool. */
  ghost predicate Placed(s: Pool)
    requires WellFormed(s)
  {
    && (forall c :: c in s.dialled <==> exists place :: IsAt(s, c, place))
    && (forall c, p, q :: IsAt(s, c, p) && IsAt(s, c, q) ==> p == q)
    && (forall addr :: Distinct(s.Pooled(addr)))
  }

  ghost predicate Bounded(s: Pool)
    requires WellFormed(s)
  {
    && (forall addr :: |s.Pooled(addr)| <= MAX_CONNS_PER_ADDR)
    && (forall i, addr :: 0 <= i < SHARDS && addr in s.shards[i] ==> ShardOf(addr) == i)
  }

  ghost predicate Locked(s: Pool)
    requires WellFormed(s)
  {
    forall t: Thread, i: nat :: i < SHARDS ==> (s.At(t).Locks(i) <==> s.owner[i] == Some(t))
  }

  /** A shard emptied by Close stays empty: nobody is past the second look at the flag for it. */
  ghost predicate Sealed(s: Pool)
    requires WellFormed(s)
  {
    && (forall i :: i in s.swept ==> i < SHARDS && s.closed && s.shards[i] == map[])
    && (forall i, t :: i in s.swept && s.At(t).Admitted? ==> ShardOf(s.At(t).addr) != i)
    && (forall t, i :: s.At(t).Closing? && 0 <= i < s.At(t).next ==> i in s.swept)
    && (forall t :: s.At(t).Closing? ==> s.closed)
    && (s.closeReturned ==> forall i :: 0 <= i < SHARDS ==> i in s.swept)
  }

  ghost predicate Inv(s: Pool) {
    WellFormed(s) && Placed(s) && Bounded(s) && Locked(s) && Sealed(s)
  }

  lemma StepKeepsBounded(s: Pool, step: Step)
    requires Inv(s) && Enabled(s, step)
    ensures Bounded(Do(s, step))
  {
    var s' := Do(s, step);
    forall addr
      ensures |s'.Pooled(addr)| <= MAX_CONNS_PER_ADDR
    {
      assert |s.Pooled(addr)| <= MAX_CONNS_PER_ADDR;
      if step.CleanShard? && ShardOf(addr) == s.At(step.t).next {
        ActiveKeepsDistinct(s.Pooled(addr), s.At(step.t).now);
      }
    }
  }

  lemma StepKeepsLocked(s: Pool, step: Step)
    requires Inv(s) && Enabled(s, step)
    ensures Locked(Do(s, step))
  {
    var s' := Do(s, step);
    forall u: Thread, i: nat | i < SHARDS
      ensures s'.At(u).Locks(i) <==> s'.owner[i] == Some(u)
    {
      assert s.At(u).Locks(i) <==> s.owner[i] == Some(u);
      assert s.At(step.t).Locks(i) <==> s.owner[i] == Some(step.t);
    }
  }

  /** The mutex keeps a Put that was let in from outliving the sweep of its shard. */
  lemma NobodyIsLetIn(s: Pool, step: Step, u: Thread)
    requires Inv(s) && Enabled(s, step) && Do(s, step).At(u).Admitted?
    ensures ShardOf(Do(s, step).At(u).addr) !in Do(s, step).swept
  {
  }

  lemma StepKeepsSealed(s: Pool, step: Step)
    requires Inv(s) && Enabled(s, step)
    ensures Sealed(Do(s, step))
  {
    var s' := Do(s, step);
    forall i, u | i in s'.swept && s'.At(u).Admitted?
      ensures ShardOf(s'.At(u).addr) != i
    {
      NobodyIsLetIn(s, step, u);
    }
    forall i | i in s'.swept
      ensures i < SHARDS && s'.closed && s'.shards[i] == map[]
    {
      SweptStaysEmpty(s, step, i);
    }
  }

  lemma SweptStaysEmpty(s: Pool, step: Step, i: nat)
    requires Inv(s) && Enabled(s, step) && i in Do(s, step).swept
    ensures i < SHARDS && Do(s, step).closed && Do(s, step).shards[i] == map[]
  {
  }

  /** Between `s` and `s'` the connections in `moved` go to `dest` and all others stay where they are. */
  ghost predicate Moves(s: Pool, s': Pool, moved: set<Conn>, dest: Place)
    requires WellFormed(s) && WellFormed(s')
  {
    && s'.dialled == s.dialled + moved
    && (forall c, place :: IsAt(s', c, place) <==> if c in moved then place == dest else IsAt(s, c, place))
    && (forall addr :: Distinct(s'.Pooled(addr)))
  }

  lemma MovesKeepPlaced(s: Pool, s': Pool, moved: set<Conn>, dest: Place)
    requires WellFormed(s) && WellFormed(s') && Placed(s) && Moves(s, s', moved, dest)
    ensures Placed(s')
  {
    forall c
      ensures c in s'.dialled <==> exists place :: IsAt(s', c, place)
    {
      if c in moved {
        assert IsAt(s', c, dest);
      } else if c in s.dialled {
        var place :| IsAt(s, c, place);
        assert IsAt(s', c, place);
      }
    }
  }

  lemma GetHitMoves(s: Pool, t: Thread, addr: Addr)
    requires Inv(s) && Enabled(s, GetHit(t, addr))
    ensures var conns := s.Pooled(addr);
            Moves(s, Do(s, GetHit(t, addr)), {conns[|conns| - 1].conn}, Out)
  {
    var s', conns := Do(s, GetHit(t, addr)), s.Pooled(addr);
    var rest, last := conns[..|conns| - 1], conns[|conns| - 1];
    assert conns == rest + [last];
    assert forall a :: s'.Pooled(a) == if a == addr then rest else s.Pooled(a);
    HoldsLast(rest, last, last.conn);
    assert IsAt(s, last.conn, InPool(addr));
    forall c, place
      ensures IsAt(s', c, place) <==> if c == last.conn then place == Out else IsAt(s, c, place)
    {
      assert IsAt(s, c, place) && c == last.conn ==> place == InPool(addr);
      HoldsLast(rest, last, c);
    }
  }

  lemma PutAddMoves(s: Pool, t: Thread, now: Time)
    requires Inv(s) && Enabled(s, PutAdd(t, now)) && |s.Pooled(s.At(t).addr)| < MAX_CONNS_PER_ADDR
    ensures Moves(s, Do(s, PutAdd(t, now)), {s.At(t).conn}, InPool(s.At(t).addr))
  {
    var s', pc := Do(s, PutAdd(t, now)), s.At(t);
    var conns, last := s.Pooled(pc.addr), PooledConn(pc.conn, now);
    assert forall a :: s'.Pooled(a) == if a == pc.addr then conns + [last] else s.Pooled(a);
    assert IsAt(s, pc.conn, With(t));
    assert !IsAt(s, pc.conn, InPool(pc.addr));
    HoldsLast(conns, last, pc.conn);
    forall c, place
      ensures IsAt(s', c, place) <==> if c == pc.conn then place == InPool(pc.addr) else IsAt(s, c, place)
    {
      assert IsAt(s, c, place) && c == pc.conn ==> place == With(t);
      HoldsLast(conns, last, c);
    }
  }

  lemma CleanShardMoves(s: Pool, t: Thread)
    requires Inv(s) && Enabled(s, CleanShard(t))
    ensures Moves(s, Do(s, CleanShard(t)), StaleMembers(s.shards[s.At(t).next], s.At(t).now), Dead)
  {
    var s', now, i := Do(s, CleanShard(t)), s.At(t).now, s.At(t).next;
    var moved := StaleMembers(s.shards[i], now);
    assert forall a :: s'.Pooled(a) == if ShardOf(a) == i then Active(s.Pooled(a), now) else s.Pooled(a);
    forall a
      ensures Distinct(s'.Pooled(a))
    {
      ActiveKeepsDistinct(s.Pooled(a), now);
    }
    forall c | c in moved
      ensures c in s.dialled
    {
      var a, p :| a in s.shards[i] && p in s.shards[i][a] && p.conn == c;
      assert IsAt(s, c, InPool(a));
    }
    forall c, place
      ensures IsAt(s', c, place) <==> if c in moved then place == Dead else IsAt(s, c, place)
    {
      if c in moved {
        var a, p :| a in s.shards[i] && p in s.shards[i][a] && Stale(p, now) && p.conn == c;
        assert IsAt(s, c, InPool(a));
        assert IsAt(s, c, place) ==> place == InPool(a);
        StaleIsGone(s.Pooled(a), p, now);
      } else if place.InPool? {
        KeptStays(s.Pooled(place.addr), now, c);
      }
    }
  }

  lemma StaleIsGone(conns: seq<PooledConn>, p: PooledConn, now: Time)
    requires Distinct(conns) && p in conns && Stale(p, now)
    ensures !Holds(Active(conns, now), p.conn)
  {
  }

  lemma KeptStays(conns: seq<PooledConn>, now: Time, c: Conn)
    ensures Holds(Active(conns, now), c) ==> Holds(conns, c)
    ensures Holds(conns, c) && c !in StaleConns(conns, now) ==> Holds(Active(conns, now), c)
  {
  }

  lemma CloseShardMoves(s: Pool, t: Thread)
    requires Inv(s) && Enabled(s, CloseShard(t))
    ensures Moves(s, Do(s, CloseShard(t)), Members(s.shards[s.At(t).next]), Dead)
  {
    var s', i := Do(s, CloseShard(t)), s.At(t).next;
    var moved := Members(s.shards[i]);
    assert forall a :: s'.Pooled(a) == if ShardOf(a) == i then [] else s.Pooled(a);
    forall c | c in moved
      ensures c in s.dialled
    {
      var a, p :| a in s.shards[i] && p in s.shards[i][a] && p.conn == c;
      assert IsAt(s, c, InPool(a));
    }
    forall c, place
      ensures IsAt(s', c, place) <==> if c in moved then place == Dead else IsAt(s, c, place)
    {
      if c in moved {
        var a, p :| a in s.shards[i] && p in s.shards[i][a] && p.conn == c;
        assert IsAt(s, c, InPool(a));
        assert IsAt(s, c, place) ==> place == InPool(a);
      } else if place.InPool? && ShardOf(place.addr) == i {
        assert forall p :: p in s.Pooled(place.addr) ==> p.conn in moved;
      }
    }
  }

  lemma CarryMoves(s: Pool, step: Step, c: Conn, dest: Place)
    requires Inv(s) && Enabled(s, step)
    requires || (step.DialOk? && c == step.conn && dest == Out)
             || (step.PutStart? && c == step.conn && dest == With(step.t))
             || (step.PutDrop? && c == s.At(step.t).conn && dest == Dead)
             || (step.Discard? && c == step.conn && dest == Dead)
    ensures Moves(s, Do(s, step), {c}, dest)
  {
    var s' := Do(s, step);
    assert forall a :: s'.Pooled(a) == s.Pooled(a);
    assert step.PutStart? || step.Discard? ==> IsAt(s, c, Out);
    assert step.PutDrop? ==> IsAt(s, c, With(step.t));
    forall d, place
      ensures IsAt(s', d, place) <==> if d == c then place == dest else IsAt(s, d, place)
    {
      assert IsAt(s, d, place) ==> d in s.dialled;
      assert IsAt(s, d, place) && d == c && !step.DialOk? ==> place == if step.PutDrop? then With(step.t) else Out;
    }
  }

  lemma StayPut(s: Pool, step: Step)
    requires Inv(s) && Enabled(s, step)
    requires || step.GetMiss? || step.DialFail? || step.PutLock? || step.PutCheck? || step.CleanStart? || step.CleanEnd?
             || step.CloseStart? || step.CloseEnd?
             || (step.PutAdd? && |s.Pooled(s.At(step.t).addr)| >= MAX_CONNS_PER_ADDR)
    ensures Moves(s, Do(s, step), {}, Dead)
  {
    var s' := Do(s, step);
    assert forall a :: s'.Pooled(a) == s.Pooled(a);
    assert forall u, c :: s'.At(u).Carries(c) <==> s.At(u).Carries(c);
  }

  lemma StepKeepsPlaced(s: Pool, step: Step)
    requires Inv(s) && Enabled(s, step)
    ensures Placed(Do(s, step))
  {
    var s', t := Do(s, step), step.t;
    match step
    case GetHit(_, addr) =>
      GetHitMoves(s, t, addr);
      MovesKeepPlaced(s, s', {s.Pooled(addr)[|s.Pooled(addr)| - 1].conn}, Out);
    case DialOk(_, conn) =>
      CarryMoves(s, step, conn, Out);
      MovesKeepPlaced(s, s', {conn}, Out);
    case PutStart(_, _, conn) =>
      CarryMoves(s, step, conn, With(t));
      MovesKeepPlaced(s, s', {conn}, With(t));
    case PutDrop(_) =>
      CarryMoves(s, step, s.At(t).conn, Dead);
      MovesKeepPlaced(s, s', {s.At(t).conn}, Dead);
    case Discard(_, conn) =>
      CarryMoves(s, step, conn, Dead);
      MovesKeepPlaced(s, s', {conn}, Dead);
    case CleanShard(_) =>
      CleanShardMoves(s, t);
      MovesKeepPlaced(s, s', StaleMembers(s.shards[s.At(t).next], s.At(t).now), Dead);
    case CloseShard(_) =>
      CloseShardMoves(s, t);
      MovesKeepPlaced(s, s', Members(s.shards[s.At(t).next]), Dead);
    case PutAdd(_, now) =>
      if |s.Pooled(s.At(t).addr)| < MAX_CONNS_PER_ADDR {
        PutAddMoves(s, t, now);
        MovesKeepPlaced(s, s', {s.At(t).conn}, InPool(s.At(t).addr));
      } else {
        StayPut(s, step);
        MovesKeepPlaced(s, s', {}, Dead);
      }
    case _ =>
      StayPut(s, step);
      MovesKeepPlaced(s, s', {}, Dead);
  }

  // ------------------------------------------------------------------- runs

  /** The pool after taking `steps`, in order, from the new pool. */
  function After(steps: seq<Step>): (r: Option<Pool>)
    ensures r.Some? ==> WellFormed(r.value)
    decreases |steps|
  {
    if steps == [] then Some(Init())
    else
      var before, step := After(steps[..|steps| - 1]), steps[|steps| - 1];
      if before.Some? && Enabled(before.value, step) then Some(Do(before.value, step)) else None
  }

  /** What holds of the pool after every interleaving. */
  lemma {:induction false} EveryRunIsSafe(steps: seq<Step>)
    requires After(steps).Some?
    ensures Inv(After(steps).value)
    decreases |steps|
  {
    if steps == [] {
      assert forall c, place :: !IsAt(Init(), c, place);
    } else {
      var r, step := After(steps[..|steps| - 1]).value, steps[|steps| - 1];
      EveryRunIsSafe(steps[..|steps| - 1]);
      StepKeepsPlaced(r, step);
      StepKeepsBounded(r, step);
      StepKeepsLocked(r, step);
      StepKeepsSealed(r, step);
    }
  }

  /** Each dialled connection is pooled once, held by someone, or closed: exactly one of the three. */
  lemma ConnectionsAreConserved(steps: seq<Step>, s: Pool, c: Conn)
    requires After(steps) == Some(s) && c in s.dialled
    ensures WellFormed(s)
    ensures exists place :: IsAt(s, c, place) && forall other :: IsAt(s, c, other) ==> other == place
    ensures forall addr :: |s.Pooled(addr)| <= 4 && Distinct(s.Pooled(addr))
  {
    EveryRunIsSafe(steps);
    var place :| IsAt(s, c, place);
  }

  /** After a Close has returned the pool is empty, whatever Puts overlapped it or came later. */
  lemma ClosedPoolIsEmpty(steps: seq<Step>, s: Pool)
    requires After(steps) == Some(s) && s.closeReturned
    ensures WellFormed(s) && forall i :: 0 <= i < SHARDS ==> s.shards[i] == map[]
  {
    EveryRunIsSafe(steps);
  }
}
