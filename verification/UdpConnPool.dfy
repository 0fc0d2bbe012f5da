/**
  The UDP connection pool: the updates of a shard, and its critical sections as
  methods that make them.
 */
module UdpConnPool {
  import opened Common

  const MAX_CONNS_PER_ADDR := 4
  const MAX_IDLE_TIME := 30_000_000_000  // nanoseconds
  const SHARDS: nat := 64

  /** A connection is known by its identity. */
  type Conn = nat
  type Addr = seq<byte>
  type Time = int

  datatype PooledConn = PooledConn(conn: Conn, lastUsed: Time)

  type Shard = map<Addr, seq<PooledConn>>

  // ------------------------------------------------------------ shard choice

  function Hash(addr: Addr): nat {
    if addr == [] then 0
    else (Hash(addr[..|addr| - 1]) * 31 + addr[|addr| - 1] as nat) % 0x1_0000_0000
  }

  function ShardOf(addr: Addr): (i: nat)
    ensures i < SHARDS
  {
    Hash(addr) % SHARDS
  }

  method GetShard(addr: Addr) returns (i: nat)
    ensures i == ShardOf(addr)
  {
    var h: nat := 0;
    for n := 0 to |addr|
      invariant h == Hash(addr[..n])
    {
      assert addr[..n + 1][..n] == addr[..n];
      h := (h * 31 + addr[n] as nat) % 0x1_0000_0000;
    }
    assert addr[..|addr|] == addr;
    i := h % SHARDS;
  }

  function Power31(n: nat): nat {
    if n == 0 then 1 else 31 * Power31(n - 1)
  }

  /** The octets as the digits of a number to the base 31, without any wrap-around. */
  function Number31(addr: Addr): nat {
    if addr == [] then 0 else addr[0] as nat * Power31(|addr| - 1) + Number31(addr[1..])
  }

  lemma {:induction false} Number31Append(addr: Addr, b: byte)
    ensures Number31(addr + [b]) == 31 * Number31(addr) + b as nat
  {
    if addr == [] {
    } else {
      assert (addr + [b])[1..] == addr[1..] + [b];
      Number31Append(addr[1..], b);
    }
  }

  lemma NextDigit(a: nat, h: nat, k: nat, b: nat)
    requires a == h + 0x1_0000_0000 * k
    ensures exists k': nat :: 31 * a + b == (h * 31 + b) % 0x1_0000_0000 + 0x1_0000_0000 * k'
  {
    var k' := 31 * k + (h * 31 + b) / 0x1_0000_0000;
    assert 31 * a + b == (h * 31 + b) % 0x1_0000_0000 + 0x1_0000_0000 * k';
  }

  lemma {:induction false} HashIsNumber31(addr: Addr) returns (k: nat)
    ensures Number31(addr) == Hash(addr) + 0x1_0000_0000 * k
  {
    if addr == [] {
      k := 0;
    } else {
      var front, b := addr[..|addr| - 1], addr[|addr| - 1];
      k := HashIsNumber31(front);
      Number31Append(front, b);
      assert addr == front + [b];
      NextDigit(Number31(front), Hash(front), k, b as nat);
      k :| Number31(addr) == Hash(addr) + 0x1_0000_0000 * k;
    }
  }

  lemma SameRemainder(a: nat, h: nat, m: nat)
    requires a == h + 64 * m
    ensures a % 64 == h % 64
  {
    assert a == 64 * (h / 64 + m) + h % 64;
  }

  /** The shard is that of the whole number: the hash wraps around, but 64 divides what is lost. */
  lemma WrapAroundDoesNotShow(addr: Addr)
    ensures ShardOf(addr) == Number31(addr) % 64
  {
    var k := HashIsNumber31(addr);
    SameRemainder(Number31(addr), Hash(addr), 0x400_0000 * k);
  }

  // ------------------------------------------------- contents of one shard

  function Conns(shard: Shard, addr: Addr): seq<PooledConn> {
    if addr in shard then shard[addr] else []
  }

  predicate Stale(pc: PooledConn, now: Time) {
    now - pc.lastUsed > MAX_IDLE_TIME
  }

  /** The connections still in use, in their order. */
  function Active(conns: seq<PooledConn>, now: Time): (r: seq<PooledConn>)
    ensures forall p :: p in r <==> p in conns && !Stale(p, now)
  {
    if conns == [] then []
    else
      var front := Active(conns[..|conns| - 1], now);
      var last := conns[|conns| - 1];
      assert conns == conns[..|conns| - 1] + [last];
      if Stale(last, now) then front else front + [last]
  }

  /** A shard without its stale connections; addresses left with none disappear. */
  function WithoutStale(shard: Shard, now: Time): (r: Shard) {
    map addr | addr in shard && Active(shard[addr], now) != [] :: Active(shard[addr], now)
  }

  /** The connections held in a shard. */
  function Members(shard: Shard): set<Conn> {
    set addr, p | addr in shard && p in shard[addr] :: p.conn
  }

  function StaleConns(conns: seq<PooledConn>, now: Time): set<Conn> {
    set p | p in conns && Stale(p, now) :: p.conn
  }

  function StaleMembers(shard: Shard, now: Time): set<Conn> {
    set addr, c | addr in shard && c in StaleConns(shard[addr], now) :: c
  }

  /** The connections of one address have different identities. */
  ghost predicate Distinct(conns: seq<PooledConn>) {
    forall i, j :: 0 <= i < j < |conns| ==> conns[i].conn != conns[j].conn
  }

  ghost predicate Holds(conns: seq<PooledConn>, c: Conn) {
    exists p :: p in conns && p.conn == c
  }

  /** Taking off, or putting back, the last connection of an address. */
  lemma HoldsLast(conns: seq<PooledConn>, last: PooledConn, c: Conn)
    ensures Holds(conns + [last], c) <==> Holds(conns, c) || c == last.conn
    ensures Distinct(conns + [last]) <==> Distinct(conns) && !Holds(conns, last.conn)
  {
    var all := conns + [last];
    assert last in all;
    assert forall p :: p in conns ==> p in all;
    assert forall i :: 0 <= i < |conns| ==> conns[i] in conns;
    if Distinct(all) {
      forall i, j | 0 <= i < j < |conns|
        ensures conns[i].conn != conns[j].conn
      {
        assert all[i] == conns[i] && all[j] == conns[j];
      }
      forall p | p in conns
        ensures p.conn != last.conn
      {
        var k :| 0 <= k < |conns| && conns[k] == p;
        assert all[k].conn != all[|conns|].conn;
      }
    }
  }

  lemma {:induction false} ActiveKeepsDistinct(conns: seq<PooledConn>, now: Time)
    requires Distinct(conns)
    ensures Distinct(Active(conns, now)) && |Active(conns, now)| <= |conns|
  {
    if conns == [] {
    } else {
      var front := conns[..|conns| - 1];
      ActiveKeepsDistinct(front, now);
      forall p | p in Active(front, now)
        ensures p.conn != conns[|conns| - 1].conn
      {
        var k :| 0 <= k < |front| && front[k] == p;
      }
    }
  }

  lemma OneMore(conns: seq<PooledConn>, p: PooledConn, now: Time)
    ensures Active(conns + [p], now) == if Stale(p, now) then Active(conns, now) else Active(conns, now) + [p]
    ensures StaleConns(conns + [p], now) == StaleConns(conns, now) + if Stale(p, now) then {p.conn} else {}
  {
  }

  /** The inner loop of cleanupStale. */
  method SplitStale(conns: seq<PooledConn>, now: Time) returns (active: seq<PooledConn>, dropped: set<Conn>)
    ensures active == Active(conns, now)
    ensures dropped == StaleConns(conns, now)
  {
    active, dropped := [], {};
    for n := 0 to |conns|
      invariant active == Active(conns[..n], now)
      invariant dropped == StaleConns(conns[..n], now)
    {
      assert conns[..n + 1] == conns[..n] + [conns[n]];
      OneMore(conns[..n], conns[n], now);
      if Stale(conns[n], now) {
        dropped := dropped + {conns[n].conn};
      } else {
        active := active + [conns[n]];
      }
    }
    assert conns[..|conns|] == conns;
  }

  /** A shard of which the addresses in `todo` have not been cleaned yet. */
  ghost function PartlyCleaned(shard: Shard, todo: set<Addr>, now: Time): Shard {
    map addr | addr in shard && (addr in todo || Active(shard[addr], now) != []) ::
      if addr in todo then shard[addr] else Active(shard[addr], now)
  }

  lemma CleanedStep(shard: Shard, todo: set<Addr>, addr: Addr, now: Time)
    requires addr in todo && todo <= shard.Keys
    ensures var active := Active(shard[addr], now);
            PartlyCleaned(shard, todo - {addr}, now) ==
            if active == [] then PartlyCleaned(shard, todo, now) - {addr}
            else PartlyCleaned(shard, todo, now)[addr := active]
  {
  }

  lemma DroppedStep(shard: Shard, todo: set<Addr>, addr: Addr, now: Time)
    requires addr in todo && todo <= shard.Keys
    ensures StaleMembers(shard - (todo - {addr}), now) ==
            StaleMembers(shard - todo, now) + StaleConns(shard[addr], now)
  {
    var before, after := shard - todo, shard - (todo - {addr});
    assert after == before[addr := shard[addr]];
    forall c | c in StaleMembers(after, now)
      ensures c in StaleMembers(before, now) + StaleConns(shard[addr], now)
    {
      var a :| a in after && c in StaleConns(after[a], now);
      assert a != addr ==> a in before && before[a] == after[a];
    }
    forall c | c in StaleMembers(before, now) + StaleConns(shard[addr], now)
      ensures c in StaleMembers(after, now)
    {
      if c in StaleConns(shard[addr], now) {
        assert c in StaleConns(after[addr], now);
      } else {
        var a :| a in before && c in StaleConns(before[a], now);
        assert a in after && c in StaleConns(after[a], now);
      }
    }
  }

  /** A shard once the last connection of an address has been taken. */
  function Taken(shard: Shard, addr: Addr): Shard
    requires Conns(shard, addr) != []
  {
    shard[addr := Conns(shard, addr)[..|Conns(shard, addr)| - 1]]
  }

  /** A shard with one more connection for an address. */
  function Extended(shard: Shard, addr: Addr, conn: Conn, now: Time): Shard {
    shard[addr := Conns(shard, addr) + [PooledConn(conn, now)]]
  }

  /** The critical sections, run while the shard's mutex is held. */
  class PoolShard {
    var conns: Shard

    /** The locked part of Get: the most recently returned connection leaves the pool. */
    method TakeLast(addr: Addr) returns (r: Option<Conn>)
      modifies this
      ensures var was := Conns(old(conns), addr);
              if was == [] then r == None && conns == old(conns)
              else r == Some(was[|was| - 1].conn) && conns == Taken(old(conns), addr)
    {
      var cs := if addr in conns then conns[addr] else [];
      if |cs| > 0 {
        r := Some(cs[|cs| - 1].conn);
        conns := conns[addr := cs[..|cs| - 1]];
      } else {
        r := None;
      }
    }

    /** The locked part of Put; a connection that is not kept is closed by the caller. */
    method Add(addr: Addr, conn: Conn, closed: bool, now: Time) returns (kept: bool)
      modifies this
      ensures kept <==> !closed && |Conns(old(conns), addr)| < MAX_CONNS_PER_ADDR
      ensures conns == if kept then Extended(old(conns), addr, conn, now) else old(conns)
    {
      if closed {
        return false;
      }
      var cs := if addr in conns then conns[addr] else [];
      if |cs| >= MAX_CONNS_PER_ADDR {
        return false;
      }
      conns := conns[addr := cs + [PooledConn(conn, now)]];
      return true;
    }

    /** One shard of cleanupStale. */
    method DropStale(now: Time) returns (dropped: set<Conn>)
      modifies this
      ensures conns == WithoutStale(old(conns), now)
      ensures dropped == StaleMembers(old(conns), now)
    {
      dropped := {};
      var todo := conns.Keys;
      ghost var was := conns;
      while todo != {}
        invariant todo <= was.Keys
        invariant conns == PartlyCleaned(was, todo, now)
        invariant dropped == StaleMembers(was - todo, now)
        decreases |todo|
      {
        var addr :| addr in todo;
        var active, stale := SplitStale(conns[addr], now);
        CleanedStep(was, todo, addr, now);
        DroppedStep(was, todo, addr, now);
        dropped := dropped + stale;
        if |active| == 0 {
          conns := conns - {addr};
        } else {
          conns := conns[addr := active];
        }
        todo := todo - {addr};
      }
      assert was - {} == was;
    }

    /** One shard of Close. */
    method DropAll() returns (dropped: set<Conn>)
      modifies this
      ensures conns == map[]
      ensures dropped == Members(old(conns))
    {
      dropped := {};
      ghost var was := conns;
      while conns.Keys != {}
        invariant conns.Keys <= was.Keys && forall a :: a in conns ==> conns[a] == was[a]
        invariant dropped == set a, p | a in was && a !in conns && p in was[a] :: p.conn
        decreases |conns.Keys|
      {
        var addr :| addr in conns.Keys;
        var cs := conns[addr];
        ghost var before := dropped;
        for n := 0 to |cs|
          invariant dropped == before + set p | p in cs[..n] :: p.conn
        {
          assert cs[..n + 1] == cs[..n] + [cs[n]];
          dropped := dropped + {cs[n].conn};
        }
        assert cs[..|cs|] == cs;
        conns := conns - {addr};
      }
    }
  }
}
