/**
  The TCP part of the local SOCKS router: packets of selected processes are
  turned round to a local proxy, and the proxy's replies are turned back.
 */
module SocksRouter {
  import opened Common

  type IP = seq<byte>
  type Port = nat
  type Mac = seq<byte>

  datatype Endpoint = Endpoint(ip: IP, port: Port)

  datatype Flags = Flags(syn: bool, ack: bool, rst: bool, fin: bool)

  datatype Packet = Packet(srcMac: Mac, dstMac: Mac, src: Endpoint, dst: Endpoint, flags: Flags)

  datatype Mapping = Mapping(dstIP: IP, dstPort: Port, proxyPort: Port)

  /** Connections are keyed by the remote address and the client's own port. */
  type Connections = map<Endpoint, Mapping>

  function ClientKey(p: Packet): Endpoint {
    Endpoint(p.dst.ip, p.src.port)
  }

  function ReplyKey(p: Packet): Endpoint {
    Endpoint(p.dst.ip, p.dst.port)
  }

  predicate Opens(p: Packet) {
    p.flags.syn && !p.flags.ack
  }

  predicate Ends(p: Packet) {
    p.flags.rst || p.flags.fin
  }

  datatype Verdict = Pass | Redirect

  /** Ethernet and IP addresses change places; the ports are given. */
  function TurnRound(p: Packet, srcPort: Port, dstPort: Port): Packet {
    Packet(p.dstMac, p.srcMac, Endpoint(p.dst.ip, srcPort), Endpoint(p.src.ip, dstPort), p.flags)
  }

  /** The packet the other side sends back: everything reversed. */
  function Reply(p: Packet, flags: Flags): Packet {
    Packet(p.dstMac, p.srcMac, p.dst, p.src, flags)
  }

  class Router {
    var connections: Connections
    const proxyPorts: set<Port>
    ghost var history: seq<Event>  // the packets handled so far

    ghost predicate Valid()
      reads this
    {
      connections == Run(map[], proxyPorts, history)
    }

    constructor (proxyPorts: set<Port>)
      ensures Valid() && history == [] && this.proxyPorts == proxyPorts
    {
      connections, history := map[], [];
      this.proxyPorts := proxyPorts;
    }

    /** The callback for one outgoing TCP packet; `proxyFor` is the port for the sending process, 0 if it has none. */
    method Handle(p: Packet, proxyFor: Port) returns (verdict: Verdict, q: Packet)
      requires Valid()
      modifies this
      ensures Valid() && history == old(history) + [Event(p, proxyFor)]
      ensures connections == After(old(connections), proxyPorts, p, proxyFor)
      ensures verdict == VerdictOn(old(connections), proxyPorts, p, proxyFor)
      ensures q == Rewritten(old(connections), proxyPorts, p, proxyFor)
    {
      RunAppend(map[], proxyPorts, history, Event(p, proxyFor));
      history := history + [Event(p, proxyFor)];
      var proxyPort, redirected := 0, false;
      if p.flags.syn && !p.flags.ack {
        proxyPort := proxyFor;
        if proxyPort != 0 {
          var key := Endpoint(p.dst.ip, p.src.port);
          if key !in connections {
            connections := connections[key := Mapping(p.dst.ip, p.dst.port, proxyPort)];
          }
          redirected := true;
        }
      } else {
        var key := Endpoint(p.dst.ip, p.src.port);
        if key in connections {
          var it := connections[key];
          if p.flags.rst || p.flags.fin {
            connections := connections - {key};
          }
          redirected := true;
          proxyPort := it.proxyPort;
        }
      }
      if redirected {
        return Redirect, TurnRound(p, p.src.port, proxyPort);
      } else if p.src.port in proxyPorts {
        var key := Endpoint(p.dst.ip, p.dst.port);
        if key !in connections {
          return Pass, p;
        }
        var it := connections[key];
        if p.flags.rst || p.flags.fin {
          connections := connections - {key};
        }
        return Redirect, TurnRound(p, it.dstPort, p.dst.port);
      }
      return Pass, p;
    }

    /** The proxy asks where a connection accepted from `remote` was meant to go. */
    method OriginalDestination(remote: Endpoint) returns (r: Option<Endpoint>)
      requires Valid()
      ensures r.Some? <==> remote in connections
      ensures r.Some? ==> r.value.ip == remote.ip
      ensures r.Some? ==> exists e :: e in history && OpenedBy(e, remote, connections[remote]) && r.value == e.p.dst
    {
      EveryMappingWasOpened(map[], proxyPorts, history, remote);
      EveryRunIsAddressed(map[], proxyPorts, history);
      if remote !in connections {
        return None;
      }
      return Some(Endpoint(connections[remote].dstIP, connections[remote].dstPort));
    }
  }

  function LookUp(c: Connections, remote: Endpoint): Option<Endpoint> {
    if remote in c then Some(Endpoint(c[remote].dstIP, c[remote].dstPort)) else None
  }

  // ------------------------------------------------ what the callback decides

  /** The packet is sent to the proxy: it opens a connection that has one, or belongs to a known connection. */
  predicate TowardsProxy(c: Connections, p: Packet, proxyFor: Port) {
    if Opens(p) then proxyFor != 0 else ClientKey(p) in c
  }

  /** The packet comes from a proxy on a known connection. */
  predicate FromProxy(c: Connections, proxyPorts: set<Port>, p: Packet, proxyFor: Port) {
    !TowardsProxy(c, p, proxyFor) && p.src.port in proxyPorts && ReplyKey(p) in c
  }

  function VerdictOn(c: Connections, proxyPorts: set<Port>, p: Packet, proxyFor: Port): Verdict {
    if TowardsProxy(c, p, proxyFor) || FromProxy(c, proxyPorts, p, proxyFor) then Redirect else Pass
  }

  function Rewritten(c: Connections, proxyPorts: set<Port>, p: Packet, proxyFor: Port): Packet {
    if TowardsProxy(c, p, proxyFor) then
      TurnRound(p, p.src.port, if Opens(p) then proxyFor else c[ClientKey(p)].proxyPort)
    else if FromProxy(c, proxyPorts, p, proxyFor) then TurnRound(p, c[ReplyKey(p)].dstPort, p.dst.port)
    else p
  }

  function After(c: Connections, proxyPorts: set<Port>, p: Packet, proxyFor: Port): Connections {
    if TowardsProxy(c, p, proxyFor) then
      if Opens(p) then
        if ClientKey(p) in c then c
        else c[ClientKey(p) := Mapping(p.dst.ip, p.dst.port, proxyFor)]
      else if Ends(p) then c - {ClientKey(p)}
      else c
    else if FromProxy(c, proxyPorts, p, proxyFor) && Ends(p) then c - {ReplyKey(p)}
    else c
  }

  /**
    Which packets are redirected, from their flags and the keys of the map: one
    that opens a connection and has a proxy, one of a mapped connection that
    opens none, and one from a proxy's port to a mapped client. Every other
    packet passes unchanged and leaves the map as it was.
   */
  lemma RedirectedIff(c: Connections, proxyPorts: set<Port>, p: Packet, proxyFor: Port)
    ensures VerdictOn(c, proxyPorts, p, proxyFor) == Redirect <==>
      || (p.flags.syn && !p.flags.ack && proxyFor != 0)
      || ((!p.flags.syn || p.flags.ack) && Endpoint(p.dst.ip, p.src.port) in c)
      || (p.src.port in proxyPorts && Endpoint(p.dst.ip, p.dst.port) in c)
    ensures VerdictOn(c, proxyPorts, p, proxyFor) == Pass ==>
      Rewritten(c, proxyPorts, p, proxyFor) == p && After(c, proxyPorts, p, proxyFor) == c
  {
  }

  /** A packet that opens a connection reaches its proxy as if from its destination, which the proxy can look up. */
  lemma OpeningIsRedirected(c: Connections, proxyPorts: set<Port>, p: Packet, proxyFor: Port)
    requires p.flags.syn && !p.flags.ack && proxyFor != 0
    ensures VerdictOn(c, proxyPorts, p, proxyFor) == Redirect
    ensures
      var there := Rewritten(c, proxyPorts, p, proxyFor);
      && there == Packet(p.dstMac, p.srcMac, Endpoint(p.dst.ip, p.src.port), Endpoint(p.src.ip, proxyFor), p.flags)
      && After(c, proxyPorts, p, proxyFor) ==
         (if there.src in c then c else c[there.src := Mapping(p.dst.ip, p.dst.port, proxyFor)])
      && (there.src !in c ==> LookUp(After(c, proxyPorts, p, proxyFor), there.src) == Some(p.dst))
  {
  }

  // ------------------------------------------------------------------- runs

  /** A packet, and the proxy port of the process that sent it. */
  datatype Event = Event(p: Packet, proxyFor: Port)

  function Run(c: Connections, proxyPorts: set<Port>, events: seq<Event>): Connections
    decreases |events|
  {
    if events == [] then c
    else Run(After(c, proxyPorts, events[0].p, events[0].proxyFor), proxyPorts, events[1..])
  }

  lemma {:induction false} RunAppend(c: Connections, proxyPorts: set<Port>, events: seq<Event>, e: Event)
    ensures Run(c, proxyPorts, events + [e]) == After(Run(c, proxyPorts, events), proxyPorts, e.p, e.proxyFor)
    decreases |events|
  {
    if events == [] {
      assert Run(After(c, proxyPorts, e.p, e.proxyFor), proxyPorts, [e][1..]) == After(c, proxyPorts, e.p, e.proxyFor);
    } else {
      assert (events + [e])[1..] == events[1..] + [e];
      RunAppend(After(c, proxyPorts, events[0].p, events[0].proxyFor), proxyPorts, events[1..], e);
    }
  }

  /** Each mapping leads to the address in its key. */
  ghost predicate Addressed(c: Connections) {
    forall k :: k in c ==> c[k].dstIP == k.ip
  }

  /** So it is after every run, whatever the packets. */
  lemma {:induction false} EveryRunIsAddressed(c: Connections, proxyPorts: set<Port>, events: seq<Event>)
    requires Addressed(c)
    ensures Addressed(Run(c, proxyPorts, events))
    decreases |events|
  {
    if events == [] {
    } else {
      EveryRunIsAddressed(After(c, proxyPorts, events[0].p, events[0].proxyFor), proxyPorts, events[1..]);
    }
  }

  /** The packet opened a redirected connection, for which the mapping was made. */
  ghost predicate OpenedBy(e: Event, k: Endpoint, m: Mapping) {
    Opens(e.p) && e.proxyFor != 0 && ClientKey(e.p) == k && m == Mapping(e.p.dst.ip, e.p.dst.port, e.proxyFor)
  }

  /** A mapping was there from the start, or a packet of the run opened its connection to that destination and proxy. */
  lemma {:induction false} EveryMappingWasOpened(c: Connections, proxyPorts: set<Port>, events: seq<Event>, k: Endpoint)
    ensures var c' := Run(c, proxyPorts, events);
      k in c' ==> (k in c && c'[k] == c[k]) || exists e :: e in events && OpenedBy(e, k, c'[k])
    decreases |events|
  {
    if events == [] {
    } else {
      var first, c' := events[0], Run(c, proxyPorts, events);
      var next := After(c, proxyPorts, first.p, first.proxyFor);
      EveryMappingWasOpened(next, proxyPorts, events[1..], k);
      if k in c' && k in next && c'[k] == next[k] && !(k in c && c[k] == next[k]) {
        assert first in events && OpenedBy(first, k, next[k]);
      }
    }
  }

  /** A process that has a proxy has one of ours, and does not itself send from a proxy's port. */
  predicate Sound(proxyPorts: set<Port>, e: Event) {
    Opens(e.p) && e.proxyFor != 0 ==> e.proxyFor in proxyPorts && e.p.src.port !in proxyPorts
  }

  /** Each mapping is served by a proxy, and belongs to a client that is not one. */
  ghost predicate Served(c: Connections, proxyPorts: set<Port>) {
    forall k :: k in c ==> c[k].proxyPort in proxyPorts && k.port !in proxyPorts
  }

  lemma {:induction false} EveryRunIsServed(c: Connections, proxyPorts: set<Port>, events: seq<Event>)
    requires Served(c, proxyPorts) && forall e :: e in events ==> Sound(proxyPorts, e)
    ensures Served(Run(c, proxyPorts, events), proxyPorts)
    decreases |events|
  {
    if events == [] {
    } else {
      assert events[0] in events && Sound(proxyPorts, events[0]);
      EveryRunIsServed(After(c, proxyPorts, events[0].p, events[0].proxyFor), proxyPorts, events[1..]);
    }
  }

  /** The packet is an RST or FIN of the connection, from either side. */
  predicate EndsConnection(c: Connections, proxyPorts: set<Port>, e: Event, k: Endpoint) {
    && k in c && (e.p.flags.rst || e.p.flags.fin)
    && if e.p.flags.syn && !e.p.flags.ack then
         e.proxyFor == 0 && e.p.src.port in proxyPorts && e.p.dst == k
       else if Endpoint(e.p.dst.ip, e.p.src.port) in c then
         Endpoint(e.p.dst.ip, e.p.src.port) == k
       else
         e.p.src.port in proxyPorts && e.p.dst == k
  }

  ghost predicate NoneEnds(c: Connections, proxyPorts: set<Port>, events: seq<Event>, k: Endpoint)
    decreases |events|
  {
    events == [] ||
    (!EndsConnection(c, proxyPorts, events[0], k) &&
     NoneEnds(After(c, proxyPorts, events[0].p, events[0].proxyFor), proxyPorts, events[1..], k))
  }

  /** A mapping stays as it was made until an RST or FIN of its own connection, whatever else is going on. */
  lemma {:induction false} MappingStays(c: Connections, proxyPorts: set<Port>, events: seq<Event>, k: Endpoint)
    requires k in c && NoneEnds(c, proxyPorts, events, k)
    ensures k in Run(c, proxyPorts, events) && Run(c, proxyPorts, events)[k] == c[k]
    decreases |events|
  {
    if events == [] {
    } else {
      MappingStays(After(c, proxyPorts, events[0].p, events[0].proxyFor), proxyPorts, events[1..], k);
    }
  }

  /** And such a packet does remove it. */
  lemma EndRemovesMapping(c: Connections, proxyPorts: set<Port>, e: Event, k: Endpoint)
    requires EndsConnection(c, proxyPorts, e, k)
    ensures After(c, proxyPorts, e.p, e.proxyFor) == c - {k}
  {
  }

  // ------------------------------------------------------------ the round trip

  /**
    The proxy's reply to a redirected packet comes back as the reply of the
    packet's destination, exactly when no mapping is keyed by the destination
    address and the proxy's own port.
   */
  lemma RoundTripIff(c: Connections, proxyPorts: set<Port>, p: Packet, flags: Flags)
    requires var k := ClientKey(p);
             && k in c && c[k] == Mapping(p.dst.ip, p.dst.port, c[k].proxyPort)
             && c[k].proxyPort in proxyPorts && p.src.port !in proxyPorts
             && (forall j :: j in c ==> c[j].proxyPort in proxyPorts)
             && !Opens(p) && !(flags.syn && !flags.ack)
    ensures var there := Rewritten(c, proxyPorts, p, 0);
            var back := Reply(there, flags);
            && there == TurnRound(p, p.src.port, c[ClientKey(p)].proxyPort)
            && LookUp(c, there.src) == Some(p.dst)
            && (Rewritten(c, proxyPorts, back, 0) == Reply(p, flags) <==>
                Endpoint(p.dst.ip, c[ClientKey(p)].proxyPort) !in c)
  {
  }

  lemma RunTwo(proxyPorts: set<Port>, e: Event, f: Event)
    ensures Run(map[], proxyPorts, [e, f]) ==
      After(After(map[], proxyPorts, e.p, e.proxyFor), proxyPorts, f.p, f.proxyFor)
  {
    var first := After(map[], proxyPorts, e.p, e.proxyFor);
    assert [e, f][1..] == [f] && [f][1..] == [];
    assert Run(first, proxyPorts, [f]) == Run(After(first, proxyPorts, f.p, f.proxyFor), proxyPorts, []);
  }

  /** Once a client has opened a connection from the proxy's own port to the same address, a reply goes astray. */
  lemma ProxyPortAsClientIsMisled(opening: Packet, other: Packet, p: Packet)
    requires Opens(opening) && opening.src.port == 5000 && p.src == opening.src && p.dst == opening.dst
    requires Opens(other) && other.src.port == 1080 && other.dst.ip == opening.dst.ip
    requires p.flags == Flags(false, true, false, false)
    ensures var c := Run(map[], {1080}, [Event(opening, 1080), Event(other, 1080)]);
      Rewritten(c, {1080}, Reply(Rewritten(c, {1080}, p, 0), p.flags), 0) != Reply(p, p.flags)
  {
    RunTwo({1080}, Event(opening, 1080), Event(other, 1080));
    var c := Run(map[], {1080}, [Event(opening, 1080), Event(other, 1080)]);
    assert c[Endpoint(p.dst.ip, 5000)] == Mapping(p.dst.ip, p.dst.port, 1080);
    assert c[Endpoint(p.dst.ip, 1080)] == Mapping(p.dst.ip, other.dst.port, 1080);
    RoundTripIff(c, {1080}, p, p.flags);
  }

  /**
    Client packets reach the proxy as if from their destination, the proxy finds
    that destination, and its replies reach the client as if from there.
   */
  ghost predicate Transparent(c: Connections, proxyPorts: set<Port>, proxyPort: Port, p: Packet, flags: Flags) {
    var there := Rewritten(c, proxyPorts, p, 0);
    && there == Packet(p.dstMac, p.srcMac, Endpoint(p.dst.ip, p.src.port), Endpoint(p.src.ip, proxyPort), p.flags)
    && VerdictOn(c, proxyPorts, p, 0) == Redirect
    && LookUp(c, there.src) == Some(p.dst)
    && var back := Packet(there.dstMac, there.srcMac, there.dst, there.src, flags);
    && VerdictOn(c, proxyPorts, back, 0) == Redirect
    && Rewritten(c, proxyPorts, back, 0) == Packet(p.dstMac, p.srcMac, p.dst, p.src, flags)
  }

  /**
    From the packet that opens a redirected connection, through any traffic that
    does not end it, the session is transparent exactly when its key was free, or
    held the very mapping that the packet asks for.
   */
  lemma SessionIsTransparentIff(c: Connections, proxyPorts: set<Port>, opening: Event, events: seq<Event>,
                                p: Packet, flags: Flags)
    requires Addressed(c) && Served(c, proxyPorts) && Sound(proxyPorts, opening)
    requires Opens(opening.p) && opening.proxyFor != 0
    requires forall e :: e in events ==> Sound(proxyPorts, e)
    requires NoneEnds(After(c, proxyPorts, opening.p, opening.proxyFor), proxyPorts, events, ClientKey(opening.p))
    requires p.src == opening.p.src && p.dst == opening.p.dst && !Opens(p) && !(flags.syn && !flags.ack)
    ensures
      var c' := Run(After(c, proxyPorts, opening.p, opening.proxyFor), proxyPorts, events);
      var k := ClientKey(opening.p);
      Transparent(c', proxyPorts, opening.proxyFor, p, flags) <==>
      (k in c ==> c[k] == Mapping(p.dst.ip, p.dst.port, opening.proxyFor))
  {
    var c0, k := After(c, proxyPorts, opening.p, opening.proxyFor), ClientKey(opening.p);
    var c' := Run(c0, proxyPorts, events);
    EveryRunIsAddressed(c0, proxyPorts, events);
    EveryRunIsServed(c0, proxyPorts, events);
    MappingStays(c0, proxyPorts, events, k);
    if c'[k] == Mapping(p.dst.ip, p.dst.port, opening.proxyFor) {
      RoundTripIff(c', proxyPorts, p, flags);
    }
  }

  /** A mapping left from an earlier connection to the same place by another proxy: later packets go to the old one. */
  lemma LeftoverMappingMisleads(earlier: Packet, opening: Packet, p: Packet, c: Connections)
    requires Opens(earlier) && Opens(opening) && !Opens(p)
    requires earlier.src == opening.src == p.src && earlier.dst == opening.dst == p.dst
    requires c == Run(map[], {1080, 1081}, [Event(earlier, 1080), Event(opening, 1081)])
    ensures LookUp(c, ClientKey(opening)) == Some(opening.dst)
    ensures Rewritten(After(map[], {1080, 1081}, earlier, 1080), {1080, 1081}, opening, 1081).dst.port == 1081
    ensures Rewritten(c, {1080, 1081}, p, 0).dst.port == 1080
  {
    RunTwo({1080, 1081}, Event(earlier, 1080), Event(opening, 1081));
  }

  /** The proxy is told the destination of a packet that opens a connection exactly when no other port has its key. */
  lemma OpeningIsFoundIff(c: Connections, proxyPorts: set<Port>, e: Event)
    requires Addressed(c) && Opens(e.p) && e.proxyFor != 0
    ensures LookUp(After(c, proxyPorts, e.p, e.proxyFor), ClientKey(e.p)) == Some(e.p.dst) <==>
            (ClientKey(e.p) in c ==> c[ClientKey(e.p)].dstPort == e.p.dst.port)
  {
  }

  /** One client port with two connections to one address: the second is led to the first one's port. */
  lemma SecondPortIsMisled(p: Packet, q: Packet)
    requires Opens(p) && Opens(q) && p.src == q.src && p.dst.ip == q.dst.ip && p.dst.port != q.dst.port
    ensures var c := Run(map[], {1080}, [Event(p, 1080), Event(q, 1080)]);
            LookUp(c, ClientKey(q)) == Some(p.dst) != Some(q.dst)
  {
    RunTwo({1080}, Event(p, 1080), Event(q, 1080));
  }
}
