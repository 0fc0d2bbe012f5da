/**
  Filtering one batch of packets: the loop that the sequential filter and the
  processing worker of the queued filter share, and what it is meant to compute.
 */
module PacketFilter {
  import opened Common

  const MAX_PACKETS: nat := 510

  const ON_SEND: nat := 1
  const ON_RECEIVE: nat := 2

  datatype Packet = Packet(deviceFlags: nat, data: seq<byte>)

  datatype Action = Pass | Drop | Redirect | PassRedirect | DropRedirect

  /** A callback sees and updates state of its own and may rewrite the packet. */
  type Callback<!S> = (S, Packet) -> (S, Action, Packet)

  datatype Filter<!S> = Filter(outgoing: Option<Callback<S>>, incoming: Option<Callback<S>>)

  function Decide<S>(f: Filter<S>, st: S, p: Packet): (S, Action, Packet) {
    var callback := if p.deviceFlags == ON_SEND then f.outgoing else f.incoming;
    if callback.Some? then callback.value(st, p) else (st, Pass, p)
  }

  /** Passed packets keep their direction, redirected ones change it, all others are dropped. */
  predicate GoesToAdapter(p: Packet, action: Action) {
    (action == Pass && p.deviceFlags == ON_SEND) || (action == Redirect && p.deviceFlags == ON_RECEIVE)
  }

  predicate GoesToMstcp(p: Packet, action: Action) {
    (action == Pass && p.deviceFlags != ON_SEND) || (action == Redirect && p.deviceFlags != ON_RECEIVE)
  }

  /** What has gone each way so far, and the callbacks' state. */
  datatype Output<S> = Output(st: S, adapter: seq<Packet>, mstcp: seq<Packet>)

  function FilterOne<S>(f: Filter<S>, out: Output<S>, p: Packet): Output<S> {
    var (st, action, q) := Decide(f, out.st, p);
    Output(st,
           if GoesToAdapter(q, action) then out.adapter + [q] else out.adapter,
           if GoesToMstcp(q, action) then out.mstcp + [q] else out.mstcp)
  }

  function FilterBatch<S>(f: Filter<S>, out: Output<S>, batch: seq<Packet>): Output<S> {
    if batch == [] then out
    else FilterOne(f, FilterBatch(f, out, batch[..|batch| - 1]), batch[|batch| - 1])
  }

  /** No packet goes both ways or twice: what a batch adds is no more than the batch. */
  lemma {:induction false} NothingIsSentTwice<S>(f: Filter<S>, out: Output<S>, batch: seq<Packet>)
    ensures var out' := FilterBatch(f, out, batch);
            |out'.adapter| + |out'.mstcp| <= |out.adapter| + |out.mstcp| + |batch|
  {
    if batch == [] {
    } else {
      NothingIsSentTwice(f, out, batch[..|batch| - 1]);
    }
  }

  /** What was there before a batch stays in front. */
  lemma {:induction false} FilterBatchExtends<S>(f: Filter<S>, out: Output<S>, batch: seq<Packet>)
    ensures var added := FilterBatch(f, Output(out.st, [], []), batch);
            FilterBatch(f, out, batch) == Output(added.st, out.adapter + added.adapter, out.mstcp + added.mstcp)
  {
    if batch == [] {
      assert out.adapter + [] == out.adapter && out.mstcp + [] == out.mstcp;
    } else {
      FilterBatchExtends(f, out, batch[..|batch| - 1]);
    }
  }

  /** Two batches one after the other are filtered as one. */
  lemma {:induction false} FilterBatchJoins<S>(f: Filter<S>, out: Output<S>, a: seq<Packet>, b: seq<Packet>)
    ensures FilterBatch(f, out, a + b) == FilterBatch(f, FilterBatch(f, out, a), b)
  {
    if b == [] {
      assert a + b == a;
    } else {
      assert (a + b)[..|a + b| - 1] == a + b[..|b| - 1];
      FilterBatchJoins(f, out, a, b[..|b| - 1]);
    }
  }

  /** Where a packet goes by the action on it and the flag it then has: 1 is on its way out, 2 on its way in. */
  ghost predicate Lands<S>(before: Output<S>, after: Output<S>, action: Action, q: Packet) {
    match action
    case Pass =>
      if q.deviceFlags == 1 then after.adapter == before.adapter + [q] && after.mstcp == before.mstcp
      else after.adapter == before.adapter && after.mstcp == before.mstcp + [q]
    case Redirect =>
      if q.deviceFlags == 2 then after.adapter == before.adapter + [q] && after.mstcp == before.mstcp
      else after.adapter == before.adapter && after.mstcp == before.mstcp + [q]
    case Drop | PassRedirect | DropRedirect => after.adapter == before.adapter && after.mstcp == before.mstcp
  }

  /** One more packet of a batch, on its way out: the outgoing callback alone decides; without one it passes. */
  lemma OutgoingIsDecided<S>(f: Filter<S>, out: Output<S>, batch: seq<Packet>, p: Packet)
    requires p.deviceFlags == 1
    ensures
      var before, after := FilterBatch(f, out, batch), FilterBatch(f, out, batch + [p]);
      match f.outgoing
      case None => after.st == before.st && Lands(before, after, Pass, p)
      case Some(callback) =>
        var (st, action, q) := callback(before.st, p);
        after.st == st && Lands(before, after, action, q)
  {
    assert (batch + [p])[..|batch|] == batch;
  }

  /** And any other packet: the incoming callback alone decides. */
  lemma IncomingIsDecided<S>(f: Filter<S>, out: Output<S>, batch: seq<Packet>, p: Packet)
    requires p.deviceFlags != 1
    ensures
      var before, after := FilterBatch(f, out, batch), FilterBatch(f, out, batch + [p]);
      match f.incoming
      case None => after.st == before.st && Lands(before, after, Pass, p)
      case Some(callback) =>
        var (st, action, q) := callback(before.st, p);
        after.st == st && Lands(before, after, action, q)
  {
    assert (batch + [p])[..|batch|] == batch;
  }

  /** A batch that goes one way does not see the other way's callback. */
  lemma {:induction false} OtherCallbackIsNotAsked<S>(f: Filter<S>, g: Filter<S>, out: Output<S>, batch: seq<Packet>)
    requires
      || (f.outgoing == g.outgoing && forall i :: 0 <= i < |batch| ==> batch[i].deviceFlags == 1)
      || (f.incoming == g.incoming && forall i :: 0 <= i < |batch| ==> batch[i].deviceFlags != 1)
    ensures FilterBatch(f, out, batch) == FilterBatch(g, out, batch)
  {
    if batch == [] {
    } else {
      OtherCallbackIsNotAsked(f, g, out, batch[..|batch| - 1]);
    }
  }

  /** The packets that a list of buffer numbers points to. */
  ghost function Pick(buffer: seq<Packet>, request: seq<nat>): (r: seq<Packet>)
    requires forall i :: 0 <= i < |request| ==> request[i] < |buffer|
    ensures |r| == |request|
    ensures forall i :: 0 <= i < |r| ==> r[i] == buffer[request[i]]
  {
    seq(|request|, i requires 0 <= i < |request| => buffer[request[i]])
  }

  /** Writing to a buffer no request points to, and then pointing to it. */
  lemma PickStep(buffer: seq<Packet>, request: seq<nat>, i: nat, p: Packet)
    requires i < |buffer| && forall j :: 0 <= j < |request| ==> request[j] < i
    ensures Pick(buffer[i := p], request) == Pick(buffer, request)
    ensures Pick(buffer[i := p], request + [i]) == Pick(buffer, request) + [p]
  {
  }

  /** The reusable block: packet buffers, and two write requests that point into them. */
  class PacketBlock {
    const buffer: array<Packet>
    var packetsSuccess: nat
    const adapterRequest: array<nat>
    var adapterNumber: nat
    const mstcpRequest: array<nat>
    var mstcpNumber: nat

    constructor (blank: Packet)
      ensures Valid() && packetsSuccess == adapterNumber == mstcpNumber == 0
      ensures fresh(buffer) && fresh(adapterRequest) && fresh(mstcpRequest)
    {
      buffer := new Packet[MAX_PACKETS](_ => blank);
      adapterRequest := new nat[MAX_PACKETS];
      mstcpRequest := new nat[MAX_PACKETS];
      packetsSuccess, adapterNumber, mstcpNumber := 0, 0, 0;
    }

    ghost predicate Valid()
      reads this
    {
      && buffer.Length == adapterRequest.Length == mstcpRequest.Length == MAX_PACKETS
      && adapterRequest != mstcpRequest
      && packetsSuccess <= MAX_PACKETS && adapterNumber <= MAX_PACKETS && mstcpNumber <= MAX_PACKETS
    }

    /** Both requests only point to the first `n` buffers. */
    ghost predicate PointsBelow(n: nat)
      requires Valid()
      reads this, adapterRequest, mstcpRequest
    {
      && (forall i :: 0 <= i < adapterNumber ==> adapterRequest[i] < n)
      && (forall i :: 0 <= i < mstcpNumber ==> mstcpRequest[i] < n)
    }

    /** What will be written each way. */
    ghost function Pending<S>(st: S): Output<S>
      requires Valid() && PointsBelow(MAX_PACKETS)
      reads this, buffer, adapterRequest, mstcpRequest
    {
      Output(st, Pick(buffer[..], adapterRequest[..adapterNumber]), Pick(buffer[..], mstcpRequest[..mstcpNumber]))
    }

    /** The body of the loop for packet `i`. */
    method FilterPacket<S>(f: Filter<S>, st: S, i: nat) returns (st': S)
      requires Valid() && i < MAX_PACKETS && PointsBelow(i) && adapterNumber + mstcpNumber <= i
      modifies this, buffer, adapterRequest, mstcpRequest
      ensures Valid() && PointsBelow(i + 1) && adapterNumber + mstcpNumber <= i + 1
      ensures Pending(st') == FilterOne(f, old(Pending(st)), old(buffer[i]))
      ensures forall j :: i < j < MAX_PACKETS ==> buffer[j] == old(buffer[j])
      ensures packetsSuccess == old(packetsSuccess)
    {
      var (st1, action, q) := Decide(f, st, buffer[i]);
      st' := st1;
      PickStep(buffer[..], adapterRequest[..adapterNumber], i, q);
      PickStep(buffer[..], mstcpRequest[..mstcpNumber], i, q);
      buffer[i] := q;
      assert buffer[..] == old(buffer[..])[i := q];
      if action == Pass {
        if q.deviceFlags == ON_SEND {
          AddToAdapter(i);
        } else {
          AddToMstcp(i);
        }
      } else if action == Redirect {
        if q.deviceFlags == ON_RECEIVE {
          AddToAdapter(i);
        } else {
          AddToMstcp(i);
        }
      }
    }

    method AddToAdapter(i: nat)
      requires Valid() && adapterNumber < MAX_PACKETS
      modifies this`adapterNumber, adapterRequest
      ensures Valid() && adapterNumber == old(adapterNumber) + 1
      ensures adapterRequest[..adapterNumber] == old(adapterRequest[..adapterNumber]) + [i]
    {
      adapterRequest[adapterNumber] := i;
      adapterNumber := adapterNumber + 1;
    }

    method AddToMstcp(i: nat)
      requires Valid() && mstcpNumber < MAX_PACKETS
      modifies this`mstcpNumber, mstcpRequest
      ensures Valid() && mstcpNumber == old(mstcpNumber) + 1
      ensures mstcpRequest[..mstcpNumber] == old(mstcpRequest[..mstcpNumber]) + [i]
    {
      mstcpRequest[mstcpNumber] := i;
      mstcpNumber := mstcpNumber + 1;
    }

    /** The loop over a batch; it needs the write counters to be zero when it starts. */
    method FilterPackets<S>(f: Filter<S>, st: S) returns (st': S)
      requires Valid() && adapterNumber == mstcpNumber == 0
      modifies this, buffer, adapterRequest, mstcpRequest
      ensures Valid() && PointsBelow(MAX_PACKETS) && packetsSuccess == 0
      ensures Pending(st') == FilterBatch(f, Output(st, [], []), old(buffer[..packetsSuccess]))
    {
      st' := st;
      ghost var batch := buffer[..packetsSuccess];
      for i := 0 to packetsSuccess
        invariant Valid() && PointsBelow(i) && adapterNumber + mstcpNumber <= i
        invariant packetsSuccess == |batch|
        invariant forall j :: i <= j < |batch| ==> buffer[j] == batch[j]
        invariant Pending(st') == FilterBatch(f, Output(st, [], []), batch[..i])
      {
        assert batch[..i + 1][..i] == batch[..i];
        st' := FilterPacket(f, st', i);
      }
      assert batch[..|batch|] == batch;
      packetsSuccess := 0;
    }

    /** One batch of the sequential filter: filter, send to the adapter, send to MSTCP, reset. */
    method FilterSequentially<S>(f: Filter<S>, st: S) returns (st': S, toAdapter: seq<Packet>, toMstcp: seq<Packet>)
      requires Valid() && adapterNumber == mstcpNumber == 0
      modifies this, buffer, adapterRequest, mstcpRequest
      ensures Valid() && adapterNumber == mstcpNumber == packetsSuccess == 0
      ensures Output(st', toAdapter, toMstcp) == FilterBatch(f, Output(st, [], []), old(buffer[..packetsSuccess]))
    {
      st' := FilterPackets(f, st);
      toAdapter, toMstcp := [], [];
      if adapterNumber > 0 {
        toAdapter := Gather(adapterRequest, adapterNumber);
        adapterNumber := 0;
      }
      if mstcpNumber > 0 {
        toMstcp := Gather(mstcpRequest, mstcpNumber);
        mstcpNumber := 0;
      }
    }

    /** The packets handed to the driver by a write request. */
    method Gather(request: array<nat>, n: nat) returns (r: seq<Packet>)
      requires n <= request.Length && forall i :: 0 <= i < n ==> request[i] < buffer.Length
      ensures r == Pick(buffer[..], request[..n])
    {
      r := seq(n, i requires 0 <= i < n reads this, request, buffer
                    requires n <= request.Length && request[i] < buffer.Length => buffer[request[i]]);
    }
  }
}
