/**
  The queued packet filter: ten reusable blocks go round four workers connected
  by channels. Every interleaving of the workers, in one run without event
  errors, against the sequential filter.
 */
module PacketPipeline {
  import opened Common
  import opened PacketFilter

  const MAX_BLOCKS: nat := 10
  /** Every channel has room for this many blocks. */
  const CHANNEL_CAPACITY: nat := MAX_PACKETS

  type Id = nat

  /** A block: the packets read, and the two write requests. */
  datatype Block = Block(batch: seq<Packet>, adapter: seq<Packet>, mstcp: seq<Packet>)

  const EMPTY_BLOCK := Block([], [], [])

  /** A worker with the channel it takes blocks from. */
  datatype Stage = Stage(held: Option<Id>, chan: seq<Id>)
  {
    /** The blocks at this stage, in the order in which they will leave it. */
    function Row(): seq<Id> {
      (if held.Some? then [held.value] else []) + chan
    }

    function Take(): (s: Stage)
      requires held == None && chan != []
      ensures s.Row() == Row()
    {
      Stage(Some(chan[0]), chan[1..])
    }

    function Release(): (s: Stage)
      requires held.Some?
      ensures Row() == [held.value] + s.Row()
    {
      Stage(None, chan)
    }

    function Receive(id: Id): (s: Stage)
      ensures s.Row() == Row() + [id]
    {
      Stage(held, chan + [id])
    }
  }

  /** The callbacks' state, what the driver has been handed, and the batches it has delivered. */
  datatype Ledger<S> = Ledger(st: S, sentAdapter: seq<Packet>, sentMstcp: seq<Packet>, batches: seq<seq<Packet>>)

  datatype State<!S> = State(
    reading: Stage, processing: Stage, toMstcp: Stage, toAdapter: Stage,
    blocks: seq<Block>,
    ledger: Ledger<S>)
  {
    /** All blocks, the one that will finish first in front. */
    function Ring(): seq<Id> {
      toAdapter.Row() + toMstcp.Row() + processing.Row() + reading.Row()
    }
  }

  function Init<S>(st: S): State<S> {
    State(Stage(None, seq(MAX_BLOCKS, i => i)), Stage(None, []), Stage(None, []), Stage(None, []),
          seq(MAX_BLOCKS, _ => EMPTY_BLOCK), Ledger(st, [], [], []))
  }

  datatype Step =
    | TakeRead | FinishRead(batch: seq<Packet>)
    | TakeProcess | FinishProcess
    | TakeMstcp | FinishMstcp
    | TakeAdapter | FinishAdapter

  /** Whether a worker can go on; whether there is room to send on a channel is left to HasRoom. */
  predicate Ready<S>(s: State<S>, step: Step) {
    match step
    case TakeRead => s.reading.held == None && s.reading.chan != []
    case FinishRead(batch) => s.reading.held.Some? && |batch| <= MAX_PACKETS
    case TakeProcess => s.processing.held == None && s.processing.chan != []
    case FinishProcess => s.processing.held.Some?
    case TakeMstcp => s.toMstcp.held == None && s.toMstcp.chan != []
    case FinishMstcp => s.toMstcp.held.Some?
    case TakeAdapter => s.toAdapter.held == None && s.toAdapter.chan != []
    case FinishAdapter => s.toAdapter.held.Some?
  }

  /** The channel a finishing worker sends on has room. */
  predicate HasRoom<S>(s: State<S>, step: Step) {
    match step
    case FinishRead(_) => |s.processing.chan| < CHANNEL_CAPACITY
    case FinishProcess => |s.toMstcp.chan| < CHANNEL_CAPACITY
    case FinishMstcp => |s.toAdapter.chan| < CHANNEL_CAPACITY
    case FinishAdapter => |s.reading.chan| < CHANNEL_CAPACITY
    case _ => true
  }

  function At(blocks: seq<Block>, id: Id): Block {
    if id < |blocks| then blocks[id] else EMPTY_BLOCK
  }

  function With(blocks: seq<Block>, id: Id, b: Block): seq<Block> {
    if id < |blocks| then blocks[id := b] else blocks
  }

  function Do<S>(f: Filter<S>, s: State<S>, step: Step): State<S>
    requires Ready(s, step)
  {
    match step
    case TakeRead => s.(reading := s.reading.Take())
    case FinishRead(batch) =>
      var id := s.reading.held.value;
      s.(reading := s.reading.Release(), processing := s.processing.Receive(id),
         blocks := With(s.blocks, id, At(s.blocks, id).(batch := batch)),
         ledger := s.ledger.(batches := s.ledger.batches + [batch]))
    case TakeProcess => s.(processing := s.processing.Take())
    case FinishProcess =>
      var id := s.processing.held.value;
      var b := At(s.blocks, id);
      var out := FilterBatch(f, Output(s.ledger.st, b.adapter, b.mstcp), b.batch);
      s.(processing := s.processing.Release(), toMstcp := s.toMstcp.Receive(id),
         blocks := With(s.blocks, id, Block([], out.adapter, out.mstcp)),
         ledger := s.ledger.(st := out.st))
    case TakeMstcp => s.(toMstcp := s.toMstcp.Take())
    case FinishMstcp =>
      var id := s.toMstcp.held.value;
      s.(toMstcp := s.toMstcp.Release(), toAdapter := s.toAdapter.Receive(id),
         blocks := With(s.blocks, id, At(s.blocks, id).(mstcp := [])),
         ledger := s.ledger.(sentMstcp := s.ledger.sentMstcp + At(s.blocks, id).mstcp))
    case TakeAdapter => s.(toAdapter := s.toAdapter.Take())
    case FinishAdapter =>
      var id := s.toAdapter.held.value;
      s.(toAdapter := s.toAdapter.Release(), reading := s.reading.Receive(id),
         blocks := With(s.blocks, id, At(s.blocks, id).(adapter := [])),
         ledger := s.ledger.(sentAdapter := s.ledger.sentAdapter + At(s.blocks, id).adapter))
  }

  // ------------------------------------------------------------- the ring

  ghost predicate EachOnce(ring: seq<Id>) {
    && |ring| == MAX_BLOCKS
    && (forall i :: 0 <= i < |ring| ==> ring[i] < MAX_BLOCKS)
    && (forall i, j :: 0 <= i < j < |ring| ==> ring[i] != ring[j])
  }

  /** The ring is passed on unchanged, except that a finished block goes from its head to its tail. */
  lemma RingTurns<S>(f: Filter<S>, s: State<S>, step: Step)
    requires Ready(s, step)
    ensures step.FinishAdapter? ==> Do(f, s, step).Ring() == s.Ring()[1..] + [s.Ring()[0]]
    ensures !step.FinishAdapter? ==> Do(f, s, step).Ring() == s.Ring()
  {
    var s' := Do(f, s, step);
    var a, m, p := s.toAdapter.Row(), s.toMstcp.Row(), s.processing.Row();
    match step
    case FinishRead(_) => PassOn(a + m, p, s.reading.held.value, s'.reading.Row());
    case FinishProcess => PassOn(a, m, s.processing.held.value, s'.processing.Row());
    case FinishMstcp => PassOn([], a, s.toMstcp.held.value, s'.toMstcp.Row());
    case FinishAdapter => Rotate(s.toAdapter.held.value, s'.toAdapter.Row(), m, p, s.reading.Row());
    case _ =>
  }

  lemma PassOn<T>(a: seq<T>, b: seq<T>, x: T, c: seq<T>)
    ensures a + (b + [x]) + c == a + b + ([x] + c)
  {
  }

  lemma Rotate<T>(x: T, a: seq<T>, b: seq<T>, c: seq<T>, d: seq<T>)
    ensures var ring := ([x] + a) + b + c + d;
            a + b + c + (d + [x]) == ring[1..] + [ring[0]]
  {
  }

  lemma StepKeepsRing<S>(f: Filter<S>, s: State<S>, step: Step)
    requires Ready(s, step) && OnRing(s)
    ensures OnRing(Do(f, s, step))
    ensures HasRoom(s, step)
  {
    RingTurns(f, s, step);
  }

  // ---------------------------------------------------------- the contents

  /** The blocks of a row. */
  ghost function Contents(blocks: seq<Block>, row: seq<Id>): (r: seq<Block>)
    ensures |r| == |row| && forall i :: 0 <= i < |r| ==> r[i] == At(blocks, row[i])
  {
    seq(|row|, i requires 0 <= i < |row| => At(blocks, row[i]))
  }

  ghost function BatchesIn(row: seq<Block>): (r: seq<seq<Packet>>)
    ensures |r| == |row| && forall i :: 0 <= i < |r| ==> r[i] == row[i].batch
  {
    seq(|row|, i requires 0 <= i < |row| => row[i].batch)
  }

  /** The adapter packets, and the MSTCP packets, of a row of blocks. */
  ghost function AdapterIn(row: seq<Block>): seq<Packet> {
    if row == [] then [] else row[0].adapter + AdapterIn(row[1..])
  }

  ghost function MstcpIn(row: seq<Block>): seq<Packet> {
    if row == [] then [] else row[0].mstcp + MstcpIn(row[1..])
  }

  lemma {:induction false} AdapterJoins(a: seq<Block>, b: seq<Block>)
    ensures AdapterIn(a + b) == AdapterIn(a) + AdapterIn(b)
  {
    if a == [] {
      assert a + b == b;
    } else {
      assert (a + b)[1..] == a[1..] + b;
      AdapterJoins(a[1..], b);
    }
  }

  lemma {:induction false} MstcpJoins(a: seq<Block>, b: seq<Block>)
    ensures MstcpIn(a + b) == MstcpIn(a) + MstcpIn(b)
  {
    if a == [] {
      assert a + b == b;
    } else {
      assert (a + b)[1..] == a[1..] + b;
      MstcpJoins(a[1..], b);
    }
  }

  lemma OneBlock(b: Block)
    ensures AdapterIn([b]) == b.adapter && MstcpIn([b]) == b.mstcp
  {
  }

  /** The sequential filter on one batch after another. */
  ghost function Sequential<S>(f: Filter<S>, st: S, batches: seq<seq<Packet>>): Output<S> {
    if batches == [] then Output(st, [], [])
    else FilterBatch(f, Sequential(f, st, batches[..|batches| - 1]), batches[|batches| - 1])
  }

  /** The blocks of all stages, in the order in which they will leave them. */
  datatype Rows = Rows(reading: seq<Block>, processing: seq<Block>, toMstcp: seq<Block>, toAdapter: seq<Block>)

  ghost function RowsOf<S>(s: State<S>): Rows {
    Rows(Contents(s.blocks, s.reading.Row()), Contents(s.blocks, s.processing.Row()),
         Contents(s.blocks, s.toMstcp.Row()), Contents(s.blocks, s.toAdapter.Row()))
  }

  /** A finished step as a move of the first block of one row to the end of the next. */
  ghost function MoveOn<S>(f: Filter<S>, st: S, rows: Rows, step: Step): Rows
    requires step.FinishRead? ==> rows.reading != []
    requires step.FinishProcess? ==> rows.processing != []
    requires step.FinishMstcp? ==> rows.toMstcp != []
    requires step.FinishAdapter? ==> rows.toAdapter != []
  {
    match step
    case FinishRead(batch) =>
      rows.(reading := rows.reading[1..], processing := rows.processing + [rows.reading[0].(batch := batch)])
    case FinishProcess =>
      var b := rows.processing[0];
      var out := FilterBatch(f, Output(st, b.adapter, b.mstcp), b.batch);
      rows.(processing := rows.processing[1..], toMstcp := rows.toMstcp + [Block([], out.adapter, out.mstcp)])
    case FinishMstcp =>
      rows.(toMstcp := rows.toMstcp[1..], toAdapter := rows.toAdapter + [rows.toMstcp[0].(mstcp := [])])
    case FinishAdapter =>
      rows.(toAdapter := rows.toAdapter[1..], reading := rows.reading + [rows.toAdapter[0].(adapter := [])])
    case _ => rows
  }

  /** The first block of a row is in no other row and not twice in its own. */
  lemma NotElsewhere(a: seq<Id>, x: Id, b: seq<Id>)
    requires EachOnce(a + [x] + b)
    ensures x !in a && x !in b && x < MAX_BLOCKS
  {
    var ring := a + [x] + b;
    assert ring[|a|] == x;
    assert forall i :: 0 <= i < |a| ==> ring[i] == a[i];
    assert forall i :: 0 <= i < |b| ==> ring[|a| + 1 + i] == b[i];
  }

  /** One block is rewritten on its way from the head of `from` to the end of `to`. */
  lemma BlockMoves(blocks: seq<Block>, id: Id, b: Block, rest: seq<Id>, to: seq<Id>, c: seq<Id>, d: seq<Id>)
    requires id < |blocks| && id !in rest && id !in to && id !in c && id !in d
    ensures var blocks' := With(blocks, id, b);
            && Contents(blocks, [id] + rest) == [At(blocks, id)] + Contents(blocks', rest)
            && Contents(blocks', to + [id]) == Contents(blocks, to) + [b]
            && Contents(blocks', c) == Contents(blocks, c) && Contents(blocks', d) == Contents(blocks, d)
  {
  }

  ghost predicate OnRing<S>(s: State<S>) {
    EachOnce(s.Ring()) && |s.blocks| == MAX_BLOCKS
  }

  lemma ReadMovesOn<S>(f: Filter<S>, s: State<S>, batch: seq<Packet>)
    requires OnRing(s) && Ready(s, FinishRead(batch))
    ensures s.reading.Row() != []
    ensures RowsOf(Do(f, s, FinishRead(batch))) == MoveOn(f, s.ledger.st, RowsOf(s), FinishRead(batch))
  {
    var s', id := Do(f, s, FinishRead(batch)), s.reading.held.value;
    var ra, rm, rp, rest := s.toAdapter.Row(), s.toMstcp.Row(), s.processing.Row(), s'.reading.Row();
    assert s.Ring() == (ra + rm + rp) + [id] + rest;
    NotElsewhere(ra + rm + rp, id, rest);
    BlockMoves(s.blocks, id, At(s'.blocks, id), rest, rp, rm, ra);
  }

  lemma ProcessMovesOn<S>(f: Filter<S>, s: State<S>)
    requires OnRing(s) && Ready(s, FinishProcess)
    ensures s.processing.Row() != []
    ensures RowsOf(Do(f, s, FinishProcess)) == MoveOn(f, s.ledger.st, RowsOf(s), FinishProcess)
  {
    var s', id := Do(f, s, FinishProcess), s.processing.held.value;
    var ra, rm, rest, rr := s.toAdapter.Row(), s.toMstcp.Row(), s'.processing.Row(), s.reading.Row();
    assert s.Ring() == (ra + rm) + [id] + (rest + rr);
    NotElsewhere(ra + rm, id, rest + rr);
    BlockMoves(s.blocks, id, At(s'.blocks, id), rest, rm, rr, ra);
  }

  lemma MstcpMovesOn<S>(f: Filter<S>, s: State<S>)
    requires OnRing(s) && Ready(s, FinishMstcp)
    ensures s.toMstcp.Row() != []
    ensures RowsOf(Do(f, s, FinishMstcp)) == MoveOn(f, s.ledger.st, RowsOf(s), FinishMstcp)
  {
    var s', id := Do(f, s, FinishMstcp), s.toMstcp.held.value;
    var ra, rest, rp, rr := s.toAdapter.Row(), s'.toMstcp.Row(), s.processing.Row(), s.reading.Row();
    assert s.Ring() == ra + [id] + (rest + rp + rr);
    NotElsewhere(ra, id, rest + rp + rr);
    BlockMoves(s.blocks, id, At(s'.blocks, id), rest, ra, rp, rr);
  }

  lemma AdapterMovesOn<S>(f: Filter<S>, s: State<S>)
    requires OnRing(s) && Ready(s, FinishAdapter)
    ensures s.toAdapter.Row() != []
    ensures RowsOf(Do(f, s, FinishAdapter)) == MoveOn(f, s.ledger.st, RowsOf(s), FinishAdapter)
  {
    var s', id := Do(f, s, FinishAdapter), s.toAdapter.held.value;
    var rest, rm, rp, rr := s'.toAdapter.Row(), s.toMstcp.Row(), s.processing.Row(), s.reading.Row();
    assert s.Ring() == [] + [id] + (rest + rm + rp + rr);
    NotElsewhere([], id, rest + rm + rp + rr);
    BlockMoves(s.blocks, id, At(s'.blocks, id), rest, rr, rp, rm);
  }

  lemma RowsMoveOn<S>(f: Filter<S>, s: State<S>, step: Step)
    requires OnRing(s) && Ready(s, step)
    ensures step.FinishRead? ==> s.reading.Row() != []
    ensures step.FinishProcess? ==> s.processing.Row() != []
    ensures step.FinishMstcp? ==> s.toMstcp.Row() != []
    ensures step.FinishAdapter? ==> s.toAdapter.Row() != []
    ensures RowsOf(Do(f, s, step)) == MoveOn(f, s.ledger.st, RowsOf(s), step)
  {
    match step
    case FinishRead(batch) => ReadMovesOn(f, s, batch);
    case FinishProcess => ProcessMovesOn(f, s);
    case FinishMstcp => MstcpMovesOn(f, s);
    case FinishAdapter => AdapterMovesOn(f, s);
    case _ =>
  }

  /** Blocks carry nothing over: at each stage only what that stage is for is in them. */
  ghost predicate Clean(rows: Rows) {
    && (forall i :: 0 <= i < |rows.reading| ==> rows.reading[i] == EMPTY_BLOCK)
    && (forall i :: 0 <= i < |rows.processing| ==>
          var b := rows.processing[i]; b.adapter == [] && b.mstcp == [] && |b.batch| <= MAX_PACKETS)
    && (forall i :: 0 <= i < |rows.toMstcp| ==>
          var b := rows.toMstcp[i]; b.batch == [] && |b.adapter| + |b.mstcp| <= MAX_PACKETS)
    && (forall i :: 0 <= i < |rows.toAdapter| ==>
          var b := rows.toAdapter[i]; b.batch == [] && b.mstcp == [] && |b.adapter| <= MAX_PACKETS)
  }

  /**
    The batches not filtered yet are in the blocks being processed; of what the
    sequential filter makes of the others, the driver has been handed the front
    part and the rest is in the blocks, in order.
   */
  ghost predicate Agrees<S>(f: Filter<S>, st: S, l: Ledger<S>, rows: Rows) {
    var done := |l.batches| - |rows.processing|;
    && 0 <= done && l.batches[done..] == BatchesIn(rows.processing)
    && var out := Sequential(f, st, l.batches[..done]);
    && l.st == out.st
    && l.sentMstcp + MstcpIn(rows.toMstcp) == out.mstcp
    && l.sentAdapter + AdapterIn(rows.toAdapter + rows.toMstcp) == out.adapter
  }

  lemma ReadAgrees<S>(f: Filter<S>, st: S, l: Ledger<S>, rows: Rows, batch: seq<Packet>)
    requires Agrees(f, st, l, rows) && rows.reading != []
    ensures Agrees(f, st, l.(batches := l.batches + [batch]), MoveOn(f, l.st, rows, FinishRead(batch)))
  {
    var batches, done := l.batches + [batch], |l.batches| - |rows.processing|;
    assert batches[..done] == l.batches[..done];
    assert batches[done..] == l.batches[done..] + [batch];
  }

  lemma NextBatch<S>(f: Filter<S>, st: S, batches: seq<seq<Packet>>, n: nat)
    requires n < |batches|
    ensures var out := Sequential(f, st, batches[..n]);
            var added := FilterBatch(f, Output(out.st, [], []), batches[n]);
            Sequential(f, st, batches[..n + 1]) ==
            Output(added.st, out.adapter + added.adapter, out.mstcp + added.mstcp)
  {
    assert batches[..n + 1][..n] == batches[..n];
    FilterBatchExtends(f, Sequential(f, st, batches[..n]), batches[n]);
  }

  lemma AppendBlock(row: seq<Block>, b: Block)
    ensures AdapterIn(row + [b]) == AdapterIn(row) + b.adapter
    ensures MstcpIn(row + [b]) == MstcpIn(row) + b.mstcp
  {
    OneBlock(b);
    AdapterJoins(row, [b]);
    MstcpJoins(row, [b]);
  }

  lemma FirstBatch(batches: seq<seq<Packet>>, n: nat, row: seq<Block>)
    requires n < |batches| && row != [] && batches[n..] == BatchesIn(row)
    ensures batches[n] == row[0].batch && batches[n + 1..] == BatchesIn(row[1..])
  {
  }

  lemma ProcessAgrees<S>(f: Filter<S>, st: S, l: Ledger<S>, rows: Rows)
    requires Agrees(f, st, l, rows) && Clean(rows) && rows.processing != []
    ensures Agrees(f, st, l.(st := FilterBatch(f, Output(l.st, [], []), rows.processing[0].batch).st),
                   MoveOn(f, l.st, rows, FinishProcess))
  {
    var done, b := |l.batches| - |rows.processing|, rows.processing[0];
    var added := FilterBatch(f, Output(l.st, [], []), b.batch);
    var b' := Block([], added.adapter, added.mstcp);
    FirstBatch(l.batches, done, rows.processing);
    NextBatch(f, st, l.batches, done);
    AppendBlock(rows.toMstcp, b');
    AppendBlock(rows.toAdapter + rows.toMstcp, b');
    Regroup(rows.toAdapter, rows.toMstcp, [b']);
    Regroup(l.sentMstcp, MstcpIn(rows.toMstcp), added.mstcp);
    Regroup(l.sentAdapter, AdapterIn(rows.toAdapter + rows.toMstcp), added.adapter);
  }

  lemma Regroup<T>(a: seq<T>, b: seq<T>, c: seq<T>)
    ensures a + (b + c) == (a + b) + c
  {
  }

  lemma MstcpAgrees<S>(f: Filter<S>, st: S, l: Ledger<S>, rows: Rows)
    requires Agrees(f, st, l, rows) && rows.toMstcp != []
    ensures Agrees(f, st, l.(sentMstcp := l.sentMstcp + rows.toMstcp[0].mstcp), MoveOn(f, l.st, rows, FinishMstcp))
  {
    var b, rest := rows.toMstcp[0], rows.toMstcp[1..];
    var b' := b.(mstcp := []);
    OneBlock(b');
    AdapterJoins(rows.toAdapter, rows.toMstcp);
    AdapterJoins(rows.toAdapter, [b']);
    AdapterJoins(rows.toAdapter + [b'], rest);
  }

  lemma AdapterAgrees<S>(f: Filter<S>, st: S, l: Ledger<S>, rows: Rows)
    requires Agrees(f, st, l, rows) && rows.toAdapter != []
    ensures Agrees(f, st, l.(sentAdapter := l.sentAdapter + rows.toAdapter[0].adapter),
                   MoveOn(f, l.st, rows, FinishAdapter))
  {
    assert (rows.toAdapter + rows.toMstcp)[1..] == rows.toAdapter[1..] + rows.toMstcp;
  }

  ghost predicate Inv<S>(f: Filter<S>, st: S, s: State<S>) {
    OnRing(s) && Clean(RowsOf(s)) && Agrees(f, st, s.ledger, RowsOf(s))
  }

  lemma StepKeepsClean<S>(f: Filter<S>, st: S, rows: Rows, step: Step)
    requires Clean(rows) && (step.FinishRead? ==> |step.batch| <= MAX_PACKETS)
    requires step.FinishRead? ==> rows.reading != []
    requires step.FinishProcess? ==> rows.processing != []
    requires step.FinishMstcp? ==> rows.toMstcp != []
    requires step.FinishAdapter? ==> rows.toAdapter != []
    ensures Clean(MoveOn(f, st, rows, step))
  {
    if step.FinishProcess? {
      var b := rows.processing[0];
      NothingIsSentTwice(f, Output(st, b.adapter, b.mstcp), b.batch);
    }
  }

  lemma StepKeepsAgreement<S>(f: Filter<S>, st: S, s: State<S>, step: Step)
    requires Inv(f, st, s) && Ready(s, step)
    ensures Agrees(f, st, Do(f, s, step).ledger, RowsOf(Do(f, s, step)))
  {
    var rows := RowsOf(s);
    RowsMoveOn(f, s, step);
    match step
    case FinishRead(batch) => ReadAgrees(f, st, s.ledger, rows, batch);
    case FinishProcess =>
      assert rows.processing[0] == At(s.blocks, s.processing.held.value);
      ProcessAgrees(f, st, s.ledger, rows);
    case FinishMstcp =>
      assert rows.toMstcp[0] == At(s.blocks, s.toMstcp.held.value);
      MstcpAgrees(f, st, s.ledger, rows);
    case FinishAdapter =>
      assert rows.toAdapter[0] == At(s.blocks, s.toAdapter.held.value);
      AdapterAgrees(f, st, s.ledger, rows);
    case _ =>
  }

  lemma StepKeepsInv<S>(f: Filter<S>, st: S, s: State<S>, step: Step)
    requires Inv(f, st, s) && Ready(s, step)
    ensures Inv(f, st, Do(f, s, step)) && HasRoom(s, step)
  {
    StepKeepsRing(f, s, step);
    RowsMoveOn(f, s, step);
    StepKeepsClean(f, s.ledger.st, RowsOf(s), step);
    StepKeepsAgreement(f, st, s, step);
  }

  // -------------------------------------------------------------------- runs

  /** The state after taking `steps`, in order, from a run's beginning. */
  function After<S>(f: Filter<S>, st: S, steps: seq<Step>): Option<State<S>> {
    if steps == [] then Some(Init(st))
    else
      var before, step := After(f, st, steps[..|steps| - 1]), steps[|steps| - 1];
      if before.Some? && Ready(before.value, step) then Some(Do(f, before.value, step)) else None
  }

  lemma {:induction false} EveryRunKeepsInv<S>(f: Filter<S>, st: S, steps: seq<Step>)
    requires After(f, st, steps).Some?
    ensures Inv(f, st, After(f, st, steps).value)
  {
    if steps == [] {
    } else {
      EveryRunKeepsInv(f, st, steps[..|steps| - 1]);
      StepKeepsInv(f, st, After(f, st, steps[..|steps| - 1]).value, steps[|steps| - 1]);
    }
  }

  /** In every state each block is in exactly one channel or worker, and no send ever waits for room. */
  lemma BlocksAreNeverLost<S>(f: Filter<S>, st: S, steps: seq<Step>, s: State<S>, step: Step)
    requires After(f, st, steps) == Some(s) && Ready(s, step)
    ensures EachOnce(s.Ring()) && |s.Ring()| == 10 && HasRoom(s, step) && Clean(RowsOf(s))
    ensures |s.reading.chan| + |s.processing.chan| + |s.toMstcp.chan| + |s.toAdapter.chan| <= 10 < CHANNEL_CAPACITY
  {
    EveryRunKeepsInv(f, st, steps);
    StepKeepsInv(f, st, s, step);
  }

  /** The packets read in a run, in order. */
  ghost function PacketsRead(steps: seq<Step>): seq<Packet> {
    if steps == [] then []
    else
      var step := steps[|steps| - 1];
      PacketsRead(steps[..|steps| - 1]) + if step.FinishRead? then step.batch else []
  }

  /** The packets of several batches, in order. */
  ghost function Joined(batches: seq<seq<Packet>>): seq<Packet> {
    if batches == [] then [] else Joined(batches[..|batches| - 1]) + batches[|batches| - 1]
  }

  lemma {:induction false} LedgerHoldsWhatWasRead<S>(f: Filter<S>, st: S, steps: seq<Step>)
    requires After(f, st, steps).Some?
    ensures Joined(After(f, st, steps).value.ledger.batches) == PacketsRead(steps)
  {
    if steps == [] {
    } else {
      LedgerHoldsWhatWasRead(f, st, steps[..|steps| - 1]);
    }
  }

  lemma {:induction false} BatchesDoNotMatter<S>(f: Filter<S>, st: S, batches: seq<seq<Packet>>)
    ensures Sequential(f, st, batches) == FilterBatch(f, Output(st, [], []), Joined(batches))
  {
    if batches == [] {
    } else {
      BatchesDoNotMatter(f, st, batches[..|batches| - 1]);
      FilterBatchJoins(f, Output(st, [], []), Joined(batches[..|batches| - 1]), batches[|batches| - 1]);
    }
  }

  lemma {:induction false} JoinedFront(batches: seq<seq<Packet>>, n: nat) returns (rest: seq<Packet>)
    requires n <= |batches|
    ensures Joined(batches) == Joined(batches[..n]) + rest
  {
    if n == |batches| {
      assert batches[..n] == batches;
      rest := [];
    } else {
      rest := JoinedFront(batches[..|batches| - 1], n);
      assert batches[..|batches| - 1][..n] == batches[..n];
      rest := rest + batches[|batches| - 1];
    }
  }

  /** What has been sent is a front part of what one sequential pass over all packets read gives. */
  lemma SentIsFrontPart<S>(f: Filter<S>, st: S, l: Ledger<S>, n: nat)
    requires n <= |l.batches|
    requires l.sentAdapter <= Sequential(f, st, l.batches[..n]).adapter
    requires l.sentMstcp <= Sequential(f, st, l.batches[..n]).mstcp
    ensures var all := FilterBatch(f, Output(st, [], []), Joined(l.batches));
            l.sentAdapter <= all.adapter && l.sentMstcp <= all.mstcp
  {
    var rest := JoinedFront(l.batches, n);
    BatchesDoNotMatter(f, st, l.batches[..n]);
    FilterBatchJoins(f, Output(st, [], []), Joined(l.batches[..n]), rest);
    FilterBatchExtends(f, Sequential(f, st, l.batches[..n]), rest);
  }

  /**
    The pipeline delivers what one sequential pass over the packets read
    delivers: always a front part of it, and all of it once no block is between
    reading and writing.
   */
  lemma PipelineRefinesSequential<S>(f: Filter<S>, st: S, steps: seq<Step>, s: State<S>)
    requires After(f, st, steps) == Some(s)
    ensures var all := FilterBatch(f, Output(st, [], []), PacketsRead(steps));
      && s.ledger.sentAdapter <= all.adapter && s.ledger.sentMstcp <= all.mstcp
      && (s.Ring() == s.reading.Row() ==> all == Output(s.ledger.st, s.ledger.sentAdapter, s.ledger.sentMstcp))
  {
    EveryRunKeepsInv(f, st, steps);
    LedgerHoldsWhatWasRead(f, st, steps);
    var l, rows := s.ledger, RowsOf(s);
    var n := |l.batches| - |rows.processing|;
    SentIsFrontPart(f, st, l, n);
    if s.Ring() == s.reading.Row() {
      assert rows.processing == [] && rows.toMstcp == [] && rows.toAdapter == [];
      assert rows.toAdapter + rows.toMstcp == [];
      assert l.batches[..n] == l.batches;
      BatchesDoNotMatter(f, st, l.batches);
    }
  }

  lemma SomeWorkerIsReady<S>(s: State<S>) returns (step: Step)
    requires s.toAdapter.Row() != [] || s.toMstcp.Row() != [] || s.processing.Row() != []
    ensures Ready(s, step) && !step.TakeRead? && !step.FinishRead?
  {
    if s.toAdapter.Row() != [] {
      step := if s.toAdapter.held.Some? then FinishAdapter else TakeAdapter;
    } else if s.toMstcp.Row() != [] {
      step := if s.toMstcp.held.Some? then FinishMstcp else TakeMstcp;
    } else {
      step := if s.processing.held.Some? then FinishProcess else TakeProcess;
    }
  }

  /** While a block is between reading and writing, one of the three workers there can go on, and has room to. */
  lemma PipelineGoesOn<S>(f: Filter<S>, st: S, steps: seq<Step>, s: State<S>) returns (step: Step)
    requires After(f, st, steps) == Some(s) && s.Ring() != s.reading.Row()
    ensures Ready(s, step) && HasRoom(s, step) && !step.TakeRead? && !step.FinishRead?
  {
    step := SomeWorkerIsReady(s);
    BlocksAreNeverLost(f, st, steps, s, step);
  }
}
