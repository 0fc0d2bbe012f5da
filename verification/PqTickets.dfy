/**
  When a post-quantum query is resumed, told from the steps of a run: the ticket
  stored last for the server, the sends that wiped it, its tag and its lifetime.
 */
module PqTickets {
  import opened Common
  import opened PqResumption

  /** The state before step `i` of a run. */
  ghost function Before(kdf: Kdf, steps: seq<Step>, i: nat): (s: State)
    requires i <= |steps|
    ensures Indexed(s)
  {
    var s := After(kdf, steps[..i]);
    if s.Some? then s.value else INITIAL
  }

  // ------------------------------------------------------------- tickets stored and wiped

  datatype Ticket = Ticket(server: Server, epoch: nat, ticket: Bytes, secret: Secret, response: nat, expiry: Time)

  /** The goroutine of step `i` stores a ticket: of which server is in the ticket. */
  ghost predicate Stores(kdf: Kdf, steps: seq<Step>, i: nat) {
    i < |steps| && steps[i].StoreTicket? && Before(kdf, steps, i).At(steps[i].t).Passed?
  }

  /** The ticket of the response, with the key material and the tag of the query it answers. */
  ghost function StoredAt(kdf: Kdf, steps: seq<Step>, i: nat): Ticket
    requires Stores(kdf, steps, i)
  {
    var s := Before(kdf, steps, i);
    var pc := s.At(steps[i].t);
    var query := s.queries[s.responses[pc.response].query];
    Ticket(query.server, query.epoch, s.responses[pc.response].ticket,
           kdf.resumeSecret(query.server, query.key, query.nonce), pc.response,
           steps[i].now + pc.lifetime * 1_000_000_000)
  }

  ghost predicate StoresFor(kdf: Kdf, steps: seq<Step>, i: nat, v: Server) {
    Stores(kdf, steps, i) && StoredAt(kdf, steps, i).server == v
  }

  /** Step `i` is the last to store a ticket for the server. */
  ghost predicate LastStored(kdf: Kdf, steps: seq<Step>, i: nat, v: Server) {
    StoresFor(kdf, steps, i, v) && forall j :: i < j < |steps| ==> !StoresFor(kdf, steps, j, v)
  }

  /** Step `j` sends a query to the ticket's server under another tag, while the ticket has not expired. */
  ghost predicate Wipes(kdf: Kdf, steps: seq<Step>, j: nat, k: Ticket) {
    && j < |steps| && steps[j].Send?
    && var pc := Before(kdf, steps, j).At(steps[j].t);
    && pc.Tagged? && pc.server == k.server && pc.epoch != k.epoch && steps[j].now < k.expiry
  }

  ghost predicate WipedSince(kdf: Kdf, steps: seq<Step>, i: nat, k: Ticket) {
    exists j :: i < j < |steps| && Wipes(kdf, steps, j, k)
  }

  /** The ticket of step `i` serves a query to `v` with this tag at this time. */
  ghost predicate Serves(kdf: Kdf, steps: seq<Step>, i: nat, v: Server, epoch: nat, now: Time) {
    && LastStored(kdf, steps, i, v)
    && var k := StoredAt(kdf, steps, i);
    && k.ticket != [] && !WipedSince(kdf, steps, i, k) && k.epoch == epoch && now < k.expiry
  }

  // ------------------------------------------------------------- the slot follows the steps

  lemma PrefixIsSame(kdf: Kdf, steps: seq<Step>, step: Step, i: nat)
    requires i <= |steps|
    ensures Before(kdf, steps + [step], i) == Before(kdf, steps, i)
  {
    assert (steps + [step])[..i] == steps[..i];
  }

  lemma StoresBefore(kdf: Kdf, steps: seq<Step>, step: Step, i: nat)
    requires i < |steps|
    ensures Stores(kdf, steps + [step], i) <==> Stores(kdf, steps, i)
    ensures Stores(kdf, steps, i) ==> StoredAt(kdf, steps + [step], i) == StoredAt(kdf, steps, i)
  {
    PrefixIsSame(kdf, steps, step, i);
    assert (steps + [step])[i] == steps[i];
  }

  lemma WipesBefore(kdf: Kdf, steps: seq<Step>, step: Step, j: nat, k: Ticket)
    requires j < |steps|
    ensures Wipes(kdf, steps + [step], j, k) <==> Wipes(kdf, steps, j, k)
  {
    PrefixIsSame(kdf, steps, step, j);
    assert (steps + [step])[j] == steps[j];
  }

  lemma WipedNext(kdf: Kdf, steps: seq<Step>, step: Step, i: nat, k: Ticket)
    requires i < |steps|
    ensures WipedSince(kdf, steps + [step], i, k) <==>
      WipedSince(kdf, steps, i, k) || Wipes(kdf, steps + [step], |steps|, k)
  {
    forall j: nat | j < |steps|
      ensures Wipes(kdf, steps + [step], j, k) <==> Wipes(kdf, steps, j, k)
    {
      WipesBefore(kdf, steps, step, j, k);
    }
    if WipedSince(kdf, steps, i, k) {
      var j :| i < j < |steps| && Wipes(kdf, steps, j, k);
      assert Wipes(kdf, steps + [step], j, k);
    }
  }

  lemma LastStoredNext(kdf: Kdf, steps: seq<Step>, step: Step, i: nat, v: Server)
    requires i < |steps| && !StoresFor(kdf, steps + [step], |steps|, v)
    ensures LastStored(kdf, steps + [step], i, v) <==> LastStored(kdf, steps, i, v)
  {
    forall j: nat | j < |steps|
      ensures StoresFor(kdf, steps + [step], j, v) <==> StoresFor(kdf, steps, j, v)
    {
      StoresBefore(kdf, steps, step, j);
    }
  }

  /** What is in the slot once step `i` has stored the ticket last. */
  ghost predicate Keeps(slot: Slot, from: nat, k: Ticket, wiped: bool) {
    if k.ticket != [] && wiped then slot.ticket == []
    else slot == Slot(k.ticket, k.secret, k.expiry, k.epoch) && from == k.response
  }

  ghost predicate KeptSince(kdf: Kdf, steps: seq<Step>, s: State, i: nat, v: Server) {
    && LastStored(kdf, steps, i, v)
    && var k := StoredAt(kdf, steps, i); Keeps(s.SlotOf(v), s.FromOf(v), k, WipedSince(kdf, steps, i, k))
  }

  ghost predicate SlotFollows(kdf: Kdf, steps: seq<Step>, s: State, v: Server) {
    || (s.SlotOf(v).ticket == [] && forall i: nat :: !StoresFor(kdf, steps, i, v))
    || exists i: nat :: KeptSince(kdf, steps, s, i, v)
  }

  /** `step` is taken after `steps`. */
  ghost predicate Takes(kdf: Kdf, steps: seq<Step>, step: Step, s: State) {
    After(kdf, steps) == Some(s) && Enabled(s, step)
  }

  lemma TakenNext(kdf: Kdf, steps: seq<Step>, step: Step, s: State)
    requires Takes(kdf, steps, step, s)
    ensures Before(kdf, steps + [step], |steps|) == s && (steps + [step])[|steps|] == step
    ensures After(kdf, steps + [step]) == Some(Do(kdf, s, step))
  {
    assert (steps + [step])[..|steps|] == steps;
  }

  lemma StoringFollows(kdf: Kdf, steps: seq<Step>, step: Step, s: State, v: Server)
    requires Takes(kdf, steps, step, s) && StoresFor(kdf, steps + [step], |steps|, v)
    ensures SlotFollows(kdf, steps + [step], Do(kdf, s, step), v)
  {
    TakenNext(kdf, steps, step, s);
    var k := StoredAt(kdf, steps + [step], |steps|);
    assert !WipedSince(kdf, steps + [step], |steps|, k);
    assert KeptSince(kdf, steps + [step], Do(kdf, s, step), |steps|, v);
  }

  lemma NeverStored(kdf: Kdf, steps: seq<Step>, step: Step, v: Server)
    requires !StoresFor(kdf, steps + [step], |steps|, v) && forall i: nat :: !StoresFor(kdf, steps, i, v)
    ensures forall i: nat :: !StoresFor(kdf, steps + [step], i, v)
  {
    forall i: nat
      ensures !StoresFor(kdf, steps + [step], i, v)
    {
      if i < |steps| {
        StoresBefore(kdf, steps, step, i);
        assert !StoresFor(kdf, steps, i, v);
      }
    }
  }

  /** A slot that nothing is stored in stays as it is, or is wiped. */
  lemma NotStoring(kdf: Kdf, steps: seq<Step>, step: Step, s: State, v: Server)
    requires Takes(kdf, steps, step, s) && !StoresFor(kdf, steps + [step], |steps|, v)
    ensures Do(kdf, s, step).FromOf(v) == s.FromOf(v)
    ensures Do(kdf, s, step).SlotOf(v) ==
      (if step.Send? && s.At(step.t).server == v then AfterGet(s.SlotOf(v), s.At(step.t).epoch, step.now)
       else s.SlotOf(v))
  {
    TakenNext(kdf, steps, step, s);
  }

  lemma KeptNext(kdf: Kdf, steps: seq<Step>, step: Step, s: State, v: Server, i: nat)
    requires Takes(kdf, steps, step, s) && !StoresFor(kdf, steps + [step], |steps|, v)
    requires KeptSince(kdf, steps, s, i, v)
    ensures SlotFollows(kdf, steps + [step], Do(kdf, s, step), v)
  {
    var k := StoredAt(kdf, steps, i);
    StoresBefore(kdf, steps, step, i);
    LastStoredNext(kdf, steps, step, i, v);
    WipedNext(kdf, steps, step, i, k);
    NotStoring(kdf, steps, step, s, v);
    TakenNext(kdf, steps, step, s);
    assert KeptSince(kdf, steps + [step], Do(kdf, s, step), i, v);
  }

  lemma StepFollows(kdf: Kdf, steps: seq<Step>, step: Step, s: State, v: Server)
    requires Takes(kdf, steps, step, s) && SlotFollows(kdf, steps, s, v)
    ensures SlotFollows(kdf, steps + [step], Do(kdf, s, step), v)
  {
    if StoresFor(kdf, steps + [step], |steps|, v) {
      StoringFollows(kdf, steps, step, s, v);
    } else if i: nat :| KeptSince(kdf, steps, s, i, v) {
      KeptNext(kdf, steps, step, s, v, i);
    } else {
      NeverStored(kdf, steps, step, v);
      NotStoring(kdf, steps, step, s, v);
    }
  }

  lemma {:induction false} EverySlotFollows(kdf: Kdf, steps: seq<Step>, s: State, v: Server)
    requires After(kdf, steps) == Some(s)
    ensures SlotFollows(kdf, steps, s, v)
    decreases |steps|
  {
    if steps == [] {
      assert s.SlotOf(v).ticket == [];
    } else {
      var front, step := steps[..|steps| - 1], steps[|steps| - 1];
      var before := After(kdf, front).value;
      EverySlotFollows(kdf, front, before, v);
      StepFollows(kdf, front, step, before, v);
      assert steps == front + [step];
    }
  }

  lemma OneLastStored(kdf: Kdf, steps: seq<Step>, i: nat, j: nat, v: Server)
    requires LastStored(kdf, steps, i, v) && LastStored(kdf, steps, j, v)
    ensures i == j
  {
  }

  /** A ticket serves a query exactly when the slot holds it and it is usable. */
  lemma ServesIffUsable(kdf: Kdf, steps: seq<Step>, s: State, v: Server, epoch: nat, now: Time)
    requires After(kdf, steps) == Some(s)
    ensures forall i: nat :: Serves(kdf, steps, i, v, epoch, now) ==>
      var k := StoredAt(kdf, steps, i);
      s.SlotOf(v) == Slot(k.ticket, k.secret, k.expiry, k.epoch) && s.FromOf(v) == k.response
    ensures Usable(s.SlotOf(v), epoch, now) ==> exists i: nat :: Serves(kdf, steps, i, v, epoch, now)
  {
    EverySlotFollows(kdf, steps, s, v);
    forall i: nat | Serves(kdf, steps, i, v, epoch, now)
      ensures var k := StoredAt(kdf, steps, i);
        s.SlotOf(v) == Slot(k.ticket, k.secret, k.expiry, k.epoch) && s.FromOf(v) == k.response
    {
      var j: nat :| KeptSince(kdf, steps, s, j, v);
      OneLastStored(kdf, steps, i, j, v);
    }
    if Usable(s.SlotOf(v), epoch, now) {
      var j: nat :| KeptSince(kdf, steps, s, j, v);
      assert Serves(kdf, steps, j, v, epoch, now);
    }
  }

  /** Resumed with the ticket of step `i`, under the key derived from it. */
  ghost function ResumedQuery(kdf: Kdf, steps: seq<Step>, i: nat, v: Server, epoch: nat, nonce: Nonce): Query
    requires Stores(kdf, steps, i)
  {
    var k := StoredAt(kdf, steps, i);
    Query(v, epoch, nonce, kdf.resumedKey(v, k.secret, nonce, k.ticket), Resumed(k.ticket, k.secret, k.response))
  }

  /**
    A query is resumed exactly when a ticket serves it: the last one stored for
    its server, not wiped since, stored under its tag and not expired. Otherwise
    it is a fresh one under the key that was just encapsulated.
   */
  lemma SendResumesIff(kdf: Kdf, steps: seq<Step>, s: State, t: Thread, now: Time, kemKey: Key)
    requires After(kdf, steps) == Some(s) && Enabled(s, Send(t, now, kemKey))
    ensures After(kdf, steps + [Send(t, now, kemKey)]).Some?
    ensures
      var v, epoch, nonce := s.At(t).server, s.At(t).epoch, s.At(t).nonce;
      var queries := After(kdf, steps + [Send(t, now, kemKey)]).value.queries;
      && (forall i: nat :: Serves(kdf, steps, i, v, epoch, now) ==>
            queries == s.queries + [ResumedQuery(kdf, steps, i, v, epoch, nonce)])
      && ((forall i: nat :: !Serves(kdf, steps, i, v, epoch, now)) ==>
            queries == s.queries + [Query(v, epoch, nonce, kemKey, Fresh)])
  {
    TakenNext(kdf, steps, Send(t, now, kemKey), s);
    ServesIffUsable(kdf, steps, s, s.At(t).server, s.At(t).epoch, now);
  }

  // ------------------------------------------------------------- where tags, tickets and epochs come from

  /** The goroutine has taken no step since step `i`. */
  ghost predicate NoneSince(steps: seq<Step>, i: nat, t: Thread) {
    forall j :: i < j < |steps| ==> steps[j].t != t
  }

  /** Step `i` tagged the goroutine's query with the epoch at that time. */
  ghost predicate TaggedAt(kdf: Kdf, steps: seq<Step>, i: nat, t: Thread, pc: Pc) {
    && i < |steps| && NoneSince(steps, i, t)
    && pc.Tagged? && steps[i] == Tag(t, pc.server, pc.nonce) && pc.epoch == Before(kdf, steps, i).epoch
  }

  /** The plaintext starts with a control block that carries the ticket. */
  ghost predicate Carries(plaintext: Bytes, lifetime: nat, ticket: Bytes) {
    && lifetime < 0x1_0000_0000 && |ticket| < 0x1_0000
    && exists rest, body :: IsLaidOut(plaintext, BuildControl(lifetime, ticket) + rest, body)
  }

  ghost predicate IsLaidOut(plaintext: Bytes, control: Bytes, body: Bytes) {
    |control| < 0x1_0000 && plaintext == PutUint16(|control|) + control + body
  }

  lemma Uint16RoundTrip(b: Bytes)
    requires |b| == 2
    ensures Uint16(b) < 0x1_0000 && PutUint16(Uint16(b)) == b
  {
  }

  lemma Uint32RoundTrip(b: Bytes)
    requires |b| == 4
    ensures Uint32(b) < 0x1_0000_0000 && PutUint32(Uint32(b)) == b
  {
    Uint16RoundTrip(b[..2]);
    Uint16RoundTrip(b[2..]);
    assert b == b[..2] + b[2..];
  }

  /** A plaintext is split exactly where the length at its start says, and refused when it is shorter. */
  lemma SplitIff(plaintext: Bytes, control: Bytes, body: Bytes)
    ensures StripControl(plaintext) == Some((control, body)) <==> IsLaidOut(plaintext, control, body)
  {
    if StripControl(plaintext) == Some((control, body)) {
      Uint16RoundTrip(plaintext[..2]);
      assert plaintext == plaintext[..2] + control + body;
    }
    if IsLaidOut(plaintext, control, body) {
      assert plaintext[..2] == PutUint16(|control|);
    }
  }

  /** What the two parsers make of a plaintext. */
  ghost function Parse(plaintext: Bytes): Option<(nat, Bytes)> {
    var split := StripControl(plaintext);
    if split.None? then None else ParseControl(split.value.0)
  }

  lemma ParsedIsCarried(plaintext: Bytes)
    requires Parse(plaintext).Some?
    ensures Carries(plaintext, Parse(plaintext).value.0, Parse(plaintext).value.1)
  {
    var (control, body) := StripControl(plaintext).value;
    var (lifetime, ticket) := ParseControl(control).value;
    Uint16RoundTrip(plaintext[..2]);
    assert plaintext == plaintext[..2] + control + body;
    Uint32RoundTrip(control[5..9]);
    Uint16RoundTrip(control[9..11]);
    var rest := control[11 + |ticket|..];
    assert control == control[..4] + [control[4]] + control[5..9] + control[9..11] + ticket + rest;
    assert control == BuildControl(lifetime, ticket) + rest;
    assert IsLaidOut(plaintext, BuildControl(lifetime, ticket) + rest, body);
  }

  lemma CarriedIsParsed(plaintext: Bytes, lifetime: nat, ticket: Bytes, rest: Bytes, body: Bytes)
    requires lifetime < 0x1_0000_0000 && |ticket| < 0x1_0000
    requires IsLaidOut(plaintext, BuildControl(lifetime, ticket) + rest, body)
    ensures Parse(plaintext) == Some((lifetime, ticket))
  {
    var control := BuildControl(lifetime, ticket) + rest;
    assert plaintext[..2] == PutUint16(|control|);
    assert plaintext[2..2 + |control|] == control;
    assert control[..4] == CONTROL_MAGIC;
    assert control[5..9] == PutUint32(lifetime);
    assert PutUint32(lifetime)[..2] == PutUint16(lifetime / 0x1_0000);
    assert PutUint32(lifetime)[2..] == PutUint16(lifetime % 0x1_0000);
    assert control[9..11] == PutUint16(|ticket|);
    assert control[11..11 + |ticket|] == ticket;
  }

  /** A ticket is read from a plaintext exactly when its control block carries it, whatever follows. */
  lemma TicketIsReadIff(plaintext: Bytes, lifetime: nat, ticket: Bytes)
    ensures Parse(plaintext) == Some((lifetime, ticket)) <==> Carries(plaintext, lifetime, ticket)
  {
    if Parse(plaintext) == Some((lifetime, ticket)) {
      ParsedIsCarried(plaintext);
    }
    if Carries(plaintext, lifetime, ticket) {
      var rest, body :| IsLaidOut(plaintext, BuildControl(lifetime, ticket) + rest, body);
      CarriedIsParsed(plaintext, lifetime, ticket, rest, body);
    }
  }

  /** The octets of a response with an hour's ticket of one octet. */
  lemma HourTicket(ticket: byte, body: Bytes)
    ensures Carries([0, 12, 0x50, 0x51, 0x44, 0x52, 1, 0, 0, 14, 16, 0, 1, ticket] + body, 3600, [ticket])
  {
    var control := BuildControl(3600, [ticket]);
    assert PutUint32(3600) == [0, 0, 14, 16] && PutUint16(1) == [0, 1] && PutUint16(12) == [0, 12];
    assert control == [0x50, 0x51, 0x44, 0x52, 1, 0, 0, 14, 16, 0, 1, ticket];
    assert IsLaidOut([0, 12, 0x50, 0x51, 0x44, 0x52, 1, 0, 0, 14, 16, 0, 1, ticket] + body, control + [], body);
  }

  /** Step `a` received the response that the goroutine holds, with its ticket and lifetime. */
  ghost predicate ReceivedAt(steps: seq<Step>, a: nat, t: Thread, s: State, pc: Pc) {
    && a < |steps| && steps[a].Receive? && steps[a].t == t
    && pc.Holds() && pc.response < |s.responses| && s.responses[pc.response].query == steps[a].query
    && Carries(steps[a].plaintext, pc.lifetime, s.responses[pc.response].ticket)
  }

  /** Since step `a` the goroutine has only compared epochs, at step `b`, and they agreed. */
  ghost predicate ComparedAt(kdf: Kdf, steps: seq<Step>, a: nat, b: nat, t: Thread, query: nat) {
    && a < b < |steps| && steps[b] == CompareEpochs(t) && NoneSince(steps, b, t)
    && (forall j :: a < j < b ==> steps[j].t != t)
    && query < |Before(kdf, steps, b).queries|
    && Before(kdf, steps, b).queries[query].epoch == Before(kdf, steps, b).epoch
  }

  /** What a goroutine is doing is what its last steps set it to do. */
  ghost predicate Explained(kdf: Kdf, steps: seq<Step>, s: State, t: Thread) {
    match s.At(t)
    case Idle => true
    case Tagged(_, _, _) => exists i: nat :: TaggedAt(kdf, steps, i, t, s.At(t))
    case Parsed(_, _) => exists a: nat :: ReceivedAt(steps, a, t, s, s.At(t)) && NoneSince(steps, a, t)
    case Passed(_, _) =>
      exists a: nat, b: nat ::
        ReceivedAt(steps, a, t, s, s.At(t)) && ComparedAt(kdf, steps, a, b, t, steps[a].query)
  }

  lemma ReceivedBefore(steps: seq<Step>, step: Step, a: nat, t: Thread, s: State, s': State, pc: Pc)
    requires ReceivedAt(steps, a, t, s, pc) && s.responses <= s'.responses
    ensures ReceivedAt(steps + [step], a, t, s', pc)
  {
    assert (steps + [step])[a] == steps[a];
  }

  lemma ComparedBefore(kdf: Kdf, steps: seq<Step>, step: Step, a: nat, b: nat, t: Thread, query: nat)
    requires ComparedAt(kdf, steps, a, b, t, query) && step.t != t
    ensures ComparedAt(kdf, steps + [step], a, b, t, query)
  {
    PrefixIsSame(kdf, steps, step, b);
  }

  lemma OtherGoroutine(kdf: Kdf, steps: seq<Step>, step: Step, s: State, t: Thread)
    requires Takes(kdf, steps, step, s) && step.t != t && Explained(kdf, steps, s, t)
    ensures Explained(kdf, steps + [step], Do(kdf, s, step), t)
  {
    var s', pc := Do(kdf, s, step), s.At(t);
    assert s'.At(t) == pc && s.responses <= s'.responses;
    match pc
    case Idle =>
    case Tagged(_, _, _) =>
      var i: nat :| TaggedAt(kdf, steps, i, t, pc);
      PrefixIsSame(kdf, steps, step, i);
      assert TaggedAt(kdf, steps + [step], i, t, pc);
    case Parsed(_, _) =>
      var a: nat :| ReceivedAt(steps, a, t, s, pc) && NoneSince(steps, a, t);
      ReceivedBefore(steps, step, a, t, s, s', pc);
      assert NoneSince(steps + [step], a, t);
    case Passed(_, _) =>
      var a: nat, b: nat :| ReceivedAt(steps, a, t, s, pc) && ComparedAt(kdf, steps, a, b, t, steps[a].query);
      ReceivedBefore(steps, step, a, t, s, s', pc);
      ComparedBefore(kdf, steps, step, a, b, t, steps[a].query);
      assert (steps + [step])[a] == steps[a];
  }

  lemma OwnReceive(kdf: Kdf, steps: seq<Step>, step: Step, s: State)
    requires Takes(kdf, steps, step, s) && step.Receive?
    ensures Explained(kdf, steps + [step], Do(kdf, s, step), step.t)
  {
    TakenNext(kdf, steps, step, s);
    var s' := Do(kdf, s, step);
    if s'.At(step.t).Parsed? {
      ParsedIsCarried(step.plaintext);
      assert ReceivedAt(steps + [step], |steps|, step.t, s', s'.At(step.t));
      assert NoneSince(steps + [step], |steps|, step.t);
    }
  }

  lemma OwnCompare(kdf: Kdf, steps: seq<Step>, step: Step, s: State)
    requires Takes(kdf, steps, step, s) && step.CompareEpochs? && Explained(kdf, steps, s, step.t)
    ensures Explained(kdf, steps + [step], Do(kdf, s, step), step.t)
  {
    TakenNext(kdf, steps, step, s);
    var s', t := Do(kdf, s, step), step.t;
    if s'.At(t).Passed? {
      var a: nat :| ReceivedAt(steps, a, t, s, s.At(t)) && NoneSince(steps, a, t);
      ReceivedBefore(steps, step, a, t, s, s', s.At(t));
      assert ReceivedAt(steps + [step], a, t, s', s'.At(t));
      assert ComparedAt(kdf, steps + [step], a, |steps|, t, (steps + [step])[a].query);
    }
  }

  lemma OwnTag(kdf: Kdf, steps: seq<Step>, step: Step, s: State)
    requires Takes(kdf, steps, step, s) && step.Tag?
    ensures Explained(kdf, steps + [step], Do(kdf, s, step), step.t)
  {
    TakenNext(kdf, steps, step, s);
    var s' := Do(kdf, s, step);
    assert TaggedAt(kdf, steps + [step], |steps|, step.t, s'.At(step.t));
  }

  /** Every tag is the epoch at its Tag step, and every ticket about to be stored came with a response of that epoch. */
  lemma {:induction false} EveryGoroutineIsExplained(kdf: Kdf, steps: seq<Step>, s: State, t: Thread)
    requires After(kdf, steps) == Some(s)
    ensures Explained(kdf, steps, s, t)
    decreases |steps|
  {
    if steps == [] {
    } else {
      var front, step := steps[..|steps| - 1], steps[|steps| - 1];
      var before := After(kdf, front).value;
      EveryGoroutineIsExplained(kdf, front, before, t);
      assert steps == front + [step];
      if step.t != t {
        OtherGoroutine(kdf, front, step, before, t);
      } else if step.Tag? {
        OwnTag(kdf, front, step, before);
      } else if step.Receive? {
        OwnReceive(kdf, front, step, before);
      } else if step.CompareEpochs? {
        OwnCompare(kdf, front, step, before);
      }
    }
  }

  /** The fingerprint of the last check of the network, empty when there was none. */
  ghost function LastFingerprint(steps: seq<Step>): string {
    if steps == [] then ""
    else
      var step := steps[|steps| - 1];
      if step.CheckNetwork? then step.fingerprint else LastFingerprint(steps[..|steps| - 1])
  }

  /** Step `i` saw another fingerprint than the check before it, which had one. */
  ghost predicate ChangesAt(steps: seq<Step>, i: nat) {
    && i < |steps| && steps[i].CheckNetwork?
    && LastFingerprint(steps[..i]) != "" && steps[i].fingerprint != LastFingerprint(steps[..i])
  }

  ghost function Changes(steps: seq<Step>): set<nat> {
    set i: nat | i < |steps| && ChangesAt(steps, i)
  }

  lemma ChangesNext(steps: seq<Step>, step: Step)
    ensures |Changes(steps + [step])| == |Changes(steps)| +
      if step.CheckNetwork? && LastFingerprint(steps) != "" && step.fingerprint != LastFingerprint(steps) then 1 else 0
    ensures LastFingerprint(steps + [step]) == if step.CheckNetwork? then step.fingerprint else LastFingerprint(steps)
  {
    assert (steps + [step])[..|steps|] == steps;
    forall i: nat | i < |steps|
      ensures ChangesAt(steps + [step], i) <==> ChangesAt(steps, i)
    {
      assert (steps + [step])[..i] == steps[..i];
    }
    assert Changes(steps + [step]) ==
      Changes(steps) + if ChangesAt(steps + [step], |steps|) then {|steps|} else {};
  }

  /** The epoch is the number of network changes so far. */
  lemma {:induction false} EpochCountsChanges(kdf: Kdf, steps: seq<Step>, s: State)
    requires After(kdf, steps) == Some(s)
    ensures s.epoch == |Changes(steps)| && s.last == LastFingerprint(steps)
    decreases |steps|
  {
    if steps == [] {
      assert Changes(steps) == {};
    } else {
      var front, step := steps[..|steps| - 1], steps[|steps| - 1];
      EpochCountsChanges(kdf, front, After(kdf, front).value);
      assert steps == front + [step];
      ChangesNext(front, step);
    }
  }

  // ------------------------------------------------------------- tickets are kept and used

  /** A goroutine goes on with a ticket exactly when the response carries one. */
  lemma ReceivingHoldsIff(kdf: Kdf, steps: seq<Step>, s: State, t: Thread, query: nat, plaintext: Bytes)
    requires Takes(kdf, steps, Receive(t, query, plaintext), s)
    ensures Do(kdf, s, Receive(t, query, plaintext)).At(t).Parsed? <==>
      exists lifetime, ticket :: Carries(plaintext, lifetime, ticket)
  {
    if Parse(plaintext).Some? {
      ParsedIsCarried(plaintext);
    }
    if lifetime, ticket :| Carries(plaintext, lifetime, ticket) {
      TicketIsReadIff(plaintext, lifetime, ticket);
    }
  }

  /** And stores it exactly when the epoch is still the tag of the query that was answered. */
  lemma ComparingPassesIff(kdf: Kdf, steps: seq<Step>, s: State, t: Thread)
    requires Takes(kdf, steps, CompareEpochs(t), s)
    ensures
      var s' := Do(kdf, s, CompareEpochs(t));
      s'.At(t).Passed? <==> s.queries[s.responses[s.At(t).response].query].epoch == s.epoch
  {
  }

  lemma TwoSteps(kdf: Kdf, steps: seq<Step>, a: Step, b: Step, s: State)
    requires Takes(kdf, steps, a, s) && Enabled(Do(kdf, s, a), b)
    ensures After(kdf, steps + [a, b]) == Some(Do(kdf, Do(kdf, s, a), b))
  {
    TakenNext(kdf, steps, a, s);
    TakenNext(kdf, steps + [a], b, Do(kdf, s, a));
    assert steps + [a, b] == steps + [a] + [b];
  }

  /** The first query of a run. */
  lemma Asks(kdf: Kdf, v: Server, nonce: Nonce, kemKey: Key, sent: Time) returns (steps: seq<Step>, s: State)
    ensures steps == [Tag(0, v, nonce), Send(0, sent, kemKey)] && After(kdf, steps) == Some(s)
    ensures s.At(0).Idle? && s.epoch == 0 && s.queries == [Query(v, 0, nonce, kemKey, Fresh)] && s.responses == []
  {
    var a, b := Tag(0, v, nonce), Send(0, sent, kemKey);
    TwoSteps(kdf, [], a, b, INITIAL);
    steps, s := [] + [a, b], Do(kdf, Do(kdf, INITIAL, a), b);
  }

  lemma Receives(kdf: Kdf, steps: seq<Step>, s: State, plaintext: Bytes, lifetime: nat, ticket: Bytes)
    returns (steps': seq<Step>, s': State)
    requires After(kdf, steps) == Some(s) && s.At(0).Idle? && |s.queries| == 1 && s.queries[0].epoch == s.epoch
    requires s.responses == [] && Carries(plaintext, lifetime, ticket)
    ensures steps' == steps + [Receive(0, 0, plaintext), CompareEpochs(0)] && After(kdf, steps') == Some(s')
    ensures s'.At(0) == Passed(0, lifetime) && s'.responses == [Response(0, ticket)]
    ensures s'.queries == s.queries && s'.epoch == s.epoch
  {
    TicketIsReadIff(plaintext, lifetime, ticket);
    var a, b := Receive(0, 0, plaintext), CompareEpochs(0);
    TwoSteps(kdf, steps, a, b, s);
    steps', s' := steps + [a, b], Do(kdf, Do(kdf, s, a), b);
  }

  /** The ticket is stored, and used for the next query. */
  lemma StoresAndSends(kdf: Kdf, steps: seq<Step>, s: State, lifetime: nat, ticket: Bytes, at: Time,
                       nonce: Nonce, kemKey: Key, now: Time) returns (steps': seq<Step>, s': State)
    requires After(kdf, steps) == Some(s) && s.At(0) == Passed(0, lifetime) && |s.queries| == 1
    requires s.responses == [Response(0, ticket)] && ticket != [] && now < at + lifetime * 1_000_000_000
    requires s.queries[0].epoch == s.epoch
    ensures
      var q := s.queries[0];
      var secret := kdf.resumeSecret(q.server, q.key, q.nonce);
      && steps' == steps + [StoreTicket(0, at)] + [Tag(0, q.server, nonce), Send(0, now, kemKey)]
      && After(kdf, steps') == Some(s')
      && s'.queries == [q, Query(q.server, q.epoch, nonce, kdf.resumedKey(q.server, secret, nonce, ticket),
                                 Resumed(ticket, secret, 0))]
  {
    var v := s.queries[0].server;
    TakenNext(kdf, steps, StoreTicket(0, at), s);
    var stored := Do(kdf, s, StoreTicket(0, at));
    var a, b := Tag(0, v, nonce), Send(0, now, kemKey);
    TwoSteps(kdf, steps + [StoreTicket(0, at)], a, b, stored);
    steps', s' := steps + [StoreTicket(0, at)] + [a, b], Do(kdf, Do(kdf, stored, a), b);
  }

  /** Before its ticket expires, the next query to a server is resumed with it. */
  lemma NextQueryResumes(kdf: Kdf, v: Server, nonce: Nonce, kemKey: Key, sent: Time, plaintext: Bytes,
                         lifetime: nat, ticket: Bytes, at: Time, nonce': Nonce, kemKey': Key, now: Time)
    requires Carries(plaintext, lifetime, ticket) && ticket != [] && now < at + lifetime * 1_000_000_000
    ensures
      var steps := [Tag(0, v, nonce), Send(0, sent, kemKey), Receive(0, 0, plaintext), CompareEpochs(0),
                    StoreTicket(0, at), Tag(0, v, nonce'), Send(0, now, kemKey')];
      var secret := kdf.resumeSecret(v, kemKey, nonce);
      && After(kdf, steps).Some?
      && After(kdf, steps).value.queries ==
         [Query(v, 0, nonce, kemKey, Fresh),
          Query(v, 0, nonce', kdf.resumedKey(v, secret, nonce', ticket), Resumed(ticket, secret, 0))]
  {
    var a, s1 := Asks(kdf, v, nonce, kemKey, sent);
    var b, s2 := Receives(kdf, a, s1, plaintext, lifetime, ticket);
    var c, s3 := StoresAndSends(kdf, b, s2, lifetime, ticket, at, nonce', kemKey', now);
    assert c == [Tag(0, v, nonce), Send(0, sent, kemKey), Receive(0, 0, plaintext), CompareEpochs(0),
                 StoreTicket(0, at), Tag(0, v, nonce'), Send(0, now, kemKey')];
  }
}
