/**
  Post-quantum resumption tickets: the ticket slot of a server, the network
  monitor that counts epochs, the control block that carries tickets, and every
  interleaving of network changes, queries and responses.
 */
module PqResumption {
  import opened Common

  type Bytes = seq<byte>
  type Time = int
  type Secret = nat
  type Key = nat
  type Nonce = nat

  // ------------------------------------------------------------- ticket slot

  /** The stored ticket; the empty ticket is no ticket. */
  datatype Slot = Slot(ticket: Bytes, secret: Secret, expiry: Time, epoch: nat)

  const EMPTY_SLOT := Slot([], 0, 0, 0)

  /** What get leaves behind. */
  function AfterGet(slot: Slot, epoch: nat, now: Time): Slot {
    if slot.ticket != [] && now < slot.expiry && slot.epoch != epoch then EMPTY_SLOT.(epoch := slot.epoch)
    else slot
  }

  predicate Usable(slot: Slot, epoch: nat, now: Time) {
    slot.ticket != [] && now < slot.expiry && slot.epoch == epoch
  }

  class ResumptionState {
    var ticket: Bytes
    var secret: Secret
    var expiry: Time
    var epoch: nat

    function View(): Slot
      reads this
    {
      Slot(ticket, secret, expiry, epoch)
    }

    constructor ()
      ensures View() == EMPTY_SLOT
    {
      ticket, secret, expiry, epoch := [], 0, 0, 0;
    }

    method Store(ticket: Bytes, secret: Secret, expiry: Time, epoch: nat)
      modifies this
      ensures View() == Slot(ticket, secret, expiry, epoch)
    {
      this.ticket := ticket;
      this.secret := secret;
      this.expiry := expiry;
      this.epoch := epoch;
    }

    method Get(currentEpoch: nat, now: Time) returns (r: Option<(Bytes, Secret)>)
      modifies this
      ensures r.Some? <==> Usable(old(View()), currentEpoch, now)
      ensures r.Some? ==> r.value == (old(ticket), old(secret))
      ensures View() == AfterGet(old(View()), currentEpoch, now)
    {
      if ticket == [] || !(now < expiry) {
        return None;
      }
      if epoch != currentEpoch {
        ticket, secret, expiry := [], 0, 0;
        return None;
      }
      return Some((ticket, secret));
    }
  }

  // --------------------------------------------------------- network monitor

  class NetworkMonitor {
    var epoch: nat
    var last: string

    constructor ()
      ensures epoch == 0 && last == ""
    {
      epoch, last := 0, "";
    }

    method Check(fingerprint: string) returns (changed: bool)
      modifies this
      ensures changed <==> old(last) != "" && fingerprint != old(last)
      ensures epoch == old(epoch) + if changed then 1 else 0
      ensures last == fingerprint
    {
      if last == "" {
        last := fingerprint;
        return false;
      }
      if last == fingerprint {
        return false;
      }
      last := fingerprint;
      epoch := epoch + 1;
      return true;
    }
  }

  // ----------------------------------------------------------- control block

  const CONTROL_MAGIC: Bytes := [0x50, 0x51, 0x44, 0x52]  // PQDR
  const CONTROL_VERSION: byte := 1

  /** Splits a decrypted response into its control block and its padded body. */
  function StripControl(plaintext: Bytes): Option<(Bytes, Bytes)> {
    if |plaintext| < 2 then None
    else
      var n := Uint16(plaintext[..2]);
      if 2 + n > |plaintext| then None else Some((plaintext[2..2 + n], plaintext[2 + n..]))
  }

  /** The lifetime and the ticket in a control block. */
  function ParseControl(control: Bytes): Option<(nat, Bytes)> {
    if |control| < 11 || control[..4] != CONTROL_MAGIC || control[4] != CONTROL_VERSION then None
    else
      var n := Uint16(control[9..11]);
      if 11 + n > |control| then None else Some((Uint32(control[5..9]), control[11..11 + n]))
  }

  function BuildControl(lifetime: nat, ticket: Bytes): Bytes
    requires lifetime < 0x1_0000_0000 && |ticket| < 0x1_0000
  {
    CONTROL_MAGIC + [CONTROL_VERSION] + PutUint32(lifetime) + PutUint16(|ticket|) + ticket
  }

  /** A server's control block gives its lifetime and ticket back, and the body is untouched. */
  lemma ControlRoundTrip(lifetime: nat, ticket: Bytes, body: Bytes)
    requires lifetime < 0x1_0000_0000 && 11 + |ticket| < 0x1_0000
    ensures var control := BuildControl(lifetime, ticket);
            && StripControl(PutUint16(|control|) + control + body) == Some((control, body))
            && ParseControl(control) == Some((lifetime, ticket))
  {
    var control := BuildControl(lifetime, ticket);
    var plaintext := PutUint16(|control|) + control + body;
    assert plaintext[..2] == PutUint16(|control|);
    assert plaintext[2..2 + |control|] == control && plaintext[2 + |control|..] == body;
    assert control[..4] == CONTROL_MAGIC;
    assert control[5..9] == PutUint32(lifetime);
    assert PutUint32(lifetime)[..2] == PutUint16(lifetime / 0x1_0000);
    assert PutUint32(lifetime)[2..] == PutUint16(lifetime % 0x1_0000);
    assert control[9..11] == PutUint16(|ticket|);
    assert control[11..11 + |ticket|] == ticket;
  }

  // -------------------------------------------------------------------- runs

  type Thread = nat
  /** A ServerInfo object; each has a slot of its own. */
  type Server = nat

  /** The key derivations, which also take the server's magic number. */
  datatype Kdf = Kdf(resumeSecret: (Server, Key, Nonce) -> Secret, resumedKey: (Server, Secret, Nonce, Bytes) -> Key)

  /** A query on the wire; a resumed one names the ticket and secret it used, and the response they came from. */
  datatype Origin = Fresh | Resumed(ticket: Bytes, secret: Secret, response: nat)

  datatype Query = Query(server: Server, epoch: nat, nonce: Nonce, key: Key, origin: Origin)

  datatype Response = Response(query: nat, ticket: Bytes)

  datatype Pc =
    | Idle
    | Tagged(server: Server, epoch: nat, nonce: Nonce)        // has read the epoch for a new query
    | Parsed(response: nat, lifetime: nat)                    // has a ticket, has not compared epochs
    | Passed(response: nat, lifetime: nat)                    // epochs agreed, has not stored the ticket
  {
    predicate Holds() {
      Parsed? || Passed?
    }
  }

  datatype State = State(
    epoch: nat, last: string,
    slots: map<Server, Slot>,
    from: map<Server, nat>,          // history: the response each stored ticket came from
    queries: seq<Query>, responses: seq<Response>,
    pcs: map<Thread, Pc>)
  {
    function At(t: Thread): Pc {
      if t in pcs then pcs[t] else Idle
    }

    function SlotOf(server: Server): Slot {
      if server in slots then slots[server] else EMPTY_SLOT
    }

    function FromOf(server: Server): nat {
      if server in from then from[server] else 0
    }
  }

  const INITIAL := State(0, "", map[], map[], [], [], map[])

  datatype Step =
    | CheckNetwork(t: Thread, fingerprint: string)
    | Tag(t: Thread, server: Server, nonce: Nonce)
    | Send(t: Thread, now: Time, kemKey: Key)
    | Receive(t: Thread, query: nat, plaintext: Bytes)
    | CompareEpochs(t: Thread)
    | StoreTicket(t: Thread, now: Time)

  predicate Enabled(s: State, step: Step) {
    match step
    case CheckNetwork(t, _) => s.At(t).Idle?
    case Tag(t, _, _) => s.At(t).Idle?
    case Send(t, _, _) => s.At(t).Tagged?
    case Receive(t, query, _) => s.At(t).Idle? && query < |s.queries|
    case CompareEpochs(t) => s.At(t).Parsed?
    case StoreTicket(t, _) => s.At(t).Passed?
  }

  /** The query encryptPQ builds once it has the epoch: resumed if the slot holds a usable ticket. */
  function Encrypted(kdf: Kdf, s: State, pc: Pc, now: Time, kemKey: Key): Query
    requires pc.Tagged?
  {
    var slot := s.SlotOf(pc.server);
    if Usable(slot, pc.epoch, now) then
      Query(pc.server, pc.epoch, pc.nonce, kdf.resumedKey(pc.server, slot.secret, pc.nonce, slot.ticket),
            Resumed(slot.ticket, slot.secret, s.FromOf(pc.server)))
    else Query(pc.server, pc.epoch, pc.nonce, kemKey, Fresh)
  }

  function Do(kdf: Kdf, s: State, step: Step): (s': State)
    requires Enabled(s, step) && Indexed(s)
    ensures forall u: Thread :: s'.At(u) == s.At(u) || u == step.t
    ensures Indexed(s')
  {
    var t, pc := step.t, s.At(step.t);
    match step
    case CheckNetwork(_, fingerprint) =>
      s.(last := fingerprint,
         epoch := s.epoch + if s.last != "" && fingerprint != s.last then 1 else 0)
    case Tag(_, server, nonce) => s.(pcs := s.pcs[t := Tagged(server, s.epoch, nonce)])
    case Send(_, now, kemKey) =>
      s.(queries := s.queries + [Encrypted(kdf, s, pc, now, kemKey)],
         slots := s.slots[pc.server := AfterGet(s.SlotOf(pc.server), pc.epoch, now)],
         pcs := s.pcs[t := Idle])
    case Receive(_, query, plaintext) =>
      var split := StripControl(plaintext);
      if split.None? || ParseControl(split.value.0).None? then s
      else
        var (lifetime, ticket) := ParseControl(split.value.0).value;
        s.(responses := s.responses + [Response(query, ticket)],
           pcs := s.pcs[t := Parsed(|s.responses|, lifetime)])
    case CompareEpochs(_) =>
      s.(pcs := s.pcs[t := if s.queries[s.responses[pc.response].query].epoch == s.epoch
                           then Passed(pc.response, pc.lifetime) else Idle])
    case StoreTicket(_, now) =>
      var response := s.responses[pc.response];
      var query := s.queries[response.query];
      s.(slots := s.slots[query.server := Slot(response.ticket, kdf.resumeSecret(query.server, query.key, query.nonce),
                                               now + pc.lifetime * 1_000_000_000, query.epoch)],
         from := s.from[query.server := pc.response],
         pcs := s.pcs[t := Idle])
  }

  /** Responses answer queries that were sent, and goroutines hold responses that were received. */
  ghost predicate Indexed(s: State) {
    && (forall i :: 0 <= i < |s.responses| ==> s.responses[i].query < |s.queries|)
    && (forall t: Thread :: s.At(t).Holds() ==> s.At(t).response < |s.responses|)
  }

  /** Ticket and secret both come from response `r`, given to a query to the same server with the same tag. */
  predicate ComesFrom(kdf: Kdf, s: State, server: Server, epoch: nat, ticket: Bytes, secret: Secret, r: nat) {
    && r < |s.responses| && s.responses[r].query < |s.queries|
    && var query := s.queries[s.responses[r].query];
    && query.server == server && query.epoch == epoch
    && ticket == s.responses[r].ticket && secret == kdf.resumeSecret(server, query.key, query.nonce)
  }

  ghost predicate Traced(kdf: Kdf, s: State) {
    && (forall v :: s.SlotOf(v).ticket != [] ==>
          ComesFrom(kdf, s, v, s.SlotOf(v).epoch, s.SlotOf(v).ticket, s.SlotOf(v).secret, s.FromOf(v)))
    && (forall k :: 0 <= k < |s.queries| && s.queries[k].origin.Resumed? ==>
          var q := s.queries[k];
          && ComesFrom(kdf, s, q.server, q.epoch, q.origin.ticket, q.origin.secret, q.origin.response)
          && s.responses[q.origin.response].query < k
          && q.key == kdf.resumedKey(q.server, q.origin.secret, q.nonce, q.origin.ticket))
  }

  /** Tags are epochs that have been current. */
  ghost predicate TagsPast(s: State) {
    && (forall k :: 0 <= k < |s.queries| ==> s.queries[k].epoch <= s.epoch)
    && (forall t: Thread :: s.At(t).Tagged? ==> s.At(t).epoch <= s.epoch)
  }

  ghost predicate Inv(kdf: Kdf, s: State) {
    Indexed(s) && Traced(kdf, s) && TagsPast(s)
  }

  lemma StepKeepsTraced(kdf: Kdf, s: State, step: Step)
    requires Inv(kdf, s) && Enabled(s, step)
    ensures Traced(kdf, Do(kdf, s, step))
  {
    var s' := Do(kdf, s, step);
    assert s.queries <= s'.queries && s.responses <= s'.responses;
    forall v | s'.SlotOf(v).ticket != []
      ensures ComesFrom(kdf, s', v, s'.SlotOf(v).epoch, s'.SlotOf(v).ticket, s'.SlotOf(v).secret, s'.FromOf(v))
    {
      if !(step.StoreTicket? && s'.SlotOf(v) != s.SlotOf(v)) {
        assert step.StoreTicket? || s'.SlotOf(v) == s.SlotOf(v);
      }
    }
  }

  lemma StepKeepsTags(kdf: Kdf, s: State, step: Step)
    requires Inv(kdf, s) && Enabled(s, step)
    ensures TagsPast(Do(kdf, s, step)) && s.epoch <= Do(kdf, s, step).epoch
  {
  }

  /** The state after taking `steps` in order. */
  ghost function After(kdf: Kdf, steps: seq<Step>): (r: Option<State>)
    ensures r.Some? ==> Indexed(r.value)
    decreases |steps|
  {
    if steps == [] then Some(INITIAL)
    else
      var before, step := After(kdf, steps[..|steps| - 1]), steps[|steps| - 1];
      if before.Some? && Enabled(before.value, step) then Some(Do(kdf, before.value, step)) else None
  }

  lemma {:induction false} EveryRunKeepsInv(kdf: Kdf, steps: seq<Step>)
    requires After(kdf, steps).Some?
    ensures Inv(kdf, After(kdf, steps).value)
    decreases |steps|
  {
    if steps == [] {
    } else {
      var before, step := After(kdf, steps[..|steps| - 1]).value, steps[|steps| - 1];
      EveryRunKeepsInv(kdf, steps[..|steps| - 1]);
      StepKeepsTraced(kdf, before, step);
      StepKeepsTags(kdf, before, step);
    }
  }

  /**
    A resumed query tagged with an epoch uses a ticket and a secret that come
    from one response to an earlier query to the same server with the same tag.
   */
  lemma ResumedQueriesStayInTheirEpoch(kdf: Kdf, steps: seq<Step>, s: State, k: nat)
    requires After(kdf, steps) == Some(s) && k < |s.queries| && s.queries[k].origin.Resumed?
    ensures var q := s.queries[k];
            && q.epoch <= s.epoch
            && q.key == kdf.resumedKey(q.server, q.origin.secret, q.nonce, q.origin.ticket)
            && exists j :: 0 <= j < k && s.queries[j].server == q.server && s.queries[j].epoch == q.epoch
                           && q.origin.secret == kdf.resumeSecret(q.server, s.queries[j].key, s.queries[j].nonce)
                           && Response(j, q.origin.ticket) in s.responses
  {
    EveryRunKeepsInv(kdf, steps);
    var r := s.queries[k].origin.response;
    assert s.responses[r] in s.responses;
    assert s.queries[s.responses[r].query].server == s.queries[k].server;
  }

  /** Epochs never decrease along a run. */
  lemma {:induction false} EpochsNeverDecrease(kdf: Kdf, steps: seq<Step>, n: nat)
    requires n <= |steps| && After(kdf, steps).Some?
    ensures After(kdf, steps[..n]).Some? && After(kdf, steps[..n]).value.epoch <= After(kdf, steps).value.epoch
    decreases |steps|
  {
    if n == |steps| {
      assert steps[..n] == steps;
    } else {
      var front := steps[..|steps| - 1];
      EpochsNeverDecrease(kdf, front, n);
      assert front[..n] == steps[..n];
      EveryRunKeepsInv(kdf, front);
      StepKeepsTags(kdf, After(kdf, front).value, steps[|steps| - 1]);
    }
  }
}
