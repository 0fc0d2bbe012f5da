/**
  Client-key rotation running against server refreshes and queries. Goroutines
  are interleaved between the acquisitions and releases of cryptoKeyMu and of the
  server table's lock; the cryptography is a parameter.
 */
module KeyRotation {
  import opened Common

  type Secret = nat
  type Public = nat
  type Shared = nat

  datatype Crypto = Crypto(publicOf: Secret -> Public, derive: (Construction, Secret, Public) -> Shared)

  datatype ServerInfo = ServerInfo(name: string, construction: Construction, serverPk: Public, sharedKey: Shared)

  function ComputeSharedKey(x: Crypto, construction: Construction, secret: Secret, serverPk: Public): Shared {
    if construction.Classic() then x.derive(construction, secret, serverPk) else 0
  }

  function Recompute(x: Crypto, server: ServerInfo, secret: Secret): ServerInfo {
    if !server.construction.Classic() then server
    else server.(sharedKey := ComputeSharedKey(x, server.construction, secret, server.serverPk))
  }

  /** A classic server's shared key is derived from `secret` and its own public key; nothing is asked of the others. */
  predicate KeyedBy(x: Crypto, server: ServerInfo, secret: Secret) {
    server.construction.XSalsa20Poly1305? || server.construction.XChacha20Poly1305? ==>
      server.sharedKey == x.derive(server.construction, secret, server.serverPk)
  }

  // ---------------------------------------------------------- keys and table

  /** A server is a heap object; the table holds pointers to it. */
  type Ref = nat

  datatype Data = Data(
    secret: Secret, public: Public,
    heap: map<Ref, ServerInfo>, inner: seq<Ref>,
    // history: the secrets installed so far, the servers ever listed, the secret
    // each server's key was last computed from, and how many of the listed
    // servers, from the first, have been re-keyed since the last installation
    secrets: seq<Secret>, published: set<Ref>, keyed: map<Ref, nat>, rekeyed: nat)

  function InitData(x: Crypto, secret: Secret): Data {
    Data(secret, x.publicOf(secret), map[], [], [secret], {}, map[], 0)
  }

  function Installed(x: Crypto, d: Data, secret: Secret): Data {
    d.(secret := secret, public := x.publicOf(secret), secrets := d.secrets + [secret], rekeyed := 0)
  }

  /** The object a pointer leads to. */
  function Deref(heap: map<Ref, ServerInfo>, ref: Ref): ServerInfo {
    if ref in heap then heap[ref] else ServerInfo("", Undefined, 0, 0)
  }

  function Rekeyed(x: Crypto, d: Data, ref: Ref): Data {
    d.(heap := d.heap[ref := Recompute(x, Deref(d.heap, ref), d.secret)], keyed := d.keyed[ref := |d.secrets|])
  }

  /** The table with `ref` in the place of the first server of the same name, or at the end. */
  function ReplaceOrAppend(heap: map<Ref, ServerInfo>, inner: seq<Ref>, ref: Ref): (after: seq<Ref>)
    ensures forall i :: 0 <= i < |after| ==> after[i] == ref || (i < |inner| && after[i] == inner[i])
    ensures |inner| <= |after|
  {
    if inner == [] then [ref]
    else if Deref(heap, inner[0]).name == Deref(heap, ref).name then [ref] + inner[1..]
    else [inner[0]] + ReplaceOrAppend(heap, inner[1..], ref)
  }

  /** The loop of refreshServer that puts the new server in the table. */
  method InsertServer(heap: map<Ref, ServerInfo>, inner: seq<Ref>, ref: Ref) returns (after: seq<Ref>, found: bool)
    ensures after == ReplaceOrAppend(heap, inner, ref)
    ensures found <==> exists i :: 0 <= i < |inner| && Deref(heap, inner[i]).name == Deref(heap, ref).name
  {
    var i := 0;
    while i < |inner|
      invariant 0 <= i <= |inner|
      invariant forall k :: 0 <= k < i ==> Deref(heap, inner[k]).name != Deref(heap, ref).name
    {
      if Deref(heap, inner[i]).name == Deref(heap, ref).name {
        FirstOfName(heap, inner, ref, i);
        return inner[i := ref], true;
      }
      i := i + 1;
    }
    FirstOfName(heap, inner, ref, i);
    return inner + [ref], false;
  }

  /** `n` is the position of the first server with the name of `ref`, or the end of the table. */
  lemma {:induction false} FirstOfName(heap: map<Ref, ServerInfo>, inner: seq<Ref>, ref: Ref, n: nat)
    requires n <= |inner|
    requires forall k :: 0 <= k < n ==> Deref(heap, inner[k]).name != Deref(heap, ref).name
    requires n < |inner| ==> Deref(heap, inner[n]).name == Deref(heap, ref).name
    ensures ReplaceOrAppend(heap, inner, ref) == if n < |inner| then inner[n := ref] else inner + [ref]
  {
    if n == 0 {
    } else {
      FirstOfName(heap, inner[1..], ref, n - 1);
      assert inner == [inner[0]] + inner[1..];
    }
  }

  function Stored(d: Data, ref: Ref): Data {
    var after := ReplaceOrAppend(d.heap, d.inner, ref);
    d.(inner := after, published := d.published + {ref}, rekeyed := |after|)
  }

  ghost predicate InHeap(d: Data) {
    && d.published <= d.keyed.Keys <= d.heap.Keys
    && (forall i :: 0 <= i < |d.inner| ==> d.inner[i] in d.published)
  }

  /** No two entries of the table carry the same name. */
  ghost predicate NamesUnique(heap: map<Ref, ServerInfo>, inner: seq<Ref>) {
    forall i, j :: 0 <= i < j < |inner| ==> Deref(heap, inner[i]).name != Deref(heap, inner[j]).name
  }

  /** Every key belongs to the secret it was computed from, and the re-keyed servers' keys to the current one. */
  ghost predicate Consistent(x: Crypto, d: Data) {
    && InHeap(d) && NamesUnique(d.heap, d.inner)
    && |d.secrets| > 0 && d.secret == d.secrets[|d.secrets| - 1] && d.public == x.publicOf(d.secret)
    && (forall r :: r in d.keyed ==>
          0 < d.keyed[r] <= |d.secrets| && KeyedBy(x, d.heap[r], d.secrets[d.keyed[r] - 1]))
    && d.rekeyed <= |d.inner|
    && (forall i :: 0 <= i < d.rekeyed ==> d.keyed[d.inner[i]] == |d.secrets|)
  }

  function Allocated(d: Data, ref: Ref, info: ServerInfo): Data {
    d.(heap := d.heap[ref := info])
  }

  lemma AllocatedIsConsistent(x: Crypto, d: Data, ref: Ref, info: ServerInfo)
    requires Consistent(x, d) && ref !in d.heap
    ensures Consistent(x, Allocated(d, ref, info))
  {
  }

  lemma InstalledIsConsistent(x: Crypto, d: Data, secret: Secret)
    requires Consistent(x, d)
    ensures Consistent(x, Installed(x, d, secret))
  {
  }

  lemma RekeyedIsConsistent(x: Crypto, d: Data, ref: Ref)
    requires Consistent(x, d) && ref in d.heap
    ensures Consistent(x, Rekeyed(x, d, ref))
  {
    var d' := Rekeyed(x, d, ref);
    assert forall r :: Deref(d'.heap, r).name == Deref(d.heap, r).name;
    assert KeyedBy(x, d'.heap[ref], d.secret);
  }

  lemma NextRekeyedIsConsistent(x: Crypto, d: Data)
    requires Consistent(x, d) && d.rekeyed < |d.inner|
    ensures Consistent(x, Rekeyed(x, d, d.inner[d.rekeyed]).(rekeyed := d.rekeyed + 1))
  {
  }

  lemma StoredIsConsistent(x: Crypto, d: Data, ref: Ref)
    requires Consistent(x, d) && d.rekeyed == |d.inner|
    requires ref in d.keyed && d.keyed[ref] == |d.secrets|
    ensures Consistent(x, Stored(d, ref))
  {
    ReplacedNames(d.heap, d.inner, ref);
  }

  lemma {:induction false} ReplacedNames(heap: map<Ref, ServerInfo>, inner: seq<Ref>, ref: Ref)
    requires NamesUnique(heap, inner)
    ensures NamesUnique(heap, ReplaceOrAppend(heap, inner, ref))
  {
    if inner == [] || Deref(heap, inner[0]).name == Deref(heap, ref).name {
    } else {
      ReplacedNames(heap, inner[1..], ref);
    }
  }

  /** Two entries change places; sorting by latency is a series of these. */
  function Swapped(d: Data, i: nat, j: nat): Data
    requires i < |d.inner| && j < |d.inner|
  {
    d.(inner := d.inner[i := d.inner[j]][j := d.inner[i]])
  }

  lemma SwappedIsConsistent(x: Crypto, d: Data, i: nat, j: nat)
    requires Consistent(x, d) && i < |d.inner| && j < |d.inner|
    requires d.rekeyed == 0 || d.rekeyed == |d.inner|
    ensures Consistent(x, Swapped(d, i, j))
  {
  }

  // -------------------------------------------------------------- goroutines

  type Thread = nat

  datatype Pc =
    | Idle
    | RotateWaiting(newKey: Secret)               // waits for cryptoKeyMu, and keeps new readers out
    | RotateHeld(newKey: Secret)                  // holds cryptoKeyMu for writing
    | RotateSet                                   // has installed the key pair
    | RotateLoop(next: nat)                       // holds the table's lock too
    | RotateDone                                  // has released the table's lock
    | Fetched(ref: Ref)                           // refreshServer has a new ServerInfo
    | RefreshHeld(ref: Ref)                       // holds cryptoKeyMu for reading
    | RefreshKeyed(ref: Ref)                      // has recomputed the shared key
    | RefreshDone                                 // has put the server in the table
    | Chosen(ref: Ref)                            // getOne picked a server
    | EncryptHeld(ref: Ref)                       // holds cryptoKeyMu for reading
    | EncryptShared(ref: Ref, shared: Shared)     // has copied the shared key
    | EncryptBoth(ref: Ref, shared: Shared, public: Public)  // has copied the public key
  {
    predicate Writes() {
      RotateHeld? || RotateSet? || RotateLoop? || RotateDone?
    }

    predicate Reads() {
      RefreshHeld? || RefreshKeyed? || RefreshDone? || EncryptHeld? || EncryptShared? || EncryptBoth?
    }

    /** Holds the new server that no other goroutine has seen yet. */
    predicate Owns(r: Ref) {
      (Fetched? || RefreshHeld? || RefreshKeyed?) && ref == r
    }

    predicate Uses(r: Ref) {
      (Chosen? || EncryptHeld? || EncryptShared? || EncryptBoth?) && ref == r
    }
  }

  datatype State = State(d: Data, pcs: map<Thread, Pc>)
  {
    function At(t: Thread): Pc {
      if t in pcs then pcs[t] else Idle
    }

    // A lock is held exactly between the steps that acquire and release it. The
    // table's lock is held across steps by a rotation only; everyone else takes
    // and releases it within one step.

    ghost predicate NoWriter() {
      forall t: Thread :: !At(t).Writes()
    }

    ghost predicate NoReader() {
      forall t: Thread :: !At(t).Reads()
    }

    ghost predicate NoWaiter() {
      forall t: Thread :: !At(t).RotateWaiting?
    }

    ghost predicate TableFree() {
      forall t: Thread :: !At(t).RotateLoop?
    }
  }

  datatype Step =
    | WaitForRotation(t: Thread, newKey: Secret)
    | LockForRotation(t: Thread)
    | InstallKey(t: Thread)
    | LockTable(t: Thread)
    | RekeyOne(t: Thread)
    | UnlockTable(t: Thread)
    | UnlockAfterRotation(t: Thread)
    | Fetch(t: Thread, ref: Ref, info: ServerInfo)
    | LockForRefresh(t: Thread)
    | KeyNewServer(t: Thread)
    | StoreServer(t: Thread)
    | UnlockAfterRefresh(t: Thread)
    | Swap(t: Thread, i: nat, j: nat)
    | Choose(t: Thread, ref: Ref)
    | LockForQuery(t: Thread)
    | CopyShared(t: Thread)
    | CopyPublic(t: Thread)
    | UnlockAfterQuery(t: Thread)

  ghost predicate Enabled(s: State, step: Step) {
    var pc := s.At(step.t);
    match step
    case WaitForRotation(_, _) => pc.Idle?
    case LockForRotation(_) => pc.RotateWaiting? && s.NoWriter() && s.NoReader()
    case InstallKey(_) => pc.RotateHeld?
    case LockTable(_) => pc.RotateSet? && s.TableFree()
    case RekeyOne(_) => pc.RotateLoop? && pc.next < |s.d.inner|
    case UnlockTable(_) => pc.RotateLoop? && pc.next == |s.d.inner|
    case UnlockAfterRotation(_) => pc.RotateDone?
    case Fetch(_, ref, _) => pc.Idle? && ref !in s.d.heap
    case LockForRefresh(_) => pc.Fetched? && s.NoWriter() && s.NoWaiter()
    case KeyNewServer(_) => pc.RefreshHeld?
    case StoreServer(_) => pc.RefreshKeyed? && s.TableFree()
    case UnlockAfterRefresh(_) => pc.RefreshDone?
    case Swap(_, i, j) => pc.Idle? && s.TableFree() && i < |s.d.inner| && j < |s.d.inner|
    case Choose(_, ref) => pc.Idle? && s.TableFree() && ref in s.d.inner
    case LockForQuery(_) => pc.Chosen? && s.NoWriter() && s.NoWaiter()
    case CopyShared(_) => pc.EncryptHeld?
    case CopyPublic(_) => pc.EncryptShared?
    case UnlockAfterQuery(_) => pc.EncryptBoth?
  }

  ghost function NextPc(s: State, step: Step): Pc
    requires Enabled(s, step)
  {
    var pc := s.At(step.t);
    match step
    case WaitForRotation(_, newKey) => RotateWaiting(newKey)
    case LockForRotation(_) => RotateHeld(pc.newKey)
    case InstallKey(_) => RotateSet
    case LockTable(_) => RotateLoop(0)
    case RekeyOne(_) => RotateLoop(pc.next + 1)
    case UnlockTable(_) => RotateDone
    case UnlockAfterRotation(_) => Idle
    case Fetch(_, ref, _) => Fetched(ref)
    case LockForRefresh(_) => RefreshHeld(pc.ref)
    case KeyNewServer(_) => RefreshKeyed(pc.ref)
    case StoreServer(_) => RefreshDone
    case UnlockAfterRefresh(_) => Idle
    case Swap(_, _, _) => Idle
    case Choose(_, ref) => Chosen(ref)
    case LockForQuery(_) => EncryptHeld(pc.ref)
    case CopyShared(_) => EncryptShared(pc.ref, Deref(s.d.heap, pc.ref).sharedKey)
    case CopyPublic(_) => EncryptBoth(pc.ref, pc.shared, s.d.public)
    case UnlockAfterQuery(_) => Idle
  }

  ghost function NextData(x: Crypto, s: State, step: Step): Data
    requires Enabled(s, step)
  {
    var pc := s.At(step.t);
    match step
    case InstallKey(_) => Installed(x, s.d, pc.newKey)
    case RekeyOne(_) => Rekeyed(x, s.d, s.d.inner[pc.next]).(rekeyed := pc.next + 1)
    case Fetch(_, ref, info) => Allocated(s.d, ref, info)
    case KeyNewServer(_) => Rekeyed(x, s.d, pc.ref)
    case StoreServer(_) => Stored(s.d, pc.ref)
    case Swap(_, i, j) => Swapped(s.d, i, j)
    case _ => s.d
  }

  ghost function Do(x: Crypto, s: State, step: Step): (s': State)
    requires Enabled(s, step)
    ensures s'.At(step.t) == NextPc(s, step)
    ensures forall u :: u != step.t ==> s'.At(u) == s.At(u)
  {
    State(NextData(x, s, step), s.pcs[step.t := NextPc(s, step)])
  }

  // -------------------------------------------------------------- invariant

  /** cryptoKeyMu has one writer or many readers. */
  ghost predicate Locked(s: State) {
    && (forall t: Thread, u: Thread :: s.At(t).Writes() && s.At(u).Writes() ==> t == u)
    && (forall t: Thread, u: Thread :: s.At(t).Writes() ==> !s.At(u).Reads())
  }

  /** New servers belong to one goroutine, and queries only use servers that were listed. */
  ghost predicate Owned(s: State) {
    && (forall t: Thread, r :: s.At(t).Owns(r) ==> r in s.d.heap && r !in s.d.published)
    && (forall t: Thread, u: Thread, r :: s.At(t).Owns(r) && s.At(u).Owns(r) ==> t == u)
    && (forall t: Thread, r :: s.At(t).Uses(r) ==> r in s.d.published)
  }

  /** Except in the middle of a rotation all listed servers are re-keyed. */
  ghost predicate InStep(s: State) {
    && (forall t: Thread :: s.At(t).RotateSet? ==> s.d.rekeyed == 0)
    && (forall t: Thread :: s.At(t).RotateLoop? ==> s.d.rekeyed == s.At(t).next)
    && ((forall t: Thread :: !s.At(t).RotateSet? && !s.At(t).RotateLoop?) ==> s.d.rekeyed == |s.d.inner|)
    && (forall t: Thread :: s.At(t).RefreshKeyed? ==>
          s.At(t).ref in s.d.keyed && s.d.keyed[s.At(t).ref] == |s.d.secrets|)
  }

  /** What a query has copied under the read lock is still what is there. */
  ghost predicate Snapped(s: State) {
    && (forall t: Thread :: s.At(t).EncryptShared? || s.At(t).EncryptBoth? ==>
          s.At(t).ref in s.d.heap && s.At(t).shared == s.d.heap[s.At(t).ref].sharedKey)
    && (forall t: Thread :: s.At(t).EncryptBoth? ==> s.At(t).public == s.d.public)
  }

  ghost predicate Inv(x: Crypto, s: State) {
    Consistent(x, s.d) && Locked(s) && Owned(s) && InStep(s) && Snapped(s)
  }

  lemma RotationKeepsConsistent(x: Crypto, s: State, step: Step)
    requires Inv(x, s) && Enabled(s, step) && (step.InstallKey? || step.RekeyOne?)
    ensures Consistent(x, NextData(x, s, step))
  {
    match step
    case InstallKey(t) => InstalledIsConsistent(x, s.d, s.At(t).newKey);
    case RekeyOne(_) => NextRekeyedIsConsistent(x, s.d);
  }

  lemma StoreKeepsConsistent(x: Crypto, s: State, t: Thread)
    requires Inv(x, s) && Enabled(s, StoreServer(t))
    ensures Consistent(x, NextData(x, s, StoreServer(t)))
  {
    NotRotating(s, t);
    StoredIsConsistent(x, s.d, s.At(t).ref);
  }

  lemma KeyingKeepsConsistent(x: Crypto, s: State, t: Thread)
    requires Inv(x, s) && Enabled(s, KeyNewServer(t))
    ensures Consistent(x, NextData(x, s, KeyNewServer(t)))
  {
    assert s.At(t).Owns(s.At(t).ref);
    RekeyedIsConsistent(x, s.d, s.At(t).ref);
  }

  lemma SwapKeepsConsistent(x: Crypto, s: State, step: Step)
    requires Inv(x, s) && Enabled(s, step) && step.Swap?
    ensures Consistent(x, NextData(x, s, step))
  {
    BetweenLoops(s);
    SwappedIsConsistent(x, s.d, step.i, step.j);
  }

  lemma StepKeepsConsistent(x: Crypto, s: State, step: Step)
    requires Inv(x, s) && Enabled(s, step)
    ensures Consistent(x, Do(x, s, step).d)
  {
    match step
    case InstallKey(_) | RekeyOne(_) => RotationKeepsConsistent(x, s, step);
    case Fetch(_, ref, info) => AllocatedIsConsistent(x, s.d, ref, info);
    case KeyNewServer(t) => KeyingKeepsConsistent(x, s, t);
    case StoreServer(t) => StoreKeepsConsistent(x, s, t);
    case Swap(_, _, _) => SwapKeepsConsistent(x, s, step);
    case _ => assert NextData(x, s, step) == s.d;
  }

  lemma NotRotating(s: State, t: Thread)
    requires Locked(s) && InStep(s) && s.At(t).Reads()
    ensures s.d.rekeyed == |s.d.inner|
  {
  }

  lemma BetweenLoops(s: State)
    requires InStep(s) && s.TableFree()
    ensures s.d.rekeyed == 0 || s.d.rekeyed == |s.d.inner|
  {
  }

  lemma StepKeepsLocked(x: Crypto, s: State, step: Step)
    requires Locked(s) && Enabled(s, step)
    ensures Locked(Do(x, s, step))
  {
  }

  lemma StepKeepsOwned(x: Crypto, s: State, step: Step)
    requires InHeap(s.d) && Owned(s) && Enabled(s, step)
    ensures Owned(Do(x, s, step))
  {
  }

  lemma StepKeepsInStep(x: Crypto, s: State, step: Step)
    requires Inv(x, s) && Enabled(s, step)
    ensures InStep(Do(x, s, step))
  {
  }

  lemma StepKeepsSnapped(x: Crypto, s: State, step: Step)
    requires InHeap(s.d) && Locked(s) && Owned(s) && Snapped(s) && Enabled(s, step)
    ensures Snapped(Do(x, s, step))
  {
  }

  // ------------------------------------------------------------------- runs

  /** The state after taking `steps`, in order, from a proxy whose first key pair comes from `secret`. */
  ghost function After(x: Crypto, secret: Secret, steps: seq<Step>): Option<State>
    decreases |steps|
  {
    if steps == [] then Some(State(InitData(x, secret), map[]))
    else
      var before, step := After(x, secret, steps[..|steps| - 1]), steps[|steps| - 1];
      if before.Some? && Enabled(before.value, step) then Some(Do(x, before.value, step)) else None
  }

  lemma {:induction false} EveryRunKeepsInv(x: Crypto, secret: Secret, steps: seq<Step>)
    requires After(x, secret, steps).Some?
    ensures Inv(x, After(x, secret, steps).value)
    decreases |steps|
  {
    if steps == [] {
    } else {
      EveryRunKeepsInv(x, secret, steps[..|steps| - 1]);
      StepKeeps(x, After(x, secret, steps[..|steps| - 1]).value, steps[|steps| - 1]);
    }
  }

  lemma StepKeeps(x: Crypto, s: State, step: Step)
    requires Inv(x, s) && Enabled(s, step)
    ensures Inv(x, Do(x, s, step))
  {
    StepKeepsConsistent(x, s, step);
    StepKeepsLocked(x, s, step);
    StepKeepsOwned(x, s, step);
    StepKeepsInStep(x, s, step);
    StepKeepsSnapped(x, s, step);
  }

  /** Whenever cryptoKeyMu is not write-held every listed server's key belongs to the current client secret. */
  lemma ListedServersAreKeyed(x: Crypto, secret: Secret, steps: seq<Step>, s: State, i: nat)
    requires After(x, secret, steps) == Some(s) && s.NoWriter() && i < |s.d.inner|
    ensures s.d.inner[i] in s.d.heap
    ensures
      var server := s.d.heap[s.d.inner[i]];
      server.construction == XSalsa20Poly1305 || server.construction == XChacha20Poly1305 ==>
        server.sharedKey == x.derive(server.construction, s.d.secret, server.serverPk)
    ensures NamesUnique(s.d.heap, s.d.inner)
  {
    EveryRunKeepsInv(x, secret, steps);
    assert forall t: Thread :: s.At(t).RotateSet? || s.At(t).RotateLoop? ==> s.At(t).Writes();
    KeysTellSecretsApart(x, s.d, s.d.inner[i]);
  }

  /** Different secrets give a server different shared keys. */
  ghost predicate Injective(x: Crypto) {
    forall c: Construction, a: Secret, b: Secret, pk: Public ::
      c.Classic() && x.derive(c, a, pk) == x.derive(c, b, pk) ==> a == b
  }

  /**
    The pair a query copies fits together for every listed server. For a server
    that was replaced meanwhile it does so exactly when the client secret is
    still the one the server's key was last computed from.
   */
  ghost predicate SnapshotIsExact(x: Crypto, d: Data, ref: Ref, shared: Shared, public: Public) {
    && ref in d.heap && ref in d.keyed && 0 < d.keyed[ref] <= |d.secrets|
    && shared == d.heap[ref].sharedKey && public == x.publicOf(d.secret)
    && (ref in d.inner ==> KeyedBy(x, d.heap[ref], d.secret))
    && (d.heap[ref].construction.Classic() && Injective(x) ==>
          (KeyedBy(x, d.heap[ref], d.secret) <==> d.secrets[d.keyed[ref] - 1] == d.secret))
  }

  lemma SnapshotMatches(x: Crypto, secret: Secret, steps: seq<Step>, s: State, t: Thread)
    requires After(x, secret, steps) == Some(s) && s.At(t).EncryptBoth?
    ensures SnapshotIsExact(x, s.d, s.At(t).ref, s.At(t).shared, s.At(t).public)
  {
    EveryRunKeepsInv(x, secret, steps);
    assert s.At(t).Uses(s.At(t).ref) && s.At(t).Reads();
    NotRotating(s, t);
    KeysTellSecretsApart(x, s.d, s.At(t).ref);
  }

  lemma KeysTellSecretsApart(x: Crypto, d: Data, ref: Ref)
    requires Consistent(x, d) && ref in d.keyed && d.rekeyed == |d.inner|
    ensures ref in d.inner ==> KeyedBy(x, d.heap[ref], d.secret)
    ensures d.heap[ref].construction.Classic() && Injective(x) ==>
              (KeyedBy(x, d.heap[ref], d.secret) <==> d.secrets[d.keyed[ref] - 1] == d.secret)
  {
  }
}
