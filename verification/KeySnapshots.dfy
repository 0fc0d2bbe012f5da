/**
  What a query's key snapshot is worth once its server has been replaced, and
  that the two locks never bring all goroutines to a halt.
 */
module KeySnapshots {
  import opened Common
  import opened KeyRotation

  // ------------------------------------------------------------- replaced servers

  /** The client secret in the last state of the run in which the server was listed. */
  ghost function LastListed(x: Crypto, secret: Secret, steps: seq<Step>, ref: Ref): Secret
    decreases |steps|
  {
    var s := After(x, secret, steps);
    if s.Some? && ref in s.value.d.inner then s.value.d.secret
    else if steps == [] then secret
    else LastListed(x, secret, steps[..|steps| - 1], ref)
  }

  lemma {:induction false} ReplaceKeepsOthers(heap: map<Ref, ServerInfo>, inner: seq<Ref>, ref: Ref, other: Ref)
    ensures ref in ReplaceOrAppend(heap, inner, ref)
    ensures other != ref && other in ReplaceOrAppend(heap, inner, ref) ==> other in inner
  {
    if inner == [] || Deref(heap, inner[0]).name == Deref(heap, ref).name {
    } else {
      ReplaceKeepsOthers(heap, inner[1..], ref, other);
    }
  }

  /** A server that was replaced stays out of the table, and nobody touches it. */
  lemma ReplacedStaysOut(x: Crypto, s: State, step: Step, ref: Ref)
    requires Inv(x, s) && Enabled(s, step) && ref in s.d.published && ref !in s.d.inner
    ensures var d := Do(x, s, step).d; ref !in d.inner && ref in d.heap && d.heap[ref] == s.d.heap[ref]
  {
    var pc := s.At(step.t);
    if step.StoreServer? {
      assert pc.Owns(pc.ref);
      ReplaceKeepsOthers(s.d.heap, s.d.inner, pc.ref, ref);
    } else if step.KeyNewServer? {
      assert pc.Owns(pc.ref);
    } else if step.Swap? {
      assert s.d.inner[step.i] in s.d.inner && s.d.inner[step.j] in s.d.inner;
    }
  }

  lemma SwapKeepsMembers(d: Data, i: nat, j: nat, ref: Ref)
    requires i < |d.inner| && j < |d.inner| && ref in d.inner
    ensures ref in Swapped(d, i, j).inner
  {
    var n :| 0 <= n < |d.inner| && d.inner[n] == ref;
    var after := Swapped(d, i, j).inner;
    assert after[i] == d.inner[j] && after[j] == d.inner[i];
    assert n != i && n != j ==> after[n] == ref;
  }

  lemma OnlyStoringReplaces(x: Crypto, s: State, step: Step, ref: Ref)
    requires Enabled(s, step) && ref in s.d.inner
    ensures step.StoreServer? || ref in Do(x, s, step).d.inner
  {
    if step.Swap? {
      SwapKeepsMembers(s.d, step.i, step.j, ref);
    }
  }

  /** A server leaves the table only when another is stored, and then its key belongs to the current secret. */
  lemma ReplacedWhileKeyed(x: Crypto, s: State, step: Step, ref: Ref)
    requires Inv(x, s) && Enabled(s, step) && ref in s.d.inner && ref !in Do(x, s, step).d.inner
    ensures ref in s.d.heap && KeyedBy(x, s.d.heap[ref], s.d.secret) && Do(x, s, step).d.heap == s.d.heap
  {
    OnlyStoringReplaces(x, s, step, ref);
    NotRotating(s, step.t);
    KeysTellSecretsApart(x, s.d, ref);
  }

  lemma ListedOnPublishing(x: Crypto, s: State, step: Step, ref: Ref)
    requires Enabled(s, step) && ref !in s.d.published && ref in Do(x, s, step).d.published
    ensures ref in Do(x, s, step).d.inner
  {
    ReplaceKeepsOthers(s.d.heap, s.d.inner, s.At(step.t).ref, ref);
  }

  /** The key of a replaced server belongs to the secret that was current when it was replaced. */
  lemma {:induction false} ReplacedKeepsItsSecret(x: Crypto, secret: Secret, steps: seq<Step>, s: State, ref: Ref)
    requires After(x, secret, steps) == Some(s) && ref in s.d.published && ref !in s.d.inner
    ensures ref in s.d.heap && KeyedBy(x, s.d.heap[ref], LastListed(x, secret, steps, ref))
    decreases |steps|
  {
    if steps == [] {
    } else {
      var before, step := After(x, secret, steps[..|steps| - 1]).value, steps[|steps| - 1];
      EveryRunKeepsInv(x, secret, steps[..|steps| - 1]);
      if ref !in before.d.published {
        ListedOnPublishing(x, before, step, ref);
      } else if ref in before.d.inner {
        ReplacedWhileKeyed(x, before, step, ref);
        LastListedHere(x, secret, steps[..|steps| - 1], before, ref);
      } else {
        ReplacedKeepsItsSecret(x, secret, steps[..|steps| - 1], before, ref);
        ReplacedStaysOut(x, before, step, ref);
      }
    }
  }

  lemma LastListedHere(x: Crypto, secret: Secret, steps: seq<Step>, s: State, ref: Ref)
    requires After(x, secret, steps) == Some(s) && ref in s.d.inner
    ensures LastListed(x, secret, steps, ref) == s.d.secret
  {
  }

  /** The shared key and the public key of a snapshot come from one client secret. */
  ghost predicate PairMatches(x: Crypto, server: ServerInfo, shared: Shared, public: Public, secret: Secret) {
    shared == x.derive(server.construction, secret, server.serverPk) && public == x.publicOf(secret)
  }

  /**
    The pair matches for every listed classic server; for one that was replaced
    it does exactly when the client secret is still the one that was current then.
   */
  lemma SnapshotMatchesIff(x: Crypto, secret: Secret, steps: seq<Step>, s: State, t: Thread)
    requires After(x, secret, steps) == Some(s) && s.At(t).EncryptBoth? && Injective(x)
    ensures var ref := s.At(t).ref;
      ref in s.d.heap && (s.d.heap[ref].construction.Classic() ==>
        (PairMatches(x, s.d.heap[ref], s.At(t).shared, s.At(t).public, s.d.secret) <==>
         ref in s.d.inner || LastListed(x, secret, steps, ref) == s.d.secret))
  {
    var ref := s.At(t).ref;
    EveryRunKeepsInv(x, secret, steps);
    SnapshotMatches(x, secret, steps, s, t);
    assert s.At(t).Uses(ref);
    if ref !in s.d.inner {
      ReplacedKeepsItsSecret(x, secret, steps, s, ref);
    }
  }

  // ------------------------------------------------------------- what a run leaves alone

  /** The server as it was fetched, but for the shared key of a classic one. */
  ghost predicate AsFetched(server: ServerInfo, info: ServerInfo) {
    && server.name == info.name && server.construction == info.construction && server.serverPk == info.serverPk
    && (info.construction == Undefined || info.construction == XWingPQ ==> server.sharedKey == info.sharedKey)
  }

  ghost predicate WasFetched(steps: seq<Step>, ref: Ref, server: ServerInfo) {
    exists i, t, info :: 0 <= i < |steps| && steps[i] == Fetch(t, ref, info) && AsFetched(server, info)
  }

  lemma FetchedBefore(front: seq<Step>, step: Step, ref: Ref, server: ServerInfo, server': ServerInfo)
    requires WasFetched(front, ref, server) && AsFetched(server', server)
    ensures WasFetched(front + [step], ref, server')
  {
    var i, t, info :| 0 <= i < |front| && front[i] == Fetch(t, ref, info) && AsFetched(server, info);
    assert (front + [step])[i] == Fetch(t, ref, info);
  }

  lemma StepKeepsFetched(x: Crypto, s: State, step: Step, ref: Ref)
    requires Enabled(s, step) && Inv(x, s)
    ensures ref in s.d.heap ==> ref in Do(x, s, step).d.heap && AsFetched(Do(x, s, step).d.heap[ref], s.d.heap[ref])
    ensures ref !in s.d.heap && ref in Do(x, s, step).d.heap ==>
      exists t :: step == Fetch(t, ref, Do(x, s, step).d.heap[ref])
  {
    if step.Fetch? {
      assert step == Fetch(step.t, step.ref, step.info);
    } else if step.KeyNewServer? {
      assert s.At(step.t).Owns(s.At(step.t).ref);
    } else if step.RekeyOne? {
      assert s.d.inner[s.At(step.t).next] in s.d.heap;
    }
  }

  /**
    No run changes a server's name, construction or public key, and one that is
    not classic keeps the shared key it was fetched with.
   */
  lemma {:induction false} EveryServerWasFetched(x: Crypto, secret: Secret, steps: seq<Step>, s: State, ref: Ref)
    requires After(x, secret, steps) == Some(s) && ref in s.d.heap
    ensures WasFetched(steps, ref, s.d.heap[ref])
    decreases |steps|
  {
    if steps == [] {
    } else {
      var front, step := steps[..|steps| - 1], steps[|steps| - 1];
      var before := After(x, secret, front).value;
      EveryRunKeepsInv(x, secret, front);
      StepKeepsFetched(x, before, step, ref);
      assert steps == front + [step];
      if ref in before.d.heap {
        EveryServerWasFetched(x, secret, front, before, ref);
        FetchedBefore(front, step, ref, before.d.heap[ref], s.d.heap[ref]);
      } else {
        var t :| step == Fetch(t, ref, s.d.heap[ref]);
        assert steps[|steps| - 1] == Fetch(t, ref, s.d.heap[ref]);
      }
    }
  }

  /** The key that a goroutine last asked to install. */
  ghost function LastAsked(steps: seq<Step>, t: Thread): Option<Secret> {
    if steps == [] then None
    else
      var step := steps[|steps| - 1];
      if step.WaitForRotation? && step.t == t then Some(step.newKey) else LastAsked(steps[..|steps| - 1], t)
  }

  /** The key that was installed last, or the one the proxy started with. */
  ghost function LastInstalled(steps: seq<Step>, secret: Secret): Option<Secret> {
    if steps == [] then Some(secret)
    else
      var front, step := steps[..|steps| - 1], steps[|steps| - 1];
      if step.InstallKey? then LastAsked(front, step.t) else LastInstalled(front, secret)
  }

  lemma {:induction false} RotationRemembersItsKey(x: Crypto, secret: Secret, steps: seq<Step>, s: State, t: Thread)
    requires After(x, secret, steps) == Some(s) && (s.At(t).RotateWaiting? || s.At(t).RotateHeld?)
    ensures LastAsked(steps, t) == Some(s.At(t).newKey)
    decreases |steps|
  {
    if steps == [] {
    } else {
      var front, step := steps[..|steps| - 1], steps[|steps| - 1];
      var before := After(x, secret, front).value;
      if !(step.WaitForRotation? && step.t == t) {
        RotationRemembersItsKey(x, secret, front, before, t);
      }
    }
  }

  /** The client's key pair is that of the rotation that came last. */
  lemma {:induction false} KeyPairIsLastInstalled(x: Crypto, secret: Secret, steps: seq<Step>, s: State)
    requires After(x, secret, steps) == Some(s)
    ensures LastInstalled(steps, secret) == Some(s.d.secret) && s.d.public == x.publicOf(s.d.secret)
    decreases |steps|
  {
    if steps == [] {
    } else {
      var front, step := steps[..|steps| - 1], steps[|steps| - 1];
      var before := After(x, secret, front).value;
      KeyPairIsLastInstalled(x, secret, front, before);
      if step.InstallKey? {
        RotationRemembersItsKey(x, secret, front, before, step.t);
      }
    }
  }

  // ------------------------------------------------------------- a run that mismatches

  lemma AfterAppend(x: Crypto, secret: Secret, steps: seq<Step>, step: Step)
    requires After(x, secret, steps).Some? && Enabled(After(x, secret, steps).value, step)
    ensures After(x, secret, steps + [step]) == Some(Do(x, After(x, secret, steps).value, step))
  {
    assert (steps + [step])[..|steps|] == steps;
  }

  /** No other goroutine holds a lock or a new server. */
  ghost predicate QuietBut(s: State, t: Thread) {
    forall u: Thread :: u != t ==> s.At(u).Idle? || s.At(u).Chosen?
  }

  ghost predicate OthersAsIn(s: State, s': State, t: Thread) {
    forall u: Thread :: u != t ==> s'.At(u) == s.At(u)
  }

  lemma Keys(x: Crypto, secret: Secret, steps: seq<Step>, s: State, t: Thread, ref: Ref, info: ServerInfo)
    returns (steps': seq<Step>, s': State)
    requires After(x, secret, steps) == Some(s) && QuietBut(s, t) && s.At(t).Idle? && ref !in s.d.heap
    ensures After(x, secret, steps') == Some(s') && OthersAsIn(s, s', t) && s'.At(t) == RefreshKeyed(ref)
    ensures s'.d == Rekeyed(x, Allocated(s.d, ref, info), ref)
  {
    AfterAppend(x, secret, steps, Fetch(t, ref, info));
    var a, s1 := steps + [Fetch(t, ref, info)], Do(x, s, Fetch(t, ref, info));
    AfterAppend(x, secret, a, LockForRefresh(t));
    var b, s2 := a + [LockForRefresh(t)], Do(x, s1, LockForRefresh(t));
    AfterAppend(x, secret, b, KeyNewServer(t));
    steps', s' := b + [KeyNewServer(t)], Do(x, s2, KeyNewServer(t));
  }

  /** One refresh from start to end. */
  lemma Refreshes(x: Crypto, secret: Secret, steps: seq<Step>, s: State, t: Thread, ref: Ref, info: ServerInfo)
    returns (steps': seq<Step>, s': State)
    requires After(x, secret, steps) == Some(s) && QuietBut(s, t) && s.At(t).Idle? && ref !in s.d.heap
    ensures After(x, secret, steps') == Some(s') && OthersAsIn(s, s', t) && s'.At(t).Idle?
    ensures s'.d == Stored(Rekeyed(x, Allocated(s.d, ref, info), ref), ref)
  {
    var a, s1 := Keys(x, secret, steps, s, t, ref, info);
    AfterAppend(x, secret, a, StoreServer(t));
    var b, s2 := a + [StoreServer(t)], Do(x, s1, StoreServer(t));
    AfterAppend(x, secret, b, UnlockAfterRefresh(t));
    steps', s' := b + [UnlockAfterRefresh(t)], Do(x, s2, UnlockAfterRefresh(t));
  }

  lemma Installs(x: Crypto, secret: Secret, steps: seq<Step>, s: State, t: Thread, key: Secret)
    returns (steps': seq<Step>, s': State)
    requires After(x, secret, steps) == Some(s) && QuietBut(s, t) && s.At(t).Idle?
    ensures After(x, secret, steps') == Some(s') && OthersAsIn(s, s', t) && s'.At(t) == RotateLoop(0)
    ensures s'.d == Installed(x, s.d, key)
  {
    AfterAppend(x, secret, steps, WaitForRotation(t, key));
    var w, s0 := steps + [WaitForRotation(t, key)], Do(x, s, WaitForRotation(t, key));
    AfterAppend(x, secret, w, LockForRotation(t));
    var a, s1 := w + [LockForRotation(t)], Do(x, s0, LockForRotation(t));
    AfterAppend(x, secret, a, InstallKey(t));
    var b, s2 := a + [InstallKey(t)], Do(x, s1, InstallKey(t));
    AfterAppend(x, secret, b, LockTable(t));
    steps', s' := b + [LockTable(t)], Do(x, s2, LockTable(t));
  }

  /** One rotation over a table of one server. */
  lemma Rotates(x: Crypto, secret: Secret, steps: seq<Step>, s: State, t: Thread, key: Secret)
    returns (steps': seq<Step>, s': State)
    requires After(x, secret, steps) == Some(s) && QuietBut(s, t) && s.At(t).Idle? && |s.d.inner| == 1
    ensures After(x, secret, steps') == Some(s') && OthersAsIn(s, s', t) && s'.At(t).Idle?
    ensures s'.d == Rekeyed(x, Installed(x, s.d, key), s.d.inner[0]).(rekeyed := 1)
  {
    var c, s3 := Installs(x, secret, steps, s, t, key);
    AfterAppend(x, secret, c, RekeyOne(t));
    var d, s4 := c + [RekeyOne(t)], Do(x, s3, RekeyOne(t));
    AfterAppend(x, secret, d, UnlockTable(t));
    var e, s5 := d + [UnlockTable(t)], Do(x, s4, UnlockTable(t));
    AfterAppend(x, secret, e, UnlockAfterRotation(t));
    steps', s' := e + [UnlockAfterRotation(t)], Do(x, s5, UnlockAfterRotation(t));
  }

  /** The snapshot of a query for a server chosen before. */
  lemma Snapshots(x: Crypto, secret: Secret, steps: seq<Step>, s: State, t: Thread)
    returns (steps': seq<Step>, s': State)
    requires After(x, secret, steps) == Some(s) && QuietBut(s, t) && s.At(t).Chosen?
    ensures After(x, secret, steps') == Some(s') && s'.d == s.d
    ensures s'.At(t) == EncryptBoth(s.At(t).ref, Deref(s.d.heap, s.At(t).ref).sharedKey, s.d.public)
  {
    AfterAppend(x, secret, steps, LockForQuery(t));
    var a, s1 := steps + [LockForQuery(t)], Do(x, s, LockForQuery(t));
    AfterAppend(x, secret, a, CopyShared(t));
    var b, s2 := a + [CopyShared(t)], Do(x, s1, CopyShared(t));
    AfterAppend(x, secret, b, CopyPublic(t));
    steps', s' := b + [CopyPublic(t)], Do(x, s2, CopyPublic(t));
  }

  /** Listed, chosen, replaced, the secret rotated: the query then pairs the old shared key with the new public key. */
  lemma ReplacedServerMismatches(x: Crypto, secret: Secret, key: Secret, info: ServerInfo)
    returns (steps: seq<Step>, s: State)
    requires Injective(x) && secret != key && info.construction.Classic()
    ensures After(x, secret, steps) == Some(s) && s.At(1).EncryptBoth? && s.At(1).ref in s.d.heap
    ensures s.d.heap[s.At(1).ref].construction.Classic()
    ensures !PairMatches(x, s.d.heap[s.At(1).ref], s.At(1).shared, s.At(1).public, s.d.secret)
  {
    var s0 := State(InitData(x, secret), map[]);
    var a, s1 := Refreshes(x, secret, [], s0, 0, 0, info);
    assert s1.d.inner == [0] && s1.d.secret == secret;
    AfterAppend(x, secret, a, Choose(1, 0));
    var b, s2 := a + [Choose(1, 0)], Do(x, s1, Choose(1, 0));
    var c, s3 := Refreshes(x, secret, b, s2, 0, 1, info);
    assert s3.d.inner == [1] && s3.d.heap[0] == s1.d.heap[0];
    var d, s4 := Rotates(x, secret, c, s3, 0, key);
    steps, s := Snapshots(x, secret, d, s4, 1);
  }

  // ------------------------------------------------------------- no deadlock

  /**
    In every reachable state in which some goroutine is busy or waits, one of
    them can go on, although a rotation that waits keeps new readers out.
   */
  lemma NoDeadlock(x: Crypto, secret: Secret, steps: seq<Step>, s: State, t: Thread) returns (step: Step)
    requires After(x, secret, steps) == Some(s) && !s.At(t).Idle?
    ensures !s.At(step.t).Idle? && Enabled(s, step)
  {
    EveryRunKeepsInv(x, secret, steps);
    if u: Thread :| s.At(u).Writes() {
      step := WriterGoesOn(x, s, u);
    } else if u: Thread :| s.At(u).Reads() {
      step := ReaderGoesOn(s, u);
    } else if u: Thread :| s.At(u).RotateWaiting? {
      step := LockForRotation(u);
    } else {
      step := NewReaderGoesOn(s, t);
    }
  }

  lemma WriterGoesOn(x: Crypto, s: State, u: Thread) returns (step: Step)
    requires Inv(x, s) && s.At(u).Writes()
    ensures step.t == u && Enabled(s, step)
  {
    match s.At(u) {
      case RotateHeld(_) => step := InstallKey(u);
      case RotateSet =>
        assert forall v: Thread :: s.At(v).RotateLoop? ==> s.At(v).Writes();
        step := LockTable(u);
      case RotateLoop(next) => step := if next < |s.d.inner| then RekeyOne(u) else UnlockTable(u);
      case RotateDone => step := UnlockAfterRotation(u);
    }
  }

  /** Once it has the lock, a reader never asks for it again. */
  lemma ReaderGoesOn(s: State, t: Thread) returns (step: Step)
    requires s.At(t).Reads() && s.NoWriter()
    ensures step.t == t && Enabled(s, step)
  {
    assert forall v: Thread :: s.At(v).RotateLoop? ==> s.At(v).Writes();
    match s.At(t) {
      case RefreshHeld(_) => step := KeyNewServer(t);
      case RefreshKeyed(_) => step := StoreServer(t);
      case RefreshDone => step := UnlockAfterRefresh(t);
      case EncryptHeld(_) => step := CopyShared(t);
      case EncryptShared(_, _) => step := CopyPublic(t);
      case EncryptBoth(_, _, _) => step := UnlockAfterQuery(t);
    }
  }

  lemma NewReaderGoesOn(s: State, t: Thread) returns (step: Step)
    requires !s.At(t).Idle? && !s.At(t).Reads() && s.NoWriter() && s.NoWaiter()
    ensures step.t == t && Enabled(s, step)
  {
    assert !s.At(t).Writes() && !s.At(t).RotateWaiting?;
    match s.At(t) {
      case Fetched(_) => step := LockForRefresh(t);
      case Chosen(_) => step := LockForQuery(t);
    }
  }
}
