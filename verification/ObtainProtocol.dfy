/**
 Concurrent EnsureDomains callers (acme/manager.go:77-182, cmd/main.go:74-94) as a
 state machine. Every loop iteration, lock operation, CA answer and clock tick is a
 step of its own; a run is any sequence of steps, and a step whose guard does not
 hold leaves the state alone, as a blocked caller does.
 */
module ObtainProtocol {
  import opened Text
  import opened Wrappers
  import opened CertStore

  datatype Phase =
    | Entering                                                   // before m.mu.RLock in EnsureDomains
    | Checking(next: nat, due: bool)                             // first loop, read lock held
    | Waiting                                                    // before obtainMu.Lock
    | Holding                                                    // obtainMu held, before m.mu.RLock
    | Rechecking(next: nat)                                      // second loop, both locks held
    | Asking                                                     // decided to obtain
    | InFlight                                                   // request sent to the CA
    | Answered(cert: Certificate, expiry: int)                   // bundle issued, files being written
    | Locking(cert: Certificate, expiry: int)                    // inside m.mu.Lock, waiting for the readers
    | Storing(next: nat, cert: Certificate, expiry: int)         // third loop, write lock held
    | Leaving(ok: bool)                                          // before obtainMu.Unlock
    | Returned(ok: bool)

  datatype Caller = Caller(domains: seq<string>, phase: Phase)

  datatype Event =
    | Requested(domains: seq<string>, at: int)
    | Stored(domains: seq<string>, expiry: int)

  datatype State = State(
    window: int,
    clock: int,
    certs: map<string, Certificate>,
    meta: map<string, int>,
    obtainMu: Option<nat>,
    callers: map<nat, Caller>,
    log: seq<Event>)

  datatype Action =
    | Start(id: nat, domains: seq<string>)
    | Advance(id: nat)
    | CaRefuses(id: nat)
    | CaIssues(id: nat, cert: Certificate, expiry: int)
    | DiskFails(id: nat)
    | Tick(elapsed: nat)

  predicate OwnsObtainMu(p: Phase) {
    !p.Entering? && !p.Checking? && !p.Waiting? && !p.Returned?
  }

  predicate HoldsReadLock(p: Phase) {
    p.Checking? || p.Rechecking?
  }

  predicate NoWriter(s: State) {
    forall id | id in s.callers :: !s.callers[id].phase.Storing?
  }

  /** A writer that waits keeps new readers out, as sync.RWMutex does. */
  predicate MayRead(s: State) {
    NoWriter(s) && forall id | id in s.callers :: !s.callers[id].phase.Locking?
  }

  predicate NoReader(s: State) {
    forall id | id in s.callers :: !HoldsReadLock(s.callers[id].phase)
  }

  function Move(s: State, id: nat, p: Phase): State
    requires id in s.callers
  {
    s.(callers := s.callers[id := s.callers[id].(phase := p)])
  }

  predicate IsDue(s: State, domain: string) {
    Due(s.meta, Normalize(domain), s.clock, s.window)
  }

  /** Where a caller goes next; a blocked caller stays. */
  function NextPhase(s: State, c: Caller): Phase {
    match c.phase
    case Entering => if MayRead(s) then Checking(0, false) else Entering
    case Checking(i, due) =>
      if i < |c.domains| then Checking(i + 1, due || IsDue(s, c.domains[i]))
      else if due then Waiting
      else Returned(true)
    case Waiting => if s.obtainMu.None? then Holding else Waiting
    case Holding => if MayRead(s) then Rechecking(0) else Holding
    case Rechecking(i) =>
      if i < |c.domains| then if IsDue(s, c.domains[i]) then Asking else Rechecking(i + 1)
      else Leaving(true)
    case Asking => InFlight
    case InFlight => InFlight
    case Answered(cert, expiry) => Locking(cert, expiry)
    case Locking(cert, expiry) => if NoWriter(s) && NoReader(s) then Storing(0, cert, expiry) else c.phase
    case Storing(i, cert, expiry) => if i < |c.domains| then Storing(i + 1, cert, expiry) else Leaving(true)
    case Leaving(ok) => Returned(ok)
    case Returned(_) => c.phase
  }

  function AdvanceCaller(s: State, id: nat): State
    requires id in s.callers
  {
    var c := s.callers[id];
    var t := Move(s, id, NextPhase(s, c));
    match c.phase
    case Waiting => if s.obtainMu.None? then t.(obtainMu := Some(id)) else t
    case Asking => t.(log := s.log + [Requested(c.domains, s.clock)])
    case Storing(i, cert, expiry) =>
      if i < |c.domains| then
        t.(certs := s.certs[Normalize(c.domains[i]) := cert], meta := s.meta[Normalize(c.domains[i]) := expiry])
      else t.(log := s.log + [Stored(c.domains, expiry)])
    case Leaving(_) => t.(obtainMu := None)
    case _ => t
  }

  function Step(s: State, a: Action): State {
    match a
    case Tick(elapsed) => s.(clock := s.clock + elapsed)
    case Start(id, domains) =>
      if id in s.callers then s
      else s.(callers := s.callers[id := Caller(domains, if domains == [] then Returned(true) else Entering)])
    case Advance(id) => if id in s.callers then AdvanceCaller(s, id) else s
    case CaRefuses(id) =>
      if id in s.callers && s.callers[id].phase.InFlight? then Move(s, id, Leaving(false)) else s
    case CaIssues(id, cert, expiry) =>
      if id in s.callers && s.callers[id].phase.InFlight? then Move(s, id, Answered(cert, expiry)) else s
    case DiskFails(id) =>
      if id in s.callers && s.callers[id].phase.Answered? then Move(s, id, Leaving(false)) else s
  }

  function Run(s: State, actions: seq<Action>): State {
    if actions == [] then s
    else Step(Run(s, actions[..|actions| - 1]), actions[|actions| - 1])
  }

  /** A store as loading from disk leaves it, and nobody calling yet. */
  predicate Init(s: State) {
    s.certs.Keys == s.meta.Keys && s.obtainMu.None? && s.callers == map[] && s.log == []
  }

  // ===== what every step keeps ===========================================

  /** The first n domains of the list have a recorded expiry. */
  predicate Known(s: State, ds: seq<string>, n: nat)
    requires n <= |ds|
  {
    forall j | 0 <= j < n :: Normalize(ds[j]) in s.meta
  }

  /** The first n domains of the list have this very expiry. */
  predicate HaveExpiry(s: State, ds: seq<string>, n: nat, expiry: int)
    requires n <= |ds|
  {
    forall j | 0 <= j < n :: Normalize(ds[j]) in s.meta && s.meta[Normalize(ds[j])] == expiry
  }

  predicate SomeDue(s: State, ds: seq<string>) {
    exists j | 0 <= j < |ds| :: IsDue(s, ds[j])
  }

  predicate PhaseFits(s: State, c: Caller) {
    match c.phase
    case Checking(i, due) => i <= |c.domains| && (!due ==> Known(s, c.domains, i))
    case Rechecking(i) => i <= |c.domains| && Known(s, c.domains, i)
    case Asking => SomeDue(s, c.domains)
    case Storing(i, _, expiry) => i <= |c.domains| && HaveExpiry(s, c.domains, i, expiry)
    case Leaving(ok) => ok ==> Known(s, c.domains, |c.domains|)
    case Returned(ok) => ok ==> Known(s, c.domains, |c.domains|)
    case _ => true
  }

  predicate Owner(s: State, id: nat) {
    id in s.callers && OwnsObtainMu(s.callers[id].phase)
  }

  /** obtainMu is held by the one caller between its Lock and its Unlock, if there is one. */
  ghost predicate ObtainMuHeld(s: State) {
    forall id: nat :: Owner(s, id) <==> s.obtainMu == Some(id)
  }

  ghost predicate Inv(s: State) {
    && s.certs.Keys == s.meta.Keys
    && ObtainMuHeld(s)
    && (NoWriter(s) || NoReader(s))
    && (forall id | id in s.callers :: PhaseFits(s, s.callers[id]))
  }

  /** Everyone but id is where they were. */
  ghost predicate OthersUnmoved(s: State, t: State, id: nat) {
    && id in s.callers
    && t.callers.Keys == s.callers.Keys
    && forall k | k in s.callers && k != id :: t.callers[k] == s.callers[k]
  }

  /** A caller that did not move still fits: keys only grow, and only the owner of obtainMu can change a value. */
  lemma PhaseStillFits(s: State, t: State, c: Caller)
    requires PhaseFits(s, c)
    requires s.meta.Keys <= t.meta.Keys && s.clock <= t.clock && s.window == t.window
    requires s.meta == t.meta || !OwnsObtainMu(c.phase)
    ensures PhaseFits(t, c)
  {
    if c.phase.Asking? {
      var j :| 0 <= j < |c.domains| && IsDue(s, c.domains[j]);
      assert IsDue(t, c.domains[j]);
    }
  }

  lemma AdvanceFrame(s: State, id: nat)
    requires Inv(s) && id in s.callers
    ensures
      var t := AdvanceCaller(s, id);
      && OthersUnmoved(s, t, id)
      && t.certs.Keys == t.meta.Keys && s.meta.Keys <= t.meta.Keys
      && t.clock == s.clock && t.window == s.window
      && (t.meta == s.meta || s.obtainMu == Some(id))
  {
    hide NextPhase, Normalize, PhaseFits;
    assert Owner(s, id) <==> s.obtainMu == Some(id);
  }

  lemma StoreOneFits(ds: seq<string>, i: nat, s: State, t: State, expiry: int)
    requires i < |ds| && HaveExpiry(s, ds, i, expiry)
    requires t.meta == s.meta[Normalize(ds[i]) := expiry]
    ensures HaveExpiry(t, ds, i + 1, expiry)
  {
  }

  /** The loop that reads the clock for one more domain, the one that stores one more, and every jump between phases. */
  lemma AdvanceFits(s: State, id: nat)
    requires Inv(s) && id in s.callers
    ensures PhaseFits(AdvanceCaller(s, id), AdvanceCaller(s, id).callers[id])
  {
    hide NoWriter, NoReader, Normalize;
    var t, c := AdvanceCaller(s, id), s.callers[id];
    var ds := c.domains;
    assert PhaseFits(s, c);
    match c.phase
    case Rechecking(i) =>
      if i < |ds| && IsDue(s, ds[i]) {
        assert IsDue(t, ds[i]);
      }
    case Storing(i, cert, expiry) =>
      if i < |ds| {
        StoreOneFits(ds, i, s, t, expiry);
      }
    case _ =>
  }

  /** The read-write lock: a reader needs that nobody writes, a writer that nobody else reads or writes. */
  lemma LockStep(s: State, t: State, id: nat)
    requires OthersUnmoved(s, t, id) && (NoWriter(s) || NoReader(s))
    requires t.callers[id].phase.Storing? ==> s.callers[id].phase.Storing? || (NoWriter(s) && NoReader(s))
    requires HoldsReadLock(t.callers[id].phase) ==> HoldsReadLock(s.callers[id].phase) || NoWriter(s)
    ensures NoWriter(t) || NoReader(t)
  {
    if t.callers[id].phase.Storing? {
      assert NoReader(s);
      forall k | k in t.callers ensures !HoldsReadLock(t.callers[k].phase) {
      }
    } else if NoWriter(s) {
      forall k | k in t.callers ensures !t.callers[k].phase.Storing? {
      }
    } else {
      assert !HoldsReadLock(s.callers[id].phase);
      forall k | k in t.callers ensures !HoldsReadLock(t.callers[k].phase) {
      }
    }
  }

  /** What a caller's next phase takes hold of was free, or its own already. */
  lemma NextLocks(s: State, c: Caller)
    ensures
      var p, q := c.phase, NextPhase(s, c);
      && (q.Storing? ==> p.Storing? || (NoWriter(s) && NoReader(s)))
      && (HoldsReadLock(q) ==> HoldsReadLock(p) || NoWriter(s))
      && (OwnsObtainMu(q) <==> if p.Waiting? then s.obtainMu.None? else OwnsObtainMu(p) && !p.Leaving?)
  {
    hide NoWriter, NoReader, IsDue;
  }

  lemma AdvanceLocks(s: State, id: nat)
    requires Inv(s) && id in s.callers
    ensures ObtainMuHeld(AdvanceCaller(s, id))
    ensures NoWriter(AdvanceCaller(s, id)) || NoReader(AdvanceCaller(s, id))
  {
    hide NoWriter, NoReader, PhaseFits, NextPhase, Normalize;
    var t := AdvanceCaller(s, id);
    NextLocks(s, s.callers[id]);
    assert OthersUnmoved(s, t, id);
    LockStep(s, t, id);
    assert Owner(s, id) <==> s.obtainMu == Some(id);
    forall k: nat ensures Owner(t, k) <==> t.obtainMu == Some(k) {
      assert Owner(s, k) <==> s.obtainMu == Some(k);
    }
  }

  lemma AdvanceKeepsInv(s: State, id: nat)
    requires Inv(s) && id in s.callers
    ensures Inv(AdvanceCaller(s, id)) && s.meta.Keys <= AdvanceCaller(s, id).meta.Keys
  {
    hide AdvanceCaller, PhaseFits, NoWriter, NoReader;
    var t := AdvanceCaller(s, id);
    AdvanceFrame(s, id);
    AdvanceFits(s, id);
    AdvanceLocks(s, id);
    forall k | k in t.callers && k != id ensures PhaseFits(t, t.callers[k]) {
      assert Owner(s, k) <==> s.obtainMu == Some(k);
      PhaseStillFits(s, t, s.callers[k]);
    }
  }

  lemma TickKeepsInv(s: State, elapsed: nat)
    requires Inv(s)
    ensures Inv(Step(s, Tick(elapsed)))
  {
    hide PhaseFits;
    var t := Step(s, Tick(elapsed));
    forall k | k in s.callers ensures PhaseFits(t, t.callers[k]) {
      PhaseStillFits(s, t, s.callers[k]);
    }
    assert NoWriter(t) == NoWriter(s) && NoReader(t) == NoReader(s);
    assert forall k: nat :: Owner(t, k) == Owner(s, k);
  }

  /** Any step by which one caller changes phase and nothing else does, between phases that say nothing of the store. */
  lemma MoveKeepsInv(s: State, id: nat, p: Phase)
    requires Inv(s) && id in s.callers
    requires OwnsObtainMu(p) && OwnsObtainMu(s.callers[id].phase)
    requires p.Answered? || p == Leaving(false)
    ensures Inv(Move(s, id, p))
  {
    var t := Move(s, id, p);
    forall k | k in t.callers ensures PhaseFits(t, t.callers[k]) {
      if k != id {
        PhaseStillFits(s, t, s.callers[k]);
      }
    }
    assert NoWriter(s) ==> NoWriter(t);
    assert NoReader(s) ==> NoReader(t);
    assert forall k: nat :: Owner(t, k) == Owner(s, k);
  }

  lemma StartKeepsInv(s: State, id: nat, domains: seq<string>)
    requires Inv(s)
    ensures Inv(Step(s, Start(id, domains)))
  {
    hide IsDue, HaveExpiry, SomeDue;
    var t := Step(s, Start(id, domains));
    forall k | k in s.callers ensures PhaseFits(t, t.callers[k]) {
      PhaseStillFits(s, t, s.callers[k]);
    }
    assert NoWriter(s) ==> NoWriter(t);
    assert NoReader(s) ==> NoReader(t);
    assert forall k: nat :: Owner(t, k) == Owner(s, k);
  }

  lemma StepKeepsInv(s: State, a: Action)
    requires Inv(s)
    ensures Inv(Step(s, a)) && s.meta.Keys <= Step(s, a).meta.Keys
  {
    hide Inv, AdvanceCaller;
    match a
    case Tick(elapsed) => TickKeepsInv(s, elapsed);
    case Start(id, domains) => StartKeepsInv(s, id, domains);
    case Advance(id) =>
      if id in s.callers {
        AdvanceKeepsInv(s, id);
      }
    case CaRefuses(id) =>
      if id in s.callers && s.callers[id].phase.InFlight? {
        MoveKeepsInv(s, id, Leaving(false));
      }
    case CaIssues(id, cert, expiry) =>
      if id in s.callers && s.callers[id].phase.InFlight? {
        MoveKeepsInv(s, id, Answered(cert, expiry));
      }
    case DiskFails(id) =>
      if id in s.callers && s.callers[id].phase.Answered? {
        MoveKeepsInv(s, id, Leaving(false));
      }
  }

  lemma {:induction false} RunKeepsInv(s: State, actions: seq<Action>)
    requires Inv(s)
    ensures Inv(Run(s, actions)) && s.meta.Keys <= Run(s, actions).meta.Keys
    decreases |actions|
  {
    if actions != [] {
      var n := |actions| - 1;
      RunKeepsInv(s, actions[..n]);
      StepKeepsInv(Run(s, actions[..n]), actions[n]);
    }
  }
}
