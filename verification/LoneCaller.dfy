/**
 Every run in which one caller is alone ends as the contract of Manager.EnsureDomains
 says, with time passing between its steps as it likes: the readings of the clock are
 those the caller took, and nothing else about the run matters.
 */
module LoneCaller {
  import opened Text
  import opened Wrappers
  import opened CertStore
  import opened ObtainProtocol
  import opened ObtainProvenance
  import opened SequentialObtain

  /** What the outside world did: the clock at each domain of the two checks and at the request, and the answer. */
  datatype Trace = Trace(now: seq<int>, later: seq<int>, at: int, attempt: Attempt)

  /** No second caller enters, and this one calls once. */
  predicate Solo(a: Action, id: nat, ds: seq<string>) {
    a.Start? ==> a == Start(id, ds)
  }

  predicate DueAtFirst(s: State, ds: seq<string>, w: Trace) {
    |w.now| == |ds| && AnyDue(s.meta, ds, w.now, s.window)
  }

  predicate DueTwice(s: State, ds: seq<string>, w: Trace) {
    DueAtFirst(s, ds, w) && |w.later| == |ds| && AnyDue(s.meta, ds, w.later, s.window)
  }

  function At(s: State, clock: int): State {
    s.(clock := clock)
  }

  /** The store and the log after the call, as the contract of EnsureDomains has them. */
  function Result(s: State, ds: seq<string>, w: Trace): (r: State)
    ensures r.obtainMu == s.obtainMu && r.window == s.window && r.clock == s.clock
  {
    if !DueTwice(s, ds, w) then s
    else if w.attempt.Obtained? then Stocked(Requesting(s, ds, w), ds, w.attempt.cert, w.attempt.Expiry())
    else Requesting(s, ds, w)
  }

  function Requesting(s: State, ds: seq<string>, w: Trace): State {
    s.(log := s.log + [Requested(ds, w.at)])
  }

  predicate Complete(s: State, ds: seq<string>, w: Trace, ok: bool) {
    && |w.now| == |w.later| == |ds|
    && (ok <==> !DueTwice(s, ds, w) || w.attempt.Obtained?)
  }

  /** What a lone caller in phase p has made of s. */
  function Base(s: State, id: nat, ds: seq<string>, w: Trace, p: Phase): State
    requires p.Storing? ==> p.next <= |ds|
  {
    match p
    case Entering => s
    case Checking(_, _) => s
    case Waiting => s
    case Holding => Locked(s, id)
    case Rechecking(_) => Locked(s, id)
    case Asking => Locked(s, id)
    case InFlight => Locked(Requesting(s, ds, w), id)
    case Answered(_, _) => Locked(Requesting(s, ds, w), id)
    case Locking(_, _) => Locked(Requesting(s, ds, w), id)
    case Storing(n, cert, expiry) => Filled(Locked(Requesting(s, ds, w), id), ds, n, cert, expiry)
    case Leaving(_) => Locked(Result(s, ds, w), id)
    case Returned(_) => Result(s, ds, w)
  }

  /** What its readings have told it by then. */
  predicate Learnt(s: State, ds: seq<string>, w: Trace, p: Phase) {
    match p
    case Entering => w.now == [] && w.later == []
    case Checking(i, due) =>
      && i <= |ds| && |w.now| == i && w.later == []
      && due == AnyDue(s.meta, ds[..i], w.now, s.window)
    case Waiting => DueAtFirst(s, ds, w) && w.later == []
    case Holding => DueAtFirst(s, ds, w) && w.later == []
    case Rechecking(i) =>
      && DueAtFirst(s, ds, w) && i <= |ds| && |w.later| == i
      && !AnyDue(s.meta, ds[..i], w.later, s.window)
    case Asking => DueTwice(s, ds, w)
    case InFlight => DueTwice(s, ds, w)
    case Answered(_, _) => DueTwice(s, ds, w)
    case Locking(_, _) => DueTwice(s, ds, w)
    case Storing(n, _, _) => DueTwice(s, ds, w) && n <= |ds|
    case Leaving(ok) => Complete(s, ds, w, ok)
    case Returned(ok) => Complete(s, ds, w, ok)
  }

  /** Every reading lies between the start of the run and now. */
  predicate Within(lo: int, readings: seq<int>, hi: int) {
    forall k | 0 <= k < |readings| :: lo <= readings[k] <= hi
  }

  predicate Shape(s: State, id: nat, ds: seq<string>, w: Trace, t: State) {
    && s.clock <= w.at <= t.clock && Within(s.clock, w.now, t.clock) && Within(s.clock, w.later, t.clock)
    && if t.callers == map[] then t == At(s, t.clock) && w.now == [] && w.later == []
    else
      && id in t.callers
      && var p := t.callers[id].phase;
      && Learnt(s, ds, w, p)
      && t == At(Alone(Base(s, id, ds, w, p), id, ds, p), t.clock)
  }

  /** What is known of the attempt after one more step: its failure, or the bundle once it is stored. */
  function AttemptAfter(t: State, a: Action, id: nat, attempt: Attempt): Attempt {
    if id !in t.callers then attempt
    else
      var p, ds := t.callers[id].phase, t.callers[id].domains;
      if a == CaRefuses(id) && p.InFlight? then CaRefused
      else if a == DiskFails(id) && p.Answered? then CertNotSaved
      else if a == Advance(id) && p.Storing? && p.next >= |ds| then Obtained(p.cert, Some(p.expiry), 0)
      else attempt
  }

  // ----- readings -------------------------------------------------------

  /** One more reading: the clock says whether one more domain is due. */
  lemma OneMoreReading(s: State, ds: seq<string>, now: seq<int>, clock: int)
    requires |now| < |ds|
    ensures
      var i := |now|;
      AnyDue(s.meta, ds[..i + 1], now + [clock], s.window)
      <==> AnyDue(s.meta, ds[..i], now, s.window) || IsDue(At(s, clock), ds[i])
  {
    hide Normalize;
    var i := |now|;
    var a, b := ds[..i], ds[..i + 1];
    assert b[..i] == a && b[i] == ds[i];
    if AnyDue(s.meta, a, now, s.window) {
      var k :| 0 <= k < i && Due(s.meta, Normalize(a[k]), now[k], s.window);
      assert b[k] == a[k] && (now + [clock])[k] == now[k];
    }
    if AnyDue(s.meta, b, now + [clock], s.window) {
      var k :| 0 <= k <= i && Due(s.meta, Normalize(b[k]), (now + [clock])[k], s.window);
      if k < i {
        assert b[k] == a[k] && (now + [clock])[k] == now[k];
      }
    }
    if IsDue(At(s, clock), ds[i]) {
      assert (now + [clock])[i] == clock;
    }
  }

  /** After the first due domain the recheck reads no more; any readings may stand for the rest. */
  lemma DueWhateverFollows(s: State, ds: seq<string>, now: seq<int>, rest: seq<int>)
    requires |now| <= |ds| && |rest| == |ds| - |now|
    requires AnyDue(s.meta, ds[..|now|], now, s.window)
    ensures AnyDue(s.meta, ds, now + rest, s.window)
  {
    hide Normalize;
    var k :| 0 <= k < |now| && Due(s.meta, Normalize(ds[..|now|][k]), now[k], s.window);
    assert ds[..|now|][k] == ds[k] && (now + rest)[k] == now[k];
  }

  // ----- one step of the caller -----------------------------------------

  lemma StepAlone(s: State, id: nat, ds: seq<string>, p: Phase, clock: int)
    requires !p.Waiting? && !p.Asking? && !p.Storing? && !p.Leaving?
    ensures
      var a := At(Alone(s, id, ds, p), clock);
      Step(a, Advance(id)) == At(Alone(s, id, ds, NextPhase(a, Caller(ds, p))), clock)
  {
    AdvanceAlone(At(s, clock), id, ds, p);
  }

  lemma CheckStep(s: State, id: nat, ds: seq<string>, w: Trace, t: State) returns (v: Trace)
    requires Idle(s) && t.callers != map[] && Shape(s, id, ds, w, t) && t.callers[id].phase.Checking?
    ensures Shape(s, id, ds, v, Step(t, Advance(id)))
    ensures v.attempt == w.attempt
  {
    hide Normalize, AnyDue, IsDue, Step;
    var p := t.callers[id].phase;
    var i := p.next;
    StepAlone(s, id, ds, p, t.clock);
    if i < |ds| {
      OneMoreReading(s, ds, w.now, t.clock);
      DueAlone(At(s, t.clock), id, ds, p, ds[i]);
      v := w.(now := w.now + [t.clock]);
    } else {
      assert ds[..i] == ds;
      v := if p.due then w else w.(later := w.now);
    }
  }

  lemma RecheckStep(s: State, id: nat, ds: seq<string>, w: Trace, t: State) returns (v: Trace)
    requires Idle(s) && t.callers != map[] && Shape(s, id, ds, w, t) && t.callers[id].phase.Rechecking?
    ensures Shape(s, id, ds, v, Step(t, Advance(id)))
    ensures v.attempt == w.attempt
  {
    hide Normalize, AnyDue, IsDue, Step;
    var p := t.callers[id].phase;
    var i := p.next;
    StepAlone(Locked(s, id), id, ds, p, t.clock);
    if i < |ds| {
      OneMoreReading(s, ds, w.later, t.clock);
      DueAlone(At(Locked(s, id), t.clock), id, ds, p, ds[i]);
      DueUnlocked(At(s, t.clock), id, ds[i]);
      v := w.(later := w.later + [t.clock]);
      if IsDue(At(s, t.clock), ds[i]) {
        var rest := seq(|ds| - i - 1, _ => t.clock);
        DueWhateverFollows(s, ds, v.later, rest);
        v := w.(later := v.later + rest);
      }
    } else {
      assert ds[..i] == ds;
      v := w;
    }
  }

  lemma DueUnlocked(s: State, id: nat, d: string)
    ensures IsDue(Locked(s, id), d) == IsDue(s, d)
  {
  }

  lemma LockingStep(s: State, id: nat, ds: seq<string>, w: Trace, t: State) returns (v: Trace)
    requires Idle(s) && t.callers != map[] && Shape(s, id, ds, w, t)
    requires var p := t.callers[id].phase; p.Entering? || p.Waiting? || p.Holding?
    ensures Shape(s, id, ds, v, Step(t, Advance(id)))
    ensures v.attempt == w.attempt
  {
    hide Normalize, IsDue, Step;
    var p := t.callers[id].phase;
    v := w;
    assert MayRead(t);
    match p
    case Entering => StepAlone(s, id, ds, p, t.clock);
    case Waiting => TakeLock(At(s, t.clock), id, ds);
    case Holding => StepAlone(Locked(s, id), id, ds, p, t.clock);
  }

  lemma RequestStep(s: State, id: nat, ds: seq<string>, w: Trace, t: State) returns (v: Trace)
    requires Idle(s) && t.callers != map[] && Shape(s, id, ds, w, t) && t.callers[id].phase.Asking?
    ensures Shape(s, id, ds, v, Step(t, Advance(id)))
    ensures v.attempt == w.attempt
  {
    hide Normalize, AnyDue, Step;
    v := w.(at := t.clock);
    AskStep(At(Locked(s, id), t.clock), id, ds);
  }

  lemma LockedStoreStep(s: State, id: nat, ds: seq<string>, w: Trace, t: State)
    requires Idle(s) && t.callers != map[] && Shape(s, id, ds, w, t)
    requires t.callers[id].phase.Answered? || t.callers[id].phase.Locking?
    ensures Shape(s, id, ds, w, Step(t, Advance(id)))
  {
    hide Normalize, AnyDue, StoreAll, Step, Filled;
    var p := t.callers[id].phase;
    var u := Locked(Requesting(s, ds, w), id);
    StepAlone(u, id, ds, p, t.clock);
    NothingFilled(u, ds, p.cert, p.expiry);
  }

  lemma StoreOneStep(s: State, id: nat, ds: seq<string>, w: Trace, t: State)
    requires Idle(s) && t.callers != map[] && Shape(s, id, ds, w, t) && t.callers[id].phase.Storing?
    requires t.callers[id].phase.next < |ds|
    ensures Shape(s, id, ds, w, Step(t, Advance(id)))
  {
    hide Normalize, AnyDue, StoreAll, Step;
    var p := t.callers[id].phase;
    FillOne(At(Locked(Requesting(s, ds, w), id), t.clock), id, ds, p.next, p.cert, p.expiry);
  }

  lemma StoredStep(s: State, id: nat, ds: seq<string>, w: Trace, t: State) returns (v: Trace)
    requires Idle(s) && t.callers != map[] && Shape(s, id, ds, w, t) && t.callers[id].phase.Storing?
    requires t.callers[id].phase.next >= |ds|
    ensures Shape(s, id, ds, v, Step(t, Advance(id)))
    ensures v.attempt == Obtained(t.callers[id].phase.cert, Some(t.callers[id].phase.expiry), 0)
  {
    hide Normalize, AnyDue, StoreAll, Step;
    var p := t.callers[id].phase;
    v := w.(attempt := Obtained(p.cert, Some(p.expiry), 0));
    LogStore(At(Locked(Requesting(s, ds, w), id), t.clock), id, ds, p.cert, p.expiry);
  }

  lemma NothingFilled(s: State, ds: seq<string>, cert: Certificate, expiry: int)
    ensures Filled(s, ds, 0, cert, expiry) == s
  {
    assert ds[..0] == [];
  }

  lemma LastStep(s: State, id: nat, ds: seq<string>, w: Trace, t: State) returns (v: Trace)
    requires Idle(s) && t.callers != map[] && Shape(s, id, ds, w, t)
    requires var p := t.callers[id].phase; p.Leaving? || p.Returned? || p.InFlight?
    ensures Shape(s, id, ds, v, Step(t, Advance(id)))
    ensures v.attempt == w.attempt
  {
    hide Normalize, AnyDue, Result;
    var p := t.callers[id].phase;
    v := w;
    MoveAlone(At(Base(s, id, ds, w, p), t.clock), id, ds, p, if p.Leaving? then Returned(p.ok) else p);
  }

  lemma AdvanceKeepsShape(s: State, id: nat, ds: seq<string>, w: Trace, t: State) returns (v: Trace)
    requires Idle(s) && t.callers != map[] && Shape(s, id, ds, w, t)
    ensures Shape(s, id, ds, v, Step(t, Advance(id)))
    ensures v.attempt == AttemptAfter(t, Advance(id), id, w.attempt)
  {
    hide Step, Shape;
    v := w;
    ShapeCaller(s, id, ds, w, t);
    match t.callers[id].phase
    case Entering => v := LockingStep(s, id, ds, w, t);
    case Checking(_, _) => v := CheckStep(s, id, ds, w, t);
    case Waiting => v := LockingStep(s, id, ds, w, t);
    case Holding => v := LockingStep(s, id, ds, w, t);
    case Rechecking(_) => v := RecheckStep(s, id, ds, w, t);
    case Asking => v := RequestStep(s, id, ds, w, t);
    case InFlight => v := LastStep(s, id, ds, w, t);
    case Answered(_, _) => LockedStoreStep(s, id, ds, w, t);
    case Locking(_, _) => LockedStoreStep(s, id, ds, w, t);
    case Storing(n, _, _) =>
      if n < |ds| {
        StoreOneStep(s, id, ds, w, t);
      } else {
        v := StoredStep(s, id, ds, w, t);
      }
    case Leaving(_) => v := LastStep(s, id, ds, w, t);
    case Returned(_) => v := LastStep(s, id, ds, w, t);
  }

  lemma ShapeCaller(s: State, id: nat, ds: seq<string>, w: Trace, t: State)
    requires Shape(s, id, ds, w, t) && t.callers != map[]
    ensures t.callers.Keys == {id} && t.callers[id].domains == ds
  {
  }

  // ----- steps of the world ---------------------------------------------

  lemma AnswerKeepsShape(s: State, id: nat, ds: seq<string>, w: Trace, t: State, a: Action) returns (v: Trace)
    requires Idle(s) && t.callers != map[] && Shape(s, id, ds, w, t)
    requires a == CaRefuses(id) || a == DiskFails(id) || (a.CaIssues? && a.id == id)
    ensures Shape(s, id, ds, v, Step(t, a))
    ensures v.attempt == AttemptAfter(t, a, id, w.attempt)
  {
    hide Normalize, AnyDue, StoreAll, NextPhase;
    var p := t.callers[id].phase;
    v := w;
    if p.InFlight? && a.CaIssues? {
      MoveAlone(At(Base(s, id, ds, w, p), t.clock), id, ds, p, Answered(a.cert, a.expiry));
    } else if (p.InFlight? && a.CaRefuses?) || (p.Answered? && a.DiskFails?) {
      v := w.(attempt := if a.CaRefuses? then CaRefused else CertNotSaved);
      MoveAlone(At(Base(s, id, ds, w, p), t.clock), id, ds, p, Leaving(false));
    }
  }

  lemma StartKeepsShape(s: State, id: nat, ds: seq<string>, w: Trace, t: State) returns (v: Trace)
    requires Idle(s) && Shape(s, id, ds, w, t)
    ensures Shape(s, id, ds, v, Step(t, Start(id, ds)))
    ensures v.attempt == w.attempt
  {
    hide Normalize, StoreAll, NextPhase;
    v := w;
    if t.callers == map[] {
      var p := if ds == [] then Returned(true) else Entering;
      assert map[][id := Caller(ds, p)] == map[id := Caller(ds, p)];
    }
  }

  lemma TickKeepsShape(s: State, id: nat, ds: seq<string>, w: Trace, t: State, elapsed: nat)
    requires Shape(s, id, ds, w, t)
    ensures Shape(s, id, ds, w, Step(t, Tick(elapsed)))
  {
    hide Learnt, Base;
  }

  lemma StepKeepsShape(s: State, id: nat, ds: seq<string>, w: Trace, t: State, a: Action) returns (v: Trace)
    requires Idle(s) && Solo(a, id, ds) && Shape(s, id, ds, w, t)
    ensures Shape(s, id, ds, v, Step(t, a))
    ensures v.attempt == AttemptAfter(t, a, id, w.attempt)
  {
    hide Shape, AdvanceCaller;
    v := w;
    if t.callers != map[] {
      ShapeCaller(s, id, ds, w, t);
    }
    match a
    case Tick(elapsed) => TickKeepsShape(s, id, ds, w, t, elapsed);
    case Start(_, _) => v := StartKeepsShape(s, id, ds, w, t);
    case Advance(k) =>
      if k in t.callers {
        v := AdvanceKeepsShape(s, id, ds, w, t);
      }
    case _ =>
      if a.id in t.callers {
        v := AnswerKeepsShape(s, id, ds, w, t, a);
      }
  }

  // ----- every run ------------------------------------------------------

  /** What a run says of the attempt of its caller. */
  function AttemptOf(s: State, actions: seq<Action>, id: nat): Attempt {
    if actions == [] then CaRefused
    else
      var n := |actions| - 1;
      AttemptAfter(Run(s, actions[..n]), actions[n], id, AttemptOf(s, actions[..n], id))
  }

  lemma {:induction false} LoneRun(s: State, id: nat, ds: seq<string>, actions: seq<Action>) returns (w: Trace)
    requires Idle(s) && forall a | a in actions :: Solo(a, id, ds)
    ensures Shape(s, id, ds, w, Run(s, actions))
    ensures w.attempt == AttemptOf(s, actions, id)
    decreases |actions|
  {
    hide Step;
    if actions == [] {
      w := Trace([], [], s.clock, CaRefused);
    } else {
      var n := |actions| - 1;
      var v := LoneRun(s, id, ds, actions[..n]);
      w := StepKeepsShape(s, id, ds, v, Run(s, actions[..n]), actions[n]);
    }
  }

  // ----- the attempt is the one the run reports -------------------------

  predicate HasFailed(t: State, id: nat) {
    id in t.callers && (t.callers[id].phase == Leaving(false) || t.callers[id].phase == Returned(false))
  }

  predicate WritingFiles(t: State, id: nat) {
    id in t.callers && t.callers[id].phase.Answered?
  }

  /** At some step of the run the CA refused the pending request, or the files of its answer could not be written. */
  predicate Reported(s: State, actions: seq<Action>, id: nat, attempt: Attempt) {
    exists k | 0 <= k < |actions| ::
      if attempt.CaRefused? then actions[k] == CaRefuses(id) && Pending(Run(s, actions[..k]), id)
      else actions[k] == DiskFails(id) && WritingFiles(Run(s, actions[..k]), id)
  }

  lemma ReportedStays(s: State, actions: seq<Action>, a: Action, id: nat, attempt: Attempt)
    requires Reported(s, actions, id, attempt)
    ensures Reported(s, actions + [a], id, attempt)
  {
    var k :| 0 <= k < |actions| &&
      if attempt.CaRefused? then actions[k] == CaRefuses(id) && Pending(Run(s, actions[..k]), id)
      else actions[k] == DiskFails(id) && WritingFiles(Run(s, actions[..k]), id);
    assert (actions + [a])[..k] == actions[..k] && (actions + [a])[k] == actions[k];
  }

  lemma NextNotFailed(s: State, c: Caller)
    requires c.phase != Leaving(false) && c.phase != Returned(false)
    ensures NextPhase(s, c) != Leaving(false) && NextPhase(s, c) != Returned(false)
  {
    hide IsDue, NoWriter, NoReader, MayRead;
  }

  /** A call fails at the very step that reports it, and is not touched by another report. */
  lemma FailureStep(t: State, a: Action, id: nat, attempt: Attempt)
    requires HasFailed(Step(t, a), id)
    ensures
      var v := AttemptAfter(t, a, id, attempt);
      || (HasFailed(t, id) && v == attempt)
      || (a == CaRefuses(id) && Pending(t, id) && v == CaRefused)
      || (a == DiskFails(id) && WritingFiles(t, id) && v == CertNotSaved)
  {
    hide Normalize, NextPhase;
    if id in t.callers && !HasFailed(t, id) {
      NextNotFailed(t, t.callers[id]);
    }
  }

  lemma {:induction false} AttemptIsReported(s: State, actions: seq<Action>, id: nat)
    requires Idle(s)
    ensures forall k | k in Run(s, actions).callers :: PhaseIssued(s, actions, k, Run(s, actions).callers[k].phase)
    ensures AttemptOf(s, actions, id).Obtained? ==>
      Issued(s, actions, id, AttemptOf(s, actions, id).cert, AttemptOf(s, actions, id).Expiry())
    ensures HasFailed(Run(s, actions), id) ==> Reported(s, actions, id, AttemptOf(s, actions, id))
    decreases |actions|
  {
    hide Step, Issued, Holds, Reported;
    if actions != [] {
      var n := |actions| - 1;
      var rest, a := actions[..n], actions[n];
      assert actions == rest + [a];
      var t := Run(s, rest);
      AttemptIsReported(s, rest, id);
      forall k, cert, expiry | k in Step(t, a).callers && Holds(Step(t, a).callers[k].phase, cert, expiry)
        ensures Issued(s, actions, k, cert, expiry)
      {
        StepIssues(s, rest, t, a, k, cert, expiry);
      }
      ObtainedIsIssued(s, rest, a, id);
      if HasFailed(Step(t, a), id) {
        FailureIsReported(s, rest, a, id);
      }
    }
  }

  lemma ObtainedIsIssued(s: State, rest: seq<Action>, a: Action, id: nat)
    requires forall k | k in Run(s, rest).callers :: PhaseIssued(s, rest, k, Run(s, rest).callers[k].phase)
    requires AttemptOf(s, rest, id).Obtained? ==>
      Issued(s, rest, id, AttemptOf(s, rest, id).cert, AttemptOf(s, rest, id).Expiry())
    ensures
      var attempt := AttemptAfter(Run(s, rest), a, id, AttemptOf(s, rest, id));
      attempt.Obtained? ==> Issued(s, rest + [a], id, attempt.cert, attempt.Expiry())
  {
    hide Run, Issued, AttemptOf;
    var t, before := Run(s, rest), AttemptOf(s, rest, id);
    var attempt := AttemptAfter(t, a, id, before);
    if attempt.Obtained? {
      if attempt != before {
        assert PhaseIssued(s, rest, id, t.callers[id].phase);
        assert Holds(t.callers[id].phase, attempt.cert, attempt.Expiry());
      }
      IssuedStays(s, rest, a, id, attempt.cert, attempt.Expiry());
    }
  }

  lemma FailureIsReported(s: State, rest: seq<Action>, a: Action, id: nat)
    requires HasFailed(Run(s, rest), id) ==> Reported(s, rest, id, AttemptOf(s, rest, id))
    requires HasFailed(Step(Run(s, rest), a), id)
    ensures Reported(s, rest + [a], id, AttemptAfter(Run(s, rest), a, id, AttemptOf(s, rest, id)))
  {
    hide Run, Step, AttemptOf, AttemptAfter, HasFailed, Pending, WritingFiles;
    var t, before := Run(s, rest), AttemptOf(s, rest, id);
    FailureStep(t, a, id, before);
    if HasFailed(t, id) && AttemptAfter(t, a, id, before) == before {
      ReportedStays(s, rest, a, id, before);
    } else {
      assert (rest + [a])[..|rest|] == rest && (rest + [a])[|rest|] == a;
    }
  }

  /** t is what Manager.EnsureDomains promises of s, for these readings of the clock and this attempt. */
  predicate MeetsContract(s: State, id: nat, ds: seq<string>, w: Trace, t: State) {
    && |w.now| == |w.later| == |ds|
    && s.clock <= w.at <= t.clock && Within(s.clock, w.now, t.clock) && Within(s.clock, w.later, t.clock)
    && t.obtainMu.None? && t.window == s.window
    && var requested := AnyDue(s.meta, ds, w.now, s.window) && AnyDue(s.meta, ds, w.later, s.window);
    var stored := requested && w.attempt.Obtained?;
    && t.callers == map[id := Caller(ds, Returned(!requested || stored))]
    && t.log == s.log
         + (if requested then [Requested(ds, w.at)] else [])
         + (if stored then [Stored(ds, w.attempt.Expiry())] else [])
    && t.certs == (if stored then StoreAll(s.certs, ds, w.attempt.cert) else s.certs)
    && t.meta == (if stored then StoreAll(s.meta, ds, w.attempt.Expiry()) else s.meta)
  }

  /** If the CA was asked, the attempt is what the run reports: its answer, its refusal, or the failing disk. */
  predicate AttemptFits(s: State, id: nat, ds: seq<string>, w: Trace, actions: seq<Action>)
    requires |w.now| == |w.later| == |ds|
  {
    AnyDue(s.meta, ds, w.now, s.window) && AnyDue(s.meta, ds, w.later, s.window) ==>
      if w.attempt.Obtained? then Issued(s, actions, id, w.attempt.cert, w.attempt.Expiry())
      else Reported(s, actions, id, w.attempt)
  }

  /**
   Every run of one caller alone, the clock ticking as it may: once the call has returned,
   there are readings of the clock for which, with the answer the run itself reports,
   verdict, log and both maps are what Manager.EnsureDomains promises, and the mutex is
   free again.
   */
  lemma {:induction false} EveryLoneRunMeetsContract(s: State, id: nat, ds: seq<string>, actions: seq<Action>)
    requires Idle(s) && forall a | a in actions :: Solo(a, id, ds)
    requires id in Run(s, actions).callers && Run(s, actions).callers[id].phase.Returned?
    ensures exists w: Trace :: MeetsContract(s, id, ds, w, Run(s, actions)) && AttemptFits(s, id, ds, w, actions)
  {
    hide Run, StoreAll, AnyDue, Issued, Reported, AttemptOf;
    var w := LoneRun(s, id, ds, actions);
    assert ds[..|ds|] == ds;
    assert MeetsContract(s, id, ds, w, Run(s, actions));
    AttemptIsReported(s, actions, id);
    assert AttemptFits(s, id, ds, w, actions);
  }

  /** If the clock stood still, the state is one of those that LoneCallMeetsContract shows to be reached, and no other. */
  lemma {:induction false} LoneRunsReachNothingElse(s: State, id: nat, ds: seq<string>, actions: seq<Action>)
    requires Idle(s) && forall a | a in actions :: Solo(a, id, ds)
    requires id in Run(s, actions).callers && Run(s, actions).callers[id].phase.Returned?
    requires Run(s, actions).clock == s.clock
    ensures exists attempt :: Run(s, actions) == AfterCall(s, id, ds, attempt)
  {
    hide Run, StoreAll;
    var t := Run(s, actions);
    var w := LoneRun(s, id, ds, actions);
    StandingClock(s, ds, w.now);
    StandingClock(s, ds, w.later);
    assert t == AfterCall(s, id, ds, w.attempt);
  }

  lemma StandingClock(s: State, ds: seq<string>, readings: seq<int>)
    requires |readings| == |ds| && Within(s.clock, readings, s.clock)
    ensures AnyDue(s.meta, ds, readings, s.window) == DueFrom(s, ds, 0)
  {
    hide Normalize;
    if AnyDue(s.meta, ds, readings, s.window) {
      var k :| 0 <= k < |ds| && Due(s.meta, Normalize(ds[k]), readings[k], s.window);
      assert IsDue(s, ds[k]);
    }
    if DueFrom(s, ds, 0) {
      var k :| 0 <= k < |ds| && IsDue(s, ds[k]);
      assert Due(s.meta, Normalize(ds[k]), readings[k], s.window);
    }
  }
}
