/**
 Every state that the contract of EnsureDomains (CertStore.Manager) gives for a call is
 reached by a caller that takes the steps of acme/manager.go:77-182 alone.
 */
module SequentialObtain {
  import opened Text
  import opened Wrappers
  import opened CertStore
  import opened ObtainProtocol
  import opened ObtainTheorems

  /** Some sequence of steps leads from s to t. */
  ghost predicate Reaches(s: State, t: State) {
    exists actions :: Run(s, actions) == t
  }

  lemma Then(s: State, t: State, u: State)
    requires Reaches(s, t) && Reaches(t, u)
    ensures Reaches(s, u)
  {
    var a :| Run(s, a) == t;
    var b :| Run(t, b) == u;
    RunAppend(s, a, b);
  }

  lemma ByStep(s: State, a: Action)
    ensures Reaches(s, Step(s, a))
  {
    assert [a][..0] == [];
    assert Run(s, [a]) == Step(s, a);
  }

  lemma ByStepThen(s: State, a: Action, t: State)
    requires Reaches(Step(s, a), t)
    ensures Reaches(s, t)
  {
    ByStep(s, a);
    Then(s, Step(s, a), t);
  }

  lemma Already(s: State)
    ensures Reaches(s, s)
  {
    assert Run(s, []) == s;
  }

  /** s with this one caller. */
  function Alone(s: State, id: nat, ds: seq<string>, p: Phase): State {
    s.(callers := map[id := Caller(ds, p)])
  }

  predicate DueFrom(s: State, ds: seq<string>, i: nat) {
    exists j | i <= j < |ds| :: IsDue(s, ds[j])
  }

  lemma DueFromStep(s: State, ds: seq<string>, i: nat)
    requires i < |ds|
    ensures DueFrom(s, ds, i) <==> IsDue(s, ds[i]) || DueFrom(s, ds, i + 1)
  {
  }

  lemma AdvanceAlone(s: State, id: nat, ds: seq<string>, p: Phase)
    requires !p.Waiting? && !p.Asking? && !p.Storing? && !p.Leaving?
    ensures
      var a := Alone(s, id, ds, p);
      Step(a, Advance(id)) == Alone(s, id, ds, NextPhase(a, a.callers[id]))
  {
    hide NextPhase;
    var a := Alone(s, id, ds, p);
    var q := NextPhase(a, a.callers[id]);
    assert map[id := Caller(ds, p)][id := Caller(ds, q)] == map[id := Caller(ds, q)];
  }

  lemma {:induction false} CheckLoop(s: State, id: nat, ds: seq<string>, i: nat, due: bool)
    requires i <= |ds|
    ensures Reaches(Alone(s, id, ds, Checking(i, due)), Alone(s, id, ds, Checking(|ds|, due || DueFrom(s, ds, i))))
    decreases |ds| - i
  {
    hide IsDue, Reaches, Step;
    var here := Alone(s, id, ds, Checking(i, due));
    if i == |ds| {
      Already(here);
    } else {
      DueFromStep(s, ds, i);
      AdvanceAlone(s, id, ds, Checking(i, due));
      assert IsDue(here, ds[i]) == IsDue(s, ds[i]) by { DueAlone(s, id, ds, Checking(i, due), ds[i]); }
      CheckLoop(s, id, ds, i + 1, due || IsDue(s, ds[i]));
      ByStepThen(here, Advance(id), Alone(s, id, ds, Checking(|ds|, due || DueFrom(s, ds, i))));
    }
  }

  lemma DueAlone(s: State, id: nat, ds: seq<string>, p: Phase, d: string)
    ensures IsDue(Alone(s, id, ds, p), d) == IsDue(s, d)
  {
  }

  lemma {:induction false} RecheckLoop(s: State, id: nat, ds: seq<string>, i: nat)
    requires i <= |ds|
    ensures Reaches(
      Alone(s, id, ds, Rechecking(i)),
      Alone(s, id, ds, if DueFrom(s, ds, i) then Asking else Rechecking(|ds|)))
    decreases |ds| - i
  {
    hide IsDue, Reaches, Step;
    var here := Alone(s, id, ds, Rechecking(i));
    var there := Alone(s, id, ds, if DueFrom(s, ds, i) then Asking else Rechecking(|ds|));
    if i == |ds| {
      Already(here);
    } else {
      DueFromStep(s, ds, i);
      AdvanceAlone(s, id, ds, Rechecking(i));
      DueAlone(s, id, ds, Rechecking(i), ds[i]);
      if IsDue(s, ds[i]) {
        Already(there);
      } else {
        RecheckLoop(s, id, ds, i + 1);
      }
      ByStepThen(here, Advance(id), there);
    }
  }

  /** s after the store loop has assigned the first n domains. */
  function Filled(s: State, ds: seq<string>, n: nat, cert: Certificate, expiry: int): State
    requires n <= |ds|
  {
    s.(certs := StoreAll(s.certs, ds[..n], cert), meta := StoreAll(s.meta, ds[..n], expiry))
  }

  lemma FillOne(s: State, id: nat, ds: seq<string>, n: nat, cert: Certificate, expiry: int)
    requires n < |ds|
    ensures
      Step(Alone(Filled(s, ds, n, cert, expiry), id, ds, Storing(n, cert, expiry)), Advance(id))
      == Alone(Filled(s, ds, n + 1, cert, expiry), id, ds, Storing(n + 1, cert, expiry))
  {
    hide Normalize;
    assert ds[..n + 1][..n] == ds[..n];
    var p, q := Storing(n, cert, expiry), Storing(n + 1, cert, expiry);
    assert map[id := Caller(ds, p)][id := Caller(ds, q)] == map[id := Caller(ds, q)];
  }

  lemma {:induction false} StoreLoop(s: State, id: nat, ds: seq<string>, n: nat, cert: Certificate, expiry: int)
    requires n <= |ds|
    ensures Reaches(
      Alone(Filled(s, ds, n, cert, expiry), id, ds, Storing(n, cert, expiry)),
      Alone(Filled(s, ds, |ds|, cert, expiry), id, ds, Storing(|ds|, cert, expiry)))
    decreases |ds| - n
  {
    hide Reaches, Step, Filled;
    var here := Alone(Filled(s, ds, n, cert, expiry), id, ds, Storing(n, cert, expiry));
    if n == |ds| {
      Already(here);
    } else {
      FillOne(s, id, ds, n, cert, expiry);
      StoreLoop(s, id, ds, n + 1, cert, expiry);
      ByStepThen(here, Advance(id), Alone(Filled(s, ds, |ds|, cert, expiry), id, ds, Storing(|ds|, cert, expiry)));
    }
  }

  // ----- the three stretches of one call ---------------------------------

  predicate Idle(s: State) {
    s.callers == map[] && s.obtainMu.None?
  }

  function Locked(s: State, id: nat): State {
    s.(obtainMu := Some(id))
  }

  function Asked(s: State, ds: seq<string>): State {
    s.(log := s.log + [Requested(ds, s.clock)])
  }

  lemma EnterAndCheck(s: State, id: nat, ds: seq<string>)
    requires Idle(s) && ds != []
    ensures Reaches(s, Alone(s, id, ds, Checking(|ds|, DueFrom(s, ds, 0))))
  {
    hide Reaches, IsDue, DueFrom;
    var checked := Alone(s, id, ds, Checking(|ds|, DueFrom(s, ds, 0)));
    assert map[][id := Caller(ds, Entering)] == map[id := Caller(ds, Entering)];
    assert Step(s, Start(id, ds)) == Alone(s, id, ds, Entering);
    AdvanceAlone(s, id, ds, Entering);
    CheckLoop(s, id, ds, 0, false);
    ByStepThen(Alone(s, id, ds, Entering), Advance(id), checked);
    ByStepThen(s, Start(id, ds), checked);
  }

  lemma LockAndAsk(s: State, id: nat, ds: seq<string>)
    requires Idle(s) && DueFrom(s, ds, 0)
    ensures Reaches(Alone(s, id, ds, Checking(|ds|, true)), Alone(Asked(Locked(s, id), ds), id, ds, InFlight))
  {
    hide Reaches, IsDue;
    var u := Locked(s, id);
    var asked := Alone(Asked(u, ds), id, ds, InFlight);
    DueLocked(s, id, ds);
    AdvanceAlone(s, id, ds, Checking(|ds|, true));
    TakeLock(s, id, ds);
    AdvanceAlone(u, id, ds, Holding);
    RecheckLoop(u, id, ds, 0);
    AskStep(u, id, ds);
    ByStep(Alone(u, id, ds, Asking), Advance(id));
    Then(Alone(u, id, ds, Rechecking(0)), Alone(u, id, ds, Asking), asked);
    ByStepThen(Alone(u, id, ds, Holding), Advance(id), asked);
    ByStepThen(Alone(s, id, ds, Waiting), Advance(id), asked);
    ByStepThen(Alone(s, id, ds, Checking(|ds|, true)), Advance(id), asked);
  }

  lemma DueLocked(s: State, id: nat, ds: seq<string>)
    requires DueFrom(s, ds, 0)
    ensures DueFrom(Locked(s, id), ds, 0)
  {
    var j :| 0 <= j < |ds| && IsDue(s, ds[j]);
    assert IsDue(Locked(s, id), ds[j]);
  }

  lemma TakeLock(s: State, id: nat, ds: seq<string>)
    requires Idle(s)
    ensures Step(Alone(s, id, ds, Waiting), Advance(id)) == Alone(Locked(s, id), id, ds, Holding)
  {
    assert map[id := Caller(ds, Waiting)][id := Caller(ds, Holding)] == map[id := Caller(ds, Holding)];
  }

  lemma AskStep(u: State, id: nat, ds: seq<string>)
    ensures Step(Alone(u, id, ds, Asking), Advance(id)) == Alone(Asked(u, ds), id, ds, InFlight)
  {
    assert map[id := Caller(ds, Asking)][id := Caller(ds, InFlight)] == map[id := Caller(ds, InFlight)];
  }

  lemma Unlock(s: State, id: nat, ds: seq<string>, ok: bool)
    requires Idle(s)
    ensures Reaches(Alone(Locked(s, id), id, ds, Leaving(ok)), Alone(s, id, ds, Returned(ok)))
  {
    hide Reaches;
    var p, q := Leaving(ok), Returned(ok);
    assert map[id := Caller(ds, p)][id := Caller(ds, q)] == map[id := Caller(ds, q)];
    ByStep(Alone(Locked(s, id), id, ds, p), Advance(id));
  }

  lemma Fail(s: State, id: nat, ds: seq<string>, attempt: Attempt)
    requires Idle(s) && !attempt.Obtained?
    ensures Reaches(Alone(Locked(s, id), id, ds, InFlight), Alone(s, id, ds, Returned(false)))
  {
    hide Reaches;
    var u, left := Locked(s, id), Alone(s, id, ds, Returned(false));
    var here := Alone(u, id, ds, InFlight);
    Unlock(s, id, ds, false);
    if attempt.CaRefused? {
      MoveAlone(u, id, ds, InFlight, Leaving(false));
      ByStepThen(here, CaRefuses(id), left);
    } else {
      var answered := Answered(Certificate(0), 0);
      MoveAlone(u, id, ds, InFlight, answered);
      MoveAlone(u, id, ds, answered, Leaving(false));
      ByStepThen(Alone(u, id, ds, answered), DiskFails(id), left);
      ByStepThen(here, CaIssues(id, Certificate(0), 0), left);
    }
  }

  lemma MoveAlone(u: State, id: nat, ds: seq<string>, p: Phase, q: Phase)
    ensures Move(Alone(u, id, ds, p), id, q) == Alone(u, id, ds, q)
  {
    assert map[id := Caller(ds, p)][id := Caller(ds, q)] == map[id := Caller(ds, q)];
  }

  /** The state once the bundle is in the store and the store in the log. */
  function Stocked(s: State, ds: seq<string>, cert: Certificate, expiry: int): State {
    var t := Filled(s, ds, |ds|, cert, expiry);
    t.(log := t.log + [Stored(ds, expiry)])
  }

  lemma StoreAndReturn(s: State, id: nat, ds: seq<string>, cert: Certificate, expiry: int)
    requires Idle(s)
    ensures Reaches(
      Alone(Locked(s, id), id, ds, Storing(0, cert, expiry)),
      Alone(Stocked(s, ds, cert, expiry), id, ds, Returned(true)))
  {
    hide Reaches, Step;
    var u, left := Locked(s, id), Alone(Stocked(s, ds, cert, expiry), id, ds, Returned(true));
    var first, last := Storing(0, cert, expiry), Storing(|ds|, cert, expiry);
    var full := Filled(u, ds, |ds|, cert, expiry);
    Unlock(Stocked(s, ds, cert, expiry), id, ds, true);
    LogStore(u, id, ds, cert, expiry);
    ByStepThen(Alone(full, id, ds, last), Advance(id), left);
    StoreLoop(u, id, ds, 0, cert, expiry);
    assert ds[..0] == [];
    Then(Alone(u, id, ds, first), Alone(full, id, ds, last), left);
  }

  lemma Succeed(s: State, id: nat, ds: seq<string>, cert: Certificate, expiry: int)
    requires Idle(s)
    ensures Reaches(Alone(Locked(s, id), id, ds, InFlight), Alone(Stocked(s, ds, cert, expiry), id, ds, Returned(true)))
  {
    hide Reaches, Stocked;
    var u, left := Locked(s, id), Alone(Stocked(s, ds, cert, expiry), id, ds, Returned(true));
    var answered, locking := Answered(cert, expiry), Locking(cert, expiry);
    StoreAndReturn(s, id, ds, cert, expiry);
    AdvanceAlone(u, id, ds, locking);
    ByStepThen(Alone(u, id, ds, locking), Advance(id), left);
    AdvanceAlone(u, id, ds, answered);
    ByStepThen(Alone(u, id, ds, answered), Advance(id), left);
    MoveAlone(u, id, ds, InFlight, answered);
    ByStepThen(Alone(u, id, ds, InFlight), CaIssues(id, cert, expiry), left);
  }

  lemma LogStore(u: State, id: nat, ds: seq<string>, cert: Certificate, expiry: int)
    ensures
      Step(Alone(Filled(u, ds, |ds|, cert, expiry), id, ds, Storing(|ds|, cert, expiry)), Advance(id))
      == Alone(Stocked(u, ds, cert, expiry), id, ds, Leaving(true))
  {
    hide StoreAll;
    MoveAlone(Filled(u, ds, |ds|, cert, expiry), id, ds, Storing(|ds|, cert, expiry), Leaving(true));
  }

  // ----- the whole call ---------------------------------------------------

  /** The state after a lone call, as the contract of Manager.EnsureDomains describes it. */
  function AfterCall(s: State, id: nat, ds: seq<string>, attempt: Attempt): State {
    if !DueFrom(s, ds, 0) then Alone(s, id, ds, Returned(true))
    else if attempt.Obtained? then
      Alone(Stocked(Asked(s, ds), ds, attempt.cert, attempt.Expiry()), id, ds, Returned(true))
    else Alone(Asked(s, ds), id, ds, Returned(false))
  }

  lemma LoneCallRuns(s: State, id: nat, ds: seq<string>, attempt: Attempt)
    requires Idle(s) && ds != []
    ensures Reaches(s, AfterCall(s, id, ds, attempt))
  {
    hide Reaches, DueFrom;
    var due := DueFrom(s, ds, 0);
    var checked, left := Alone(s, id, ds, Checking(|ds|, due)), AfterCall(s, id, ds, attempt);
    EnterAndCheck(s, id, ds);
    if !due {
      AdvanceAlone(s, id, ds, Checking(|ds|, false));
      ByStep(checked, Advance(id));
    } else {
      var asked := Asked(s, ds);
      LockAndAsk(s, id, ds);
      if attempt.Obtained? {
        Succeed(asked, id, ds, attempt.cert, attempt.Expiry());
      } else {
        Fail(asked, id, ds, attempt);
      }
      Then(checked, Alone(Locked(asked, id), id, ds, InFlight), left);
    }
    Then(s, checked, left);
  }

  /**
   With the clock standing still, a lone caller can take the protocol to what
   Manager.EnsureDomains promises: same verdict, same request, same two maps.
   */
  lemma LoneCallMeetsContract(s: State, id: nat, ds: seq<string>, now: seq<int>, attempt: Attempt)
    requires Idle(s) && ds != [] && |now| == |ds| && forall i | 0 <= i < |ds| :: now[i] == s.clock
    ensures
      var t := AfterCall(s, id, ds, attempt);
      var requested := AnyDue(s.meta, ds, now, s.window);
      && Reaches(s, t)
      && t.callers[id].phase == Returned(!requested || attempt.Obtained?)
      && t.log == s.log
           + (if requested then [Requested(ds, s.clock)] else [])
           + (if requested && attempt.Obtained? then [Stored(ds, attempt.Expiry())] else [])
      && if requested && attempt.Obtained?
         then
          && t.certs == StoreAll(s.certs, ds, attempt.cert)
          && t.meta == StoreAll(s.meta, ds, attempt.Expiry())
         else t.certs == s.certs && t.meta == s.meta
  {
    hide Normalize, Reaches;
    LoneCallRuns(s, id, ds, attempt);
    assert ds[..|ds|] == ds;
    assert DueFrom(s, ds, 0) == AnyDue(s.meta, ds, now, s.window);
  }
}
