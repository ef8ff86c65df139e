/**
 Safety of certificate acquisition over every run: requests to the CA are justified
 when they start, one success silences the callers until the renewal window opens,
 and a nil return means the domains are served from then on.
 */
module ObtainTheorems {
  import opened Text
  import opened Wrappers
  import opened CertStore
  import opened HostMatching
  import opened ObtainProtocol

  // ===== locks, keys, served domains =====================================

  lemma InitInv(s: State)
    requires Init(s)
    ensures Inv(s)
  {
  }

  lemma {:induction false} RunAppend(s: State, a: seq<Action>, b: seq<Action>)
    ensures Run(s, a + b) == Run(Run(s, a), b)
    decreases |b|
  {
    if b == [] {
      assert a + b == a;
    } else {
      var n := |b| - 1;
      RunAppend(s, a, b[..n]);
      assert (a + b)[..|a + b| - 1] == a + b[..n];
    }
  }

  /** In every run at most one caller is between obtainMu.Lock and obtainMu.Unlock, and none reads while one stores. */
  lemma {:induction false} MutualExclusion(s: State, actions: seq<Action>, x: nat, y: nat)
    requires Init(s)
    ensures
      var t := Run(s, actions);
      && (Owner(t, x) && Owner(t, y) ==> x == y)
      && (x in t.callers && y in t.callers && t.callers[x].phase.Storing? ==> !HoldsReadLock(t.callers[y].phase))
  {
    InitInv(s);
    RunKeepsInv(s, actions);
    var t := Run(s, actions);
    assert Owner(t, x) <==> t.obtainMu == Some(x);
    assert Owner(t, y) <==> t.obtainMu == Some(y);
  }

  /** The two maps always have the same keys, and no continuation of a run loses one. */
  lemma KeysAgreeAndGrow(s: State, before: seq<Action>, after: seq<Action>)
    requires Init(s)
    ensures Run(s, before).certs.Keys == Run(s, before).meta.Keys
    ensures Run(s, before).certs.Keys <= Run(s, before + after).certs.Keys
  {
    InitInv(s);
    RunKeepsInv(s, before);
    RunKeepsInv(Run(s, before), after);
    RunAppend(s, before, after);
  }

  /** Once EnsureDomains has returned nil, each of its domains is a key then and ever after. */
  lemma NilIsKept(s: State, before: seq<Action>, after: seq<Action>, id: nat, j: nat)
    requires Init(s)
    requires id in Run(s, before).callers && Run(s, before).callers[id].phase == Returned(true)
    requires j < |Run(s, before).callers[id].domains|
    ensures Normalize(Run(s, before).callers[id].domains[j]) in Run(s, before + after).certs
  {
    InitInv(s);
    RunKeepsInv(s, before);
    assert PhaseFits(Run(s, before), Run(s, before).callers[id]);
    KeysAgreeAndGrow(s, before, after);
  }

  /** Once EnsureDomains has returned nil, each of its domains is served the certificate stored under it from then on. */
  lemma {:induction false} NilMeansServed(s: State, before: seq<Action>, after: seq<Action>, id: nat, j: nat)
    requires Init(s)
    requires id in Run(s, before).callers && Run(s, before).callers[id].phase == Returned(true)
    requires j < |Run(s, before).callers[id].domains|
    ensures
      var domain := Normalize(Run(s, before).callers[id].domains[j]);
      && domain in Run(s, before + after).certs
      && Lookup(Run(s, before + after).certs, domain) == Some(Run(s, before + after).certs[domain])
  {
    NilIsKept(s, before, after, id, j);
  }

  /** A wildcard in the list of a call that returned nil serves every name one label below its zone, from then on. */
  lemma WildcardMeansServed(
      s: State, before: seq<Action>, after: seq<Action>, id: nat, j: nat, leaf: string, z: string)
    requires Init(s)
    requires id in Run(s, before).callers && Run(s, before).callers[id].phase == Returned(true)
    requires j < |Run(s, before).callers[id].domains|
    requires Normalize(Run(s, before).callers[id].domains[j]) == "*." + z && '.' !in leaf
    ensures
      var certs := Run(s, before + after).certs;
      && "*." + z in certs
      && Lookup(certs, leaf + "." + z)
         == Some(if leaf + "." + z in certs then certs[leaf + "." + z] else certs["*." + z])
  {
    hide Run, Normalize, WildcardName;
    var certs, name := Run(s, before + after).certs, leaf + "." + z;
    NilIsKept(s, before, after, id, j);
    assert WildcardName(name) == Some("*." + z) by { WildcardCoversOneLabel(name, z); }
  }

  /** The time that passes in a run. */
  function Elapsed(actions: seq<Action>): nat {
    if actions == [] then 0
    else
      var n := |actions| - 1;
      Elapsed(actions[..n]) + if actions[n].Tick? then actions[n].elapsed else 0
  }

  /** The clock shows the time at the start and what has passed since; no step of a caller takes time. */
  lemma {:induction false} ClockTellsTime(s: State, actions: seq<Action>)
    ensures Run(s, actions).clock == s.clock + Elapsed(actions)
    decreases |actions|
  {
    hide Step;
    if actions != [] {
      var n := |actions| - 1;
      ClockTellsTime(s, actions[..n]);
      StepTakesTime(Run(s, actions[..n]), actions[n]);
    }
  }

  lemma StepTakesTime(s: State, a: Action)
    ensures Step(s, a).clock == s.clock + if a.Tick? then a.elapsed else 0
  {
    hide Normalize, NextPhase, NoWriter, NoReader;
  }

  // ===== every request is justified ======================================

  /** Whatever lists the callers have: when a request starts, a domain of its list is missing or inside the window. */
  lemma {:induction false} RequestsAreJustified(s: State, actions: seq<Action>, a: Action)
    requires Init(s)
    ensures
      var now := Run(s, actions);
      var next := Step(now, a);
      |next.log| > |now.log| && next.log[|now.log|].Requested? ==>
        && next.log[|now.log|].at == now.clock
        && SomeDue(now, next.log[|now.log|].domains)
  {
    InitInv(s);
    RunKeepsInv(s, actions);
    var now := Run(s, actions);
    if a.Advance? && a.id in now.callers && now.callers[a.id].phase.Asking? {
      assert PhaseFits(now, now.callers[a.id]);
    }
  }

  // ===== one list of domains =============================================

  predicate OnlyList(s: State, ds: seq<string>) {
    forall id | id in s.callers :: s.callers[id].domains == ds
  }

  /** Less than the renewal window is left of the expiry. */
  predicate Spent(s: State, expiry: int) {
    expiry - s.clock < s.window
  }

  predicate AllSpent(s: State) {
    forall k | 0 <= k < |s.log| && s.log[k].Stored? :: Spent(s, s.log[k].expiry)
  }

  predicate LastIsRequest(s: State) {
    s.log != [] && s.log[|s.log| - 1].Requested?
  }

  predicate AwaitingStore(p: Phase) {
    p.InFlight? || p.Answered? || p.Locking? || p.Storing?
  }

  predicate CallerLogFits(s: State, p: Phase) {
    && (p.Asking? || AwaitingStore(p) ==> AllSpent(s))
    && (AwaitingStore(p) ==> LastIsRequest(s))
  }

  predicate EventFits(s: State, ds: seq<string>, k: nat)
    requires k < |s.log|
  {
    match s.log[k]
    case Requested(_, at) => at <= s.clock
    case Stored(_, expiry) =>
      && (Spent(s, expiry) || HaveExpiry(s, ds, |ds|, expiry))
      && 0 < k && s.log[k - 1].Requested?
  }

  /** No request after a store lies outside the renewal window of that store. */
  predicate InOrder(s: State) {
    forall i, j | 0 <= i < j < |s.log| && s.log[i].Stored? && s.log[j].Requested? ::
      s.log[i].expiry - s.log[j].at < s.window
  }

  ghost predicate LogInv(s: State, ds: seq<string>) {
    && OnlyList(s, ds)
    && (forall id | id in s.callers :: CallerLogFits(s, s.callers[id].phase))
    && (forall k | 0 <= k < |s.log| :: EventFits(s, ds, k))
    && InOrder(s)
  }

  /** A step that leaves log and recorded expiries alone; time may pass. */
  lemma QuietStep(s: State, t: State, ds: seq<string>)
    requires LogInv(s, ds) && OnlyList(t, ds)
    requires t.log == s.log && t.meta == s.meta && t.window == s.window && s.clock <= t.clock
    requires forall id | id in t.callers :: CallerLogFits(s, t.callers[id].phase)
    ensures LogInv(t, ds)
  {
    forall k | 0 <= k < |t.log| ensures EventFits(t, ds, k) {
      assert EventFits(s, ds, k);
    }
    assert AllSpent(s) ==> AllSpent(t);
  }

  /** Only the owner of obtainMu can be past the recheck. */
  lemma OnlyOwnerCounts(s: State, t: State, id: nat, k: nat)
    requires Inv(s) && Owner(s, id) && OthersUnmoved(s, t, id) && k in t.callers && k != id
    ensures !OwnsObtainMu(t.callers[k].phase)
  {
    assert Owner(s, id) <==> s.obtainMu == Some(id);
    assert Owner(s, k) <==> s.obtainMu == Some(k);
  }

  lemma RecheckLogInv(s: State, id: nat, ds: seq<string>)
    requires Inv(s) && LogInv(s, ds) && id in s.callers
    requires s.callers[id].phase.Rechecking? && NextPhase(s, s.callers[id]).Asking?
    ensures AllSpent(s)
  {
    var d := ds[s.callers[id].phase.next];
    assert s.callers[id].domains == ds;
    forall k | 0 <= k < |s.log| && s.log[k].Stored? ensures Spent(s, s.log[k].expiry) {
      assert EventFits(s, ds, k);
    }
  }

  lemma RequestLogInv(s: State, id: nat, ds: seq<string>)
    requires Inv(s) && LogInv(s, ds) && id in s.callers && s.callers[id].phase.Asking?
    ensures LogInv(AdvanceCaller(s, id), ds)
  {
    var t := AdvanceCaller(s, id);
    assert CallerLogFits(s, s.callers[id].phase);
    assert AllSpent(t);
    forall k | k in t.callers ensures CallerLogFits(t, t.callers[k].phase) {
      if k != id {
        OnlyOwnerCounts(s, t, id, k);
      }
    }
    forall k | 0 <= k < |t.log| ensures EventFits(t, ds, k) {
      if k < |s.log| {
        assert EventFits(s, ds, k);
      }
    }
  }

  lemma StoreOneLogInv(s: State, id: nat, ds: seq<string>)
    requires Inv(s) && LogInv(s, ds) && id in s.callers && s.callers[id].phase.Storing?
    requires s.callers[id].phase.next < |s.callers[id].domains|
    ensures LogInv(AdvanceCaller(s, id), ds)
  {
    hide Normalize;
    var t := AdvanceCaller(s, id);
    assert CallerLogFits(s, s.callers[id].phase);
    assert AllSpent(t);
    forall k | k in t.callers ensures CallerLogFits(t, t.callers[k].phase) {
      if k != id {
        OnlyOwnerCounts(s, t, id, k);
      }
    }
    forall k | 0 <= k < |t.log| ensures EventFits(t, ds, k) {
      assert EventFits(s, ds, k);
    }
  }

  lemma StoredLogInv(s: State, id: nat, ds: seq<string>)
    requires Inv(s) && LogInv(s, ds) && id in s.callers && s.callers[id].phase.Storing?
    requires s.callers[id].phase.next >= |s.callers[id].domains|
    ensures LogInv(AdvanceCaller(s, id), ds)
  {
    var t, c := AdvanceCaller(s, id), s.callers[id];
    assert CallerLogFits(s, c.phase) && PhaseFits(s, c);
    assert c.domains == ds && c.phase.next == |ds|;
    assert HaveExpiry(t, ds, |ds|, c.phase.expiry);
    forall k | k in t.callers ensures CallerLogFits(t, t.callers[k].phase) {
      if k != id {
        OnlyOwnerCounts(s, t, id, k);
      }
    }
    forall k | 0 <= k < |t.log| ensures EventFits(t, ds, k) {
      if k < |s.log| {
        assert EventFits(s, ds, k);
      }
    }
  }

  predicate ChangesStoreOrLog(s: State, a: Action) {
    a.Advance? && a.id in s.callers && (s.callers[a.id].phase.Asking? || s.callers[a.id].phase.Storing?)
  }

  lemma OtherStepFrame(s: State, a: Action)
    requires !ChangesStoreOrLog(s, a)
    ensures var t := Step(s, a);
      t.log == s.log && t.meta == s.meta && t.window == s.window && s.clock <= t.clock
  {
    hide Normalize, NextPhase;
  }

  /** Where a step that leaves log and store alone can take a caller. */
  lemma OtherStepPhase(s: State, a: Action, k: nat)
    requires !ChangesStoreOrLog(s, a) && k in s.callers && k in Step(s, a).callers
    ensures
      var p, q := s.callers[k].phase, Step(s, a).callers[k].phase;
      || p == q
      || (q.Asking? && p.Rechecking? && NextPhase(s, s.callers[k]) == q)
      || (!q.Asking? && (AwaitingStore(q) ==> AwaitingStore(p)))
  {
    hide Normalize, NoWriter, NoReader, IsDue;
  }

  lemma NewPhase(s: State, a: Action, k: nat)
    requires k !in s.callers && k in Step(s, a).callers
    ensures Step(s, a).callers[k].phase.Entering? || Step(s, a).callers[k].phase.Returned?
  {
    hide Normalize, NextPhase;
  }

  /** Of the steps that leave log and store alone, only the recheck that finds a domain due has something to show. */
  lemma OtherStepPhases(s: State, a: Action, ds: seq<string>, k: nat)
    requires Inv(s) && LogInv(s, ds) && !ChangesStoreOrLog(s, a) && k in Step(s, a).callers
    ensures CallerLogFits(s, Step(s, a).callers[k].phase)
  {
    hide Step, NextPhase, InOrder, EventFits, AllSpent, LastIsRequest, ChangesStoreOrLog, Inv;
    if k in s.callers {
      OtherStepPhase(s, a, k);
      assert CallerLogFits(s, s.callers[k].phase);
      if s.callers[k].phase.Rechecking? && NextPhase(s, s.callers[k]).Asking? {
        RecheckLogInv(s, k, ds);
      }
    } else {
      NewPhase(s, a, k);
    }
  }

  lemma OtherStepLogInv(s: State, a: Action, ds: seq<string>)
    requires Inv(s) && LogInv(s, ds) && OnlyList(Step(s, a), ds) && !ChangesStoreOrLog(s, a)
    ensures LogInv(Step(s, a), ds)
  {
    hide Step, Inv, LogInv, CallerLogFits;
    var t := Step(s, a);
    OtherStepFrame(s, a);
    forall k | k in t.callers ensures CallerLogFits(s, t.callers[k].phase) {
      OtherStepPhases(s, a, ds, k);
    }
    QuietStep(s, t, ds);
  }

  lemma StepLogInv(s: State, a: Action, ds: seq<string>)
    requires Inv(s) && LogInv(s, ds) && OnlyList(Step(s, a), ds)
    ensures LogInv(Step(s, a), ds)
  {
    hide Inv, LogInv, AdvanceCaller;
    if !ChangesStoreOrLog(s, a) {
      OtherStepLogInv(s, a, ds);
    } else if s.callers[a.id].phase.Asking? {
      RequestLogInv(s, a.id, ds);
    } else if s.callers[a.id].phase.next < |s.callers[a.id].domains| {
      StoreOneLogInv(s, a.id, ds);
    } else {
      StoredLogInv(s, a.id, ds);
    }
  }

  lemma StepKeepsLists(s: State, a: Action, ds: seq<string>)
    requires OnlyList(Step(s, a), ds)
    ensures OnlyList(s, ds)
  {
    forall id | id in s.callers ensures s.callers[id].domains == ds {
      assert id in Step(s, a).callers && Step(s, a).callers[id].domains == s.callers[id].domains;
    }
  }

  lemma {:induction false} RunLogInv(s: State, actions: seq<Action>, ds: seq<string>)
    requires Init(s) && OnlyList(Run(s, actions), ds)
    ensures LogInv(Run(s, actions), ds)
    decreases |actions|
  {
    if actions != [] {
      var n := |actions| - 1;
      var before := Run(s, actions[..n]);
      StepKeepsLists(before, actions[n], ds);
      RunLogInv(s, actions[..n], ds);
      InitInv(s);
      RunKeepsInv(s, actions[..n]);
      StepLogInv(before, actions[n], ds);
    }
  }

  /**
   In every run whose callers share one list: after a store has recorded expiry n, no
   request starts at any time t with n - t at or above the renewal window.
   */
  lemma NoPrematureRequest(s: State, actions: seq<Action>, ds: seq<string>, i: nat, j: nat)
    requires Init(s) && OnlyList(Run(s, actions), ds)
    requires i < j < |Run(s, actions).log|
    requires Run(s, actions).log[i].Stored? && Run(s, actions).log[j].Requested?
    ensures Run(s, actions).log[i].expiry - Run(s, actions).log[j].at < s.window
  {
    RunLogInv(s, actions, ds);
    RunKeepsWindow(s, actions);
  }

  lemma StepKeepsWindow(s: State, a: Action)
    ensures Step(s, a).window == s.window
  {
    hide Normalize, NextPhase, NoWriter, NoReader;
  }

  lemma {:induction false} RunKeepsWindow(s: State, actions: seq<Action>)
    ensures Run(s, actions).window == s.window
    decreases |actions|
  {
    hide Step;
    if actions != [] {
      var n := |actions| - 1;
      RunKeepsWindow(s, actions[..n]);
      StepKeepsWindow(Run(s, actions[..n]), actions[n]);
    }
  }

  /**
   However many callers saw the domains missing at once: while what has been stored is
   still outside its renewal window, it has been stored once, and nothing was asked for since.
   */
  lemma OneObtainPerWindow(s: State, actions: seq<Action>, ds: seq<string>, i: nat, j: nat)
    requires Init(s) && OnlyList(Run(s, actions), ds)
    requires i < j < |Run(s, actions).log| && Run(s, actions).log[i].Stored?
    ensures Run(s, actions).log[i].expiry - Run(s, actions).clock < s.window
  {
    var t := Run(s, actions);
    RunLogInv(s, actions, ds);
    RunKeepsWindow(s, actions);
    var r := if t.log[j].Requested? then j else j - 1;
    assert EventFits(t, ds, j) && EventFits(t, ds, r);
  }
}
