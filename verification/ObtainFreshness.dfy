/**
 Renewal does happen: a call that returned nil last saw each of its domains outside the
 renewal window, or has stored a new certificate for it.
 */
module ObtainFreshness {
  import opened Text
  import opened Wrappers
  import opened ObtainProtocol
  import opened ObtainTheorems

  /** The step at which caller id compares the expiry of its j-th domain with the clock. */
  predicate Reads(t: State, a: Action, id: nat, j: nat) {
    && a == Advance(id) && id in t.callers && j < |t.callers[id].domains|
    && match t.callers[id].phase
       case Checking(i, _) => i == j
       case Rechecking(i) => i == j
       case _ => false
  }

  /** The state in which caller id last read the expiry of its j-th domain. */
  function LastReading(s: State, actions: seq<Action>, id: nat, j: nat): Option<State> {
    if actions == [] then None
    else
      var n := |actions| - 1;
      var t := Run(s, actions[..n]);
      if Reads(t, actions[n], id, j) then Some(t) else LastReading(s, actions[..n], id, j)
  }

  /** At its last reading the domain had an expiry at least the renewal window away. */
  predicate SeenFresh(s: State, actions: seq<Action>, id: nat, d: string, j: nat) {
    match LastReading(s, actions, id, j)
    case None => false
    case Some(t) => Normalize(d) in t.meta && t.meta[Normalize(d)] - t.clock >= t.window
  }

  predicate Finishing(t: State, id: nat) {
    && id in t.callers && t.callers[id].phase.Storing?
    && t.callers[id].phase.next == |t.callers[id].domains|
  }

  /** At some step of the run the caller had assigned a new certificate to all its domains and unlocked. */
  predicate HasStored(s: State, actions: seq<Action>, id: nat) {
    exists k | 0 <= k < |actions| :: actions[k] == Advance(id) && Finishing(Run(s, actions[..k]), id)
  }

  predicate AllSeenFresh(s: State, actions: seq<Action>, id: nat, ds: seq<string>, n: nat)
    requires n <= |ds|
  {
    forall j | 0 <= j < n :: SeenFresh(s, actions, id, ds[j], j)
  }

  /** What the phase of a caller says about its readings. */
  predicate Informed(s: State, actions: seq<Action>, id: nat, c: Caller) {
    var ds := c.domains;
    match c.phase
    case Checking(i, due) => i <= |ds| && (!due ==> AllSeenFresh(s, actions, id, ds, i))
    case Rechecking(i) => i <= |ds| && AllSeenFresh(s, actions, id, ds, i)
    case Storing(i, _, _) => i <= |ds|
    case Leaving(ok) => ok ==> HasStored(s, actions, id) || AllSeenFresh(s, actions, id, ds, |ds|)
    case Returned(ok) => ok ==> HasStored(s, actions, id) || AllSeenFresh(s, actions, id, ds, |ds|)
    case _ => true
  }

  lemma StoredStays(s: State, actions: seq<Action>, a: Action, id: nat)
    requires HasStored(s, actions, id)
    ensures HasStored(s, actions + [a], id)
  {
    var k :| 0 <= k < |actions| && actions[k] == Advance(id) && Finishing(Run(s, actions[..k]), id);
    assert (actions + [a])[..k] == actions[..k] && (actions + [a])[k] == actions[k];
  }

  lemma FinishingStores(s: State, actions: seq<Action>, id: nat)
    requires Finishing(Run(s, actions), id)
    ensures HasStored(s, actions + [Advance(id)], id)
  {
    var n, b := |actions|, actions + [Advance(id)];
    assert b[..n] == actions && b[n] == Advance(id);
  }

  lemma ReadingAfter(s: State, actions: seq<Action>, a: Action, id: nat, j: nat)
    ensures LastReading(s, actions + [a], id, j) ==
      if Reads(Run(s, actions), a, id, j) then Some(Run(s, actions)) else LastReading(s, actions, id, j)
  {
    assert (actions + [a])[..|actions|] == actions;
  }

  lemma FreshStays(s: State, actions: seq<Action>, a: Action, id: nat, ds: seq<string>, n: nat)
    requires n <= |ds| && AllSeenFresh(s, actions, id, ds, n)
    requires forall j | 0 <= j < n :: !Reads(Run(s, actions), a, id, j)
    ensures AllSeenFresh(s, actions + [a], id, ds, n)
  {
    hide Reads, LastReading;
    forall j | 0 <= j < n ensures SeenFresh(s, actions + [a], id, ds[j], j) {
      ReadingAfter(s, actions, a, id, j);
      assert SeenFresh(s, actions, id, ds[j], j);
    }
  }

  /** A reading that does not find its domain due finds it fresh. */
  lemma OneMoreFresh(s: State, actions: seq<Action>, id: nat, n: nat)
    requires id in Run(s, actions).callers && n < |Run(s, actions).callers[id].domains|
    requires
      var p := Run(s, actions).callers[id].phase;
      (p.Checking? && p.next == n) || (p.Rechecking? && p.next == n)
    requires AllSeenFresh(s, actions, id, Run(s, actions).callers[id].domains, n)
    requires !IsDue(Run(s, actions), Run(s, actions).callers[id].domains[n])
    ensures AllSeenFresh(s, actions + [Advance(id)], id, Run(s, actions).callers[id].domains, n + 1)
  {
    hide Run, LastReading, Normalize;
    var t := Run(s, actions);
    var ds := t.callers[id].domains;
    FreshStays(s, actions, Advance(id), id, ds, n);
    ReadingAfter(s, actions, Advance(id), id, n);
    assert SeenFresh(s, actions + [Advance(id)], id, ds[n], n);
  }

  lemma CheckInforms(s: State, actions: seq<Action>, id: nat)
    requires id in Run(s, actions).callers && Informed(s, actions, id, Run(s, actions).callers[id])
    requires Run(s, actions).callers[id].phase.Checking? || Run(s, actions).callers[id].phase.Rechecking?
    ensures
      var t := Run(s, actions);
      var c := t.callers[id];
      Informed(s, actions + [Advance(id)], id, c.(phase := NextPhase(t, c)))
  {
    hide Run, LastReading, Normalize, IsDue, AllSeenFresh, HasStored, MayRead, NoWriter, NoReader;
    var t := Run(s, actions);
    var c := t.callers[id];
    var i, ds := c.phase.next, c.domains;
    if i < |ds| {
      if !IsDue(t, ds[i]) && !(c.phase.Checking? && c.phase.due) {
        OneMoreFresh(s, actions, id, i);
      }
    } else if !(c.phase.Checking? && c.phase.due) {
      FreshStays(s, actions, Advance(id), id, ds, i);
    }
  }

  lemma OtherPhaseInforms(s: State, actions: seq<Action>, id: nat)
    requires id in Run(s, actions).callers && Informed(s, actions, id, Run(s, actions).callers[id])
    requires !Run(s, actions).callers[id].phase.Checking? && !Run(s, actions).callers[id].phase.Rechecking?
    ensures
      var t := Run(s, actions);
      var c := t.callers[id];
      Informed(s, actions + [Advance(id)], id, c.(phase := NextPhase(t, c)))
  {
    hide Run, LastReading, Normalize, IsDue, SeenFresh, HasStored, MayRead, NoWriter, NoReader;
    var t := Run(s, actions);
    var c := t.callers[id];
    match c.phase
    case Storing(i, _, _) =>
      if i == |c.domains| {
        FinishingStores(s, actions, id);
      }
    case Leaving(ok) => StillInformed(s, actions, Advance(id), id, c);
    case Returned(ok) => StillInformed(s, actions, Advance(id), id, c);
    case _ =>
  }

  /** A step at which the caller reads nothing takes nothing from what it knows. */
  lemma StillInformed(s: State, actions: seq<Action>, a: Action, id: nat, c: Caller)
    requires Informed(s, actions, id, c)
    requires forall j: nat :: !Reads(Run(s, actions), a, id, j)
    ensures Informed(s, actions + [a], id, c)
  {
    hide Run, LastReading, SeenFresh, HasStored, Reads, AllSeenFresh;
    var ds := c.domains;
    if HasStored(s, actions, id) {
      StoredStays(s, actions, a, id);
    }
    forall n: nat | n <= |ds| && AllSeenFresh(s, actions, id, ds, n)
      ensures AllSeenFresh(s, actions + [a], id, ds, n)
    {
      FreshStays(s, actions, a, id, ds, n);
    }
  }

  /** What a step makes of caller id: its own next phase, an answer, or nothing. */
  lemma StepOnCaller(t: State, a: Action, id: nat)
    requires id in Step(t, a).callers
    ensures id !in t.callers ==>
      var p := Step(t, a).callers[id].phase;
      p.Entering? || (p == Returned(true) && Step(t, a).callers[id].domains == [])
    ensures id in t.callers ==>
      var c, d := t.callers[id], Step(t, a).callers[id];
      || (a == Advance(id) && d == c.(phase := NextPhase(t, c)))
      || (a != Advance(id)
          && (d == c || d == c.(phase := Leaving(false)) || (d.domains == c.domains && d.phase.Answered?)))
  {
    hide Normalize, NextPhase;
  }

  lemma StepInforms(s: State, actions: seq<Action>, a: Action, id: nat)
    requires id in Step(Run(s, actions), a).callers
    requires id in Run(s, actions).callers ==> Informed(s, actions, id, Run(s, actions).callers[id])
    ensures Informed(s, actions + [a], id, Step(Run(s, actions), a).callers[id])
  {
    hide Run, Step, NextPhase, LastReading, SeenFresh, HasStored;
    var t := Run(s, actions);
    StepOnCaller(t, a, id);
    if id in t.callers {
      if a == Advance(id) {
        if t.callers[id].phase.Checking? || t.callers[id].phase.Rechecking? {
          CheckInforms(s, actions, id);
        } else {
          OtherPhaseInforms(s, actions, id);
        }
      } else {
        StillInformed(s, actions, a, id, t.callers[id]);
      }
    }
  }

  lemma {:induction false} RunInforms(s: State, actions: seq<Action>, id: nat)
    requires s.callers == map[]
    ensures id in Run(s, actions).callers ==> Informed(s, actions, id, Run(s, actions).callers[id])
    decreases |actions|
  {
    hide Step, Informed;
    if actions != [] {
      var n := |actions| - 1;
      assert actions == actions[..n] + [actions[n]];
      RunInforms(s, actions[..n], id);
      if id in Run(s, actions).callers {
        StepInforms(s, actions[..n], actions[n], id);
      }
    }
  }

  /**
   In every run: once EnsureDomains has returned nil, the caller has stored a certificate
   for all its domains, or, when it last compared the j-th of them with the clock, there
   was an expiry for it and at least the renewal window was left.
   */
  lemma {:induction false} NilMeansFresh(s: State, actions: seq<Action>, id: nat, j: nat)
    requires Init(s) && id in Run(s, actions).callers
    requires Run(s, actions).callers[id].phase == Returned(true) && j < |Run(s, actions).callers[id].domains|
    ensures
      var key := Normalize(Run(s, actions).callers[id].domains[j]);
      || HasStored(s, actions, id)
      || (LastReading(s, actions, id, j).Some?
          && var t := LastReading(s, actions, id, j).value;
          key in t.meta && t.meta[key] - t.clock >= s.window)
  {
    hide Run, Normalize, HasStored, LastReading;
    RunInforms(s, actions, id);
    if !HasStored(s, actions, id) {
      assert SeenFresh(s, actions, id, Run(s, actions).callers[id].domains[j], j);
      ReadingKeepsWindow(s, actions, id, j);
    }
  }

  lemma {:induction false} ReadingKeepsWindow(s: State, actions: seq<Action>, id: nat, j: nat)
    ensures LastReading(s, actions, id, j).Some? ==> LastReading(s, actions, id, j).value.window == s.window
    decreases |actions|
  {
    hide Run, Reads;
    if actions != [] {
      var n := |actions| - 1;
      RunKeepsWindow(s, actions[..n]);
      ReadingKeepsWindow(s, actions[..n], id, j);
    }
  }
}
