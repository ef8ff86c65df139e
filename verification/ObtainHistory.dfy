/**
 Requests against the history of stores, for callers with any mix of lists: the log
 alone says why a request was made.
 */
module ObtainHistory {
  import opened Text
  import opened Wrappers
  import opened CertStore
  import opened ObtainProtocol
  import opened ObtainTheorems

  /** The expiry last known for the key: the latest store that covers it brought it, or it was loaded from disk. */
  function LastKnown(disk: map<string, int>, log: seq<Event>, key: string): Option<int> {
    if log == [] then if key in disk then Some(disk[key]) else None
    else
      var e := log[|log| - 1];
      if e.Stored? && Covers(e.domains, key) then Some(e.expiry) else LastKnown(disk, log[..|log| - 1], key)
  }

  /** A caller inside its store loop has already assigned the key. */
  predicate Assigning(s: State, id: nat, key: string) {
    && id in s.callers && s.callers[id].phase.Storing?
    && s.callers[id].phase.next <= |s.callers[id].domains|
    && Covers(s.callers[id].domains[..s.callers[id].phase.next], key)
  }

  /** What is recorded for the key is what is last known of it, unless the next store is under way. */
  ghost predicate Recorded(disk: map<string, int>, s: State, key: string) {
    LastKnown(disk, s.log, key).Some? ==>
      && key in s.meta
      && (s.meta[key] == LastKnown(disk, s.log, key).value || exists id :: Assigning(s, id, key))
  }

  /** When the request was made, some domain of its list had no known expiry, or one inside the window. */
  predicate Motivated(disk: map<string, int>, log: seq<Event>, window: int, domains: seq<string>, at: int) {
    exists i | 0 <= i < |domains| :: Lapsed(disk, log, window, Normalize(domains[i]), at)
  }

  predicate Lapsed(disk: map<string, int>, log: seq<Event>, window: int, key: string, at: int) {
    LastKnown(disk, log, key).None? || LastKnown(disk, log, key).value - at < window
  }

  ghost predicate HistoryInv(disk: map<string, int>, s: State) {
    && (forall key :: Recorded(disk, s, key))
    && (forall k | 0 <= k < |s.log| && s.log[k].Requested? ::
          Motivated(disk, s.log[..k], s.window, s.log[k].domains, s.log[k].at))
  }

  lemma CoversOneMore(ds: seq<string>, n: nat, key: string)
    requires n < |ds|
    ensures Covers(ds[..n + 1], key) <==> Covers(ds[..n], key) || key == Normalize(ds[n])
  {
    assert ds[..n + 1][..n] == ds[..n];
    CoversSplit(ds[..n + 1], key);
  }

  /** Nobody else stores while a caller is past the recheck. */
  lemma OwnerStoresAlone(s: State, id: nat, k: nat)
    requires Inv(s) && Owner(s, id) && k in s.callers && s.callers[k].phase.Storing?
    ensures k == id
  {
    assert Owner(s, id) <==> s.obtainMu == Some(id);
    assert Owner(s, k) <==> s.obtainMu == Some(k);
  }

  // ----- the four kinds of step -----------------------------------------

  lemma QuietRecorded(disk: map<string, int>, s: State, t: State, key: string)
    requires Recorded(disk, s, key) && t.log == s.log && t.meta == s.meta
    requires forall id :: Assigning(s, id, key) ==> Assigning(t, id, key)
    ensures Recorded(disk, t, key)
  {
  }

  lemma AssignRecorded(disk: map<string, int>, s: State, id: nat, key: string)
    requires Inv(s) && Recorded(disk, s, key) && id in s.callers && s.callers[id].phase.Storing?
    requires s.callers[id].phase.next < |s.callers[id].domains|
    ensures Recorded(disk, AdvanceCaller(s, id), key)
  {
    hide Inv, LastKnown, Covers, Normalize;
    var t, c := AdvanceCaller(s, id), s.callers[id];
    CoversOneMore(c.domains, c.phase.next, key);
    if key == Normalize(c.domains[c.phase.next]) {
      assert Assigning(t, id, key);
    } else if exists k :: Assigning(s, k, key) {
      var k :| Assigning(s, k, key);
      assert Assigning(t, k, key);
    }
  }

  lemma StoredRecorded(disk: map<string, int>, s: State, id: nat, key: string)
    requires Inv(s) && Recorded(disk, s, key) && id in s.callers && s.callers[id].phase.Storing?
    requires s.callers[id].phase.next >= |s.callers[id].domains|
    ensures Recorded(disk, AdvanceCaller(s, id), key)
  {
    hide Normalize, NoWriter, NoReader;
    var t, c := AdvanceCaller(s, id), s.callers[id];
    assert PhaseFits(s, c);
    assert c.domains[..c.phase.next] == c.domains;
    assert t.log[..|t.log| - 1] == s.log && t.log[|t.log| - 1] == Stored(c.domains, c.phase.expiry);
    if !Covers(c.domains, key) && exists k :: Assigning(s, k, key) {
      var k :| Assigning(s, k, key);
      OwnerStoresAlone(s, id, k);
    }
  }

  lemma AskedRecorded(disk: map<string, int>, s: State, id: nat, key: string)
    requires Inv(s) && Recorded(disk, s, key) && id in s.callers && s.callers[id].phase.Asking?
    ensures Recorded(disk, AdvanceCaller(s, id), key)
  {
    hide Normalize, NoWriter, NoReader, Covers;
    var t := AdvanceCaller(s, id);
    assert t.log[..|t.log| - 1] == s.log && t.log[|t.log| - 1].Requested?;
    if exists k :: Assigning(s, k, key) {
      var k :| Assigning(s, k, key);
      assert Assigning(t, k, key);
    }
  }

  lemma OtherRecorded(disk: map<string, int>, s: State, a: Action, key: string)
    requires Recorded(disk, s, key) && !ChangesStoreOrLog(s, a)
    ensures Recorded(disk, Step(s, a), key)
  {
    hide Step, Covers, LastKnown, Recorded, Assigning, ChangesStoreOrLog;
    var t := Step(s, a);
    OtherStepFrame(s, a);
    forall id | Assigning(s, id, key) ensures Assigning(t, id, key) {
      StillAssigning(s, a, id, key);
    }
    QuietRecorded(disk, s, t, key);
  }

  lemma StillAssigning(s: State, a: Action, id: nat, key: string)
    requires !ChangesStoreOrLog(s, a) && Assigning(s, id, key)
    ensures Assigning(Step(s, a), id, key)
  {
    hide Normalize, NextPhase, Covers;
  }

  lemma StepRecorded(disk: map<string, int>, s: State, a: Action, key: string)
    requires Inv(s) && Recorded(disk, s, key)
    ensures Recorded(disk, Step(s, a), key)
  {
    hide Inv, Recorded, AdvanceCaller;
    if !ChangesStoreOrLog(s, a) {
      OtherRecorded(disk, s, a, key);
    } else if s.callers[a.id].phase.Asking? {
      AskedRecorded(disk, s, a.id, key);
    } else if s.callers[a.id].phase.next < |s.callers[a.id].domains| {
      AssignRecorded(disk, s, a.id, key);
    } else {
      StoredRecorded(disk, s, a.id, key);
    }
  }

  // ----- requests ---------------------------------------------------------

  lemma AskingIsMotivated(disk: map<string, int>, s: State, id: nat)
    requires Inv(s) && id in s.callers && s.callers[id].phase.Asking?
    requires forall key :: Recorded(disk, s, key)
    ensures Motivated(disk, s.log, s.window, s.callers[id].domains, s.clock)
  {
    hide Normalize, LastKnown, Covers, NoWriter, NoReader;
    var ds := s.callers[id].domains;
    assert PhaseFits(s, s.callers[id]);
    var j :| 0 <= j < |ds| && IsDue(s, ds[j]);
    var key := Normalize(ds[j]);
    assert Recorded(disk, s, key);
    if exists k :: Assigning(s, k, key) {
      var k :| Assigning(s, k, key);
      OwnerStoresAlone(s, id, k);
    }
    assert Lapsed(disk, s.log, s.window, key, s.clock);
  }

  /** A step appends at most one event, and a request only from Asking. */
  lemma StepLog(s: State, a: Action)
    ensures
      var t := Step(s, a);
      || t.log == s.log
      || (exists e: Event :: t.log == s.log + [e] && (e.Requested? ==>
            && a.Advance? && a.id in s.callers && s.callers[a.id].phase.Asking?
            && e == Requested(s.callers[a.id].domains, s.clock)))
  {
    hide Normalize, NextPhase;
  }

  lemma StepHistory(disk: map<string, int>, s: State, a: Action)
    requires Inv(s) && HistoryInv(disk, s)
    ensures HistoryInv(disk, Step(s, a))
  {
    hide Inv, Step, Recorded, Motivated;
    var t := Step(s, a);
    StepKeepsWindow(s, a);
    StepLog(s, a);
    forall key ensures Recorded(disk, t, key) {
      StepRecorded(disk, s, a, key);
    }
    forall k | 0 <= k < |t.log| && t.log[k].Requested?
      ensures Motivated(disk, t.log[..k], t.window, t.log[k].domains, t.log[k].at)
    {
      if k < |s.log| {
        assert t.log[..k] == s.log[..k] && t.log[k] == s.log[k];
      } else {
        assert t.log[..k] == s.log;
        AskingIsMotivated(disk, s, a.id);
      }
    }
  }

  lemma {:induction false} RunHistory(s: State, actions: seq<Action>)
    requires Init(s)
    ensures HistoryInv(s.meta, Run(s, actions))
    decreases |actions|
  {
    hide Step, Inv, Recorded, Motivated;
    if actions == [] {
      forall key ensures Recorded(s.meta, s, key) {
        StartRecorded(s, key);
      }
    } else {
      var n := |actions| - 1;
      RunHistory(s, actions[..n]);
      InitInv(s);
      RunKeepsInv(s, actions[..n]);
      StepHistory(s.meta, Run(s, actions[..n]), actions[n]);
    }
  }

  lemma StartRecorded(s: State, key: string)
    requires s.log == []
    ensures Recorded(s.meta, s, key)
  {
  }

  /**
   Whatever lists the callers have: when the k-th event of a run's log is a request, some
   domain of its list had no expiry at all by then, or its latest one, whether a store brought
   it or it was loaded from disk, was inside the renewal window.
   */
  lemma RequestsFollowLastExpiry(s: State, actions: seq<Action>, k: nat)
    requires Init(s) && k < |Run(s, actions).log| && Run(s, actions).log[k].Requested?
    ensures var log := Run(s, actions).log;
      Motivated(s.meta, log[..k], s.window, log[k].domains, log[k].at)
  {
    hide Motivated, Recorded;
    RunHistory(s, actions);
    RunKeepsWindow(s, actions);
  }

  /** The latest store covering a key comes no earlier than any store that covers it. */
  lemma {:induction false} LastKnownIsLater(disk: map<string, int>, log: seq<Event>, key: string, i: nat) returns (k: nat)
    requires i < |log| && log[i].Stored? && Covers(log[i].domains, key)
    ensures i <= k < |log| && log[k].Stored? && Covers(log[k].domains, key)
    ensures LastKnown(disk, log, key) == Some(log[k].expiry)
    decreases |log|
  {
    var n := |log| - 1;
    if log[n].Stored? && Covers(log[n].domains, key) {
      k := n;
    } else {
      k := LastKnownIsLater(disk, log[..n], key, i);
    }
  }

  /**
   A request for domains that an earlier store all covers: some store from that one on,
   covering one of them, brought an expiry inside the window when the request was made.
   */
  lemma RequestAfterStore(s: State, actions: seq<Action>, i: nat, j: nat)
    requires Init(s) && i < j < |Run(s, actions).log|
    requires Run(s, actions).log[i].Stored? && Run(s, actions).log[j].Requested?
    requires forall d | d in Run(s, actions).log[j].domains :: Covers(Run(s, actions).log[i].domains, Normalize(d))
    ensures
      var log := Run(s, actions).log;
      exists k, d | i <= k < j && d in log[j].domains ::
        log[k].Stored? && Covers(log[k].domains, Normalize(d)) && log[k].expiry - log[j].at < s.window
  {
    hide Run, Covers, LastKnown;
    var log := Run(s, actions).log;
    RequestsFollowLastExpiry(s, actions, j);
    var ds := log[j].domains;
    var m :| 0 <= m < |ds| && Lapsed(s.meta, log[..j], s.window, Normalize(ds[m]), log[j].at);
    assert ds[m] in ds;
    var k := LastKnownIsLater(s.meta, log[..j], Normalize(ds[m]), i);
    assert log[..j][k] == log[k];
  }
}
