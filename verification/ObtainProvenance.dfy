/**
 Where every certificate in the store came from: over any run, the certificate and
 the expiry recorded for a name always belong together.
 */
module ObtainProvenance {
  import opened Text
  import opened CertStore
  import opened ObtainProtocol

  /** At some step of the run the CA answered the caller's pending request with this pair. */
  predicate Issued(s: State, actions: seq<Action>, id: nat, cert: Certificate, expiry: int) {
    exists k | 0 <= k < |actions| :: actions[k] == CaIssues(id, cert, expiry) && Pending(Run(s, actions[..k]), id)
  }

  predicate Pending(s: State, id: nat) {
    id in s.callers && s.callers[id].phase.InFlight?
  }

  lemma IssuedStays(s: State, actions: seq<Action>, a: Action, id: nat, cert: Certificate, expiry: int)
    requires Issued(s, actions, id, cert, expiry)
    ensures Issued(s, actions + [a], id, cert, expiry)
  {
    var k :| 0 <= k < |actions| && actions[k] == CaIssues(id, cert, expiry) && Pending(Run(s, actions[..k]), id);
    assert (actions + [a])[..k] == actions[..k] && (actions + [a])[k] == actions[k];
  }

  predicate HasPair(s: State, key: string, cert: Certificate, expiry: int) {
    key in s.certs && key in s.meta && s.certs[key] == cert && s.meta[key] == expiry
  }

  /** The pair recorded for the key was issued, as a pair, to a caller whose list covers the key. */
  ghost predicate IssuedFor(s: State, actions: seq<Action>, t: State, key: string) {
    exists id, cert, expiry ::
      && Issued(s, actions, id, cert, expiry) && HasPair(t, key, cert, expiry)
      && id in t.callers && Covers(t.callers[id].domains, key)
  }

  ghost predicate Accounted(s: State, actions: seq<Action>, t: State, key: string) {
    || key !in t.certs
    || (key in s.certs && key in s.meta && HasPair(t, key, s.certs[key], s.meta[key]))
    || IssuedFor(s, actions, t, key)
  }

  predicate Holds(p: Phase, cert: Certificate, expiry: int) {
    p == Answered(cert, expiry) || p == Locking(cert, expiry) || (p.Storing? && p.cert == cert && p.expiry == expiry)
  }

  ghost predicate PhaseIssued(s: State, actions: seq<Action>, id: nat, p: Phase) {
    forall cert, expiry | Holds(p, cert, expiry) :: Issued(s, actions, id, cert, expiry)
  }

  ghost predicate ProvenanceInv(s: State, actions: seq<Action>, t: State) {
    && (forall id | id in t.callers :: PhaseIssued(s, actions, id, t.callers[id].phase))
    && (forall key :: Accounted(s, actions, t, key))
  }

  /** The step at which caller id writes key, if it is one. */
  predicate Writes(s: State, a: Action, key: string) {
    && a.Advance? && a.id in s.callers && s.callers[a.id].phase.Storing?
    && s.callers[a.id].phase.next < |s.callers[a.id].domains|
    && Normalize(s.callers[a.id].domains[s.callers[a.id].phase.next]) == key
  }

  lemma StepKeepsOthers(s: State, a: Action, key: string)
    requires !Writes(s, a, key)
    ensures key in Step(s, a).certs <==> key in s.certs
    ensures key in Step(s, a).meta <==> key in s.meta
    ensures key in s.certs ==> Step(s, a).certs[key] == s.certs[key]
    ensures key in s.meta ==> Step(s, a).meta[key] == s.meta[key]
  {
    hide Normalize, NextPhase;
  }

  lemma StepKeepsCallers(s: State, a: Action, id: nat)
    requires id in s.callers
    ensures id in Step(s, a).callers && Step(s, a).callers[id].domains == s.callers[id].domains
  {
    hide Normalize, NextPhase;
  }

  lemma StepAccounts(s: State, actions: seq<Action>, t: State, a: Action, key: string)
    requires ProvenanceInv(s, actions, t)
    ensures Accounted(s, actions + [a], Step(t, a), key)
  {
    hide Step, Normalize, Issued;
    var u := Step(t, a);
    assert Accounted(s, actions, t, key);
    if Writes(t, a, key) {
      WriteAccounts(s, actions, t, a, key);
    } else {
      StepKeepsOthers(t, a, key);
      if IssuedFor(s, actions, t, key) {
        var id, cert, expiry :|
          && Issued(s, actions, id, cert, expiry) && HasPair(t, key, cert, expiry)
          && id in t.callers && Covers(t.callers[id].domains, key);
        StepKeepsCallers(t, a, id);
        IssuedStays(s, actions, a, id, cert, expiry);
        assert HasPair(u, key, cert, expiry);
      }
    }
  }

  lemma WriteAccounts(s: State, actions: seq<Action>, t: State, a: Action, key: string)
    requires ProvenanceInv(s, actions, t) && Writes(t, a, key)
    ensures IssuedFor(s, actions + [a], Step(t, a), key)
  {
    hide Normalize, Accounted, Issued;
    var u, c := Step(t, a), t.callers[a.id];
    assert PhaseIssued(s, actions, a.id, c.phase) && Holds(c.phase, c.phase.cert, c.phase.expiry);
    assert Covers(c.domains, key);
    IssuedStays(s, actions, a, a.id, c.phase.cert, c.phase.expiry);
    assert HasPair(u, key, c.phase.cert, c.phase.expiry);
    StepKeepsCallers(t, a, a.id);
  }

  lemma NextHolds(s: State, c: Caller, cert: Certificate, expiry: int)
    requires Holds(NextPhase(s, c), cert, expiry)
    ensures Holds(c.phase, cert, expiry)
  {
    hide IsDue, NoWriter, NoReader;
  }

  /** A caller comes to hold a pair by the CA's answer, and keeps the one it has until it lets go of it. */
  lemma PairInHand(t: State, a: Action, id: nat, cert: Certificate, expiry: int)
    requires id in Step(t, a).callers && Holds(Step(t, a).callers[id].phase, cert, expiry)
    ensures (a == CaIssues(id, cert, expiry) && Pending(t, id))
         || (id in t.callers && Holds(t.callers[id].phase, cert, expiry))
  {
    hide Normalize, NextPhase;
    if id in t.callers && Holds(NextPhase(t, t.callers[id]), cert, expiry) {
      NextHolds(t, t.callers[id], cert, expiry);
    }
  }

  lemma StepIssues(s: State, actions: seq<Action>, t: State, a: Action, id: nat, cert: Certificate, expiry: int)
    requires t == Run(s, actions)
    requires forall k | k in t.callers :: PhaseIssued(s, actions, k, t.callers[k].phase)
    requires id in Step(t, a).callers && Holds(Step(t, a).callers[id].phase, cert, expiry)
    ensures Issued(s, actions + [a], id, cert, expiry)
  {
    hide Step;
    PairInHand(t, a, id, cert, expiry);
    if a == CaIssues(id, cert, expiry) && Pending(t, id) {
      var n := |actions|;
      assert (actions + [a])[..n] == actions && (actions + [a])[n] == a;
    } else {
      assert PhaseIssued(s, actions, id, t.callers[id].phase);
      IssuedStays(s, actions, a, id, cert, expiry);
    }
  }

  lemma {:induction false} RunProvenance(s: State, actions: seq<Action>)
    requires Init(s)
    ensures ProvenanceInv(s, actions, Run(s, actions))
    decreases |actions|
  {
    hide Step, Issued, Accounted, Holds;
    if actions == [] {
      StartAccounts(s);
    } else {
      var n := |actions| - 1;
      var rest, a := actions[..n], actions[n];
      assert actions == rest + [a];
      var t := Run(s, rest);
      RunProvenance(s, rest);
      forall id | id in Step(t, a).callers ensures PhaseIssued(s, actions, id, Step(t, a).callers[id].phase) {
        forall cert, expiry | Holds(Step(t, a).callers[id].phase, cert, expiry)
          ensures Issued(s, actions, id, cert, expiry)
        {
          StepIssues(s, rest, t, a, id, cert, expiry);
        }
      }
      forall key ensures Accounted(s, actions, Step(t, a), key) {
        StepAccounts(s, rest, t, a, key);
      }
    }
  }

  lemma StartAccounts(s: State)
    requires Init(s)
    ensures ProvenanceInv(s, [], s)
  {
    forall key ensures Accounted(s, [], s, key) {
      assert key in s.certs ==> key in s.meta.Keys;
    }
  }

  /**
   In every state of every run, a certificate being served stands beside its own expiry:
   the two were there together at the start, or the CA issued them together to a caller
   whose list covers the name. No interleaving mixes two answers.
   */
  lemma CertificatesKeepTheirExpiry(s: State, actions: seq<Action>, key: string)
    requires Init(s) && key in Run(s, actions).certs
    ensures
      var t := Run(s, actions);
      || (key in s.certs && key in s.meta && HasPair(t, key, s.certs[key], s.meta[key]))
      || IssuedFor(s, actions, t, key)
  {
    RunProvenance(s, actions);
    assert Accounted(s, actions, Run(s, actions), key);
  }
}
