/**
 Certificate acquisition does not get stuck: over every run some caller can move or the
 CA is being waited for, and no call takes more than a fixed number of steps.
 */
module ObtainProgress {
  import opened Text
  import opened Wrappers
  import opened CertStore
  import opened ObtainProtocol
  import opened ObtainTheorems

  lemma OwnerIsOnlyWriter(s: State, id: nat)
    requires Inv(s) && id in s.callers && !s.callers[id].phase.Storing?
    requires s.obtainMu.None? || s.obtainMu == Some(id)
    ensures NoWriter(s) && (s.callers[id].phase.Locking? || MayRead(s))
  {
    forall k | k in s.callers && k != id ensures !s.callers[k].phase.Storing? && !s.callers[k].phase.Locking? {
      assert Owner(s, id) <==> s.obtainMu == Some(id);
      assert Owner(s, k) <==> s.obtainMu == Some(k);
    }
  }

  /** The caller has a next step of its own: it is neither blocked, nor waiting for the CA, nor done. */
  predicate CanMove(s: State, id: nat) {
    id in s.callers && NextPhase(s, s.callers[id]) != s.callers[id].phase
  }

  /** The caller's own next step takes it to another phase. */
  predicate Progresses(s: State, id: nat) {
    id in s.callers && Step(s, Advance(id)).callers[id].phase != s.callers[id].phase
  }

  /** The caller that holds obtainMu, or anyone if it is free, moves unless it waits for the CA or for a reader. */
  lemma HolderMoves(s: State, id: nat)
    requires Inv(s) && id in s.callers && !s.callers[id].phase.Returned? && !s.callers[id].phase.InFlight?
    requires s.obtainMu.None? || s.obtainMu == Some(id)
    requires s.obtainMu == Some(id) ==> Owner(s, id)
    ensures CanMove(s, id) || !NoReader(s)
  {
    hide IsDue, NoReader;
    assert Owner(s, id) <==> s.obtainMu == Some(id);
    if !s.callers[id].phase.Storing? {
      OwnerIsOnlyWriter(s, id);
    }
  }

  /** While a caller has not returned, some caller is waiting for the CA or can take its own next step. */
  lemma SomeoneMoves(t: State, id: nat) returns (mover: nat)
    requires Inv(t) && id in t.callers && !t.callers[id].phase.Returned?
    ensures (mover in t.callers && t.callers[mover].phase.InFlight?) || Progresses(t, mover)
  {
    hide Inv, NextPhase, NoReader;
    mover := if t.obtainMu.Some? then t.obtainMu.value else id;
    assert Owner(t, mover) <==> t.obtainMu == Some(mover) by { MuOwner(t, mover); }
    if !t.callers[mover].phase.InFlight? {
      HolderMoves(t, mover);
      if !CanMove(t, mover) {
        mover := SomeReader(t);
      }
      AdvanceMoves(t, mover);
    }
  }

  /**
   No run gets stuck: while a caller has not returned, some caller can take its own next
   step, or one is waiting for the answer of the CA.
   */
  lemma {:induction false} NoDeadlock(s: State, actions: seq<Action>, id: nat)
    requires Init(s)
    requires id in Run(s, actions).callers && !Run(s, actions).callers[id].phase.Returned?
    ensures
      var t := Run(s, actions);
      || (exists k :: k in t.callers && t.callers[k].phase.InFlight?)
      || (exists k :: Progresses(t, k))
  {
    hide Inv, Progresses;
    InitInv(s);
    RunKeepsInv(s, actions);
    var mover := SomeoneMoves(Run(s, actions), id);
  }

  lemma MuOwner(s: State, id: nat)
    requires Inv(s)
    ensures Owner(s, id) <==> s.obtainMu == Some(id)
  {
  }

  lemma SomeReader(s: State) returns (id: nat)
    requires !NoReader(s)
    ensures CanMove(s, id)
  {
    id :| id in s.callers && HoldsReadLock(s.callers[id].phase);
  }

  lemma AdvanceMoves(s: State, id: nat)
    requires CanMove(s, id)
    ensures Progresses(s, id)
  {
    hide NextPhase;
  }

  /** How many steps of a call are left at most. */
  function Remaining(c: Caller): int {
    var n := |c.domains|;
    match c.phase
    case Entering => 3 * n + 11
    case Checking(i, _) => 2 * n + 10 + (n - i)
    case Waiting => 2 * n + 9
    case Holding => 2 * n + 8
    case Rechecking(i) => n + 7 + (n - i)
    case Asking => n + 6
    case InFlight => n + 5
    case Answered(_, _) => n + 4
    case Locking(_, _) => n + 3
    case Storing(i, _, _) => 2 + (n - i)
    case Leaving(_) => 1
    case Returned(_) => 0
  }

  /** The steps of a run at which the caller changed phase. */
  function Moves(s: State, actions: seq<Action>, id: nat): nat {
    if actions == [] then 0
    else
      var n := |actions| - 1;
      var before := Run(s, actions[..n]);
      Moves(s, actions[..n], id) + if Moved(before, Step(before, actions[n]), id) then 1 else 0
  }

  predicate Moved(s: State, t: State, id: nat) {
    id in s.callers && id in t.callers && s.callers[id] != t.callers[id]
  }

  lemma NextDescends(s: State, c: Caller)
    requires PhaseFits(s, c)
    ensures
      var after := c.(phase := NextPhase(s, c));
      after == c || 0 <= Remaining(after) < Remaining(c)
  {
    hide IsDue, NoWriter, NoReader, Known, HaveExpiry, SomeDue;
  }

  /** The steps of the CA and the disk. */
  lemma AnswerDescends(c: Caller)
    ensures c.phase.InFlight? ==> forall cert, expiry ::
        0 <= Remaining(c.(phase := Answered(cert, expiry))) < Remaining(c)
    ensures c.phase.InFlight? || c.phase.Answered? ==> 0 <= Remaining(c.(phase := Leaving(false))) < Remaining(c)
  {
  }

  lemma MoveDescends(s: State, a: Action, id: nat)
    requires Inv(s) && id in s.callers
    ensures id in Step(s, a).callers
    ensures
      var before, after := s.callers[id], Step(s, a).callers[id];
      && after.domains == before.domains
      && (after == before || 0 <= Remaining(after) < Remaining(before))
  {
    hide Normalize, NextPhase, PhaseFits, Remaining;
    assert PhaseFits(s, s.callers[id]);
    NextDescends(s, s.callers[id]);
    AnswerDescends(s.callers[id]);
  }

  /** No call goes on for ever: over any run a caller with n domains takes at most 3 n + 11 steps. */
  lemma {:induction false} CallsAreBounded(s: State, actions: seq<Action>, id: nat)
    requires Init(s)
    ensures
      var t := Run(s, actions);
      if id in t.callers
        then Moves(s, actions, id) + Remaining(t.callers[id]) <= 3 * |t.callers[id].domains| + 11
        else Moves(s, actions, id) == 0
    ensures id in Run(s, actions).callers ==> 0 <= Remaining(Run(s, actions).callers[id])
    decreases |actions|
  {
    hide Inv, Step, Remaining;
    if actions != [] {
      var n := |actions| - 1;
      var before := Run(s, actions[..n]);
      CallsAreBounded(s, actions[..n], id);
      InitInv(s);
      RunKeepsInv(s, actions[..n]);
      if id in before.callers {
        MoveDescends(before, actions[n], id);
      } else if id in Step(before, actions[n]).callers {
        NewCaller(before, actions[n], id);
      }
    }
  }

  lemma NewCaller(s: State, a: Action, id: nat)
    requires id !in s.callers && id in Step(s, a).callers
    ensures var c := Step(s, a).callers[id];
      0 <= Remaining(c) <= 3 * |c.domains| + 11
  {
    hide Normalize, NextPhase;
  }

  // ===== who waits for whom ==============================================

  /**
   A caller waits at obtainMu while it is held, at the read lock while a writer is in or
   waits, and at the write lock while a reader or another writer is in.
   */
  lemma LocksBlock(s: State, id: nat, other: nat)
    requires id in s.callers && other in s.callers
    ensures s.callers[id].phase.Waiting? && s.obtainMu.Some? ==> !Progresses(s, id)
    ensures s.callers[id].phase.Entering? || s.callers[id].phase.Holding? ==>
      (s.callers[other].phase.Locking? || s.callers[other].phase.Storing? ==> !Progresses(s, id))
    ensures s.callers[id].phase.Locking? ==>
      (HoldsReadLock(s.callers[other].phase) || s.callers[other].phase.Storing? ==> !Progresses(s, id))
  {
    hide Normalize, IsDue;
  }

  // ===== everyone can return =============================================

  /** The steps left to the callers of a list, each counted as often as it is listed. */
  function Work(t: State, ids: seq<nat>): int {
    if ids == [] then 0
    else (if ids[0] in t.callers then Remaining(t.callers[ids[0]]) else 0) + Work(t, ids[1..])
  }

  predicate Listed(t: State, ids: seq<nat>) {
    forall id | id in t.callers :: id in ids
  }

  /** Every caller is where it was or has fewer steps left. */
  predicate Descends(t: State, u: State) {
    && u.callers.Keys == t.callers.Keys
    && forall id | id in t.callers :: 0 <= Remaining(u.callers[id]) <= Remaining(t.callers[id])
  }

  lemma {:induction false} WorkDescends(t: State, u: State, ids: seq<nat>)
    requires Descends(t, u)
    ensures 0 <= Work(u, ids) <= Work(t, ids)
    ensures (exists id :: id in ids && id in t.callers && Remaining(u.callers[id]) < Remaining(t.callers[id])) ==>
      Work(u, ids) < Work(t, ids)
    decreases |ids|
  {
    hide Remaining;
    if ids != [] {
      WorkDescends(t, u, ids[1..]);
      assert ids == [ids[0]] + ids[1..];
    }
  }

  /** The CA's positive answer, or the caller's own step. */
  predicate Ordinary(a: Action) {
    a.Advance? || a.CaIssues?
  }

  lemma StepKeepsKeys(s: State, a: Action)
    requires Ordinary(a)
    ensures Step(s, a).callers.Keys == s.callers.Keys
  {
    hide Normalize, NextPhase;
  }

  lemma RemainingNonNegative(s: State, c: Caller)
    requires PhaseFits(s, c)
    ensures 0 <= Remaining(c)
  {
    hide Known, HaveExpiry, SomeDue;
  }

  lemma OrdinaryDescends(t: State, a: Action)
    requires Inv(t) && Ordinary(a)
    ensures Descends(t, Step(t, a)) && Inv(Step(t, a))
  {
    hide Inv, Step, Remaining, PhaseFits;
    StepKeepsKeys(t, a);
    StepKeepsInv(t, a);
    forall id | id in t.callers ensures 0 <= Remaining(Step(t, a).callers[id]) <= Remaining(t.callers[id]) {
      MoveDescends(t, a, id);
      assert PhaseFits(t, t.callers[id]) by { CallerFits(t, id); }
      RemainingNonNegative(t, t.callers[id]);
    }
  }

  lemma CallerFits(s: State, id: nat)
    requires Inv(s) && id in s.callers
    ensures PhaseFits(s, s.callers[id])
  {
  }

  /** An ordinary step that takes one caller nearer to its return. */
  lemma OrdinaryStep(t: State, id: nat) returns (a: Action, mover: nat)
    requires Inv(t) && id in t.callers && !t.callers[id].phase.Returned?
    ensures Ordinary(a) && mover in t.callers && mover in Step(t, a).callers
    ensures Step(t, a).callers[mover] != t.callers[mover]
  {
    hide Inv, NextPhase, AdvanceCaller;
    mover := SomeoneMoves(t, id);
    a := if t.callers[mover].phase.InFlight? then CaIssues(mover, Certificate(0), 0) else Advance(mover);
    StepKeepsKeys(t, a);
  }

  lemma {:induction false} FinishAll(t: State, ids: seq<nat>) returns (more: seq<Action>)
    requires Inv(t) && Listed(t, ids)
    ensures forall a | a in more :: Ordinary(a)
    ensures Run(t, more).callers.Keys == t.callers.Keys
    ensures forall id | id in t.callers :: Run(t, more).callers[id].phase.Returned?
    decreases Work(t, ids)
  {
    hide Inv, Step, Remaining, Work, Ordinary;
    if forall id | id in t.callers :: t.callers[id].phase.Returned? {
      more := [];
    } else {
      var id :| id in t.callers && !t.callers[id].phase.Returned?;
      var a, mover := OrdinaryStep(t, id);
      var u := Step(t, a);
      OrdinaryDescends(t, a);
      MoveDescends(t, a, mover);
      WorkDescends(t, u, ids);
      var rest := FinishAll(u, ids);
      more := [a] + rest;
      assert Run(t, [a]) == u by { RunOne(t, a); }
      RunAppend(t, [a], rest);
    }
  }

  lemma RunOne(t: State, a: Action)
    ensures Run(t, [a]) == Step(t, a)
  {
    assert [a][..0] == [];
    assert Run(t, []) == t;
  }

  lemma {:induction false} List(keys: set<nat>) returns (ids: seq<nat>)
    ensures forall id | id in keys :: id in ids
    decreases keys
  {
    if keys == {} {
      ids := [];
    } else {
      var id :| id in keys;
      var rest := List(keys - {id});
      ids := [id] + rest;
    }
  }

  /** From every reachable state the callers' own steps and positive answers of the CA can end every call. */
  lemma {:induction false} EveryoneCanReturn(s: State, actions: seq<Action>)
    requires Init(s)
    ensures exists more: seq<Action> ::
      && (forall a | a in more :: Ordinary(a))
      && Run(s, actions + more).callers.Keys == Run(s, actions).callers.Keys
      && (forall id | id in Run(s, actions).callers :: Run(s, actions + more).callers[id].phase.Returned?)
  {
    hide Run, Inv, Ordinary;
    InitInv(s);
    RunKeepsInv(s, actions);
    var t := Run(s, actions);
    var ids := List(t.callers.Keys);
    var more := FinishAll(t, ids);
    RunAppend(s, actions, more);
  }
}
