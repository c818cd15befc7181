/**
 The gate that pauses the admission of Lua operations: a flag, a count and a
 channel that every change closes and replaces.
 */
module AutomationGate {
  import opened Common

  /**
   Channels are numbered in the order they are made; `None` is the nil channel
   the gate starts with.  Replacing the current channel closes it, so a channel
   is open exactly when it is the current one.
   */
  datatype Gate = Gate(isPaused: bool, activeCount: int, changed: Option<nat>)

  function Notify(g: Gate): Gate {
    g.(changed := Some(if g.changed.None? then 0 else g.changed.value + 1))
  }

  predicate IsClosed(g: Gate, channel: Option<nat>) {
    channel.Some? && g.changed != channel
  }

  datatype Phase =
    | Entering | EnterWaiting(channel: Option<nat>) | Inside | Left | EnterFailed
    | Pausing | PauseWaiting(channel: Option<nat>) | PauseWoken | PauseReturned(isSettled: bool)

  datatype System = System(gate: Gate, phases: seq<Phase>)

  datatype Event =
    | SpawnEnter | SpawnPause | Resume
    | Lock(index: nat, isExpired: bool)   // the thread's next locked section; `isExpired` is a pauser's context
    | Wake(index: nat) | Expire(index: nat)

  /** What a pauser decides while it holds the lock. */
  function Judge(g: Gate, isExpired: bool): Phase {
    if isExpired || !g.isPaused then PauseReturned(false)
    else if g.activeCount == 0 then PauseReturned(true)
    else PauseWaiting(g.changed)
  }

  function Admit(g: Gate): (Gate, Phase) {
    if g.isPaused then (g, EnterWaiting(g.changed))
    else (g.(activeCount := g.activeCount + 1), Inside)
  }

  function Depart(g: Gate): Gate {
    Notify(g.(activeCount := g.activeCount - 1))
  }

  function BeginPause(g: Gate, isExpired: bool): (Gate, Phase) {
    var paused := Notify(g.(isPaused := true));
    (paused, Judge(paused, isExpired))
  }

  function Locked(g: Gate, phase: Phase, isExpired: bool): Option<(Gate, Phase)> {
    match phase
    case Entering => Some(Admit(g))
    case Inside => Some((Depart(g), Left))
    case Pausing => Some(BeginPause(g, isExpired))
    case PauseWoken => Some((g, Judge(g, isExpired)))
    case _ => None
  }

  function LockStep(s: System, i: nat, isExpired: bool): Option<System>
    requires i < |s.phases|
  {
    match Locked(s.gate, s.phases[i], isExpired)
    case None => None
    case Some((g, phase)) => Some(System(g, s.phases[i := phase]))
  }

  function Step(s: System, e: Event): Option<System> {
    match e
    case SpawnEnter => Some(s.(phases := s.phases + [Entering]))
    case SpawnPause => Some(s.(phases := s.phases + [Pausing]))
    case Resume => Some(s.(gate := Notify(s.gate.(isPaused := false))))
    case Lock(i, isExpired) => if i < |s.phases| then LockStep(s, i, isExpired) else None
    case Wake(i) =>
      if i >= |s.phases| then None
      else if s.phases[i].EnterWaiting? && IsClosed(s.gate, s.phases[i].channel) then
        Some(s.(phases := s.phases[i := Entering]))
      else if s.phases[i].PauseWaiting? && IsClosed(s.gate, s.phases[i].channel) then
        Some(s.(phases := s.phases[i := PauseWoken]))
      else None
    case Expire(i) =>
      if i >= |s.phases| then None
      else if s.phases[i].Entering? || s.phases[i].EnterWaiting? then Some(s.(phases := s.phases[i := EnterFailed]))
      else if s.phases[i].Pausing? || s.phases[i].PauseWaiting? then Some(s.(phases := s.phases[i := PauseReturned(false)]))
      else None
  }

  const Start := System(Gate(false, 0, None), [])

  function Exec(s: System, es: seq<Event>): Option<System>
    decreases |es|
  {
    if es == [] then Some(s)
    else match Step(s, es[0])
      case None => None
      case Some(next) => Exec(next, es[1..])
  }

  ghost predicate Reachable(s: System) {
    exists es: seq<Event> :: Exec(Start, es) == Some(s)
  }

  // ------------------------------------------------------------- invariant

  function InsideCount(phases: seq<Phase>): nat {
    if phases == [] then 0
    else (if phases[0].Inside? then 1 else 0) + InsideCount(phases[1..])
  }

  /** A waiter whose channel is still open is waiting for something that is still not so. */
  predicate WaitsRightly(g: Gate, phase: Phase) {
    match phase
    case EnterWaiting(channel) => channel.Some? && (g.changed == channel ==> g.isPaused)
    case PauseWaiting(channel) => channel.Some? && (g.changed == channel ==> g.isPaused && g.activeCount > 0)
    case _ => true
  }

  /** No waiter has captured a channel that does not exist yet. */
  predicate IsKnown(g: Gate, channel: Option<nat>) {
    channel.Some? ==> g.changed.Some? && channel.value <= g.changed.value
  }

  predicate Captured(g: Gate, phase: Phase) {
    match phase
    case EnterWaiting(channel) => IsKnown(g, channel)
    case PauseWaiting(channel) => IsKnown(g, channel)
    case _ => true
  }

  ghost predicate Inv(s: System) {
    && s.gate.activeCount == InsideCount(s.phases)
    && (s.gate.isPaused ==> s.gate.changed.Some?)
    && forall i :: 0 <= i < |s.phases| ==> WaitsRightly(s.gate, s.phases[i]) && Captured(s.gate, s.phases[i])
  }

  lemma {:induction false} CountUpdate(phases: seq<Phase>, i: nat, phase: Phase)
    requires i < |phases|
    ensures InsideCount(phases[i := phase])
         == InsideCount(phases) - (if phases[i].Inside? then 1 else 0) + (if phase.Inside? then 1 else 0)
  {
    var next := phases[i := phase];
    if i == 0 {
      assert next[1..] == phases[1..];
    } else {
      CountUpdate(phases[1..], i - 1, phase);
      assert next[1..] == phases[1..][i - 1 := phase];
    }
  }

  lemma {:induction false} CountAppend(phases: seq<Phase>, phase: Phase)
    ensures InsideCount(phases + [phase]) == InsideCount(phases) + (if phase.Inside? then 1 else 0)
  {
    if phases == [] {
      assert [] + [phase] == [phase];
      assert [phase][1..] == [];
    } else {
      CountAppend(phases[1..], phase);
      assert (phases + [phase])[1..] == phases[1..] + [phase];
    }
  }

  lemma {:induction false} NobodyInside(phases: seq<Phase>)
    ensures InsideCount(phases) == 0 <==> forall i :: 0 <= i < |phases| ==> !phases[i].Inside?
  {
    if phases != [] {
      NobodyInside(phases[1..]);
      assert forall i :: 1 <= i < |phases| ==> phases[i] == phases[1..][i - 1];
    }
  }

  /** Other threads' waits survive one thread's locked section. */
  lemma WaitsSurvive(g: Gate, phase: Phase, isExpired: bool, other: Phase)
    requires Locked(g, phase, isExpired).Some? && WaitsRightly(g, other) && Captured(g, other)
    ensures var g' := Locked(g, phase, isExpired).value.0; WaitsRightly(g', other) && Captured(g', other)
  {
  }

  lemma LockKeeps(s: System, i: nat, isExpired: bool)
    requires Inv(s) && i < |s.phases| && LockStep(s, i, isExpired).Some?
    ensures Inv(LockStep(s, i, isExpired).value)
  {
    var t := LockStep(s, i, isExpired).value;
    CountUpdate(s.phases, i, t.phases[i]);
    NobodyInside(s.phases);
    forall k | 0 <= k < |t.phases|
      ensures WaitsRightly(t.gate, t.phases[k]) && Captured(t.gate, t.phases[k])
    {
      if k != i {
        WaitsSurvive(s.gate, s.phases[i], isExpired, s.phases[k]);
      }
    }
  }

  lemma SpawnKeeps(s: System, e: Event)
    requires Inv(s) && (e.SpawnEnter? || e.SpawnPause?) && Step(s, e).Some?
    ensures Inv(Step(s, e).value)
  {
    CountAppend(s.phases, if e.SpawnEnter? then Entering else Pausing);
  }

  lemma WakeKeeps(s: System, e: Event)
    requires Inv(s) && (e.Wake? || e.Expire?) && Step(s, e).Some?
    ensures Inv(Step(s, e).value)
  {
    CountUpdate(s.phases, e.index, Step(s, e).value.phases[e.index]);
  }

  lemma ResumeKeeps(s: System)
    requires Inv(s) && Step(s, Resume).Some?
    ensures Inv(Step(s, Resume).value)
  {
  }

  lemma StepKeeps(s: System, e: Event)
    requires Inv(s) && Step(s, e).Some?
    ensures Inv(Step(s, e).value)
  {
    if e.SpawnEnter? || e.SpawnPause? {
      SpawnKeeps(s, e);
    } else if e.Resume? {
      ResumeKeeps(s);
    } else if e.Lock? {
      LockKeeps(s, e.index, e.isExpired);
    } else {
      WakeKeeps(s, e);
    }
  }

  lemma {:induction false} ExecKeeps(s: System, es: seq<Event>)
    requires Inv(s) && Exec(s, es).Some?
    ensures Inv(Exec(s, es).value)
    decreases |es|
  {
    if es != [] {
      StepKeeps(s, es[0]);
      ExecKeeps(Step(s, es[0]).value, es[1..]);
    }
  }

  lemma ReachableInv(s: System)
    requires Reachable(s)
    ensures Inv(s)
  {
    var es: seq<Event> :| Exec(Start, es) == Some(s);
    ExecKeeps(Start, es);
  }

  // --------------------------------------------------------------- theorems

  /** A waiter whose condition has come true has been woken: its channel is closed.  On the current one it sleeps. */
  lemma NoLostWakeup(s: System, i: nat)
    requires Reachable(s) && i < |s.phases|
    ensures (s.phases[i].EnterWaiting? || s.phases[i].PauseWaiting?) && s.phases[i].channel == s.gate.changed ==>
              Step(s, Wake(i)).None?
    ensures s.phases[i].EnterWaiting? && !s.gate.isPaused ==> Step(s, Wake(i)).Some?
    ensures s.phases[i].PauseWaiting? && (!s.gate.isPaused || s.gate.activeCount == 0) ==> Step(s, Wake(i)).Some?
  {
    ReachableInv(s);
  }

  /** The run lets nobody resume the gate. */
  ghost predicate NoResume(es: seq<Event>) {
    forall k :: 0 <= k < |es| ==> !es[k].Resume?
  }

  /** A pause that reports it settled does so while nobody is inside. */
  lemma PauseSettles(s: System, i: nat, isExpired: bool)
    requires Reachable(s) && i < |s.phases| && !s.phases[i].PauseReturned?
    requires Step(s, Lock(i, isExpired)).Some? && Step(s, Lock(i, isExpired)).value.phases[i] == PauseReturned(true)
    ensures IsQuiet(Step(s, Lock(i, isExpired)).value)
  {
    ReachableInv(s);
    var t := Step(s, Lock(i, isExpired)).value;
    StepKeeps(s, Lock(i, isExpired));
    NobodyInside(t.phases);
  }

  predicate IsQuiet(s: System) {
    s.gate.isPaused && s.gate.activeCount == 0 && forall i :: 0 <= i < |s.phases| ==> !s.phases[i].Inside?
  }

  lemma QuietStep(s: System, e: Event)
    requires Inv(s) && IsQuiet(s) && Step(s, e).Some? && !e.Resume?
    ensures IsQuiet(Step(s, e).value)
  {
  }

  /** From then on nobody is admitted until someone resumes the gate. */
  lemma {:induction false} QuietUntilResume(s: System, es: seq<Event>)
    requires Inv(s) && IsQuiet(s) && Exec(s, es).Some? && NoResume(es)
    ensures IsQuiet(Exec(s, es).value)
    decreases |es|
  {
    if es != [] {
      QuietStep(s, es[0]);
      StepKeeps(s, es[0]);
      QuietUntilResume(Step(s, es[0]).value, es[1..]);
    }
  }

  /** The count is the number of operations inside, and never negative. */
  lemma CountIsExact(s: System)
    requires Reachable(s)
    ensures s.gate.activeCount == InsideCount(s.phases) >= 0
    ensures s.gate.activeCount == 0 <==> forall i :: 0 <= i < |s.phases| ==> !s.phases[i].Inside?
  {
    ReachableInv(s);
    NobodyInside(s.phases);
  }

  /**
   The locked section of an entering thread lets it in, and counts it, exactly when
   the gate is not paused; otherwise it waits on the channel that the next change closes.
   */
  lemma EntersIff(s: System, i: nat, isExpired: bool)
    requires Reachable(s) && i < |s.phases| && s.phases[i].Entering?
    ensures Step(s, Lock(i, isExpired)).Some?
    ensures var t := Step(s, Lock(i, isExpired)).value;
            && |t.phases| == |s.phases| && (forall k :: 0 <= k < |s.phases| && k != i ==> t.phases[k] == s.phases[k])
            && (t.phases[i] == Inside <==> !s.gate.isPaused)
            && (t.phases[i] == EnterWaiting(s.gate.changed) <==> s.gate.isPaused)
            && t.gate == (if s.gate.isPaused then s.gate else s.gate.(activeCount := s.gate.activeCount + 1))
  {
  }

  /** The verdict `phase` of a pauser that holds the lock of `g`. */
  predicate IsJudged(g: Gate, isExpired: bool, phase: Phase) {
    && (phase == PauseReturned(true) <==> !isExpired && g.isPaused && g.activeCount == 0)
    && (phase == PauseReturned(false) <==> isExpired || !g.isPaused)
    && (phase == PauseWaiting(g.changed) <==> !isExpired && g.isPaused && g.activeCount != 0)
  }

  /**
   A pauser closes the gate and everybody's channel with its first locked section,
   and with each is told: settled, expired or superseded, or to wait.
   */
  lemma PausesIff(s: System, i: nat, isExpired: bool)
    requires Reachable(s) && i < |s.phases| && (s.phases[i].Pausing? || s.phases[i].PauseWoken?)
    ensures Step(s, Lock(i, isExpired)).Some?
    ensures var t := Step(s, Lock(i, isExpired)).value;
            && |t.phases| == |s.phases| && (forall k :: 0 <= k < |s.phases| && k != i ==> t.phases[k] == s.phases[k])
            && IsJudged(t.gate, isExpired, t.phases[i]) && t.gate.activeCount == s.gate.activeCount
            && (s.phases[i].PauseWoken? ==> t.gate == s.gate)
            && (s.phases[i].Pausing? ==> t.gate.isPaused && AllWoken(s, t))
  {
    ReachableInv(s);
  }

  /** Whoever waited in `s` can go on in `t`. */
  predicate AllWoken(s: System, t: System) {
    forall k: nat :: k < |s.phases| && k < |t.phases| && (s.phases[k].EnterWaiting? || s.phases[k].PauseWaiting?) ==>
      IsClosed(t.gate, s.phases[k].channel)
  }

  /** Leaving counts the operation out; leaving and resuming wake everybody. */
  lemma LeavesAndResumes(s: System, i: nat, isExpired: bool)
    requires Reachable(s)
    ensures i < |s.phases| && s.phases[i].Inside? ==>
              && Step(s, Lock(i, isExpired)).Some?
              && var t := Step(s, Lock(i, isExpired)).value;
                 && t.phases == s.phases[i := Left] && AllWoken(s, t)
                 && t.gate.isPaused == s.gate.isPaused && t.gate.activeCount == s.gate.activeCount - 1
    ensures Step(s, Resume).Some?
    ensures var t := Step(s, Resume).value;
            && t.phases == s.phases && AllWoken(s, t) && !t.gate.isPaused && t.gate.activeCount == s.gate.activeCount
  {
    ReachableInv(s);
  }

  // ------------------------------------------------------------- the object

  class DebugAutomation {
    var isPaused: bool
    var activeCount: int
    var changed: Option<nat>

    constructor ()
      ensures View() == Start.gate
    {
      isPaused, activeCount, changed := false, 0, None;
    }

    function View(): Gate
      reads this
    {
      Gate(isPaused, activeCount, changed)
    }

    method NotifyLocked()
      modifies this`changed
      ensures View() == Notify(old(View()))
    {
      if changed.Some? {
        changed := Some(changed.value + 1);
      } else {
        changed := Some(0);
      }
    }

    /** The locked part of one round of `Enter`. */
    method Enter() returns (next: Phase)
      modifies this`activeCount
      ensures (View(), next) == Admit(old(View()))
      ensures if old(isPaused) then next == EnterWaiting(changed) && activeCount == old(activeCount)
              else next == Inside && activeCount == old(activeCount) + 1
    {
      if !isPaused {
        activeCount := activeCount + 1;
        return Inside;
      }
      next := EnterWaiting(changed);
    }

    method Leave()
      modifies this
      ensures View() == Depart(old(View()))
    {
      activeCount := activeCount - 1;
      NotifyLocked();
    }

    /** The locked part of `Pause` up to its first decision. */
    method Pause(isExpired: bool) returns (next: Phase)
      modifies this
      ensures (View(), next) == BeginPause(old(View()), isExpired)
    {
      isPaused := true;
      NotifyLocked();
      next := Decide(isExpired);
    }

    /** The locked part of one later round of `Pause`. */
    method Decide(isExpired: bool) returns (next: Phase)
      ensures next == Judge(View(), isExpired)
      ensures IsJudged(View(), isExpired, next)
    {
      if isExpired { return PauseReturned(false); }
      if !isPaused { return PauseReturned(false); }
      if activeCount == 0 { return PauseReturned(true); }
      next := PauseWaiting(changed);
    }

    method Resume()
      modifies this
      ensures View() == Notify(old(View()).(isPaused := false))
    {
      isPaused := false;
      NotifyLocked();
    }
  }
}
