/**
 What the control pipe promises over whole runs.
 */
module PipeSafety {
  import opened Common
  import opened PipeSections
  import opened PipeRuns

  // ------------------------------------------------------------------ runs

  lemma {:induction false} ExecAppend(s: System, es: seq<Event>, e: Event)
    requires Inv(s) && Exec(s, es).Some?
    ensures Inv(Exec(s, es).value)
    ensures Exec(s, es + [e]) == Step(Exec(s, es).value, e)
    decreases |es|
  {
    ExecKeeps(s, es);
    if es == [] {
      assert es + [e] == [e];
      if Step(s, e).Some? {
        assert Exec(Step(s, e).value, [e][1..]) == Step(s, e);
      }
    } else {
      StepKeeps(s, es[0]);
      ExecAppend(Step(s, es[0]).value, es[1..], e);
      assert (es + [e])[1..] == es[1..] + [e];
    }
  }

  lemma ReachableStep(s: System, e: Event, t: System)
    requires Reachable(s) && s.pipe.Valid() && Step(s, e) == Some(t)
    ensures Reachable(t) && t.pipe.Valid()
  {
    var es: seq<Event> :| Exec(Start, es) == Some(s);
    ExecAppend(Start, es, e);
    ReachableInv(t);
  }

  lemma StartReachable()
    ensures Reachable(Start)
  {
    assert Exec(Start, []) == Some(Start);
  }

  /** The run is possible and the fence is up in every state of it. */
  ghost predicate FencedRun(s: System, es: seq<Event>)
    decreases |es|
  {
    && s.pipe.Valid() && s.pipe.IsFenced()
    && (es != [] ==> Step(s, es[0]).Some? && FencedRun(Step(s, es[0]).value, es[1..]))
  }

  lemma {:induction false} FencedRunExecutes(s: System, es: seq<Event>)
    requires FencedRun(s, es)
    ensures Exec(s, es).Some? && Exec(s, es).value.pipe.IsFenced()
    decreases |es|
  {
    if es != [] {
      FencedRunExecutes(Step(s, es[0]).value, es[1..]);
    }
  }

  // ----------------------------------------------------------------- fence

  predicate IsDispatched(s: System, i: nat) {
    i < |s.pipe.commands| && s.pipe.commands[i].isDispatched
  }

  /** What any receipt must say before it is looked at: an identity, and a failure or a complete success. */
  predicate IsSound(rc: Receipt) {
    && |rc.requestID| > 0 && |rc.operation| > 0 && rc.sequence > 0
    && match (rc.result, rc.failure)
       case (None, None) => false
       case (Some(r), None) =>
         r.status == "processed" && r.isProcessed && !r.isGameplayComplete && r.threadID > 0 && r.completedTickMS > 0
       case (None, Some(code)) => |code| > 0
       case (Some(r), Some(code)) => |code| > 0 && !r.isGameplayComplete
  }

  /** A sound receipt that carries the command's identity and, for a success, passes the checks of its operation. */
  predicate IsAnswerTo(rc: Receipt, c: Command) {
    && IsSound(rc) && rc.sequence == c.sequence && rc.requestID == c.requestID && rc.operation == c.operation
    && (rc.failure == None ==> rc.isShapeAccepted)
  }

  /** It has one delivery, its own receipt, and that does not say that the outcome is unknown. */
  predicate IsSettled(c: Command) {
    && |c.deliveries| == 1 && c.deliveries[0].Received?
    && IsAnswerTo(c.deliveries[0].receipt, c) && c.deliveries[0].receipt.failure != Some("outcome_unknown")
  }

  /** While the fence is up nothing is outstanding and every dispatched command has a conclusive receipt. */
  lemma FenceSettlesEveryCommand(s: System)
    requires Reachable(s) && s.pipe.IsFenced()
    ensures s.pipe.pending.None?
    ensures forall i: nat :: IsDispatched(s, i) ==> IsSettled(s.pipe.commands[i])
  {
    ReachableInv(s);
    forall i: nat | IsDispatched(s, i)
      ensures IsSettled(s.pipe.commands[i])
    {
      assert CallInvAt(s, i);
    }
  }

  lemma FencedCallFreezes(s: System, e: Event)
    requires Shape(s) && s.pipe.IsFenced() && CallStep(s, e).Some?
    ensures CallStep(s, e).value.pipe.commands == s.pipe.commands
  {
  }

  lemma FencedStepFreezes(s: System, e: Event)
    requires Shape(s) && s.pipe.IsFenced() && Step(s, e).Some?
    ensures Step(s, e).value.pipe.commands == s.pipe.commands
  {
    if IsOutside(e) || ReaderStep(s, e).Some? {
    } else {
      FencedCallFreezes(s, e);
    }
  }

  /** Until the fence drops no command is issued, marked as dispatched or answered. */
  lemma {:induction false} FenceFreezesCommands(s: System, es: seq<Event>)
    requires Inv(s) && FencedRun(s, es)
    ensures Exec(s, es).Some? && Exec(s, es).value.pipe.commands == s.pipe.commands
    decreases |es|
  {
    if es != [] {
      FencedStepFreezes(s, es[0]);
      StepKeeps(s, es[0]);
      FenceFreezesCommands(Step(s, es[0]).value, es[1..]);
    }
  }

  predicate IsCallWriting(s: System, i: nat) {
    At(s, i) == Some(Writing)
  }

  ghost predicate WritesCommand(s: System, es: seq<Event>)
  {
    Exec(s, es).Some? && exists i: nat :: IsWritten(Exec(s, es).value.writes, i) && !IsWritten(s.writes, i)
  }

  lemma {:induction false} NoWriterNoFrame(s: System, es: seq<Event>)
    requires Inv(s) && FencedRun(s, es)
    requires forall i: nat :: !IsCallWriting(s, i)
    ensures Exec(s, es).Some?
    ensures forall i: nat :: IsWritten(Exec(s, es).value.writes, i) ==> IsWritten(s.writes, i)
    decreases |es|
  {
    if es != [] {
      var t := Step(s, es[0]).value;
      FencedStepStartsNoWrite(s, es[0]);
      StepKeeps(s, es[0]);
      NoWriterNoFrame(t, es[1..]);
    }
  }

  /** Under the fence a call that is not writing does not begin to, and logs no command frame. */
  lemma FencedCallStartsNoWrite(s: System, e: Event)
    requires Shape(s) && s.pipe.IsFenced() && CallStep(s, e).Some? && !e.CallSubmit?
    requires !IsCallWriting(s, e.index)
    ensures !IsCallWriting(CallStep(s, e).value, e.index)
    ensures forall i: nat :: IsWritten(CallStep(s, e).value.writes, i) ==> IsWritten(s.writes, i)
  {
  }

  lemma FencedStepStartsNoWrite(s: System, e: Event)
    requires Inv(s) && s.pipe.IsFenced() && Step(s, e).Some?
    requires forall i: nat :: !IsCallWriting(s, i)
    ensures forall i: nat :: !IsCallWriting(Step(s, e).value, i)
    ensures forall i: nat :: IsWritten(Step(s, e).value.writes, i) ==> IsWritten(s.writes, i)
  {
    var t := Step(s, e).value;
    StepKeeps(s, e);
    if IsOutside(e) || ReaderStep(s, e).Some? {
      CallsStand(s, e);
    } else if e.CallSubmit? {
      assert t == s;
    } else {
      OneCallMoves(s, e);
      FencedCallStartsNoWrite(s, e);
    }
    forall i: nat
      ensures !IsCallWriting(t, i)
    {
      assert !IsCallWriting(s, i);
    }
  }

  /**
   Under the fence a command frame can still be written exactly when some caller
   had been marked and was still writing as the fence went up.
   */
  lemma CommandFrameUnderFenceIff(s: System)
    requires Reachable(s) && s.pipe.IsFenced()
    ensures (exists es: seq<Event> :: FencedRun(s, es) && WritesCommand(s, es)) <==> (exists i: nat :: IsCallWriting(s, i))
  {
    ReachableInv(s);
    if i: nat :| IsCallWriting(s, i) {
      var e := CallWrite(i, false, OtherCause);
      var t := Step(s, e).value;
      assert CallInvAt(s, i);
      assert FencedRun(t, []) && Exec(t, []) == Some(t);
      assert [e][1..] == [];
      assert FencedRun(s, [e]) && Exec(s, [e]) == Some(t);
      assert CommandWrite(i, false) in t.writes;
      assert IsWritten(t.writes, i) && !IsWritten(s.writes, i);
      assert WritesCommand(s, [e]);
    } else {
      forall es: seq<Event> | FencedRun(s, es)
        ensures !WritesCommand(s, es)
      {
        NoWriterNoFrame(s, es);
      }
    }
  }

  /** A peer that answers only what was written to it never leaves a writer behind the fence. */
  lemma HonestPeerStopsFrames(s: System)
    requires Reachable(s) && s.pipe.IsFenced() && s.isPeerHonest
    ensures forall i: nat :: !IsCallWriting(s, i)
  {
    ReachableInv(s);
    forall i: nat
      ensures !IsCallWriting(s, i)
    {
      if i < |s.phases| {
        assert CallInvAt(s, i);
      }
    }
  }

  // ------------------------------------------- unknown outcomes and the fence

  predicate IsUnknown(s: System, i: nat) {
    i < |s.phases| && ReportedError(s.phases[i]).Some? && ReportedError(s.phases[i]).value.code == "outcome_unknown"
  }

  /** A dispatched caller that has missed, or may still miss, the receipt delivered to it. */
  predicate IsStraggler(s: System, i: nat) {
    IsDispatched(s, i) && i < |s.phases| && (s.phases[i].Writing? || s.phases[i].Abandoning?)
  }

  ghost predicate EndsUnknown(s: System, es: seq<Event>) {
    Exec(s, es).Some? && exists i: nat :: IsUnknown(Exec(s, es).value, i)
  }

  lemma FencedReaderStepNoStraggler(s: System, e: Event, i: nat)
    requires Shape(s) && s.pipe.IsFenced() && ReaderStep(s, e).Some?
    requires !IsStraggler(s, i) && !IsUnknown(s, i)
    ensures !IsStraggler(ReaderStep(s, e).value, i) && !IsUnknown(ReaderStep(s, e).value, i)
  {
  }

  /** The call that moves does not become a straggler or unknown. */
  lemma FencedMoveNoStraggler(s: System, e: Event)
    requires Shape(s) && s.pipe.IsFenced() && CallStep(s, e).Some? && !e.CallSubmit?
    requires e.index < |s.phases| && CallInvAt(s, e.index)
    requires !IsStraggler(s, e.index) && !IsUnknown(s, e.index)
    ensures !IsStraggler(CallStep(s, e).value, e.index) && !IsUnknown(CallStep(s, e).value, e.index)
  {
  }

  lemma FencedCallStepNoStraggler(s: System, e: Event, i: nat)
    requires Shape(s) && s.pipe.IsFenced() && CallStep(s, e).Some?
    requires i < |s.phases| ==> CallInvAt(s, i)
    requires !IsStraggler(s, i) && !IsUnknown(s, i)
    ensures !IsStraggler(CallStep(s, e).value, i) && !IsUnknown(CallStep(s, e).value, i)
  {
    if !e.CallSubmit? {
      OneCallMoves(s, e);
      FencedCallFreezes(s, e);
      if i == e.index {
        FencedMoveNoStraggler(s, e);
      }
    }
  }

  lemma FencedStepNoStraggler(s: System, e: Event, i: nat)
    requires Shape(s) && s.pipe.IsFenced() && Step(s, e).Some?
    requires i < |s.phases| ==> CallInvAt(s, i)
    requires !IsStraggler(s, i) && !IsUnknown(s, i)
    ensures !IsStraggler(Step(s, e).value, i) && !IsUnknown(Step(s, e).value, i)
  {
    if IsOutside(e) {
    } else if ReaderStep(s, e).Some? {
      FencedReaderStepNoStraggler(s, e, i);
    } else {
      FencedCallStepNoStraggler(s, e, i);
    }
  }

  lemma {:induction false} NoStragglerNoUnknown(s: System, es: seq<Event>)
    requires Inv(s) && FencedRun(s, es)
    requires forall i: nat :: !IsStraggler(s, i) && !IsUnknown(s, i)
    ensures !EndsUnknown(s, es)
    decreases |es|
  {
    if es == [] {
      assert Exec(s, es) == Some(s);
    } else {
      forall i: nat
        ensures !IsStraggler(Step(s, es[0]).value, i) && !IsUnknown(Step(s, es[0]).value, i)
      {
        FencedStepNoStraggler(s, es[0], i);
      }
      StepKeeps(s, es[0]);
      NoStragglerNoUnknown(Step(s, es[0]).value, es[1..]);
      assert Exec(s, es) == Exec(Step(s, es[0]).value, es[1..]);
    }
  }

  lemma AbandonReportsUnknown(s: System, i: nat)
    requires Inv(s) && IsDispatched(s, i) && i < |s.phases| && s.phases[i].Abandoning?
    ensures Step(s, CallAbandon(i)).Some? && IsUnknown(Step(s, CallAbandon(i)).value, i)
  {
    StepKeeps(s, CallAbandon(i));
    assert CallInvAt(Step(s, CallAbandon(i)).value, i);
  }

  lemma AbandonerEndsUnknown(s: System, i: nat) returns (es: seq<Event>)
    requires Inv(s) && s.pipe.IsFenced() && IsDispatched(s, i) && i < |s.phases| && s.phases[i].Abandoning?
    ensures FencedRun(s, es) && EndsUnknown(s, es)
  {
    AbandonReportsUnknown(s, i);
    var t := Step(s, CallAbandon(i)).value;
    StepKeeps(s, CallAbandon(i));
    es := [CallAbandon(i)];
    assert es[1..] == [];
    assert FencedRun(t, []) && Exec(t, []) == Some(t);
  }

  lemma StragglerEndsUnknown(s: System, i: nat) returns (es: seq<Event>)
    requires Inv(s) && s.pipe.IsFenced() && IsStraggler(s, i)
    ensures FencedRun(s, es) && EndsUnknown(s, es)
  {
    if s.phases[i].Writing? {
      var e := CallWrite(i, false, OtherCause);
      StepKeeps(s, e);
      var rest := AbandonerEndsUnknown(Step(s, e).value, i);
      es := [e] + rest;
      assert es[1..] == rest;
    } else {
      es := AbandonerEndsUnknown(s, i);
    }
  }

  /**
   The fence does not by itself rule out a later "outcome unknown" report.  Under
   it such a report is made, or still possible, exactly when some dispatched
   caller has made it, is still writing, or is already on its way to abandon.
   */
  lemma UnknownUnderFenceIff(s: System)
    requires Reachable(s) && s.pipe.IsFenced()
    ensures (exists es: seq<Event> :: FencedRun(s, es) && EndsUnknown(s, es))
       <==> (exists i: nat :: IsStraggler(s, i) || IsUnknown(s, i))
  {
    ReachableInv(s);
    if i: nat :| IsStraggler(s, i) {
      var es := StragglerEndsUnknown(s, i);
    } else if i: nat :| IsUnknown(s, i) {
      assert FencedRun(s, []) && Exec(s, []) == Some(s);
      assert EndsUnknown(s, []);
    } else {
      forall es: seq<Event> | FencedRun(s, es)
        ensures !EndsUnknown(s, es)
      {
        NoStragglerNoUnknown(s, es);
      }
    }
  }

  /** At the moment the fence goes up no command has been reported unknown. */
  lemma FenceGoesUpClean(s: System, token: string, i: nat)
    requires Reachable(s)
    requires TryPause(s.pipe, token, true).1.Installed?
    ensures !IsUnknown(s, i)
  {
    ReachableInv(s);
    if i < |s.phases| {
      assert CallInvAt(s, i);
    }
  }

  // -------------------------------------------------------------- receipts

  /**
   A receipt resolves a command exactly when that command is the outstanding one
   and the receipt is its own; a receipt for any other issued command is dropped
   and changes nothing; everything else ends the connection.
   */
  lemma ReceiptResolvesOnlyItsCommand(s: System, rc: Receipt)
    requires Reachable(s)
    ensures s.pipe.Valid()
    ensures var (p, verdict) := Receive(s.pipe, rc);
            && (verdict.Delivered? <==> s.pipe.pending.Some? && IsAnswerTo(rc, s.pipe.commands[s.pipe.pending.value]))
            && (verdict.Dropped? <==> IsSound(rc) && rc.sequence <= s.pipe.requestSequence
                                      && s.pipe.pending != Some(rc.sequence - 1))
            && (!verdict.Delivered? ==> p == s.pipe)
            && (verdict.Delivered? ==>
                  var i := rc.sequence - 1;
                  && s.pipe.pending == Some(i) && p.pending.None?
                  && p.commands[i].deliveries == [Received(rc)]
                  && (p.isPauseUnsafe <==> s.pipe.isPauseUnsafe || rc.failure == Some("outcome_unknown"))
                  && |p.commands| == |s.pipe.commands|
                  && forall k :: 0 <= k < |p.commands| && k != i ==> p.commands[k] == s.pipe.commands[k])
  {
    ReachableInv(s);
    if s.pipe.pending.Some? {
      assert CallInvAt(s, s.pipe.pending.value);
    }
  }

  /** Whatever is sent to a command finds its one-slot channel empty, so no send made under the lock blocks. */
  lemma SendNeverBlocks(s: System)
    requires Reachable(s)
    ensures |s.phases| == |s.pipe.commands|
    ensures s.pipe.pending.Some? ==>
              s.pipe.pending.value < |s.pipe.commands| && s.pipe.commands[s.pipe.pending.value].deliveries == []
    ensures forall i :: 0 <= i < |s.pipe.commands| ==> |s.pipe.commands[i].deliveries| <= 1
    ensures forall i :: 0 <= i < |s.phases| && s.phases[i].Returned? ==> s.pipe.pending != Some(i)
    ensures forall i :: 0 <= i < |s.phases| && s.phases[i].Waiting? ==>
              s.pipe.pending == Some(i) || s.pipe.commands[i].deliveries != []
  {
    ReachableInv(s);
    forall i | 0 <= i < |s.pipe.commands|
      ensures |s.pipe.commands[i].deliveries| <= 1
      ensures s.phases[i].Returned? ==> s.pipe.pending != Some(i)
      ensures s.pipe.pending == Some(i) ==> s.pipe.commands[i].deliveries == []
      ensures s.phases[i].Waiting? ==> s.pipe.pending == Some(i) || s.pipe.commands[i].deliveries != []
    {
      assert CallInvAt(s, i);
    }
  }

  lemma ReturnedCallRests(s: System, e: Event)
    requires s.pipe.Valid() && CallStep(s, e).Some? && !e.CallSubmit?
    ensures At(s, e.index).Some? && !s.phases[e.index].Returned?
  {
  }

  lemma ReturnedStep(s: System, e: Event, i: nat)
    requires Shape(s) && Step(s, e).Some? && i < |s.phases| && s.phases[i].Returned?
    ensures i < |Step(s, e).value.phases| && Step(s, e).value.phases[i] == s.phases[i]
  {
    if IsOutside(e) || ReaderStep(s, e).Some? {
      CallsStand(s, e);
    } else if !e.CallSubmit? {
      OneCallMoves(s, e);
      ReturnedCallRests(s, e);
    }
  }

  lemma {:induction false} ReturnedIsFinal(s: System, es: seq<Event>, i: nat)
    requires Inv(s) && Exec(s, es).Some? && i < |s.phases| && s.phases[i].Returned?
    ensures i < |Exec(s, es).value.phases| && Exec(s, es).value.phases[i] == s.phases[i]
    decreases |es|
  {
    if es != [] {
      StepKeeps(s, es[0]);
      ReturnedStep(s, es[0], i);
      ReturnedIsFinal(Step(s, es[0]).value, es[1..], i);
    }
  }

  /**
   What a caller is told, against what happened then or ever after: an error
   says "not dispatched" exactly when the command's frame is never written; an
   answer is the command's own receipt, or an unknown outcome of a written frame.
   */
  lemma ReportedOutcome(s: System, i: nat, es: seq<Event>)
    requires Reachable(s) && i < |s.phases| && s.phases[i].Returned? && Exec(s, es).Some?
    ensures i < |s.pipe.commands|
    ensures var writes := Exec(s, es).value.writes;
            match s.phases[i].outcome
            case Failed(error) =>
              && (error.isDispatched <==> IsWritten(writes, i))
              && (error.code == "outcome_unknown" <==> IsWritten(writes, i))
            case Answered(Received(rc)) => IsAnswerTo(rc, s.pipe.commands[i]) && IsWritten(writes, i)
            case Answered(Disconnected(isDispatched)) => isDispatched && IsWritten(writes, i)
  {
    ReachableInv(s);
    assert CallInvAt(s, i);
    ReturnedIsFinal(s, es, i);
    ExecKeeps(s, es);
    assert CallInvAt(Exec(s, es).value, i);
  }

  /** A command's frame is written at most once, and a cancel frame only follows its complete frame. */
  lemma FramesInOrder(s: System, a: nat, b: nat)
    requires Reachable(s) && a < b < |s.writes|
    ensures s.writes[a].CommandWrite? && s.writes[b].CommandWrite? ==> s.writes[a].index != s.writes[b].index
    ensures s.writes[b].CancelWrite? ==> CommandWrite(s.writes[b].index, true) in s.writes[..b]
    ensures s.writes[a].CancelWrite? && s.writes[b].CommandWrite? ==> s.writes[a].index != s.writes[b].index
  {
    ReachableInv(s);
    if s.writes[a].CancelWrite? && s.writes[b].CommandWrite? {
      var c: nat :| c < a && s.writes[c] == CommandWrite(s.writes[a].index, true);
    }
  }

  // ------------------------------------------------------------ disconnection

  /** A dead pipe stays dead, issues no command and, once nothing is pending, has nothing pending. */
  predicate StaysDead(s: System, t: System) {
    && IsDead(t) && |t.pipe.commands| == |s.pipe.commands|
    && (s.pipe.pending.None? ==> t.pipe.pending.None?)
  }

  lemma DeadReaderStep(s: System, e: Event)
    requires Shape(s) && IsDead(s) && ReaderStep(s, e).Some?
    ensures StaysDead(s, ReaderStep(s, e).value)
  {
  }

  lemma DeadCallStep(s: System, e: Event)
    requires Shape(s) && IsDead(s) && CallStep(s, e).Some?
    ensures StaysDead(s, CallStep(s, e).value)
  {
  }

  lemma DeadStep(s: System, e: Event)
    requires Shape(s) && IsDead(s) && Step(s, e).Some?
    ensures StaysDead(s, Step(s, e).value)
  {
    if IsOutside(e) {
    } else if ReaderStep(s, e).Some? {
      DeadReaderStep(s, e);
    } else {
      DeadCallStep(s, e);
    }
  }

  lemma {:induction false} DeadForever(s: System, es: seq<Event>)
    requires Inv(s) && IsDead(s) && Exec(s, es).Some?
    ensures StaysDead(s, Exec(s, es).value)
    decreases |es|
  {
    if es != [] {
      StepKeeps(s, es[0]);
      DeadStep(s, es[0]);
      DeadForever(Step(s, es[0]).value, es[1..]);
    }
  }

  /** Once a closer or the reader has run its locked section, no command is ever issued again. */
  lemma NothingIssuedAfterDisconnect(s: System, e: Event, es: seq<Event>)
    requires Reachable(s) && s.pipe.Valid() && Step(s, e).Some?
    requires e.CloseSection? || e.ReaderStop? || e.CallClose?
    requires Exec(Step(s, e).value, es).Some?
    ensures var t := Exec(Step(s, e).value, es).value;
            !t.pipe.hasReader && |t.pipe.commands| == |s.pipe.commands| && t.pipe.pending.None?
  {
    ReachableInv(s);
    StepKeeps(s, e);
    DeadForever(Step(s, e).value, es);
  }

  /** The unsafe flag stays, and the fence only stays or comes down. */
  predicate StaysUnsafe(p: Pipe, q: Pipe) {
    q.isPauseUnsafe && (q.pauseID == p.pauseID || !q.IsFenced())
  }

  lemma UnsafeReaderStep(s: System, e: Event)
    requires Shape(s) && s.pipe.isPauseUnsafe && ReaderStep(s, e).Some?
    ensures StaysUnsafe(s.pipe, ReaderStep(s, e).value.pipe)
  {
  }

  lemma UnsafeCallStep(s: System, e: Event)
    requires Shape(s) && s.pipe.isPauseUnsafe && CallStep(s, e).Some?
    ensures StaysUnsafe(s.pipe, CallStep(s, e).value.pipe)
  {
  }

  lemma UnsafeStep(s: System, e: Event)
    requires Shape(s) && s.pipe.isPauseUnsafe && Step(s, e).Some?
    ensures StaysUnsafe(s.pipe, Step(s, e).value.pipe)
  {
    if IsOutside(e) {
    } else if ReaderStep(s, e).Some? {
      UnsafeReaderStep(s, e);
    } else {
      UnsafeCallStep(s, e);
    }
  }

  /**
   A dispatched command of unknown outcome forbids every later fence: one that is
   up can stay or come down, and none goes up, in any later state.
   */
  lemma {:induction false} UnsafeForbidsFence(s: System, es: seq<Event>)
    requires Inv(s) && s.pipe.isPauseUnsafe && Exec(s, es).Some?
    ensures StaysUnsafe(s.pipe, Exec(s, es).value.pipe)
    ensures forall token, isDeadlineSet :: TryPause(Exec(s, es).value.pipe, token, isDeadlineSet).1.Refused?
    decreases |es|
  {
    if es != [] {
      StepKeeps(s, es[0]);
      UnsafeStep(s, es[0]);
      UnsafeForbidsFence(Step(s, es[0]).value, es[1..]);
    }
  }

  // --------------------------------------------------------------- writers

  /** At most one call at a time is between taking the writer slot and releasing it. */
  lemma OneWriterAtATime(s: System, i: nat, j: nat)
    requires Reachable(s) && i < |s.phases| && j < |s.phases|
    requires HoldsSlot(s.phases[i]) && HoldsSlot(s.phases[j])
    ensures i == j && s.writer == Some(i)
  {
    ReachableInv(s);
  }
}
