/**
 What each locked section of the control pipe means, in the source's own terms:
 when a command is issued, what a receipt must say, what raises and lifts the
 debugger fence, and what makes it unsafe to raise.
 */
module PipeMeaning {
  import opened Common
  import opened PipeSections
  import opened PipeRuns
  import opened PipeSafety

  // -------------------------------------------------------------- request IDs

  function DecimalValue(digits: string): int {
    if digits == [] then 0
    else DecimalValue(digits[..|digits| - 1]) * 10 + (digits[|digits| - 1] as int - '0' as int)
  }

  lemma DigitReads(d: nat)
    requires d < 10
    ensures '0' <= "0123456789"[d] <= '9' && "0123456789"[d] as int - '0' as int == d
  {
  }

  predicate AreDigits(digits: string) {
    forall k :: 0 <= k < |digits| ==> '0' <= digits[k] <= '9'
  }

  lemma AppendDigit(digits: string, c: char)
    ensures DecimalValue(digits + [c]) == DecimalValue(digits) * 10 + (c as int - '0' as int)
  {
    assert (digits + [c])[..|digits|] == digits;
  }

  lemma DecimalSplits(n: nat)
    ensures Decimal(n) == (if n < 10 then "" else Decimal(n / 10)) + ["0123456789"[n % 10]]
  {
  }

  lemma OneMoreDigit(most: string, d: nat)
    requires d < 10 && AreDigits(most)
    ensures AreDigits(most + ["0123456789"[d]]) && DecimalValue(most + ["0123456789"[d]]) == DecimalValue(most) * 10 + d
    ensures (most + ["0123456789"[d]])[0] != '0' <== if most == [] then d > 0 else most[0] != '0'
  {
    DigitReads(d);
    AppendDigit(most, "0123456789"[d]);
  }

  predicate IsNumeral(digits: string, n: nat) {
    digits != [] && AreDigits(digits) && DecimalValue(digits) == n && (n > 0 ==> digits[0] != '0')
  }

  lemma NumeralGrows(most: string, m: nat, d: nat)
    requires IsNumeral(most, m) && m > 0 && d < 10
    ensures IsNumeral(most + ["0123456789"[d]], m * 10 + d)
  {
    OneMoreDigit(most, d);
  }

  lemma NumeralStarts(d: nat)
    requires d < 10
    ensures IsNumeral([] + ["0123456789"[d]], d)
  {
    OneMoreDigit("", d);
  }

  lemma {:induction false} DecimalReads(n: nat)
    ensures IsNumeral(Decimal(n), n)
  {
    DecimalSplits(n);
    if n < 10 {
      NumeralStarts(n);
    } else {
      DecimalReads(n / 10);
      NumeralGrows(Decimal(n / 10), n / 10, n % 10);
    }
  }

  /** A request ID is the word "command-" and the sequence number in decimal digits, so that no two are alike. */
  lemma RequestIDMeaning(n: nat, m: nat)
    ensures "command-" <= RequestID(n) && DecimalValue(RequestID(n)[8..]) == n
    ensures AreDigits(RequestID(n)[8..]) && (n > 0 ==> |RequestID(n)| > 8 && RequestID(n)[8] != '0')
    ensures RequestID(n) == RequestID(m) ==> n == m
  {
    DecimalReads(n);
    DecimalReads(m);
    assert RequestID(n)[8..] == Decimal(n) && RequestID(m)[8..] == Decimal(m);
  }

  lemma IdentitiesDiffer(c: Command, i: nat, d: Command, j: nat)
    requires c.requestID == RequestID(i + 1) && d.requestID == RequestID(j + 1) && i != j
    ensures c.requestID != d.requestID
  {
    RequestIDMeaning(i + 1, j + 1);
  }

  /** No two commands of a run share an identity. */
  lemma CommandsDiffer(s: System, i: nat, j: nat)
    requires Reachable(s) && i < |s.pipe.commands| && j < |s.pipe.commands| && i != j
    ensures s.pipe.commands[i].requestID != s.pipe.commands[j].requestID
    ensures s.pipe.commands[i].sequence != s.pipe.commands[j].sequence
  {
    ReachableInv(s);
    assert CallInvAt(s, i) && CallInvAt(s, j);
    IdentitiesDiffer(s.pipe.commands[i], i, s.pipe.commands[j], j);
  }

  // ---------------------------------------------------------------- issuing

  /** Some caller has neither abandoned its command nor been answered. */
  ghost predicate IsOutstanding(s: System, i: nat) {
    && i < |s.phases| && i < |s.pipe.commands| && s.pipe.commands[i].deliveries == []
    && (s.phases[i].Fresh? || s.phases[i].Claimed? || s.phases[i].Writing? || s.phases[i].Waiting? || s.phases[i].Abandoning?)
  }

  lemma PendingIff(s: System)
    requires Reachable(s)
    ensures s.pipe.pending.Some? <==> exists i: nat :: IsOutstanding(s, i)
    ensures forall i: nat :: IsOutstanding(s, i) <==> s.pipe.pending == Some(i)
  {
    ReachableInv(s);
    forall i: nat
      ensures IsOutstanding(s, i) <==> s.pipe.pending == Some(i)
    {
      if i < |s.phases| {
        assert CallInvAt(s, i);
      }
    }
    if s.pipe.pending.Some? {
      assert IsOutstanding(s, s.pipe.pending.value);
    }
  }

  /** Which of its refusals a request meets, and what it leaves when it meets none. */
  lemma RequestMeaning(s: System, operation: string)
    requires Reachable(s)
    ensures var v := Submit(s.pipe, operation).1;
            && (v.Paused? <==> s.pipe.pauseID != "")
            && (v.NotConnected? <==> s.pipe.pauseID == "" && !(s.pipe.isConnected && s.pipe.hasReader))
            && (v.Submitted? <==> s.pipe.pauseID == "" && s.pipe.isConnected && s.pipe.hasReader
                                  && (forall i: nat :: !IsOutstanding(s, i)) && |s.pipe.commands| < 0xFFFF_FFFF_FFFF_FFFF)
            && (v.Busy? ==> exists i: nat :: IsOutstanding(s, i))
            && (v.Exhausted? ==> |s.pipe.commands| == 0xFFFF_FFFF_FFFF_FFFF)
            && (!v.Submitted? ==> Submit(s.pipe, operation).0 == s.pipe)
    ensures var (p, v) := Submit(s.pipe, operation);
            v.Submitted? ==>
              var n := |s.pipe.commands|;
              && v.index == n && p.pending == Some(n) && |p.commands| == n + 1 && p.commands[..n] == s.pipe.commands
              && p.commands[n].sequence == n + 1 && p.commands[n].operation == operation
              && !p.commands[n].isDispatched && p.commands[n].deliveries == []
              && p == s.pipe.(pending := p.pending, commands := p.commands, requestSequence := n + 1)
  {
    ReachableInv(s);
    PendingIff(s);
  }

  // ------------------------------------------------------------------ errors

  /** The code of an error: the command's outcome is unknown once it was dispatched; before, its cause decides. */
  lemma ErrorMeaning(c: Command, cause: Cause)
    ensures var error := AbandonError(c, cause);
            && error.requestID == c.requestID && error.operation == c.operation && error.isDispatched == c.isDispatched
            && (error.code == "outcome_unknown" <==> c.isDispatched)
            && (error.code == "cancelled" <==> !c.isDispatched && cause == Canceled)
            && (error.code == "deadline_exceeded" <==> !c.isDispatched && cause == DeadlineExceeded)
            && (error.code == "not_dispatched" <==> !c.isDispatched && cause == OtherCause)
  {
    assert "outcome_unknown"[0] == 'o' && "cancelled"[0] == 'c' && "deadline_exceeded"[0] == 'd' && "not_dispatched"[0] == 'n';
  }

  // ---------------------------------------------------------------- receipts

  /** The receipt is for a command that is no longer, or was never, the outstanding one. */
  predicate IsLate(s: System, rc: Receipt) {
    IsSound(rc) && rc.sequence <= |s.pipe.commands| && s.pipe.pending != Some(rc.sequence - 1)
  }

  /** The reader goes on after a receipt that is delivered or comes late, and leaves the connection after any other. */
  lemma ReceiptMeaning(s: System)
    requires Reachable(s) && s.reader.ResultRead?
    ensures s.pipe.Valid() && Step(s, ReaderReceive).Some?
    ensures var rc, t := s.reader.receipt, Step(s, ReaderReceive).value;
            && t.pipe == Receive(s.pipe, rc).0
            && t.reader == if IsLate(s, rc) || (s.pipe.pending.Some? && IsAnswerTo(rc, s.pipe.commands[s.pipe.pending.value]))
                           then Accepted else Leaving
  {
    ReceiptResolvesOnlyItsCommand(s, s.reader.receipt);
    ReachableInv(s);
  }

  // ---------------------------------------------------------- taking answers

  /** The caller waits for a delivery it has, or has returned it. */
  predicate HoldsDelivery(s: System, i: nat, d: Delivery) {
    && i < |s.phases| && i < |s.pipe.commands| && |s.pipe.commands[i].deliveries| == 1 && s.pipe.commands[i].deliveries[0] == d
    && (s.phases[i].Waiting? || s.phases[i] == Returned(Answered(d)))
  }

  /** A command that is not pending is touched by no loss of the pipe and by no receipt. */
  lemma LossStands(p: Pipe, i: nat)
    requires p.Valid() && i < |p.commands| && p.pending != Some(i)
    ensures |Disconnect(p).commands| == |p.commands| && Disconnect(p).commands[i] == p.commands[i]
  {
  }

  lemma OthersStand(p: Pipe, rc: Receipt, i: nat)
    requires p.Valid() && i < |p.commands| && p.pending != Some(i)
    ensures |Receive(p, rc).0.commands| == |p.commands| && Receive(p, rc).0.commands[i] == p.commands[i]
  {
  }

  lemma CommandStands(s: System, e: Event, i: nat)
    requires s.pipe.Valid() && Step(s, e).Some? && (IsOutside(e) || ReaderStep(s, e).Some?)
    requires i < |s.pipe.commands| && s.pipe.pending != Some(i)
    ensures i < |Step(s, e).value.pipe.commands| && Step(s, e).value.pipe.commands[i] == s.pipe.commands[i]
  {
    if e.ReaderReceive? {
      OthersStand(s.pipe, s.reader.receipt, i);
    } else if e.ReaderStop? || e.CloseSection? {
      LossStands(s.pipe, i);
    } else if !IsOutside(e) {
      ReaderFrame(s, e);
    }
  }

  lemma HeldIsNotPending(s: System, i: nat, d: Delivery)
    requires Inv(s) && HoldsDelivery(s, i, d)
    ensures s.pipe.pending != Some(i)
  {
    assert CallInvAt(s, i);
  }

  lemma HeldByReader(s: System, e: Event, i: nat, d: Delivery)
    requires Inv(s) && HoldsDelivery(s, i, d) && (IsOutside(e) || ReaderStep(s, e).Some?) && Step(s, e).Some?
    ensures HoldsDelivery(Step(s, e).value, i, d)
  {
    HeldIsNotPending(s, i, d);
    CallsStand(s, e);
    CommandStands(s, e, i);
  }

  /** What a step of a call can do to the pipe. */
  lemma PipeByCall(s: System, e: Event)
    requires s.pipe.Valid() && CallStep(s, e).Some?
    ensures var p := CallStep(s, e).value.pipe;
            || p == s.pipe
            || (e.CallSubmit? && p == Submit(s.pipe, e.operation).0)
            || (e.CallMark? && e.index < |s.pipe.commands| && p == MarkDispatched(s.pipe, e.index).0)
            || (e.CallAbandon? && e.index < |s.pipe.commands| && p == Abandon(s.pipe, e.index))
            || (e.CallClose? && p == Disconnect(s.pipe))
  {
  }

  lemma DeliveriesStand(s: System, e: Event, i: nat)
    requires s.pipe.Valid() && CallStep(s, e).Some? && i < |s.pipe.commands| && s.pipe.pending != Some(i)
    ensures i < |CallStep(s, e).value.pipe.commands|
    ensures CallStep(s, e).value.pipe.commands[i].deliveries == s.pipe.commands[i].deliveries
  {
    PipeByCall(s, e);
    LossStands(s.pipe, i);
  }

  /** All it can do is return it. */
  lemma HeldMoves(s: System, e: Event)
    requires s.pipe.Valid() && CallStep(s, e).Some? && !e.CallSubmit? && At(s, e.index) == Some(Waiting)
    requires |s.pipe.commands[e.index].deliveries| == 1
    ensures CallStep(s, e).value.phases[e.index] == Returned(Answered(s.pipe.commands[e.index].deliveries[0]))
  {
  }

  lemma HeldByCall(s: System, e: Event, i: nat, d: Delivery)
    requires Inv(s) && HoldsDelivery(s, i, d) && CallStep(s, e).Some?
    ensures HoldsDelivery(CallStep(s, e).value, i, d)
  {
    HeldIsNotPending(s, i, d);
    DeliveriesStand(s, e, i);
    if !e.CallSubmit? {
      OneCallMoves(s, e);
      if e.index == i {
        if s.phases[i].Waiting? {
          HeldMoves(s, e);
        } else {
          ReturnedCallRests(s, e);
        }
      }
    }
  }

  /**
   A caller that waits, once it has a delivery, never abandons its command: in
   every later state it has returned that delivery or still can.
   */
  lemma {:induction false} DeliveryIsTaken(s: System, i: nat, d: Delivery, es: seq<Event>)
    requires Inv(s) && HoldsDelivery(s, i, d) && Exec(s, es).Some?
    ensures HoldsDelivery(Exec(s, es).value, i, d)
    ensures var t := Exec(s, es).value;
            t.phases[i].Waiting? ==> t.pipe.Valid() && Step(t, CallTake(i)).Some?
                                     && Step(t, CallTake(i)).value.phases[i] == Returned(Answered(d))
    decreases |es|
  {
    if es == [] {
      assert CallInvAt(s, i);
    } else {
      if IsOutside(es[0]) || ReaderStep(s, es[0]).Some? {
        HeldByReader(s, es[0], i, d);
      } else {
        HeldByCall(s, es[0], i, d);
      }
      StepKeeps(s, es[0]);
      DeliveryIsTaken(Step(s, es[0]).value, i, d, es[1..]);
    }
  }

  // ------------------------------------------------------------------- fence

  /** Nothing stands against a fence now. */
  predicate IsReadyForFence(p: Pipe) {
    p.pauseID == "" && !p.isPauseUnsafe && p.isConnected && p.hasReader && p.pending.None?
  }

  /** One attempt to raise the fence, and one to lift it. */
  lemma FenceMeaning(p: Pipe, token: string, isDeadlineSet: bool)
    ensures var (q, v) := TryPause(p, token, isDeadlineSet);
            && q.(pauseID := p.pauseID) == p
            && (v.Installed? <==> IsReadyForFence(p) && isDeadlineSet)
            && (v.DeadlineFailed? <==> IsReadyForFence(p) && !isDeadlineSet)
            && (v.Refused? <==> p.pauseID != "" || p.isPauseUnsafe || !p.isConnected || !p.hasReader)
            && q.pauseID == (if v.Installed? then token else p.pauseID)
    ensures var (q, v) := EndPause(p, token, isDeadlineSet);
            && q.(pauseID := p.pauseID) == p
            && (v.TokenChanged? <==> p.pauseID != token)
            && (v.BridgeClosed? <==> p.pauseID == token && !p.hasReader)
            && (v.Lifted? <==> p.pauseID == token && p.hasReader && isDeadlineSet)
            && q.pauseID == (if p.pauseID == token then "" else p.pauseID)
  {
  }

  /** Only the two pause sections touch the token. */
  lemma TokenStands(s: System, e: Event)
    requires s.pipe.Valid() && Step(s, e).Some? && !e.PauseTry? && !e.PauseEnd?
    ensures Step(s, e).value.pipe.pauseID == s.pipe.pauseID
  {
    if !IsOutside(e) && ReaderStep(s, e).None? {
      TokenStandsByCall(s, e);
    }
  }

  lemma TokenStandsByCall(s: System, e: Event)
    requires s.pipe.Valid() && CallStep(s, e).Some?
    ensures CallStep(s, e).value.pipe.pauseID == s.pipe.pauseID
  {
    PipeByCall(s, e);
  }

  lemma TokenKept(s: System, e: Event)
    requires s.pipe.Valid() && Step(s, e).Some? && s.pipe.pauseID != ""
    requires e.PauseEnd? ==> e.token != s.pipe.pauseID
    ensures Step(s, e).value.pipe.pauseID == s.pipe.pauseID
  {
    if e.PauseTry? || e.PauseEnd? {
      FenceMeaning(s.pipe, e.token, e.isDeadlineSet);
    } else {
      TokenStands(s, e);
    }
  }

  /** Whoever does not hold the token of a fence cannot lift or replace it: over every run without it the fence stays. */
  lemma {:induction false} FenceNeedsItsToken(s: System, es: seq<Event>)
    requires Inv(s) && s.pipe.pauseID != "" && Exec(s, es).Some?
    requires forall k :: 0 <= k < |es| && es[k].PauseEnd? ==> es[k].token != s.pipe.pauseID
    ensures Exec(s, es).value.pipe.pauseID == s.pipe.pauseID
    decreases |es|
  {
    if es != [] {
      TokenKept(s, es[0]);
      StepKeeps(s, es[0]);
      FenceNeedsItsToken(Step(s, es[0]).value, es[1..]);
    }
  }

  // ------------------------------------------------- what makes a fence unsafe

  /** Command `i` was abandoned after its dispatch, or the peer's own answer to it was that it does not know. */
  predicate IsUnresolved(s: System, i: nat) {
    && i < |s.phases| && i < |s.pipe.commands|
    && ((s.pipe.commands[i].isDispatched && ReportedError(s.phases[i]).Some?)
        || (s.pipe.commands[i].deliveries != [] && s.pipe.commands[i].deliveries[0].Received?
            && s.pipe.commands[i].deliveries[0].receipt.failure == Some("outcome_unknown")))
  }

  /** The flag goes up only together with an unresolved command. */
  ghost predicate UnsafeInv(s: System) {
    s.pipe.isPauseUnsafe ==> exists i: nat :: IsUnresolved(s, i)
  }

  lemma DisconnectStands(s: System, p: Pipe, i: nat)
    requires s.pipe.Valid() && p == Disconnect(s.pipe) && IsUnresolved(s, i)
    ensures p.isPauseUnsafe == s.pipe.isPauseUnsafe && IsUnresolved(s.(pipe := p), i)
  {
  }

  lemma UnresolvedOutside(s: System, e: Event, i: nat)
    requires Inv(s) && Step(s, e).Some? && IsOutside(e) && IsUnresolved(s, i)
    ensures IsUnresolved(Step(s, e).value, i)
  {
    if e.CloseSection? {
      DisconnectStands(s, Disconnect(s.pipe), i);
    }
  }

  /** A receipt or another step of the reader takes nothing back either. */
  lemma ReceiptStands(p: Pipe, rc: Receipt, i: nat)
    requires p.Valid() && i < |p.commands|
    ensures var q := Receive(p, rc).0;
            && |q.commands| == |p.commands| && (p.commands[i].isDispatched == q.commands[i].isDispatched)
            && p.commands[i].deliveries <= q.commands[i].deliveries
  {
  }

  lemma UnresolvedByReader(s: System, e: Event, i: nat)
    requires Inv(s) && ReaderStep(s, e).Some? && IsUnresolved(s, i)
    ensures IsUnresolved(ReaderStep(s, e).value, i)
  {
    if e.ReaderStop? {
      DisconnectStands(s, Disconnect(s.pipe), i);
    } else if e.ReaderReceive? {
      ReceiptStands(s.pipe, s.reader.receipt, i);
    } else {
      ReaderFrame(s, e);
    }
  }

  lemma UnresolvedByCall(s: System, e: Event, i: nat)
    requires Inv(s) && CallStep(s, e).Some? && IsUnresolved(s, i)
    ensures IsUnresolved(CallStep(s, e).value, i)
  {
    if !e.CallSubmit? {
      OneCallMoves(s, e);
      RecordsGrow(s, e, i);
      if e.index == i {
        ReportStays(s, e);
      }
    }
  }

  /** A step of a call takes no dispatch mark and no delivery back. */
  lemma RecordsGrow(s: System, e: Event, i: nat)
    requires Shape(s) && CallStep(s, e).Some? && !e.CallSubmit? && i < |s.pipe.commands|
    ensures var t := CallStep(s, e).value;
            && i < |t.pipe.commands|
            && (s.pipe.commands[i].isDispatched ==> t.pipe.commands[i].isDispatched)
            && (s.pipe.commands[i].deliveries <= t.pipe.commands[i].deliveries)
  {
    PipeByCall(s, e);
  }

  /** A call that has an error to report keeps it. */
  lemma ReportStays(s: System, e: Event)
    requires s.pipe.Valid() && CallStep(s, e).Some? && !e.CallSubmit? && At(s, e.index).Some?
    requires |CallStep(s, e).value.phases| == |s.phases|
    ensures ReportedError(s.phases[e.index]).Some? ==> ReportedError(CallStep(s, e).value.phases[e.index]).Some?
  {
  }

  /** The two ways in which the flag goes up. */
  lemma UnsafeByReader(s: System, e: Event)
    requires Inv(s) && ReaderStep(s, e).Some? && !s.pipe.isPauseUnsafe && ReaderStep(s, e).value.pipe.isPauseUnsafe
    ensures UnsafeInv(ReaderStep(s, e).value)
  {
    var t := ReaderStep(s, e).value;
    var i := s.pipe.pending.value;
    assert CallInvAt(s, i);
    assert IsUnresolved(t, i);
  }

  lemma OnlyAbandonMarks(s: System, e: Event)
    requires s.pipe.Valid() && CallStep(s, e).Some? && !s.pipe.isPauseUnsafe && CallStep(s, e).value.pipe.isPauseUnsafe
    ensures e.CallAbandon?
  {
  }

  lemma UnsafeByCall(s: System, e: Event)
    requires Inv(s) && CallStep(s, e).Some? && !s.pipe.isPauseUnsafe && CallStep(s, e).value.pipe.isPauseUnsafe
    ensures UnsafeInv(CallStep(s, e).value)
  {
    OnlyAbandonMarks(s, e);
    assert IsUnresolved(CallStep(s, e).value, e.index);
  }

  lemma UnresolvedStays(s: System, e: Event, i: nat)
    requires Inv(s) && Step(s, e).Some? && IsUnresolved(s, i)
    ensures IsUnresolved(Step(s, e).value, i)
  {
    if IsOutside(e) {
      UnresolvedOutside(s, e, i);
    } else if ReaderStep(s, e).Some? {
      UnresolvedByReader(s, e, i);
    } else {
      UnresolvedByCall(s, e, i);
    }
  }

  lemma OutsideMarksNothing(s: System, e: Event)
    requires s.pipe.Valid() && Step(s, e).Some? && IsOutside(e)
    ensures Step(s, e).value.pipe.isPauseUnsafe == s.pipe.isPauseUnsafe
  {
  }

  lemma UnsafeKept(s: System, e: Event)
    requires Inv(s) && UnsafeInv(s) && Step(s, e).Some?
    ensures UnsafeInv(Step(s, e).value)
  {
    if s.pipe.isPauseUnsafe {
      var i: nat :| IsUnresolved(s, i);
      UnresolvedStays(s, e, i);
    } else if IsOutside(e) {
      OutsideMarksNothing(s, e);
    } else if Step(s, e).value.pipe.isPauseUnsafe {
      if ReaderStep(s, e).Some? {
        UnsafeByReader(s, e);
      } else {
        UnsafeByCall(s, e);
      }
    }
  }

  lemma {:induction false} UnsafeAlong(s: System, es: seq<Event>)
    requires Inv(s) && UnsafeInv(s) && Exec(s, es).Some?
    ensures UnsafeInv(Exec(s, es).value)
    decreases |es|
  {
    if es != [] {
      UnsafeKept(s, es[0]);
      StepKeeps(s, es[0]);
      UnsafeAlong(Step(s, es[0]).value, es[1..]);
    }
  }

  /** The flag that forbids the fence is up exactly when some command is unresolved. */
  lemma UnsafeIff(s: System)
    requires Reachable(s)
    ensures s.pipe.isPauseUnsafe <==> exists i: nat :: IsUnresolved(s, i)
  {
    ReachableInv(s);
    var es: seq<Event> :| Exec(Start, es) == Some(s);
    UnsafeAlong(Start, es);
    if i: nat :| IsUnresolved(s, i) {
      assert CallInvAt(s, i);
    }
  }

  /**
   The fence can go up exactly when no fence is up, the pipe is connected, nothing
   is outstanding and no command is unresolved.
   */
  lemma FenceGoesUpIff(s: System, token: string)
    requires Reachable(s) && token != ""
    ensures TryPause(s.pipe, token, true).0.pauseID == token <==>
            || s.pipe.pauseID == token
            || (&& s.pipe.pauseID == "" && s.pipe.isConnected && s.pipe.hasReader
                && forall i: nat :: !IsOutstanding(s, i) && !IsUnresolved(s, i))
  {
    FenceMeaning(s.pipe, token, true);
    PendingIff(s);
    UnsafeIff(s);
  }

  // -------------------------------------------------------------------- loss

  /** The loss of the pipe answers the outstanding command with its dispatch state, and touches no other. */
  lemma LossMeaning(s: System)
    requires Reachable(s)
    ensures s.pipe.Valid()
    ensures var p := Disconnect(s.pipe);
            && !p.isConnected && !p.hasReader && p.pending.None? && p.isPauseUnsafe == s.pipe.isPauseUnsafe
            && p.pauseID == s.pipe.pauseID && |p.commands| == |s.pipe.commands|
            && forall i :: 0 <= i < |p.commands| ==>
                 p.commands[i] == if IsOutstanding(s, i)
                                  then s.pipe.commands[i].(deliveries := [Disconnected(s.pipe.commands[i].isDispatched)])
                                  else s.pipe.commands[i]
  {
    ReachableInv(s);
    PendingIff(s);
  }

  // ------------------------------------------------------------ partial frames

  predicate IsCutShort(s: System, i: nat) {
    CommandWrite(i, false) in s.writes
  }

  /** After a frame that was cut short its caller abandons the command, closes the pipe, and only then returns. */
  predicate EndsThePipe(s: System, i: nat) {
    IsCutShort(s, i) ==>
      && i < |s.phases|
      && ((s.phases[i].Abandoning? && !s.phases[i].wasWaiting) || s.phases[i].Closing?
          || (s.phases[i].Returned? && s.phases[i].outcome.Failed? && IsDead(s)))
  }

  ghost predicate PartialInv(s: System) {
    forall i: nat :: EndsThePipe(s, i)
  }

  lemma PartialOutside(s: System, e: Event, i: nat)
    requires Inv(s) && Step(s, e).Some? && (IsOutside(e) || ReaderStep(s, e).Some?) && EndsThePipe(s, i)
    ensures EndsThePipe(Step(s, e).value, i)
  {
    CallsStand(s, e);
    if IsDead(s) {
      DeadStep(s, e);
    }
  }

  /** The one write that a call may log, and what it leads to. */
  lemma WritesOnce(s: System, e: Event)
    requires s.pipe.Valid() && CallStep(s, e).Some? && !e.CallSubmit?
    ensures var t := CallStep(s, e).value;
            if e.CallWrite? then
              && At(s, e.index) == Some(Writing) && t.writes == s.writes + [CommandWrite(e.index, e.isComplete)]
              && e.index < |t.phases| && (!e.isComplete ==> t.phases[e.index] == Abandoning(e.cause, false))
            else t.writes == s.writes || t.writes == s.writes + [CancelWrite(e.index)]
  {
  }

  /** What follows an abandonment or a close after a cut-short frame. */
  lemma PartialMoves(s: System, e: Event)
    requires Inv(s) && CallStep(s, e).Some? && !e.CallSubmit? && !e.CallWrite?
    requires EndsThePipe(s, e.index) && IsCutShort(s, e.index) && |CallStep(s, e).value.phases| == |s.phases|
    ensures e.index < |s.phases|
    ensures var t, phase := CallStep(s, e).value, CallStep(s, e).value.phases[e.index];
            phase.Closing? || (phase.Returned? && phase.outcome.Failed? && IsDead(t))
  {
    assert CallInvAt(s, e.index);
  }

  lemma NotYetCutShort(s: System, i: nat)
    requires Inv(s) && At(s, i) == Some(Writing)
    ensures !IsCutShort(s, i)
  {
    assert CallInvAt(s, i);
  }

  lemma PartialByCall(s: System, e: Event, i: nat)
    requires Inv(s) && CallStep(s, e).Some? && !e.CallSubmit? && EndsThePipe(s, i)
    ensures EndsThePipe(CallStep(s, e).value, i)
  {
    WritesOnce(s, e);
    OneCallMoves(s, e);
    if IsDead(s) {
      DeadCallStep(s, e);
    }
    if e.index == i && IsCutShort(s, i) {
      if e.CallWrite? {
        NotYetCutShort(s, i);
      } else {
        PartialMoves(s, e);
      }
    }
  }

  lemma PartialBySubmit(s: System, e: Event, i: nat)
    requires Inv(s) && e.CallSubmit? && EndsThePipe(s, i)
    ensures CallStep(s, e).Some? && EndsThePipe(CallStep(s, e).value, i)
  {
    if IsDead(s) {
      DeadCallStep(s, e);
    }
  }

  lemma PartialKept(s: System, e: Event)
    requires Inv(s) && PartialInv(s) && Step(s, e).Some?
    ensures PartialInv(Step(s, e).value)
  {
    forall i: nat
      ensures EndsThePipe(Step(s, e).value, i)
    {
      if IsOutside(e) || ReaderStep(s, e).Some? {
        PartialOutside(s, e, i);
      } else if e.CallSubmit? {
        PartialBySubmit(s, e, i);
      } else {
        PartialByCall(s, e, i);
      }
    }
  }

  lemma {:induction false} PartialAlong(s: System, es: seq<Event>)
    requires Inv(s) && PartialInv(s) && Exec(s, es).Some?
    ensures PartialInv(Exec(s, es).value)
    decreases |es|
  {
    if es != [] {
      PartialKept(s, es[0]);
      StepKeeps(s, es[0]);
      PartialAlong(Step(s, es[0]).value, es[1..]);
    }
  }

  /** A call whose frame was cut short returns only once the pipe is gone, and with an error. */
  lemma PartialFrameEndsThePipe(s: System, i: nat)
    requires Reachable(s) && CommandWrite(i, false) in s.writes
    ensures i < |s.phases|
    ensures s.phases[i].Returned? ==> s.phases[i].outcome.Failed? && IsDead(s)
    ensures !s.phases[i].Returned? ==> (s.phases[i].Abandoning? && !s.phases[i].wasWaiting) || s.phases[i].Closing?
  {
    var es: seq<Event> :| Exec(Start, es) == Some(s);
    PartialAlong(Start, es);
    assert EndsThePipe(s, i);
  }

  // -------------------------------------------------------------- cancel frames

  /** A caller that gave up waiting on a pipe that is still connected can send its cancel frame as soon as the writer is free. */
  lemma CancelFollows(s: System, i: nat) returns (t: System)
    requires Reachable(s) && i < |s.phases| && s.phases[i].Cancelling?
    requires s.pipe.isConnected && s.pipe.hasReader && s.writer.None?
    ensures Exec(s, [CallCheckCancel(i), CallClaim(i), CallWriteCancel(i, true)]) == Some(t)
    ensures t.writes == s.writes + [CancelWrite(i)] && t.phases == s.phases[i := Returned(Failed(s.phases[i].error))]
  {
    ReachableInv(s);
    var a := To(s, i, CancelWriting(s.phases[i].error));
    var b := To(a.(writer := Some(i)), i, CancelClaimed(s.phases[i].error));
    t := To(b.(writer := None, writes := s.writes + [CancelWrite(i)]), i, Returned(Failed(s.phases[i].error)));
    CancelStep(s, CallCheckCancel(i), a);
    CancelStep(a, CallClaim(i), b);
    CancelStep(b, CallWriteCancel(i, true), t);
    ThreeSteps(s, CallCheckCancel(i), a, CallClaim(i), b, CallWriteCancel(i, true), t);
    assert t.phases == s.phases[i := Returned(Failed(s.phases[i].error))];
  }

  /** One step on the way of a cancel frame. */
  lemma CancelStep(s: System, e: Event, t: System)
    requires s.pipe.Valid() && |s.phases| == |s.pipe.commands| && (e.CallCheckCancel? || e.CallClaim? || e.CallWriteCancel?)
    requires e.index < |s.phases|
    requires match s.phases[e.index]
             case Cancelling(error) =>
               e.CallCheckCancel? && s.pipe.isConnected && s.pipe.hasReader && t == To(s, e.index, CancelWriting(error))
             case CancelWriting(error) =>
               e.CallClaim? && s.writer.None? && t == To(s.(writer := Some(e.index)), e.index, CancelClaimed(error))
             case CancelClaimed(error) =>
               e.CallWriteCancel? && e.isWritten && s.pipe.hasReader
               && t == To(s.(writer := None, writes := s.writes + [CancelWrite(e.index)]), e.index, Returned(Failed(error)))
             case _ => false
    ensures Step(s, e) == Some(t)
  {
  }

  lemma ThreeSteps(s: System, e: Event, a: System, f: Event, b: System, g: Event, t: System)
    requires s.pipe.Valid() && Step(s, e) == Some(a) && a.pipe.Valid() && Step(a, f) == Some(b)
    requires b.pipe.Valid() && Step(b, g) == Some(t)
    ensures Exec(s, [e, f, g]) == Some(t)
  {
    assert [e, f, g][1..] == [f, g] && [f, g][1..] == [g] && [g][1..] == [];
    assert Exec(t, []) == Some(t) && Exec(b, [g]) == Some(t) && Exec(a, [f, g]) == Some(t);
  }
}
