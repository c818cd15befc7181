/**
 The pipe and its pending commands as the mutable objects the source uses.
 Every locked section is proved to have exactly the effect `PipeSections` gives it.
 */
module PipeObject {
  import opened Common
  import opened PipeSections

  class ControlPending {
    const requestID: string
    const operation: string
    const sequence: nat
    var isDispatched: bool
    var deliveries: seq<Delivery>

    constructor (operation: string, sequence: nat)
      ensures View() == Command(RequestID(sequence), operation, sequence, false, [])
      ensures this.sequence == sequence
    {
      this.requestID := RequestID(sequence);
      this.operation := operation;
      this.sequence := sequence;
      isDispatched, deliveries := false, [];
    }

    function View(): Command
      reads this
    {
      Command(requestID, operation, sequence, isDispatched, deliveries)
    }

    /** The error `abandonPending` builds from this record. */
    method ToError(cause: Cause) returns (error: RequestError)
      ensures error == AbandonError(View(), cause)
    {
      var code := "not_dispatched";
      if cause == Canceled { code := "cancelled"; }
      if cause == DeadlineExceeded { code := "deadline_exceeded"; }
      if isDispatched { code := "outcome_unknown"; }
      error := RequestError(requestID, operation, isDispatched, code);
    }
  }

  class ControlPipe {
    var pauseID: string
    var isPauseUnsafe: bool
    var isConnected: bool
    var hasReader: bool
    var generation: string
    var pending: ControlPending?
    var requestSequence: nat
    ghost var issued: seq<ControlPending>  // every command ever issued, oldest first

    constructor ()
      ensures Valid() && View() == Pipe("", false, false, false, "", None, 0, [])
    {
      pauseID, generation := "", "";
      isPauseUnsafe, isConnected, hasReader := false, false, false;
      pending, requestSequence, issued := null, 0, [];
    }

    ghost predicate Valid()
      reads this
    {
      && |issued| == requestSequence <= SEQUENCE_LIMIT
      && (forall i :: 0 <= i < |issued| ==> issued[i].sequence == i + 1)
      && (pending != null ==> Owns(pending))
    }

    ghost predicate Owns(p: ControlPending)
      reads this
    {
      0 < p.sequence <= |issued| && issued[p.sequence - 1] == p
    }

    ghost function View(): (v: Pipe)
      requires Valid()
      reads this, issued
      ensures v.Valid()
    {
      Pipe(pauseID, isPauseUnsafe, isConnected, hasReader, generation,
           if pending == null then None else Some(pending.sequence - 1),
           requestSequence,
           seq(|issued|, i requires 0 <= i < |issued| reads this, issued => issued[i].View()))
    }

    method Submit(operation: string) returns (r: Submission)
      requires Valid()
      modifies this
      ensures Valid()
      ensures (View(), r) == PipeSections.Submit(old(View()), operation)
      ensures r.Submitted? ==> pending != null && fresh(pending) && issued == old(issued) + [pending]
      ensures !r.Submitted? ==> issued == old(issued)
    {
      if pauseID != "" { return Paused; }
      if !isConnected || !hasReader || generation == "" { return NotConnected; }
      if pending != null { return Busy; }
      if requestSequence == SEQUENCE_LIMIT { return Exhausted; }
      ghost var before := View().commands;
      requestSequence := requestSequence + 1;
      var next := new ControlPending(operation, requestSequence);
      pending := next;
      issued := issued + [next];
      assert View().commands == before + [next.View()];
      r := Submitted(requestSequence - 1);
    }

    method MarkDispatched(p: ControlPending) returns (isMarked: bool)
      requires Valid() && Owns(p)
      modifies p`isDispatched
      ensures Valid()
      ensures (View(), isMarked) == PipeSections.MarkDispatched(old(View()), p.sequence - 1)
    {
      if pending != p { return false; }
      ghost var before := View().commands;
      p.isDispatched := true;
      isMarked := true;
      assert View().commands == before[p.sequence - 1 := p.View()];
    }

    method AbandonPending(p: ControlPending, cause: Cause) returns (error: RequestError)
      requires Valid() && Owns(p)
      modifies this`pending, this`isPauseUnsafe
      ensures Valid()
      ensures View() == Abandon(old(View()), p.sequence - 1)
      ensures error == AbandonError(p.View(), cause)
    {
      ghost var before := View().commands;
      if pending == p { pending := null; }
      error := p.ToError(cause);
      if p.isDispatched { isPauseUnsafe := true; }
      assert View().commands == before;
    }

    /** The sends below never block: the caller shows that the channel is empty. */
    method Send(p: ControlPending, delivery: Delivery)
      requires Valid() && Owns(p) && pending == p
      modifies this`pending, p`deliveries
      ensures Valid()
      ensures View() == Deliver(old(View()), delivery)
    {
      ghost var before := View().commands;
      pending := null;
      p.deliveries := p.deliveries + [delivery];
      assert View().commands == before[p.sequence - 1 := p.View()];
    }

    method FailPendingLocked()
      requires Valid()
      modifies this`pending, if pending == null then {} else {pending}
      ensures Valid()
      ensures View() == FailPending(old(View()))
    {
      if pending == null { return; }
      Send(pending, Disconnected(pending.isDispatched));
    }

    method ReceiveResult(rc: Receipt) returns (verdict: Verdict)
      requires Valid()
      modifies this`pending, this`isPauseUnsafe, if pending == null then {} else {pending}
      ensures Valid()
      ensures (View(), verdict) == Receive(old(View()), rc)
    {
      if !WellFormed(rc) { return Rejected; }
      if rc.sequence > requestSequence { return Rejected; }
      if pending == null || rc.sequence < pending.sequence { return Dropped; }
      if rc.sequence != pending.sequence || rc.requestID != pending.requestID || rc.operation != pending.operation {
        return Rejected;
      }
      if rc.failure.None? && !rc.isShapeAccepted { return Rejected; }
      ghost var before := View().commands;
      if rc.failure == Some("outcome_unknown") { isPauseUnsafe := true; }
      assert View().commands == before;
      Send(pending, Received(rc));
      verdict := Delivered;
    }

    method CloseLocked()
      requires Valid()
      modifies this`pending, this`isConnected, this`hasReader, if pending == null then {} else {pending}
      ensures Valid()
      ensures View() == Disconnect(old(View()))
    {
      ghost var before := View().commands;
      isConnected := false;
      assert View().commands == before;
      FailPendingLocked();
      ghost var after := View().commands;
      hasReader := false;
      assert View().commands == after;
    }

    method BeginDebugPause(token: string, isDeadlineSet: bool) returns (verdict: PauseVerdict)
      requires Valid()
      modifies this`pauseID
      ensures Valid()
      ensures (View(), verdict) == TryPause(old(View()), token, isDeadlineSet)
    {
      if pauseID != "" || isPauseUnsafe || !isConnected || !hasReader { return Refused; }
      ghost var before := View().commands;
      if pending == null {
        pauseID := token;
        assert View().commands == before;
        if !isDeadlineSet {
          pauseID := "";
          assert View().commands == before;
          return DeadlineFailed;
        }
        return Installed;
      }
      return Unsettled;
    }

    method EndDebugPause(token: string, isDeadlineSet: bool) returns (verdict: EndVerdict)
      requires Valid()
      modifies this`pauseID
      ensures Valid()
      ensures (View(), verdict) == EndPause(old(View()), token, isDeadlineSet)
    {
      if pauseID != token { return TokenChanged; }
      ghost var before := View().commands;
      pauseID := "";
      assert View().commands == before;
      if !hasReader { return BridgeClosed; }
      if !isDeadlineSet { return ReadDeadlineFailed; }
      verdict := Lifted;
    }
  }
}
