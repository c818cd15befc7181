/**
 The bookkeeping of both ends of the exchange as the objects the source updates,
 tied to the functions of `LuaExchange`.
 */
module LuaObject {
  import opened Common
  import opened LuaExchange

  class LuaHost {
    var sequence: nat
    var pendingFrames: map<nat, Request>

    constructor ()
      ensures View() == Host(0, map[])
    {
      sequence, pendingFrames := 0, map[];
    }

    function View(): Host
      reads this
    {
      Host(sequence, pendingFrames)
    }

    /** One received frame: the envelope checks of `serve`, then registration. */
    method AcceptFrame(frame: Frame) returns (admission: Admission)
      modifies this
      ensures (View(), admission) == Admit(old(View()), frame)
    {
      if frame.Finished? {
        if frame.sequence != sequence || |pendingFrames| != 0 { return ProtocolError; }
        return Settled;
      }
      if frame.sequence == 0 || frame.sequence != sequence + 1 { return ProtocolError; }
      if |pendingFrames| >= PENDING_LIMIT { return ProtocolError; }
      sequence := frame.sequence;
      pendingFrames := pendingFrames[sequence := frame.request];
      admission := Admitted;
    }

    /** One completion whose answer has been sent; `isExpected` is false when it matches no pending frame. */
    method AcceptCompletion(completion: Completion) returns (isExpected: bool)
      modifies this
      ensures isExpected == IsExpected(old(View()), completion)
      ensures View() == if isExpected then LuaExchange.Forget(old(View()), completion.sequence) else old(View())
    {
      isExpected := completion.sequence in pendingFrames
                    && pendingFrames[completion.sequence].operation == completion.operation;
      if isExpected {
        pendingFrames := pendingFrames - {completion.sequence};
      }
    }
  }

  class LuaVM {
    var sequence: nat
    var group: nat
    var pendingBranches: map<nat, nat>
    var mode: Mode

    constructor ()
      ensures View() == VM(0, 0, map[], Running)
    {
      sequence, group, pendingBranches, mode := 0, 0, map[], Running;
    }

    function View(): VM
      reads this
    {
      VM(sequence, group, pendingBranches, mode)
    }

    /** The part of `resume` after a branch has yielded a request. */
    method YieldRequest(request: Request) returns (frame: Frame)
      requires mode.Resume?
      modifies this
      ensures View() == YieldBranch(old(View()), request)
      ensures Outgoing(View()) == Some(frame)
    {
      sequence := sequence + 1;
      pendingBranches := pendingBranches[sequence := mode.branch];
      mode := SendBranch(request, mode.next, mode.count);
      frame := Operation(sequence, request);
    }

    /** The part of `run`, or of `invokeTimed`, that reads an answer and finds whom it is for. */
    method ReadAnswer(answered: nat) returns (recipient: Issuer)
      requires IsReading(View())
      modifies this
      ensures View() == TakeAnswer(old(View()), answered)
      ensures recipient == Recipient(old(View()), answered)
      ensures recipient.Branch? ==>
                && answered in old(pendingBranches) && recipient == Branch(group, old(pendingBranches)[answered])
                && mode.Resume? && mode.branch == recipient.index && pendingBranches == old(pendingBranches) - {answered}
      ensures recipient.Main? ==> mode == Running || mode == Broken
      ensures mode == Broken <==> if old(mode).AwaitMain? then answered != sequence else answered !in old(pendingBranches)
    {
      recipient := Main;
      if mode.AwaitMain? {
        mode := if answered == sequence then Running else Broken;
        return;
      }
      if answered !in pendingBranches {
        mode := Broken;
        return;
      }
      var branch := pendingBranches[answered];
      recipient := Branch(group, branch);
      pendingBranches := pendingBranches - {answered};
      mode := Resume(branch, mode.next, mode.count);
    }
  }
}
