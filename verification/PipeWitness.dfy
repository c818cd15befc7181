/**
 Concrete runs of the control pipe that show which stronger promises fail.
 */
module PipeWitness {
  import opened Common
  import opened PipeSections
  import opened PipeRuns
  import opened PipeSafety

  const Done := CommandResult("processed", true, false, 7, 9)
  const Issued := Command(RequestID(1), "window.click", 1, false, [])
  const Marked := Issued.(isDispatched := true)
  const OwnReceipt := Receipt(RequestID(1), "window.click", 1, Some(Done), None, true)
  const Settled := Marked.(deliveries := [Received(OwnReceipt)])

  function Connected(pending: Option<nat>, commands: seq<Command>): Pipe {
    Pipe("", false, true, true, "g", pending, |commands|, commands)
  }

  function Running(pipe: Pipe, phases: seq<Phase>, writes: seq<Write>): System {
    System(pipe, phases, Accepted, None, false, writes, true)
  }

  lemma ConnectedRun() returns (s: System)
    ensures Reachable(s) && s.pipe.Valid() && s == Running(Connected(None, []), [], [])
  {
    StartReachable();
    var a := Start.(pipe := Start.pipe.(hasReader := true), reader := Attached);
    ReachableStep(Start, ReaderAttach, a);
    var b := a.(reader := Greeted("g"));
    ReachableStep(a, ReaderGreet("g"), b);
    var c := b.(pipe := b.pipe.(generation := "g"), reader := Accepted);
    ReachableStep(b, ReaderAccept, c);
    var d := c.(reader := StateRead);
    ReachableStep(c, ReaderReadState, d);
    s := d.(pipe := d.pipe.(isConnected := true), reader := Accepted);
    ReachableStep(d, ReaderPublish, s);
  }

  /** A connected pipe on which one command has been issued, and holds the writer slot. */
  lemma ClaimedRun() returns (s: System)
    ensures Reachable(s) && s.pipe.Valid()
    ensures s == Running(Connected(Some(0), [Issued]), [Claimed], []).(writer := Some(0))
  {
    var a := ConnectedRun();
    var b := Running(Connected(Some(0), [Issued]), [Fresh], []);
    assert [] + [Issued] == [Issued] && [] + [Fresh] == [Fresh];
    ReachableStep(a, CallSubmit("window.click"), b);
    s := b.(phases := [Claimed], writer := Some(0));
    assert [Fresh][0 := Claimed] == [Claimed];
    ReachableStep(b, CallClaim(0), s);
  }

  lemma MarkedRun() returns (s: System)
    ensures Reachable(s) && s.pipe.Valid()
    ensures s == Running(Connected(Some(0), [Marked]), [Writing], []).(writer := Some(0))
  {
    var a := ClaimedRun();
    s := Running(Connected(Some(0), [Marked]), [Writing], []).(writer := Some(0));
    assert [Issued][0 := Marked] == [Marked] && [Claimed][0 := Writing] == [Writing];
    ReachableStep(a, CallMark(0), s);
  }

  lemma OwnReceiptMatches()
    ensures Matches(OwnReceipt, Marked) && IsConclusive(OwnReceipt)
    ensures Receive(Connected(Some(0), [Marked]), OwnReceipt) == (Connected(None, [Settled]), Delivered)
  {
    assert RequestID(1) != "";
    assert [Marked][0 := Settled] == [Settled];
    assert [] + [Received(OwnReceipt)] == [Received(OwnReceipt)];
  }

  lemma WaitingRun() returns (s: System)
    ensures Reachable(s) && s.pipe.Valid()
    ensures s == Running(Connected(Some(0), [Marked]), [Waiting], [CommandWrite(0, true)])
  {
    var a := MarkedRun();
    s := a.(phases := [Waiting], writer := None, writes := [CommandWrite(0, true)]);
    assert [Writing][0 := Waiting] == [Waiting] && [] + s.writes == s.writes;
    ReachableStep(a, CallWrite(0, true, OtherCause), s);
  }

  lemma TimedOutRun() returns (s: System)
    ensures Reachable(s) && s.pipe.Valid()
    ensures s == Running(Connected(Some(0), [Marked]), [Abandoning(DeadlineExceeded, true)], [CommandWrite(0, true)])
  {
    var a := WaitingRun();
    s := a.(phases := [Abandoning(DeadlineExceeded, true)]);
    assert [Waiting][0 := s.phases[0]] == s.phases;
    ReachableStep(a, CallTimeOut(0, DeadlineExceeded), s);
  }

  /** The receipt arrives after its caller has given up, but before the command is abandoned. */
  lemma SettledRun() returns (s: System)
    ensures Reachable(s) && s.pipe.Valid()
    ensures s == Running(Connected(None, [Settled]), [Abandoning(DeadlineExceeded, true)], [CommandWrite(0, true)])
  {
    var a := TimedOutRun();
    OwnReceiptMatches();
    assert IsWritten(a.writes, 0) by { assert a.writes[0] == CommandWrite(0, true); }
    var b := a.(reader := ResultRead(OwnReceipt));
    ReachableStep(a, ReaderReadResult(OwnReceipt), b);
    s := a.(pipe := Connected(None, [Settled]));
    ReachableStep(b, ReaderReceive, s);
  }

  /**
   A caller that has passed its last look at the channel is still counted as
   settled once its receipt arrives: the fence goes up, and the caller's next
   section reports the outcome of the very same command as unknown.
   */
  lemma StragglerBehindFence() returns (s: System)
    ensures Reachable(s) && s.pipe.IsFenced() && s.isPeerHonest && s.phases == [Abandoning(DeadlineExceeded, true)]
    ensures |s.pipe.commands| == 1 && HasConclusiveReceipt(s.pipe.commands[0])
    ensures s.pipe.Valid() && Step(s, CallAbandon(0)).Some? && IsUnknown(Step(s, CallAbandon(0)).value, 0)
  {
    var a := SettledRun();
    OwnReceiptMatches();
    s := a.(pipe := a.pipe.(pauseID := "token"));
    ReachableStep(a, PauseTry("token", true), s);
    ReachableInv(s);
    AbandonReportsUnknown(s, 0);
  }

  /** A peer that answers before it was written to leaves a writer behind the fence. */
  lemma WriterBehindFence() returns (s: System)
    ensures Reachable(s) && s.pipe.IsFenced() && IsCallWriting(s, 0)
  {
    var a := MarkedRun();
    OwnReceiptMatches();
    var b := a.(reader := ResultRead(OwnReceipt), isPeerHonest := false);
    ReachableStep(a, ReaderReadResult(OwnReceipt), b);
    var c := b.(pipe := Connected(None, [Settled]), reader := Accepted);
    ReachableStep(b, ReaderReceive, c);
    s := c.(pipe := c.pipe.(pauseID := "token"));
    ReachableStep(c, PauseTry("token", true), s);
  }

  const Unknown := Closing(AbandonError(Marked, OtherCause))

  lemma CutShortRun() returns (s: System)
    ensures Reachable(s) && s.pipe.Valid()
    ensures s == Running(Connected(Some(0), [Marked]), [Abandoning(OtherCause, false)], [CommandWrite(0, false)])
  {
    var a := MarkedRun();
    s := a.(phases := [Abandoning(OtherCause, false)], writer := None, writes := [CommandWrite(0, false)]);
    assert [Writing][0 := s.phases[0]] == s.phases && [] + s.writes == s.writes;
    ReachableStep(a, CallWrite(0, false, OtherCause), s);
  }

  /** A first command whose write failed; its caller has yet to close the pipe. */
  lemma PartialRun() returns (s: System)
    ensures Reachable(s) && s.pipe.Valid()
    ensures s == Running(Connected(None, [Marked]).(isPauseUnsafe := true), [Unknown], [CommandWrite(0, false)])
  {
    var a := CutShortRun();
    s := a.(pipe := Connected(None, [Marked]).(isPauseUnsafe := true), phases := [Unknown]);
    assert a.phases[0 := Unknown] == [Unknown];
    ReachableStep(a, CallAbandon(0), s);
  }

  const Second := Command(RequestID(2), "window.click", 2, false, [])

  /** While the first caller has yet to close the pipe, a second command is issued. */
  lemma SecondIssuedRun() returns (s: System)
    ensures Reachable(s) && s.pipe.Valid()
    ensures s == Running(Connected(Some(1), [Marked, Second]).(isPauseUnsafe := true),
                         [Unknown, Fresh], [CommandWrite(0, false)])
  {
    var a := PartialRun();
    s := a.(pipe := Connected(Some(1), [Marked, Second]).(isPauseUnsafe := true), phases := [Unknown, Fresh]);
    assert [Marked] + [Second] == [Marked, Second] && [Unknown] + [Fresh] == [Unknown, Fresh];
    ReachableStep(a, CallSubmit("window.click"), s);
  }

  lemma SecondRun() returns (s: System)
    ensures Reachable(s) && s.pipe.Valid()
    ensures s == Running(Connected(Some(1), [Marked, Second]).(isPauseUnsafe := true),
                         [Unknown, Claimed], [CommandWrite(0, false)]).(writer := Some(1))
  {
    var a := SecondIssuedRun();
    s := a.(phases := [Unknown, Claimed], writer := Some(1));
    assert a.phases[1 := Claimed] == s.phases;
    ReachableStep(a, CallClaim(1), s);
  }

  lemma SecondMarkedRun() returns (s: System)
    ensures Reachable(s) && s.pipe.Valid()
    ensures s == Running(Connected(Some(1), [Marked, Second.(isDispatched := true)]).(isPauseUnsafe := true),
                         [Unknown, Writing], [CommandWrite(0, false)]).(writer := Some(1))
  {
    var a := SecondRun();
    var commands := [Marked, Second.(isDispatched := true)];
    s := a.(pipe := a.pipe.(commands := commands), phases := [Unknown, Writing]);
    assert a.pipe.commands[1 := Second.(isDispatched := true)] == commands && a.phases[1 := Writing] == s.phases;
    ReachableStep(a, CallMark(1), s);
  }

  /** Between a failed frame write and the close that answers it, another command can still be written. */
  lemma FrameAfterPartialFrame() returns (s: System)
    ensures Reachable(s) && s.writes == [CommandWrite(0, false), CommandWrite(1, true)]
  {
    var a := SecondMarkedRun();
    s := a.(phases := [Unknown, Waiting], writer := None, writes := [CommandWrite(0, false), CommandWrite(1, true)]);
    assert a.phases[1 := Waiting] == s.phases && [CommandWrite(0, false)] + [CommandWrite(1, true)] == s.writes;
    ReachableStep(a, CallWrite(1, true, OtherCause), s);
  }

  /** A state frame read before the close still marks the closed pipe connected; only the file tells. */
  lemma ConnectedAfterClose() returns (s: System)
    ensures Reachable(s) && IsDead(s) && s.pipe.isConnected
  {
    var a := ConnectedRun();
    var b := a.(reader := StateRead);
    ReachableStep(a, ReaderReadState, b);
    var c := b.(isCancelled := true);
    ReachableStep(b, CancelLifetime, c);
    var d := c.(pipe := c.pipe.(isConnected := false, hasReader := false));
    ReachableStep(c, CloseSection, d);
    s := d.(pipe := d.pipe.(isConnected := true), reader := Accepted);
    ReachableStep(d, ReaderPublish, s);
  }
}
