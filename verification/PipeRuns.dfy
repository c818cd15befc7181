/**
 Every interleaving of callers, the reader thread, closers and the debugger
 pauser over one control pipe.  A step is one mutex-held section, one channel
 operation or one frame write; the scheduler, the peer and the clock choose
 which step comes next and with what arguments.
 */
module PipeRuns {
  import opened Common
  import opened PipeSections

  datatype Outcome = Answered(delivery: Delivery) | Failed(error: RequestError)

  /** Where one call of `Request` stands after it has been issued. */
  datatype Phase =
    | Fresh                                    // issued; waiting for the writer slot
    | Claimed                                  // holds the writer slot, not yet marked as dispatched
    | Writing                                  // marked; its frame is being written
    | Waiting                                  // frame written; waiting for a delivery
    | Abandoning(cause: Cause, wasWaiting: bool)
    | Cancelling(error: RequestError)          // about to look whether a cancel frame can be sent
    | CancelWriting(error: RequestError)       // waiting for the writer slot
    | CancelClaimed(error: RequestError)       // its cancel frame is being written
    | Closing(error: RequestError)             // about to close the pipe after a failed write
    | Returned(outcome: Outcome)

  /** Where the reader thread stands; a frame read before a close is still handled after it. */
  datatype Reader =
    | Connecting
    | Attached                                 // the file is installed; handshake under way
    | Greeted(generation: string)              // hello read and answered, generation not yet published
    | Accepted                                 // about to read a frame
    | StateRead                                // a state frame has been read but not yet published
    | ResultRead(receipt: Receipt)             // a result frame has been read but not yet handled
    | Leaving | Stopped

  datatype Write = CommandWrite(index: nat, isComplete: bool) | CancelWrite(index: nat)

  /**
   `writer` is the call that holds the writer slot.  `writes` logs every frame write
   attempted, `isPeerHonest` whether each receipt read was for a command written before.
   */
  datatype System = System(pipe: Pipe, phases: seq<Phase>, reader: Reader, writer: Option<nat>, isCancelled: bool,
                           writes: seq<Write>, isPeerHonest: bool)

  datatype Event =
    | ReaderAttach | ReaderGreet(generation: string) | ReaderAccept | ReaderReadState | ReaderPublish
    | ReaderReadResult(receipt: Receipt) | ReaderReceive | ReaderLeave | ReaderStop
    | CancelLifetime | CloseSection
    | CallSubmit(operation: string) | CallExpire(index: nat, cause: Cause) | CallClaim(index: nat) | CallMark(index: nat)
    | CallWrite(index: nat, isComplete: bool, cause: Cause) | CallTake(index: nat)
    | CallTimeOut(index: nat, cause: Cause) | CallAbandon(index: nat)
    | CallCheckCancel(index: nat) | CallWriteCancel(index: nat, isWritten: bool) | CallClose(index: nat)
    | PauseTry(token: string, isDeadlineSet: bool) | PauseEnd(token: string, isDeadlineSet: bool)

  const Start := System(Pipe("", false, false, false, "", None, 0, []), [], Connecting, None, false, [], true)

  function At(s: System, i: nat): Option<Phase> {
    if i < |s.phases| && |s.phases| == |s.pipe.commands| then Some(s.phases[i]) else None
  }

  function To(s: System, i: nat, phase: Phase): System
    requires i < |s.phases|
  {
    s.(phases := s.phases[i := phase])
  }

  /** A write of the command's frame has been attempted. */
  predicate IsWritten(writes: seq<Write>, i: nat) {
    CommandWrite(i, true) in writes || CommandWrite(i, false) in writes
  }

  function ReaderStep(s: System, e: Event): Option<System>
    requires s.pipe.Valid()
  {
    match e
    case ReaderAttach =>
      if s.reader.Connecting? && !s.isCancelled then
        Some(s.(pipe := s.pipe.(hasReader := true), reader := Attached))
      else None
    case ReaderGreet(generation) =>
      if s.reader.Attached? && s.pipe.hasReader && generation != "" then Some(s.(reader := Greeted(generation))) else None
    case ReaderAccept =>
      if s.reader.Greeted? then Some(s.(pipe := s.pipe.(generation := s.reader.generation), reader := Accepted)) else None
    case ReaderReadState =>
      if s.reader.Accepted? && s.pipe.hasReader then Some(s.(reader := StateRead)) else None
    case ReaderPublish =>
      if s.reader.StateRead? then Some(s.(pipe := s.pipe.(isConnected := true), reader := Accepted)) else None
    case ReaderReadResult(rc) =>
      if s.reader.Accepted? && s.pipe.hasReader then
        Some(s.(reader := ResultRead(rc),
                isPeerHonest := s.isPeerHonest && rc.sequence != 0 && IsWritten(s.writes, rc.sequence - 1)))
      else None
    case ReaderReceive =>
      if s.reader.ResultRead? then
        var (p, verdict) := Receive(s.pipe, s.reader.receipt);
        Some(s.(pipe := p, reader := if verdict.Rejected? then Leaving else Accepted))
      else None
    case ReaderLeave =>
      if s.reader.Stopped? then None else Some(s.(reader := Leaving))
    case ReaderStop =>
      if s.reader.Leaving? then Some(s.(pipe := Disconnect(s.pipe), reader := Stopped)) else None
    case _ => None
  }

  function CallStep(s: System, e: Event): Option<System>
    requires s.pipe.Valid()
  {
    match e
    case CallSubmit(operation) =>
      var (p, submission) := Submit(s.pipe, operation);
      Some(if submission.Submitted? then s.(pipe := p, phases := s.phases + [Fresh]) else s)
    case CallExpire(i, cause) =>
      if At(s, i) == Some(Fresh) then Some(To(s, i, Abandoning(cause, false)))
      else if At(s, i) == Some(Claimed) then Some(To(s.(writer := None), i, Abandoning(cause, false)))
      else None
    case CallClaim(i) =>
      if s.writer.Some? then None
      else if At(s, i) == Some(Fresh) then Some(To(s.(writer := Some(i)), i, Claimed))
      else if At(s, i).Some? && s.phases[i].CancelWriting? then
        Some(To(s.(writer := Some(i)), i, CancelClaimed(s.phases[i].error)))
      else None
    case CallMark(i) =>
      if At(s, i) == Some(Claimed) then
        var (p, isMarked) := MarkDispatched(s.pipe, i);
        Some(if isMarked then To(s.(pipe := p), i, Writing)
             else To(s.(writer := None), i, Abandoning(OtherCause, false)))
      else None
    case CallWrite(i, isComplete, cause) =>
      if At(s, i) == Some(Writing) && (isComplete ==> s.pipe.hasReader) then
        Some(To(s.(writer := None, writes := s.writes + [CommandWrite(i, isComplete)]), i,
                if isComplete then Waiting else Abandoning(cause, false)))
      else None
    case CallTake(i) =>
      if At(s, i) == Some(Waiting) && s.pipe.commands[i].deliveries != [] then
        Some(To(s, i, Returned(Answered(s.pipe.commands[i].deliveries[0]))))
      else None
    case CallTimeOut(i, cause) =>
      if At(s, i) == Some(Waiting) && s.pipe.commands[i].deliveries == [] then
        Some(To(s, i, Abandoning(cause, true)))
      else None
    case CallAbandon(i) =>
      if At(s, i).Some? && s.phases[i].Abandoning? then
        var error := AbandonError(s.pipe.commands[i], s.phases[i].cause);
        Some(To(s.(pipe := Abandon(s.pipe, i)), i,
                if s.phases[i].wasWaiting then Cancelling(error)
                else if error.isDispatched then Closing(error)
                else Returned(Failed(error))))
      else None
    case CallCheckCancel(i) =>
      if At(s, i).Some? && s.phases[i].Cancelling? then
        Some(To(s, i, if s.pipe.isConnected && s.pipe.hasReader then CancelWriting(s.phases[i].error)
                      else Returned(Failed(s.phases[i].error))))
      else None
    case CallWriteCancel(i, isWritten) =>
      if At(s, i).Some? && s.phases[i].CancelClaimed? && (isWritten ==> s.pipe.hasReader) then
        Some(To(s.(writer := None, writes := if isWritten then s.writes + [CancelWrite(i)] else s.writes), i,
                Returned(Failed(s.phases[i].error))))
      else if At(s, i).Some? && s.phases[i].CancelWriting? && !isWritten then
        Some(To(s, i, Returned(Failed(s.phases[i].error))))
      else None
    case CallClose(i) =>
      if At(s, i).Some? && s.phases[i].Closing? && s.isCancelled then
        Some(To(s.(pipe := Disconnect(s.pipe)), i, Returned(Failed(s.phases[i].error))))
      else None
    case _ => None
  }

  /** `None` when the event cannot happen now. */
  function Step(s: System, e: Event): Option<System>
    requires s.pipe.Valid()
  {
    match e
    case CancelLifetime => Some(s.(isCancelled := true))
    case CloseSection => if s.isCancelled then Some(s.(pipe := Disconnect(s.pipe))) else None
    case PauseTry(token, isDeadlineSet) => Some(s.(pipe := TryPause(s.pipe, token, isDeadlineSet).0))
    case PauseEnd(token, isDeadlineSet) => Some(s.(pipe := EndPause(s.pipe, token, isDeadlineSet).0))
    case _ => if ReaderStep(s, e).Some? then ReaderStep(s, e) else CallStep(s, e)
  }

  /** The state after a whole run, if each of its events could happen in turn. */
  function Exec(s: System, es: seq<Event>): Option<System>
    decreases |es|
  {
    if es == [] then Some(s)
    else if !s.pipe.Valid() then None
    else match Step(s, es[0])
      case None => None
      case Some(next) => Exec(next, es[1..])
  }

  ghost predicate Reachable(s: System) {
    exists es: seq<Event> :: Exec(Start, es) == Some(s)
  }

  // ------------------------------------------------------------- invariants

  /** The file is gone and cannot be installed again. */
  predicate IsDead(s: System) {
    !s.pipe.hasReader && (s.reader != Connecting || s.isCancelled)
  }

  predicate IsLive(phase: Phase) {
    phase.Fresh? || phase.Claimed? || phase.Writing? || phase.Waiting? || phase.Abandoning?
  }

  predicate IsPastWrite(phase: Phase) {
    || phase.Waiting? || phase.Cancelling? || phase.CancelWriting? || phase.CancelClaimed?
    || (phase.Abandoning? && phase.wasWaiting)
  }

  predicate IsPastMark(phase: Phase) {
    phase.Writing? || phase.Closing? || IsPastWrite(phase)
  }

  predicate Matches(rc: Receipt, command: Command) {
    && WellFormed(rc) && rc.sequence == command.sequence && rc.requestID == command.requestID
    && rc.operation == command.operation && (rc.failure.None? ==> rc.isShapeAccepted)
  }

  predicate HasConclusiveReceipt(command: Command) {
    && |command.deliveries| == 1 && command.deliveries[0].Received?
    && Matches(command.deliveries[0].receipt, command) && IsConclusive(command.deliveries[0].receipt)
  }

  function ReportedError(phase: Phase): Option<RequestError> {
    match phase
    case Cancelling(error) => Some(error)
    case CancelWriting(error) => Some(error)
    case CancelClaimed(error) => Some(error)
    case Closing(error) => Some(error)
    case Returned(Failed(error)) => Some(error)
    case _ => None
  }

  /** What holds of one command in every reachable state. */
  predicate CallInv(c: Command, phase: Phase, i: nat, isPending: bool, isUnsafe: bool, isDead: bool,
                    isFenced: bool, isWritten: bool)
  {
    && c.sequence == i + 1 && c.requestID == RequestID(i + 1)
    && |c.deliveries| <= 1
    && (isPending <==> IsLive(phase) && c.deliveries == [])
    && (c.deliveries != [] ==>
          match c.deliveries[0]
          case Received(rc) => Matches(rc, c) && (IsConclusive(rc) || isUnsafe)
          case Disconnected(isDispatched) => isDispatched == c.isDispatched && isDead)
    && (phase.Fresh? || phase.Claimed? ==> !c.isDispatched)
    && (IsPastMark(phase) ==> c.isDispatched)
    && (isWritten <==> c.isDispatched && !phase.Writing?)
    && (ReportedError(phase).Some? ==>
          var error := ReportedError(phase).value;
          && error.requestID == c.requestID && error.operation == c.operation
          && error.isDispatched == c.isDispatched && (error.code == "outcome_unknown" <==> c.isDispatched)
          && (c.isDispatched ==> isUnsafe))
    && (phase.Returned? && phase.outcome.Answered? ==> c.isDispatched && c.deliveries == [phase.outcome.delivery])
    && (isFenced && c.isDispatched ==> HasConclusiveReceipt(c))
  }

  /** Call `i` could be in this phase, as far as its invariant goes. */
  predicate PhaseFits(s: System, i: nat, phase: Phase)
    requires i < |s.pipe.commands|
  {
    CallInv(s.pipe.commands[i], phase, i, s.pipe.pending == Some(i), s.pipe.isPauseUnsafe, IsDead(s),
            s.pipe.IsFenced(), IsWritten(s.writes, i))
  }

  predicate CallInvAt(s: System, i: nat)
    requires i < |s.phases| && |s.phases| == |s.pipe.commands|
  {
    PhaseFits(s, i, s.phases[i])
  }

  ghost predicate Shape(s: System) {
    && s.pipe.Valid()
    && |s.phases| == |s.pipe.commands|
    && (s.pipe.hasReader ==> s.reader != Connecting && s.reader != Stopped)
    && (s.reader.Connecting? ==> s.pipe.generation == "" && |s.phases| == 0)
    && (s.pipe.IsFenced() ==> s.pipe.pending.None?)
    && (s.pipe.pending.Some? ==> s.pipe.pending.value == |s.phases| - 1)
  }

  ghost predicate Calls(s: System)
    requires Shape(s)
  {
    forall i :: 0 <= i < |s.phases| ==> CallInvAt(s, i)
  }

  /** Each command is written at most once, and cancelled only after it was written completely. */
  ghost predicate WriteLog(s: System) {
    && (forall a, b :: 0 <= a < b < |s.writes| && s.writes[a].CommandWrite? && s.writes[b].CommandWrite?
                       ==> s.writes[a].index != s.writes[b].index)
    && (forall b :: 0 <= b < |s.writes| && s.writes[b].CancelWrite?
                    ==> CommandWrite(s.writes[b].index, true) in s.writes[..b])
    && (forall w :: w in s.writes ==> w.index < |s.phases|)
    && (forall i :: 0 <= i < |s.phases| && IsPastWrite(s.phases[i]) ==> CommandWrite(i, true) in s.writes)
  }

  /** With an honest peer only written commands have been answered. */
  ghost predicate HonestLog(s: System)
    requires Shape(s)
  {
    s.isPeerHonest ==>
      && (forall i :: 0 <= i < |s.phases| && IsAnswered(s.pipe.commands[i]) ==> IsWritten(s.writes, i))
      && (s.reader.ResultRead? ==>
            s.reader.receipt.sequence != 0 && IsWritten(s.writes, s.reader.receipt.sequence - 1))
  }

  predicate IsAnswered(c: Command) {
    c.deliveries != [] && c.deliveries[0].Received?
  }

  predicate HoldsSlot(phase: Phase) {
    phase.Claimed? || phase.Writing? || phase.CancelClaimed?
  }

  /** Exactly the call that took the writer slot is between taking and releasing it. */
  ghost predicate SlotInv(s: System) {
    && (s.writer.Some? ==> s.writer.value < |s.phases|)
    && forall i: nat :: i < |s.phases| ==> (HoldsSlot(s.phases[i]) <==> s.writer == Some(i))
  }

  /** What the reader thread has published, and that commands are only issued on a connected pipe. */
  ghost predicate LinkInv(s: System) {
    && (s.pipe.isConnected || s.reader.Accepted? || s.reader.StateRead? || s.reader.ResultRead? ==> s.pipe.generation != "")
    && (s.reader.Greeted? ==> s.reader.generation != "")
    && (s.pipe.hasReader && s.phases != [] ==> s.pipe.isConnected)
  }

  ghost predicate Core(s: System) {
    Shape(s) && Calls(s) && WriteLog(s) && HonestLog(s)
  }

  ghost predicate Inv(s: System) {
    Core(s) && SlotInv(s) && LinkInv(s)
  }

  /** Commands other than `j` keep their invariant when only `j` and monotone facts change. */
  lemma OneCallChanges(s: System, t: System, j: nat)
    requires Core(s) && Shape(t) && |t.phases| == |s.phases|
    requires forall i :: 0 <= i < |s.phases| && i != j ==>
               s.pipe.commands[i] == t.pipe.commands[i] && s.phases[i] == t.phases[i]
               && (s.pipe.pending == Some(i) <==> t.pipe.pending == Some(i))
               && (IsWritten(s.writes, i) <==> IsWritten(t.writes, i))
    requires s.pipe.isPauseUnsafe ==> t.pipe.isPauseUnsafe
    requires IsDead(s) ==> IsDead(t)
    requires t.pipe.IsFenced() ==> s.pipe.IsFenced()
    requires j < |t.phases| ==> CallInvAt(t, j)
    ensures Calls(t)
  {
    forall i | 0 <= i < |t.phases|
      ensures CallInvAt(t, i)
    {
      assert CallInvAt(s, i);
    }
  }

  lemma DisconnectKeeps(s: System, t: System)
    requires Core(s) && t.pipe == Disconnect(s.pipe) && t.phases == s.phases && t.writes == s.writes
    requires s.isCancelled || t.reader.Stopped?
    requires t.isPeerHonest == s.isPeerHonest && (t.isCancelled == s.isCancelled) && (t.reader == s.reader || t.reader.Stopped?)
    ensures Core(t)
  {
    if s.pipe.pending.Some? {
      var j := s.pipe.pending.value;
      assert CallInvAt(s, j);
      OneCallChanges(s, t, j);
    } else {
      OneCallChanges(s, t, |s.phases|);
    }
  }

  /** Nothing about the writes changes, and nobody new is past one. */
  lemma LogStays(s: System, t: System)
    requires WriteLog(s) && t.writes == s.writes && |s.phases| <= |t.phases|
    requires forall i :: 0 <= i < |t.phases| && IsPastWrite(t.phases[i]) ==> i < |s.phases| && IsPastWrite(s.phases[i])
    ensures WriteLog(t)
  {
  }

  /** The delivered command keeps its invariant. */
  lemma ReceivedCall(s: System)
    requires Core(s) && s.reader.ResultRead? && Receive(s.pipe, s.reader.receipt).1.Delivered?
    ensures var t, j := ReaderStep(s, ReaderReceive).value, s.pipe.pending.value;
            Shape(t) && |t.phases| == |s.phases| && CallInvAt(t, j)
  {
    assert CallInvAt(s, s.pipe.pending.value);
  }

  lemma ReceivedHonestly(s: System)
    requires Shape(s) && HonestLog(s) && s.reader.ResultRead?
    requires Shape(ReaderStep(s, ReaderReceive).value)
    ensures HonestLog(ReaderStep(s, ReaderReceive).value)
  {
  }

  lemma ReceiveKeeps(s: System)
    requires Core(s) && s.reader.ResultRead?
    ensures Core(ReaderStep(s, ReaderReceive).value)
  {
    var t := ReaderStep(s, ReaderReceive).value;
    if Receive(s.pipe, s.reader.receipt).1.Delivered? {
      ReceivedCall(s);
      OneCallChanges(s, t, s.pipe.pending.value);
    } else {
      OneCallChanges(s, t, |s.phases|);
    }
    LogStays(s, t);
    ReceivedHonestly(s);
  }

  /** Nothing that concerns commands, calls or writes changes. */
  ghost predicate OnlyReaderMoves(s: System, t: System) {
    && t.phases == s.phases && t.writes == s.writes && t.writer == s.writer
    && t.pipe.commands == s.pipe.commands && t.pipe.pending == s.pipe.pending
    && t.pipe.isPauseUnsafe == s.pipe.isPauseUnsafe && t.pipe.pauseID == s.pipe.pauseID
    && (IsDead(s) ==> IsDead(t))
  }

  lemma ReadingKeeps(s: System, t: System)
    requires Core(s) && Shape(t) && HonestLog(t) && OnlyReaderMoves(s, t)
    ensures Core(t)
  {
    OneCallChanges(s, t, |s.phases|);
    LogStays(s, t);
  }

  /** The reader thread attaches, greets, reads or publishes: it stays on its way. */
  lemma ReaderShape(s: System, e: Event)
    requires Shape(s) && ReaderStep(s, e).Some? && !e.ReaderReceive? && !e.ReaderStop?
    ensures Shape(ReaderStep(s, e).value)
  {
  }

  lemma ReaderFrame(s: System, e: Event)
    requires s.pipe.Valid() && ReaderStep(s, e).Some? && !e.ReaderReceive? && !e.ReaderStop?
    ensures OnlyReaderMoves(s, ReaderStep(s, e).value)
  {
  }

  /** Only a result frame it reads bears on what the reader knows of the peer. */
  lemma ReaderHonesty(s: System, e: Event)
    requires s.pipe.Valid() && ReaderStep(s, e).Some? && !e.ReaderReceive? && !e.ReaderStop?
    ensures var t := ReaderStep(s, e).value;
            && (t.isPeerHonest ==> s.isPeerHonest)
            && (t.isPeerHonest && t.reader.ResultRead? ==>
                  t.reader.receipt.sequence != 0 && IsWritten(s.writes, t.reader.receipt.sequence - 1))
  {
  }

  lemma ReaderMoves(s: System, e: Event)
    requires Shape(s) && HonestLog(s) && ReaderStep(s, e).Some? && !e.ReaderReceive? && !e.ReaderStop?
    ensures var t := ReaderStep(s, e).value; Shape(t) && HonestLog(t) && OnlyReaderMoves(s, t)
  {
    ReaderShape(s, e);
    ReaderFrame(s, e);
    ReaderHonesty(s, e);
  }

  lemma ReaderStepKeeps(s: System, e: Event)
    requires Core(s) && ReaderStep(s, e).Some?
    ensures Core(ReaderStep(s, e).value)
  {
    if e.ReaderReceive? {
      ReceiveKeeps(s);
    } else if e.ReaderStop? {
      DisconnectKeeps(s, ReaderStep(s, e).value);
    } else {
      ReaderMoves(s, e);
      ReadingKeeps(s, ReaderStep(s, e).value);
    }
  }

  lemma SubmittedCall(s: System, operation: string)
    requires Core(s) && Submit(s.pipe, operation).1.Submitted?
    ensures var t, n := CallStep(s, CallSubmit(operation)).value, |s.phases|;
            Shape(t) && |t.phases| == n + 1 && CallInvAt(t, n)
  {
    assert !IsWritten(s.writes, |s.phases|);
  }

  lemma SubmitKeeps(s: System, operation: string)
    requires Core(s)
    ensures Core(CallStep(s, CallSubmit(operation)).value)
  {
    var t := CallStep(s, CallSubmit(operation)).value;
    if Submit(s.pipe, operation).1.Submitted? {
      SubmittedCall(s, operation);
      forall i | 0 <= i < |s.phases|
        ensures CallInvAt(t, i)
      {
        assert CallInvAt(s, i);
      }
      LogStays(s, t);
    }
  }

  /** A step of call `i` that leaves the pipe and the log of writes alone. */
  lemma PhaseKeeps(s: System, i: nat, phase: Phase, writer: Option<nat>)
    requires Core(s) && i < |s.phases|
    requires PhaseFits(s, i, phase)
    requires IsPastWrite(phase) ==> IsPastWrite(s.phases[i])
    ensures Core(To(s.(writer := writer), i, phase))
  {
    OneCallChanges(s, To(s.(writer := writer), i, phase), i);
  }

  lemma MarkedCall(s: System, i: nat)
    requires Core(s) && At(s, i) == Some(Claimed) && s.pipe.pending == Some(i)
    ensures var t := CallStep(s, CallMark(i)).value;
            Shape(t) && |t.phases| == |s.phases| && CallInvAt(t, i)
  {
    assert CallInvAt(s, i);
  }

  lemma UnmarkedKeeps(s: System, i: nat)
    requires Core(s) && At(s, i) == Some(Claimed) && s.pipe.pending != Some(i)
    ensures Core(CallStep(s, CallMark(i)).value)
  {
    assert CallInvAt(s, i);
    ExpireFits(s, i, OtherCause);
    PhaseKeeps(s, i, Abandoning(OtherCause, false), None);
  }

  lemma MarkKeeps(s: System, i: nat)
    requires Core(s) && At(s, i) == Some(Claimed)
    ensures Core(CallStep(s, CallMark(i)).value)
  {
    if s.pipe.pending == Some(i) {
      MarkedCall(s, i);
      OneCallChanges(s, CallStep(s, CallMark(i)).value, i);
      LogStays(s, CallStep(s, CallMark(i)).value);
    } else {
      UnmarkedKeeps(s, i);
    }
  }

  lemma AbandonShape(s: System, i: nat)
    requires Core(s) && CallStep(s, CallAbandon(i)).Some?
    ensures Shape(CallStep(s, CallAbandon(i)).value)
  {
    assert CallInvAt(s, i);
  }

  lemma AbandonCall(s: System, i: nat)
    requires Core(s) && CallStep(s, CallAbandon(i)).Some?
    ensures var t := CallStep(s, CallAbandon(i)).value;
            Shape(t) && |t.phases| == |s.phases| && CallInvAt(t, i)
  {
    AbandonShape(s, i);
    assert CallInvAt(s, i);
  }

  lemma AbandonKeeps(s: System, i: nat)
    requires Core(s) && CallStep(s, CallAbandon(i)).Some?
    ensures Core(CallStep(s, CallAbandon(i)).value)
  {
    var t := CallStep(s, CallAbandon(i)).value;
    AbandonCall(s, i);
    OneCallChanges(s, t, i);
    assert s.phases[i].wasWaiting <==> IsPastWrite(t.phases[i]);
    assert t.writes == s.writes && forall k: nat :: k < |t.phases| && IsPastWrite(t.phases[k]) ==> IsPastWrite(s.phases[k]);
  }

  /** The log grows by one write of call `i`, which moves to another phase. */
  lemma LogGrows(s: System, t: System, i: nat, w: Write)
    requires WriteLog(s) && i < |s.phases| == |t.phases| && t.writes == s.writes + [w] && w.index == i
    requires t.phases == s.phases[i := t.phases[i]]
    requires w.CommandWrite? ==> !IsWritten(s.writes, i)
    requires w.CancelWrite? ==> CommandWrite(i, true) in s.writes
    requires IsPastWrite(t.phases[i]) ==> CommandWrite(i, true) in t.writes
    ensures WriteLog(t)
  {
    var n := |s.writes|;
    forall a, b | 0 <= a < b < |t.writes| && t.writes[a].CommandWrite? && t.writes[b].CommandWrite?
      ensures t.writes[a].index != t.writes[b].index
    {
      if b == n {
        assert s.writes[a] in s.writes;
      }
    }
    forall b | 0 <= b < |t.writes| && t.writes[b].CancelWrite?
      ensures CommandWrite(t.writes[b].index, true) in t.writes[..b]
    {
      assert t.writes[..b] == s.writes[..b];
      if b == n {
        assert t.writes[..b] == s.writes;
      }
    }
  }

  lemma CommandWriteKeeps(s: System, i: nat, isComplete: bool, cause: Cause)
    requires Core(s) && CallStep(s, CallWrite(i, isComplete, cause)).Some?
    ensures Core(CallStep(s, CallWrite(i, isComplete, cause)).value)
  {
    var t := CallStep(s, CallWrite(i, isComplete, cause)).value;
    assert CallInvAt(s, i);
    assert CommandWrite(i, isComplete) in t.writes;
    forall k
      ensures IsWritten(t.writes, k) == (IsWritten(s.writes, k) || k == i)
    {
    }
    assert CallInvAt(t, i);
    OneCallChanges(s, t, i);
    LogGrows(s, t, i, CommandWrite(i, isComplete));
  }

  /** The call whose cancel frame is now in the log. */
  lemma CancelledCall(s: System, i: nat)
    requires Core(s) && At(s, i).Some? && s.phases[i].CancelClaimed? && s.pipe.hasReader
    ensures var t := CallStep(s, CallWriteCancel(i, true)).value;
            && Shape(t) && |t.phases| == |s.phases| && CallInvAt(t, i)
            && forall k: nat :: IsWritten(t.writes, k) == IsWritten(s.writes, k)
  {
    assert CallInvAt(s, i);
  }

  lemma CancelledKeeps(s: System, i: nat)
    requires Core(s) && At(s, i).Some? && s.phases[i].CancelClaimed? && s.pipe.hasReader
    ensures Core(CallStep(s, CallWriteCancel(i, true)).value)
  {
    var t := CallStep(s, CallWriteCancel(i, true)).value;
    CancelledCall(s, i);
    OneCallChanges(s, t, i);
    LogGrows(s, t, i, CancelWrite(i));
  }

  /** A call that has an error to report may return it. */
  lemma ReturnFits(s: System, i: nat)
    requires i < |s.phases| == |s.pipe.commands| && CallInvAt(s, i) && ReportedError(s.phases[i]).Some?
    ensures PhaseFits(s, i, Returned(Failed(ReportedError(s.phases[i]).value)))
  {
  }

  lemma UncancelledKeeps(s: System, i: nat)
    requires Core(s) && CallStep(s, CallWriteCancel(i, false)).Some?
    ensures Core(CallStep(s, CallWriteCancel(i, false)).value)
  {
    assert CallInvAt(s, i);
    ReturnFits(s, i);
    PhaseKeeps(s, i, Returned(Failed(s.phases[i].error)), CallStep(s, CallWriteCancel(i, false)).value.writer);
  }

  lemma CloseKeeps(s: System, i: nat)
    requires Core(s) && CallStep(s, CallClose(i)).Some?
    ensures Core(CallStep(s, CallClose(i)).value)
  {
    var middle := s.(pipe := Disconnect(s.pipe));
    DisconnectKeeps(s, middle);
    ClosedKeeps(middle, i);
  }

  /** A caller that has reported an error returns it. */
  lemma ClosedKeeps(s: System, i: nat)
    requires Core(s) && i < |s.phases| && s.phases[i].Closing?
    ensures Core(To(s, i, Returned(Failed(s.phases[i].error))))
  {
    assert CallInvAt(s, i);
    ReturnFits(s, i);
    PhaseKeeps(s, i, Returned(Failed(s.phases[i].error)), s.writer);
  }

  lemma CallStepKeeps(s: System, e: Event)
    requires Core(s) && CallStep(s, e).Some?
    ensures Core(CallStep(s, e).value)
  {
    if e.CallSubmit? {
      SubmitKeeps(s, e.operation);
    } else if e.CallExpire? {
      ExpireKeeps(s, e.index, e.cause);
    } else if e.CallClaim? {
      ClaimKeeps(s, e.index);
    } else if e.CallMark? {
      MarkKeeps(s, e.index);
    } else if e.CallWrite? {
      CommandWriteKeeps(s, e.index, e.isComplete, e.cause);
    } else if e.CallTake? {
      TakeKeeps(s, e.index);
    } else if e.CallTimeOut? {
      TimeOutKeeps(s, e.index, e.cause);
    } else if e.CallAbandon? {
      AbandonKeeps(s, e.index);
    } else if e.CallCheckCancel? {
      CheckCancelKeeps(s, e.index);
    } else if e.CallWriteCancel? && e.isWritten {
      CancelledKeeps(s, e.index);
    } else if e.CallWriteCancel? {
      UncancelledKeeps(s, e.index);
    } else {
      CloseKeeps(s, e.index);
    }
  }

  lemma ExpireFits(s: System, i: nat, cause: Cause)
    requires i < |s.phases| == |s.pipe.commands| && CallInvAt(s, i) && (s.phases[i].Fresh? || s.phases[i].Claimed?)
    ensures PhaseFits(s, i, Abandoning(cause, false))
  {
  }

  lemma ExpireKeeps(s: System, i: nat, cause: Cause)
    requires Core(s) && CallStep(s, CallExpire(i, cause)).Some?
    ensures Core(CallStep(s, CallExpire(i, cause)).value)
  {
    assert CallInvAt(s, i);
    ExpireFits(s, i, cause);
    PhaseKeeps(s, i, Abandoning(cause, false), CallStep(s, CallExpire(i, cause)).value.writer);
  }

  lemma ClaimFits(s: System, i: nat)
    requires i < |s.phases| == |s.pipe.commands| && CallInvAt(s, i)
    ensures s.phases[i].Fresh? ==> PhaseFits(s, i, Claimed)
    ensures s.phases[i].CancelWriting? ==> PhaseFits(s, i, CancelClaimed(s.phases[i].error))
  {
  }

  lemma ClaimKeeps(s: System, i: nat)
    requires Core(s) && CallStep(s, CallClaim(i)).Some?
    ensures Core(CallStep(s, CallClaim(i)).value)
  {
    assert CallInvAt(s, i);
    ClaimFits(s, i);
    PhaseKeeps(s, i, CallStep(s, CallClaim(i)).value.phases[i], Some(i));
  }

  lemma TakeKeeps(s: System, i: nat)
    requires Core(s) && CallStep(s, CallTake(i)).Some?
    ensures Core(CallStep(s, CallTake(i)).value)
  {
    assert CallInvAt(s, i);
    PhaseKeeps(s, i, Returned(Answered(s.pipe.commands[i].deliveries[0])), s.writer);
  }

  lemma TimeOutKeeps(s: System, i: nat, cause: Cause)
    requires Core(s) && CallStep(s, CallTimeOut(i, cause)).Some?
    ensures Core(CallStep(s, CallTimeOut(i, cause)).value)
  {
    assert CallInvAt(s, i);
    PhaseKeeps(s, i, Abandoning(cause, true), s.writer);
  }

  lemma CheckCancelFits(s: System, i: nat)
    requires i < |s.phases| == |s.pipe.commands| && CallInvAt(s, i) && s.phases[i].Cancelling?
    ensures PhaseFits(s, i, CancelWriting(s.phases[i].error))
  {
  }

  lemma CheckCancelKeeps(s: System, i: nat)
    requires Core(s) && CallStep(s, CallCheckCancel(i)).Some?
    ensures Core(CallStep(s, CallCheckCancel(i)).value)
  {
    assert CallInvAt(s, i);
    ReturnFits(s, i);
    CheckCancelFits(s, i);
    PhaseKeeps(s, i, CallStep(s, CallCheckCancel(i)).value.phases[i], s.writer);
  }

  lemma PauseKeeps(s: System, token: string, isDeadlineSet: bool)
    requires Core(s)
    ensures Core(Step(s, PauseTry(token, isDeadlineSet)).value)
  {
    var t := Step(s, PauseTry(token, isDeadlineSet)).value;
    forall i | 0 <= i < |t.phases|
      ensures CallInvAt(t, i)
    {
      assert CallInvAt(s, i);
    }
  }

  lemma LifetimeKeeps(s: System)
    requires Core(s)
    ensures Core(s.(isCancelled := true))
  {
    OneCallChanges(s, s.(isCancelled := true), |s.phases|);
  }

  lemma EndPauseKeeps(s: System, token: string, isDeadlineSet: bool)
    requires Core(s)
    ensures Core(s.(pipe := EndPause(s.pipe, token, isDeadlineSet).0))
  {
    OneCallChanges(s, s.(pipe := EndPause(s.pipe, token, isDeadlineSet).0), |s.phases|);
  }

  lemma CloseSectionKeeps(s: System)
    requires Core(s) && s.isCancelled
    ensures Core(s.(pipe := Disconnect(s.pipe)))
  {
    DisconnectKeeps(s, s.(pipe := Disconnect(s.pipe)));
  }

  lemma CoreKeptOutside(s: System, e: Event)
    requires Core(s) && Step(s, e).Some? && IsOutside(e)
    ensures Core(Step(s, e).value)
  {
    if e.CancelLifetime? {
      LifetimeKeeps(s);
    } else if e.PauseEnd? {
      EndPauseKeeps(s, e.token, e.isDeadlineSet);
    } else if e.CloseSection? {
      CloseSectionKeeps(s);
    } else {
      PauseKeeps(s, e.token, e.isDeadlineSet);
    }
  }

  lemma CoreKept(s: System, e: Event)
    requires Core(s) && Step(s, e).Some?
    ensures Core(Step(s, e).value)
  {
    if IsOutside(e) {
      CoreKeptOutside(s, e);
    } else {
      InsideKeeps(s, e);
    }
  }

  lemma InsideKeeps(s: System, e: Event)
    requires Core(s) && (ReaderStep(s, e).Some? || CallStep(s, e).Some?)
    ensures ReaderStep(s, e).Some? ==> Core(ReaderStep(s, e).value)
    ensures CallStep(s, e).Some? ==> Core(CallStep(s, e).value)
  {
    if ReaderStep(s, e).Some? {
      ReaderStepKeeps(s, e);
    }
    if CallStep(s, e).Some? {
      CallStepKeeps(s, e);
    }
  }

  /** Call `i` alone moves, and takes, keeps or releases the slot as its phase says. */
  lemma SlotMoves(s: System, t: System, i: nat)
    requires SlotInv(s) && i < |s.phases| == |t.phases| && t.phases == s.phases[i := t.phases[i]]
    requires HoldsSlot(t.phases[i]) <==> t.writer == Some(i)
    requires t.writer == s.writer || s.writer == None || s.writer == Some(i)
    requires t.writer == s.writer || t.writer == None || t.writer == Some(i)
    ensures SlotInv(t)
  {
  }

  /** A step of a call that has been issued changes the phase of that call alone. */
  lemma OneCallMoves(s: System, e: Event)
    requires s.pipe.Valid() && CallStep(s, e).Some? && !e.CallSubmit?
    ensures At(s, e.index).Some?
    ensures |CallStep(s, e).value.phases| == |s.phases|
    ensures CallStep(s, e).value.phases == s.phases[e.index := CallStep(s, e).value.phases[e.index]]
  {
  }

  /** Taking and releasing: what one step does to the slot agrees with what it does to the call. */
  lemma SlotFollowsCall(s: System, e: Event)
    requires s.pipe.Valid() && CallStep(s, e).Some? && !e.CallSubmit? && At(s, e.index).Some?
    requires HoldsSlot(s.phases[e.index]) <==> s.writer == Some(e.index)
    requires |CallStep(s, e).value.phases| == |s.phases|
    ensures var t := CallStep(s, e).value;
            && (HoldsSlot(t.phases[e.index]) <==> t.writer == Some(e.index))
            && (t.writer != s.writer ==> s.writer == None || s.writer == Some(e.index))
            && (t.writer != s.writer ==> t.writer == None || t.writer == Some(e.index))
  {
  }

  lemma SlotKeptByCall(s: System, e: Event)
    requires Shape(s) && SlotInv(s) && CallStep(s, e).Some?
    ensures SlotInv(CallStep(s, e).value)
  {
    if !e.CallSubmit? {
      OneCallMoves(s, e);
      SlotFollowsCall(s, e);
      SlotMoves(s, CallStep(s, e).value, e.index);
    }
  }

  predicate IsOutside(e: Event) {
    e.CancelLifetime? || e.CloseSection? || e.PauseTry? || e.PauseEnd?
  }

  /** Neither the reader nor what happens outside touches the calls and their writes. */
  lemma CallsStand(s: System, e: Event)
    requires s.pipe.Valid() && Step(s, e).Some? && (IsOutside(e) || ReaderStep(s, e).Some?)
    ensures var t := Step(s, e).value; t.phases == s.phases && t.writes == s.writes && t.writer == s.writer
  {
  }

  lemma SlotKept(s: System, e: Event)
    requires Shape(s) && SlotInv(s) && Step(s, e).Some?
    ensures SlotInv(Step(s, e).value)
  {
    if IsOutside(e) || ReaderStep(s, e).Some? {
      CallsStand(s, e);
    } else {
      SlotKeptByCall(s, e);
    }
  }

  lemma LinkKeptOutside(s: System, e: Event)
    requires Shape(s) && LinkInv(s) && Step(s, e).Some? && IsOutside(e)
    ensures LinkInv(Step(s, e).value)
  {
  }

  lemma LinkKept(s: System, e: Event)
    requires Shape(s) && LinkInv(s) && Step(s, e).Some?
    ensures LinkInv(Step(s, e).value)
  {
    if IsOutside(e) {
      LinkKeptOutside(s, e);
    } else if ReaderStep(s, e).Some? {
      LinkKeptByReader(s, e);
    } else {
      LinkKeptByCall(s, e);
    }
  }

  lemma LinkKeptByReader(s: System, e: Event)
    requires Shape(s) && LinkInv(s) && ReaderStep(s, e).Some?
    ensures LinkInv(ReaderStep(s, e).value)
  {
  }

  /** No call touches the reader, or connects or reopens the pipe; a command is issued only on a connected one. */
  lemma LinkFrame(s: System, e: Event)
    requires s.pipe.Valid() && CallStep(s, e).Some?
    ensures var t := CallStep(s, e).value;
            && t.reader == s.reader && t.pipe.generation == s.pipe.generation
            && (t.pipe.isConnected == s.pipe.isConnected || !t.pipe.hasReader)
            && (t.pipe.isConnected ==> s.pipe.isConnected)
            && (t.pipe.hasReader ==> s.pipe.hasReader)
            && (t.phases != [] ==> s.phases != [] || s.pipe.isConnected)
  {
  }

  lemma LinkKeptByCall(s: System, e: Event)
    requires Shape(s) && LinkInv(s) && CallStep(s, e).Some?
    ensures LinkInv(CallStep(s, e).value)
  {
    LinkFrame(s, e);
  }

  lemma StepKeeps(s: System, e: Event)
    requires Inv(s) && Step(s, e).Some?
    ensures Inv(Step(s, e).value)
  {
    CoreKept(s, e);
    SlotKept(s, e);
    LinkKept(s, e);
  }

  lemma {:induction false} ExecKeeps(s: System, es: seq<Event>)
    requires Inv(s) && Exec(s, es).Some?
    ensures Inv(Exec(s, es).value)
    decreases |es|
  {
    if es != [] {
      StepKeeps(s, es[0]);
      ExecKeeps(Step(s, es[0]).value, es[1..]);
    }
  }

  lemma ReachableInv(s: System)
    requires Reachable(s)
    ensures Inv(s)
  {
    var es: seq<Event> :| Exec(Start, es) == Some(s);
    ExecKeeps(Start, es);
  }
}
