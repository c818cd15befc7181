/**
 The mutex-guarded sections of the owned-client control pipe, each as a
 function from the pipe state before the section to the state after it.

 A command is named by its position in `commands`; the source names it by a
 reference to a fresh record.  The one-slot delivery channel of a command is kept
 as the list of everything ever sent into it.
 */
module PipeSections {
  import opened Common

  const SEQUENCE_LIMIT: nat := 0xFFFF_FFFF_FFFF_FFFF

  function Decimal(n: nat): string {
    (if n < 10 then "" else Decimal(n / 10)) + ["0123456789"[n % 10]]
  }

  function RequestID(sequence: nat): string {
    "command-" + Decimal(sequence)
  }

  /** What a processed command reports; operation-specific fields are covered by `isShapeAccepted`. */
  datatype CommandResult = CommandResult(status: string, isProcessed: bool, isGameplayComplete: bool,
                                         threadID: nat, completedTickMS: nat)

  /** A "result" frame from the peer.  `isShapeAccepted` is the verdict of the per-operation shape checks. */
  datatype Receipt = Receipt(requestID: string, operation: string, sequence: nat,
                             result: Option<CommandResult>, failure: Option<string>, isShapeAccepted: bool)

  /** The checks on a receipt that need no pipe state. */
  predicate WellFormed(rc: Receipt) {
    && rc.requestID != "" && rc.operation != "" && rc.sequence != 0
    && (rc.result.Some? || rc.failure.Some?)
    && (rc.result.Some? ==> !rc.result.value.isGameplayComplete)
    && (rc.failure.Some? ==> rc.failure.value != "")
    && (rc.failure.None? ==> rc.result.value.status == "processed" && rc.result.value.isProcessed
                             && rc.result.value.threadID != 0 && rc.result.value.completedTickMS != 0)
  }

  /** The peer stated what became of the command, rather than that it does not know. */
  predicate IsConclusive(rc: Receipt) {
    rc.failure != Some("outcome_unknown")
  }

  datatype Delivery = Received(receipt: Receipt) | Disconnected(isDispatched: bool)

  datatype Command = Command(requestID: string, operation: string, sequence: nat,
                             isDispatched: bool, deliveries: seq<Delivery>)

  datatype Pipe = Pipe(pauseID: string, isPauseUnsafe: bool, isConnected: bool, hasReader: bool,
                       generation: string, pending: Option<nat>, requestSequence: nat, commands: seq<Command>)
  {
    predicate Valid() {
      && |commands| == requestSequence <= SEQUENCE_LIMIT
      && (pending.Some? ==> pending.value < |commands|)
      && forall i :: 0 <= i < |commands| ==> commands[i].sequence == i + 1
    }

    predicate IsFenced() { pauseID != "" }
  }

  datatype Cause = Canceled | DeadlineExceeded | OtherCause

  datatype RequestError = RequestError(requestID: string, operation: string, isDispatched: bool, code: string)

  // ---------------------------------------------------------------- Request

  datatype Submission = Paused | NotConnected | Busy | Exhausted | Submitted(index: nat)

  /** The locked part of `Request`: refuse, or issue the next command. */
  function Submit(p: Pipe, operation: string): (Pipe, Submission) {
    if p.IsFenced() then (p, Paused)
    else if !p.isConnected || !p.hasReader || p.generation == "" then (p, NotConnected)
    else if p.pending.Some? then (p, Busy)
    else if p.requestSequence == SEQUENCE_LIMIT then (p, Exhausted)
    else
      var sequence := p.requestSequence + 1;
      var command := Command(RequestID(sequence), operation, sequence, false, []);
      (p.(requestSequence := sequence, pending := Some(|p.commands|), commands := p.commands + [command]),
       Submitted(|p.commands|))
  }

  /** The locked part of `write`: the mark set just before the frame is written. */
  function MarkDispatched(p: Pipe, i: nat): (Pipe, bool)
    requires i < |p.commands|
  {
    if p.pending != Some(i) then (p, false)
    else (p.(commands := p.commands[i := p.commands[i].(isDispatched := true)]), true)
  }

  function AbandonError(command: Command, cause: Cause): RequestError {
    RequestError(command.requestID, command.operation, command.isDispatched,
                 if command.isDispatched then "outcome_unknown"
                 else match cause
                      case Canceled => "cancelled"
                      case DeadlineExceeded => "deadline_exceeded"
                      case OtherCause => "not_dispatched")
  }

  function Abandon(p: Pipe, i: nat): Pipe
    requires i < |p.commands|
  {
    p.(pending := if p.pending == Some(i) then None else p.pending,
       isPauseUnsafe := p.isPauseUnsafe || p.commands[i].isDispatched)
  }

  // ------------------------------------------------------- receipts and loss

  function Deliver(p: Pipe, delivery: Delivery): Pipe
    requires p.pending.Some? && p.pending.value < |p.commands|
  {
    var i := p.pending.value;
    p.(pending := None,
       commands := p.commands[i := p.commands[i].(deliveries := p.commands[i].deliveries + [delivery])])
  }

  function FailPending(p: Pipe): Pipe
    requires p.Valid()
  {
    if p.pending.None? then p
    else Deliver(p, Disconnected(p.commands[p.pending.value].isDispatched))
  }

  datatype Verdict = Rejected | Dropped | Delivered

  function Receive(p: Pipe, rc: Receipt): (Pipe, Verdict)
    requires p.Valid()
  {
    if !WellFormed(rc) then (p, Rejected)
    else if rc.sequence > p.requestSequence then (p, Rejected)
    else if p.pending.None? || rc.sequence < p.commands[p.pending.value].sequence then (p, Dropped)
    else
      var command := p.commands[p.pending.value];
      if rc.sequence != command.sequence || rc.requestID != command.requestID || rc.operation != command.operation then
        (p, Rejected)
      else if rc.failure.None? && !rc.isShapeAccepted then (p, Rejected)
      else
        (Deliver(p, Received(rc)).(isPauseUnsafe := p.isPauseUnsafe || !IsConclusive(rc)), Delivered)
  }

  /** The locked part of `Close`, and of `run` once `serve` has returned. */
  function Disconnect(p: Pipe): Pipe
    requires p.Valid()
  {
    FailPending(p).(isConnected := false, hasReader := false)
  }

  // ---------------------------------------------------------- debugger fence

  datatype PauseVerdict = Refused | DeadlineFailed | Installed | Unsettled

  function TryPause(p: Pipe, token: string, isDeadlineSet: bool): (Pipe, PauseVerdict) {
    if p.IsFenced() || p.isPauseUnsafe || !p.isConnected || !p.hasReader then (p, Refused)
    else if p.pending.Some? then (p, Unsettled)
    else if !isDeadlineSet then (p.(pauseID := ""), DeadlineFailed)
    else (p.(pauseID := token), Installed)
  }

  datatype EndVerdict = TokenChanged | BridgeClosed | ReadDeadlineFailed | Lifted

  /** The fence comes down for its own token, whatever becomes of the deadline that is to be reset with it. */
  function EndPause(p: Pipe, token: string, isDeadlineSet: bool): (Pipe, EndVerdict) {
    if p.pauseID != token then (p, TokenChanged)
    else
      var q := p.(pauseID := "");
      (q, if !p.hasReader then BridgeClosed else if !isDeadlineSet then ReadDeadlineFailed else Lifted)
  }
}
