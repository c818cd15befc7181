/**
 What can still happen on a control pipe: exactly when a closed pipe can show
 itself connected again, and exactly when another command frame can be written.
 */
module PipeFutures {
  import opened Common
  import opened PipeSections
  import opened PipeRuns
  import opened PipeSafety

  ghost predicate Reaches(s: System, t: System) {
    exists es: seq<Event> :: Exec(s, es) == Some(t)
  }

  lemma ReachesSelf(s: System)
    ensures Reaches(s, s)
  {
    assert Exec(s, []) == Some(s);
  }

  lemma ReachesThen(s: System, t: System, e: Event)
    requires Inv(s) && Reaches(s, t) && t.pipe.Valid() && Step(t, e).Some?
    ensures Inv(t) && Inv(Step(t, e).value) && Reaches(s, Step(t, e).value)
  {
    var es: seq<Event> :| Exec(s, es) == Some(t);
    ExecAppend(s, es, e);
    StepKeeps(t, e);
  }

  lemma ReachesBoth(s: System, t: System, u: System)
    requires Inv(s) && Reaches(s, t) && Reaches(t, u)
    ensures Reaches(s, u)
  {
    var es: seq<Event> :| Exec(t, es) == Some(u);
    ReachesAll(s, t, es);
  }

  lemma {:induction false} ReachesAll(s: System, t: System, es: seq<Event>)
    requires Inv(s) && Reaches(s, t) && Exec(t, es).Some?
    ensures Reaches(s, Exec(t, es).value)
    decreases |es|
  {
    if es != [] {
      ReachesThen(s, t, es[0]);
      ReachesAll(s, Step(t, es[0]).value, es[1..]);
    }
  }

  // ----------------------------------------------- connected after a close

  /** It shows itself connected, or the reader holds a state frame it has read and will publish. */
  predicate MayShowConnected(s: System) {
    s.pipe.isConnected || s.reader.StateRead?
  }

  lemma StaysDisconnected(s: System, e: Event)
    requires Shape(s) && IsDead(s) && !MayShowConnected(s) && Step(s, e).Some?
    ensures !MayShowConnected(Step(s, e).value)
  {
    if IsOutside(e) {
    } else if ReaderStep(s, e).Some? {
      DisconnectedReaderStep(s, e);
    } else {
      DisconnectedCallStep(s, e);
    }
  }

  lemma DisconnectedReaderStep(s: System, e: Event)
    requires Shape(s) && IsDead(s) && !MayShowConnected(s) && ReaderStep(s, e).Some?
    ensures !MayShowConnected(ReaderStep(s, e).value)
  {
  }

  lemma DisconnectedCallStep(s: System, e: Event)
    requires Shape(s) && !MayShowConnected(s) && CallStep(s, e).Some?
    ensures !MayShowConnected(CallStep(s, e).value)
  {
  }

  lemma {:induction false} DisconnectedForever(s: System, es: seq<Event>)
    requires Inv(s) && IsDead(s) && !MayShowConnected(s) && Exec(s, es).Some?
    ensures !Exec(s, es).value.pipe.isConnected
    decreases |es|
  {
    if es != [] {
      StepKeeps(s, es[0]);
      DeadStep(s, es[0]);
      StaysDisconnected(s, es[0]);
      DisconnectedForever(Step(s, es[0]).value, es[1..]);
    }
  }

  /**
   A pipe whose file is gone is shown connected, now or later, exactly when it is
   so now or the reader still holds a state frame it read before the close.
   */
  lemma ConnectedAfterCloseIff(s: System)
    requires Reachable(s) && IsDead(s)
    ensures (exists t :: Reaches(s, t) && t.pipe.isConnected) <==> MayShowConnected(s)
  {
    ReachableInv(s);
    ReachesSelf(s);
    if s.reader.StateRead? {
      ReachesThen(s, s, ReaderPublish);
      assert Step(s, ReaderPublish).value.pipe.isConnected;
    }
    if !MayShowConnected(s) {
      forall t | Reaches(s, t)
        ensures !t.pipe.isConnected
      {
        var es: seq<Event> :| Exec(s, es) == Some(t);
        DisconnectedForever(s, es);
      }
    }
  }

  // --------------------------------------------------- further command frames

  /** A complete frame of command `i`, or any attempt at one. */
  predicate IsLogged(writes: seq<Write>, i: nat, isComplete: bool) {
    CommandWrite(i, true) in writes || (!isComplete && CommandWrite(i, false) in writes)
  }

  /** The pipe is connected, or nothing yet keeps the reader from connecting it. */
  predicate CanConnect(s: System) {
    || (s.reader.Connecting? && !s.isCancelled)
    || (s.pipe.hasReader && (s.pipe.isConnected || s.reader.Attached? || s.reader.Greeted?
                             || s.reader.Accepted? || s.reader.StateRead?))
  }

  predicate CanIssue(s: System) {
    CanConnect(s) && s.pipe.requestSequence < SEQUENCE_LIMIT
  }

  predicate CanMark(s: System) {
    && s.pipe.pending.Some? && s.pipe.pending.value < |s.phases|
    && (s.phases[s.pipe.pending.value].Fresh? || s.phases[s.pipe.pending.value].Claimed?)
  }

  ghost predicate HasWriter(s: System) {
    exists i: nat :: IsCallWriting(s, i)
  }

  /** A caller is writing, or the pending command is still to be marked, or one can still be issued. */
  ghost predicate CanWrite(s: System, isComplete: bool) {
    || ((isComplete ==> s.pipe.hasReader) && (HasWriter(s) || CanMark(s)))
    || CanIssue(s)
  }

  // ------------------------------------------------------- nothing can follow

  lemma NoIssueOutside(s: System, e: Event)
    requires Shape(s) && Step(s, e).Some? && IsOutside(e)
    ensures var t := Step(s, e).value;
            && (CanIssue(t) ==> CanIssue(s)) && (CanMark(t) ==> CanMark(s))
            && (t.pipe.hasReader ==> s.pipe.hasReader)
  {
  }

  /** Before the first command a receipt is always rejected, so a reader that holds one never connects. */
  lemma NoIssueByReader(s: System, e: Event)
    requires Shape(s) && LinkInv(s) && ReaderStep(s, e).Some?
    ensures var t := ReaderStep(s, e).value;
            && (CanIssue(t) ==> CanIssue(s)) && (CanMark(t) ==> CanMark(s))
            && (t.pipe.hasReader ==> s.pipe.hasReader || CanConnect(s))
            && (e.ReaderAttach? ==> t.phases == [])
  {
  }

  lemma NoIssueByCall(s: System, e: Event)
    requires Shape(s) && CallStep(s, e).Some? && !e.CallSubmit?
    ensures var t := CallStep(s, e).value;
            (CanIssue(t) ==> CanIssue(s)) && (t.pipe.hasReader ==> s.pipe.hasReader)
  {
  }

  lemma NoMarkByCall(s: System, e: Event)
    requires Shape(s) && CallStep(s, e).Some? && !e.CallSubmit? && At(s, e.index).Some?
    requires CallStep(s, e).value.phases == s.phases[e.index := CallStep(s, e).value.phases[e.index]]
    ensures CanMark(CallStep(s, e).value) ==> CanMark(s)
  {
    PendingByCall(s, e);
    NeitherFreshAgain(s, e);
  }

  /** No step of a call makes another command pending. */
  lemma PendingByCall(s: System, e: Event)
    requires s.pipe.Valid() && CallStep(s, e).Some? && !e.CallSubmit?
    ensures var t := CallStep(s, e).value; t.pipe.pending.Some? ==> t.pipe.pending == s.pipe.pending
  {
  }

  /** A call that is yet to be marked was so before. */
  lemma NeitherFreshAgain(s: System, e: Event)
    requires s.pipe.Valid() && CallStep(s, e).Some? && !e.CallSubmit? && At(s, e.index).Some?
    requires |CallStep(s, e).value.phases| == |s.phases|
    ensures var t := CallStep(s, e).value;
            t.phases[e.index].Fresh? || t.phases[e.index].Claimed? ==> s.phases[e.index].Fresh? || s.phases[e.index].Claimed?
  {
  }

  lemma NoWriterByCall(s: System, e: Event)
    requires s.pipe.Valid() && CallStep(s, e).Some? && !e.CallSubmit? && At(s, e.index).Some?
    ensures IsCallWriting(CallStep(s, e).value, e.index) ==> CanMark(s) || IsCallWriting(s, e.index)
  {
  }

  /** Only a caller that is writing logs a command frame, and a complete one needs the file. */
  lemma OnlyWritersLog(s: System, e: Event, i: nat, isComplete: bool)
    requires s.pipe.Valid() && CallStep(s, e).Some?
    requires IsLogged(CallStep(s, e).value.writes, i, isComplete) && !IsLogged(s.writes, i, isComplete)
    ensures IsCallWriting(s, i) && (isComplete ==> s.pipe.hasReader)
  {
  }

  lemma NothingFollowsCall(s: System, e: Event, isComplete: bool)
    requires Inv(s) && CallStep(s, e).Some? && !e.CallSubmit? && !CanWrite(s, isComplete)
    ensures !CanWrite(CallStep(s, e).value, isComplete)
  {
    var t := CallStep(s, e).value;
    OneCallMoves(s, e);
    NoIssueByCall(s, e);
    NoMarkByCall(s, e);
    NoWriterByCall(s, e);
    if HasWriter(t) {
      var i: nat :| IsCallWriting(t, i);
      assert i != e.index ==> IsCallWriting(s, i);
      assert HasWriter(s) || CanMark(s);
    }
  }

  lemma NothingFollowsStep(s: System, e: Event, isComplete: bool)
    requires Inv(s) && Step(s, e).Some? && !CanWrite(s, isComplete)
    ensures !CanWrite(Step(s, e).value, isComplete)
    ensures forall i: nat :: IsLogged(Step(s, e).value.writes, i, isComplete) ==> IsLogged(s.writes, i, isComplete)
  {
    var t := Step(s, e).value;
    if IsOutside(e) || ReaderStep(s, e).Some? {
      CallsStand(s, e);
      NothingFollowsAround(s, e, isComplete);
    } else if e.CallSubmit? {
      assert t == s;
    } else {
      NothingFollowsCall(s, e, isComplete);
      forall i: nat | IsLogged(t.writes, i, isComplete)
        ensures IsLogged(s.writes, i, isComplete)
      {
        if !IsLogged(s.writes, i, isComplete) {
          OnlyWritersLog(s, e, i, isComplete);
        }
      }
    }
  }

  lemma NothingFollowsAround(s: System, e: Event, isComplete: bool)
    requires Inv(s) && Step(s, e).Some? && (IsOutside(e) || ReaderStep(s, e).Some?) && !CanWrite(s, isComplete)
    requires Step(s, e).value.phases == s.phases
    ensures !CanWrite(Step(s, e).value, isComplete)
  {
    var t := Step(s, e).value;
    StepKeeps(s, e);
    if IsOutside(e) {
      NoIssueOutside(s, e);
    } else {
      NoIssueByReader(s, e);
    }
    forall i: nat
      ensures IsCallWriting(t, i) ==> IsCallWriting(s, i)
    {
    }
  }

  lemma {:induction false} NothingFollows(s: System, es: seq<Event>, isComplete: bool)
    requires Inv(s) && Exec(s, es).Some? && !CanWrite(s, isComplete)
    ensures forall i: nat :: IsLogged(Exec(s, es).value.writes, i, isComplete) ==> IsLogged(s.writes, i, isComplete)
    decreases |es|
  {
    if es != [] {
      StepKeeps(s, es[0]);
      NothingFollowsStep(s, es[0], isComplete);
      NothingFollows(Step(s, es[0]).value, es[1..], isComplete);
    }
  }

  // ---------------------------------------------------- something can follow

  /** A later state in which the log of writes is still the same. */
  ghost predicate Leads(s: System, t: System) {
    Reaches(s, t) && Inv(t) && t.writes == s.writes
  }

  lemma LeadsThen(s: System, t: System, e: Event)
    requires Inv(s) && Leads(s, t) && Step(t, e).Some? && Step(t, e).value.writes == t.writes
    ensures Leads(s, Step(t, e).value)
  {
    ReachesThen(s, t, e);
  }

  lemma LeadsSelf(s: System)
    requires Inv(s)
    ensures Leads(s, s)
  {
    ReachesSelf(s);
  }

  lemma LeadsBoth(s: System, t: System, u: System)
    requires Inv(s) && Leads(s, t) && Leads(t, u)
    ensures Leads(s, u)
  {
    ReachesBoth(s, t, u);
  }

  /** Whoever else holds the writer slot, without a command frame under way, can let it go. */
  lemma SlotFrees(s: System) returns (t: System)
    requires Inv(s) && CanMark(s) && !HasWriter(s)
    ensures Leads(s, t) && t.pipe == s.pipe && |t.phases| == |s.phases| && t.reader == s.reader
    ensures var p := s.pipe.pending.value;
            t.phases[p] == s.phases[p] && (t.phases[p].Fresh? ==> t.writer.None?)
  {
    LeadsSelf(s);
    t := s;
    if s.writer.Some? && s.phases[s.pipe.pending.value].Fresh? {
      var j := s.writer.value;
      assert !IsCallWriting(s, j);
      var e := if s.phases[j].Claimed? then CallExpire(j, OtherCause) else CallWriteCancel(j, false);
      LeadsThen(s, s, e);
      t := Step(s, e).value;
    }
  }

  lemma ClaimFollows(s: System) returns (t: System)
    requires Inv(s) && CanMark(s) && !HasWriter(s)
    ensures Leads(s, t) && t.pipe == s.pipe && |t.phases| == |s.phases| && t.phases[s.pipe.pending.value].Claimed?
  {
    var p := s.pipe.pending.value;
    t := SlotFrees(s);
    if t.phases[p].Fresh? {
      LeadsThen(s, t, CallClaim(p));
      t := Step(t, CallClaim(p)).value;
    }
  }

  lemma MarkFollows(s: System) returns (t: System)
    requires Inv(s) && CanMark(s) && !HasWriter(s)
    ensures Leads(s, t) && HasWriter(t) && t.pipe.hasReader == s.pipe.hasReader
  {
    var p := s.pipe.pending.value;
    var u := ClaimFollows(s);
    LeadsThen(s, u, CallMark(p));
    t := Step(u, CallMark(p)).value;
    assert IsCallWriting(t, p);
  }

  /** What freeing the slot leaves alone. */
  predicate OnlyFreesPending(s: System, t: System) {
    && t.pipe.requestSequence == s.pipe.requestSequence && t.pipe.hasReader == s.pipe.hasReader
    && t.pipe.isConnected == s.pipe.isConnected && t.reader == s.reader && t.isCancelled == s.isCancelled
  }

  lemma WaitingTimesOut(s: System, p: nat) returns (t: System)
    requires Inv(s) && s.pipe.pending == Some(p) && p < |s.phases| && s.phases[p].Waiting?
    ensures Leads(s, t) && t.pipe == s.pipe && OnlyFreesPending(s, t) && |t.phases| == |s.phases|
    ensures t.phases[p].Abandoning?
  {
    assert CallInvAt(s, p);
    LeadsSelf(s);
    LeadsThen(s, s, CallTimeOut(p, OtherCause));
    t := Step(s, CallTimeOut(p, OtherCause)).value;
  }

  lemma AbandoningGoes(s: System, p: nat) returns (t: System)
    requires Inv(s) && s.pipe.pending == Some(p) && p < |s.phases| && s.phases[p].Abandoning?
    ensures Leads(s, t) && t.pipe.pending.None? && OnlyFreesPending(s, t)
  {
    LeadsSelf(s);
    LeadsThen(s, s, CallAbandon(p));
    t := Step(s, CallAbandon(p)).value;
  }

  /** A pending command whose frame has been written, or that is being abandoned, can be abandoned. */
  lemma PendingGoes(s: System) returns (t: System)
    requires Inv(s) && !HasWriter(s) && !CanMark(s)
    ensures Leads(s, t) && t.pipe.pending.None? && OnlyFreesPending(s, t)
  {
    LeadsSelf(s);
    t := s;
    if s.pipe.pending.Some? {
      var p := s.pipe.pending.value;
      assert CallInvAt(s, p) && !IsCallWriting(s, p);
      if s.phases[p].Waiting? {
        t := WaitingTimesOut(s, p);
      }
      var u := AbandoningGoes(t, p);
      LeadsBoth(s, t, u);
      t := u;
    }
  }

  lemma FenceComesDown(s: System) returns (t: System)
    requires Inv(s)
    ensures Leads(s, t) && !t.pipe.IsFenced() && t == s.(pipe := s.pipe.(pauseID := ""))
  {
    LeadsSelf(s);
    var e := PauseEnd(s.pipe.pauseID, true);
    LeadsThen(s, s, e);
    t := Step(s, e).value;
  }

  /** How far the reader still is from publishing a connected pipe. */
  function Distance(s: System): nat {
    if s.pipe.isConnected then 0
    else match s.reader
      case Connecting => 5
      case Attached => 4
      case Greeted(_) => 3
      case Accepted => 2
      case _ => 1
  }

  /** What the reader does next on its way there. */
  function NextRead(reader: Reader): Event {
    match reader
    case Connecting => ReaderAttach
    case Attached => ReaderGreet("g")
    case Greeted(_) => ReaderAccept
    case Accepted => ReaderReadState
    case _ => ReaderPublish
  }

  lemma ReaderAdvances(s: System)
    requires Shape(s) && CanConnect(s) && !(s.pipe.hasReader && s.pipe.isConnected)
    ensures Step(s, NextRead(s.reader)).Some?
    ensures var t := Step(s, NextRead(s.reader)).value;
            && CanConnect(t) && t.phases == s.phases && t.writes == s.writes && t.pipe.pending == s.pipe.pending
            && t.pipe.requestSequence == s.pipe.requestSequence && t.pipe.pauseID == s.pipe.pauseID
            && t.pipe.hasReader
            && (Distance(t) < Distance(s) || s.reader.Connecting?) && (s.reader.Connecting? ==> t.reader.Attached?)
  {
  }

  lemma {:induction false} ReaderConnects(s: System) returns (t: System)
    requires Inv(s) && CanConnect(s)
    ensures Leads(s, t) && t.pipe.hasReader && t.pipe.isConnected && t.phases == s.phases
    ensures t.pipe.pending == s.pipe.pending && t.pipe.requestSequence == s.pipe.requestSequence
    ensures t.pipe.pauseID == s.pipe.pauseID
    decreases s.reader.Connecting?, Distance(s)
  {
    LeadsSelf(s);
    if s.pipe.hasReader && s.pipe.isConnected {
      t := s;
    } else {
      ReaderAdvances(s);
      LeadsThen(s, s, NextRead(s.reader));
      var next := Step(s, NextRead(s.reader)).value;
      t := ReaderConnects(next);
      LeadsBoth(s, next, t);
    }
  }

  lemma IssueFollows(s: System) returns (t: System)
    requires Inv(s) && CanIssue(s) && !HasWriter(s) && !CanMark(s)
    ensures Leads(s, t) && CanMark(t) && t.pipe.hasReader
  {
    var a := PendingGoes(s);
    var b := FenceComesDown(a);
    LeadsBoth(s, a, b);
    var c := ReaderConnects(b);
    LeadsBoth(s, b, c);
    t := IssueNow(c);
    LeadsBoth(s, c, t);
  }

  lemma IssueNow(s: System) returns (t: System)
    requires Inv(s) && s.pipe.hasReader && s.pipe.isConnected && s.pipe.pending.None? && !s.pipe.IsFenced()
    requires s.pipe.requestSequence < SEQUENCE_LIMIT
    ensures Leads(s, t) && CanMark(t) && t.pipe.hasReader
  {
    LeadsSelf(s);
    LeadsThen(s, s, CallSubmit("ping"));
    t := Step(s, CallSubmit("ping")).value;
  }

  /** From any state in which a frame can follow, a caller can be brought to write one. */
  lemma WriterFollows(s: System, isComplete: bool) returns (t: System)
    requires Inv(s) && CanWrite(s, isComplete)
    ensures Leads(s, t) && HasWriter(t) && (isComplete ==> t.pipe.hasReader)
  {
    LeadsSelf(s);
    t := s;
    if !HasWriter(s) || (isComplete && !s.pipe.hasReader) {
      if CanMark(s) && (isComplete ==> s.pipe.hasReader) {
        t := MarkFollows(s);
      } else {
        FileComesFirst(s, isComplete);
        var a := IssueFollows(s);
        if HasWriter(a) {
          t := a;
        } else {
          t := MarkFollows(a);
          LeadsBoth(s, a, t);
        }
      }
    }
  }

  /** Before the file is installed there are no commands. */
  lemma FileComesFirst(s: System, isComplete: bool)
    requires Inv(s) && CanWrite(s, isComplete)
    requires !HasWriter(s) || (isComplete && !s.pipe.hasReader)
    requires !CanMark(s) || (isComplete && !s.pipe.hasReader)
    ensures CanIssue(s) && !HasWriter(s) && !CanMark(s)
  {
    if isComplete && !s.pipe.hasReader {
      assert s.phases == [];
    }
  }

  ghost predicate WritesFrame(s: System, t: System, isComplete: bool) {
    Reaches(s, t) && exists i: nat :: IsLogged(t.writes, i, isComplete) && !IsLogged(s.writes, i, isComplete)
  }

  lemma FrameFollows(s: System, isComplete: bool) returns (t: System)
    requires Inv(s) && CanWrite(s, isComplete)
    ensures WritesFrame(s, t, isComplete)
  {
    var w := WriterFollows(s, isComplete);
    var i: nat :| IsCallWriting(w, i);
    assert CallInvAt(w, i);
    ReachesThen(s, w, CallWrite(i, isComplete, OtherCause));
    t := Step(w, CallWrite(i, isComplete, OtherCause)).value;
    assert CommandWrite(i, isComplete) in t.writes;
    assert IsLogged(t.writes, i, isComplete) && !IsLogged(s.writes, i, isComplete);
  }

  /**
   From any reachable state, after a partial frame or not, another command frame
   is ever attempted (or completed) exactly when a caller is writing, the pending
   command is still to be marked, or another command can still be issued.
   */
  lemma CommandFrameIff(s: System, isComplete: bool)
    requires Reachable(s)
    ensures (exists t :: WritesFrame(s, t, isComplete)) <==> CanWrite(s, isComplete)
  {
    ReachableInv(s);
    if CanWrite(s, isComplete) {
      var t := FrameFollows(s, isComplete);
    } else {
      forall t | Reaches(s, t)
        ensures !WritesFrame(s, t, isComplete)
      {
        var es: seq<Event> :| Exec(s, es) == Some(t);
        NothingFollows(s, es, isComplete);
      }
    }
  }

  /** In particular after a frame that was cut short. */
  lemma FrameAfterPartialIff(s: System, i: nat)
    requires Reachable(s) && CommandWrite(i, false) in s.writes
    ensures (exists t :: WritesFrame(s, t, false)) <==> HasWriter(s) || CanMark(s) || CanIssue(s)
    ensures (exists t :: WritesFrame(s, t, true)) <==> (s.pipe.hasReader && (HasWriter(s) || CanMark(s))) || CanIssue(s)
  {
    CommandFrameIff(s, false);
    CommandFrameIff(s, true);
  }

  /** After the close that answers a partial frame, no frame is ever completed on the pipe. */
  lemma FramesEndWithTheFile(s: System, t: System)
    requires Reachable(s) && IsDead(s) && Reaches(s, t)
    ensures forall i: nat :: CommandWrite(i, true) in t.writes ==> CommandWrite(i, true) in s.writes
  {
    CommandFrameIff(s, true);
    assert !WritesFrame(s, t, true);
    forall i: nat | CommandWrite(i, true) in t.writes
      ensures CommandWrite(i, true) in s.writes
    {
      assert IsLogged(t.writes, i, true);
    }
  }
}
