/**
 What the Lua operation exchange promises over whole runs, and when it can stop.
 */
module LuaSafety {
  import opened Common
  import opened LuaExchange

  // ---------------------------------------------------------------- safety

  /** A VM that follows the protocol never makes the host or itself report a protocol error. */
  lemma NeverProtocolError(limit: nat, s: System)
    requires Reachable(limit, s) && 0 < limit <= PENDING_LIMIT
    ensures !s.vm.mode.Broken?
    ensures s.serve.Ended? ==> !s.serve.isProtocolError
    ensures |s.host.pendingFrames| + (s.vm.sequence - s.host.sequence) <= limit
  {
    ReachableInv(limit, s);
    OwedBounded(limit, s.vm, s.host);
  }

  lemma {:induction false} QueuedSize(cs: seq<Completion>)
    requires forall a, b :: 0 <= a < b < |cs| ==> cs[a].sequence != cs[b].sequence
    ensures |Queued(cs)| == |cs|
  {
    if cs != [] {
      QueuedSize(cs[1..]);
      QueuedTail(cs);
      forall k | k in Queued(cs[1..])
        ensures k != cs[0].sequence
      {
        var i :| 0 <= i < |cs| - 1 && cs[1..][i].sequence == k;
        assert cs[i + 1].sequence == k;
      }
    }
  }

  lemma RoomInQueue(s: System, sequence: nat)
    requires HostInv(s) && |s.host.pendingFrames| <= PENDING_LIMIT && sequence in s.workers
    ensures |s.completions| < PENDING_LIMIT
  {
    QueuedSize(s.completions);
    var queued := Queued(s.completions);
    assert sequence in s.workers.Keys && sequence !in queued;
    SubsetSize({sequence} + queued, s.host.pendingFrames.Keys);
    assert |{sequence} + queued| == 1 + |queued|;
    assert |s.host.pendingFrames.Keys| == |s.host.pendingFrames|;
  }

  /** A worker that has its result always finds room in the completion queue. */
  lemma WorkerNeverBlocks(limit: nat, s: System, sequence: nat, value: string)
    requires Reachable(limit, s) && 0 < limit <= PENDING_LIMIT && sequence in s.workers
    ensures Step(limit, s, Work(sequence, value)).Some?
  {
    assert |s.completions| < PENDING_LIMIT by {
      NeverProtocolError(limit, s);
      HostInvariant(limit, s);
      RoomInQueue(s, sequence);
    }
  }

  lemma HostInvariant(limit: nat, s: System)
    requires Reachable(limit, s) && 0 < limit <= PENDING_LIMIT
    ensures HostInv(s) && s.host.sequence <= s.vm.sequence
  {
    ReachableInv(limit, s);
  }

  lemma {:induction false} SubsetSize(a: set<nat>, b: set<nat>)
    requires a <= b
    ensures |a| <= |b|
    decreases |a|
  {
    if k :| k in a {
      SubsetSize(a - {k}, b - {k});
    }
  }

  /**
   Every operation ever issued is either still awaited or was answered; the
   answer went to its issuer and carries what the worker of that request found.
   */
  lemma AnswersReachTheirIssuer(limit: nat, s: System, k: nat)
    requires Reachable(limit, s) && 0 < limit <= PENDING_LIMIT && 0 < k <= s.vm.sequence
    ensures |s.issued| == s.vm.sequence
    ensures k in s.received <==> k !in Awaited(s.vm)
    ensures k in s.received ==> k in s.computed && s.received[k] == (s.issued[k - 1].0, s.computed[k])
    ensures k in s.workers ==> s.workers[k] == s.issued[k - 1].1
  {
    ReachableInv(limit, s);
  }

  /**
   Handing an answer to the VM resumes exactly who asked: the branch, of this very
   Parallel block, whose request had that number, or the entry function.
   */
  lemma AnswerResumesItsIssuer(limit: nat, s: System)
    requires Reachable(limit, s) && 0 < limit <= PENDING_LIMIT && AnswerStep(s).Some?
    ensures var t, k := AnswerStep(s).value, s.serve.completion.sequence;
            && 0 < k <= |s.issued| && k in t.received && t.received[k] == (s.issued[k - 1].0, s.serve.completion.value)
            && match s.issued[k - 1].0
               case Main => t.vm.mode == Running
               case Branch(group, index) =>
                 t.vm.group == group && t.vm.mode.Resume? && t.vm.mode.branch == index
  {
    ReachableInv(limit, s);
    var k := s.serve.completion.sequence;
    assert k in s.host.pendingFrames && k in Awaited(s.vm);
    assert s.issued[k - 1].0 == Recipient(s.vm, k);
  }

  /** A branch is resumed only to be started, each in its turn, or to be given its own answer. */
  lemma BranchResumedRightly(limit: nat, s: System, e: Event)
    requires Reachable(limit, s) && 0 < limit <= PENDING_LIMIT && Step(limit, s, e).Some?
    requires Step(limit, s, e).value.vm.mode.Resume? && Step(limit, s, e).value.vm != s.vm
    ensures var t := Step(limit, s, e).value;
            || (e.Advance? && s.vm.mode.Choose? && t.vm.mode == Resume(s.vm.mode.next, s.vm.mode.next + 1, s.vm.mode.count))
            || (e.Answer? && s.serve.Sending? && 0 < s.serve.completion.sequence <= |s.issued|
                && s.issued[s.serve.completion.sequence - 1].0 == Branch(t.vm.group, t.vm.mode.branch))
  {
    if e.Answer? {
      AnswerResumesItsIssuer(limit, s);
    } else {
      OnlyAdvanceResumes(limit, s, e);
    }
  }

  lemma OnlyAdvanceResumes(limit: nat, s: System, e: Event)
    requires Step(limit, s, e).Some? && !e.Answer?
    requires Step(limit, s, e).value.vm.mode.Resume? && Step(limit, s, e).value.vm != s.vm
    ensures e.Advance? && s.vm.mode.Choose?
    ensures Step(limit, s, e).value.vm.mode == Resume(s.vm.mode.next, s.vm.mode.next + 1, s.vm.mode.count)
  {
  }

  /** An operation is answered once: the answer being sent is for one that has none yet. */
  lemma AnsweredOnce(limit: nat, s: System)
    requires Reachable(limit, s) && 0 < limit <= PENDING_LIMIT && s.serve.Sending?
    ensures s.serve.completion.sequence !in s.received
    ensures s.serve.completion.sequence in Awaited(s.vm)
  {
    ReachableInv(limit, s);
    assert s.serve.completion.sequence in s.host.pendingFrames;
  }

  /** When the host accepts the final frame nothing is outstanding anywhere. */
  lemma FinishedMeansSettled(limit: nat, s: System)
    requires Reachable(limit, s) && 0 < limit <= PENDING_LIMIT && s.serve.Ended?
    ensures s.host == Host(|s.issued|, map[])
    ensures s.workers == map[] && s.completions == []
    ensures forall k: nat :: k in s.received <==> 0 < k <= |s.issued|
  {
    ReachableInv(limit, s);
    NothingAwaited(limit, s);
    NothingPending(s);
  }

  lemma NothingPending(s: System)
    requires HostInv(s) && s.host.pendingFrames == map[]
    ensures s.workers == map[] && s.completions == []
  {
    assert s.workers.Keys == {} && Queued(s.completions) == {};
    QueuedSize(s.completions);
  }

  // -------------------------------------------------------------- progress

  /** The exchange has not ended, and nobody can take a step. */
  ghost predicate Stuck(limit: nat, s: System) {
    !s.serve.Ended? && forall e :: Step(limit, s, e).None?
  }

  /** An event with which the script asks for nothing new. */
  predicate Settles(e: Event) {
    !e.Issue? && !e.BeginParallel? && !e.Yield?
  }

  /** Nobody can take a step but, perhaps, the script by asking for more. */
  ghost predicate Waits(limit: nat, s: System) {
    forall e :: Settles(e) ==> Step(limit, s, e).None?
  }

  /** The only way to stop: every buffer between VM and host is full while the host writes an answer. */
  predicate IsJammed(s: System) {
    && s.vm.mode.SendBranch? && s.reader.Holding? && s.channel != [] && s.serve.Sending?
  }

  /** What it means, party by party, that nobody can step. */
  predicate IsHalted(s: System) {
    && !s.serve.Ended? && s.workers == map[]
    && (s.serve.Selecting? ==> s.channel == [] && s.completions == [])
    && (s.reader.Scanning? ==> Outgoing(s.vm).None?)
    && (s.reader.Holding? ==> s.channel != [])
    && (s.serve.Sending? ==> !IsReading(s.vm))
    && (IsReading(s.vm) || Outgoing(s.vm).Some? || s.vm.mode.Exited?)
  }

  lemma WaitingHalts(limit: nat, s: System)
    requires !s.serve.Ended? && Waits(limit, s) && VMInv(limit, s.vm)
    requires forall k :: k in s.workers ==> Step(limit, s, Work(k, "")).Some?
    ensures IsHalted(s)
  {
    assert Step(limit, s, Finish).None? && Step(limit, s, Advance).None? && Step(limit, s, EndBranch).None?;
    assert Step(limit, s, Scan).None? && Step(limit, s, Put).None? && Step(limit, s, TakeFrame).None?;
    assert Step(limit, s, TakeCompletion).None? && Step(limit, s, Answer).None?;
  }

  lemma WaitingIsJammed(limit: nat, s: System)
    requires !s.serve.Ended? && Waits(limit, s) && 0 < limit <= PENDING_LIMIT && Reachable(limit, s)
    ensures IsJammed(s)
  {
    ReachableInv(limit, s);
    forall k | k in s.workers
      ensures Step(limit, s, Work(k, "")).Some?
    {
      WorkerNeverBlocks(limit, s, k, "");
    }
    WaitingHalts(limit, s);
    HaltedIsJammed(limit, s);
  }

  lemma FinalFrameMoves(s: System)
    requires FramesInv(s) && IsHalted(s) && IsFinal(s.vm)
    ensures s.serve.Sending?
  {
    assert InFlight(s)[0] == Finished(s.vm.sequence);
    assert |InFlight(s)| == 1;
  }

  lemma HaltedIsJammed(limit: nat, s: System)
    requires Inv(limit, s) && IsHalted(s)
    ensures IsJammed(s)
  {
    if IsReading(s.vm) {
      ReaderWaitsForSomething(limit, s);
    }
    if IsFinal(s.vm) {
      FinalFrameMoves(s);
    }
    HeldFrames(s);
  }

  lemma HeldFrames(s: System)
    requires FramesInv(s)
    ensures s.channel != [] && s.reader.Holding? ==> |InFlight(s)| >= 2
    ensures s.vm.mode.SendMain? && s.reader.Holding? ==> |InFlight(s)| >= 2
  {
  }

  lemma ReaderWaitsForSomething(limit: nat, s: System)
    requires Inv(limit, s) && IsReading(s.vm) && s.serve.Selecting? && s.channel == [] && s.completions == []
    requires s.workers == map[]
    ensures s.reader.Holding?
  {
    var k :| k in Awaited(s.vm);
    assert Queued(s.completions) == {} && s.host.pendingFrames.Keys == {};
    assert k !in s.host.pendingFrames;
    assert |InFlight(s)| > 0;
  }

  lemma JammedOwesFour(s: System)
    requires IsJammed(s) && FramesInv(s) && Owes(Awaited(s.vm), s.host, s.vm.sequence)
    requires s.serve.completion.sequence in s.host.pendingFrames && s.serve.completion.sequence <= s.host.sequence
    ensures |Awaited(s.vm)| >= 4
  {
    var h, first := s.host.sequence, s.serve.completion.sequence;
    assert |InFlight(s)| == 3;
    var four := {first, h + 1, h + 2, h + 3};
    assert forall k :: k in four ==> k in Awaited(s.vm);
    SubsetSize(four, Awaited(s.vm));
  }

  /** Every buffer can only be full with four operations outstanding. */
  lemma JamNeedsFour(limit: nat, s: System)
    requires Reachable(limit, s) && IsJammed(s) && 0 < limit <= PENDING_LIMIT
    ensures 4 <= |Awaited(s.vm)| <= limit
  {
    ReachableInv(limit, s);
    assert s.serve.completion.sequence in s.host.pendingFrames;
    JammedOwesFour(s);
    AwaitedBounded(limit, s.vm);
  }

  /** A reachable state can only be stuck with every buffer full. */
  lemma StuckNeedsFour(limit: nat, s: System)
    requires Reachable(limit, s) && Stuck(limit, s) && 0 < limit <= PENDING_LIMIT
    ensures IsJammed(s) && 4 <= |Awaited(s.vm)| <= limit
  {
    WaitingIsJammed(limit, s);
    JamNeedsFour(limit, s);
  }

  // ------------------------------------------------------------ a stuck run

  lemma {:induction false} ExecAppend(limit: nat, s: System, es: seq<Event>, e: Event)
    requires Exec(limit, s, es).Some?
    ensures Exec(limit, s, es + [e]) == Step(limit, Exec(limit, s, es).value, e)
    decreases |es|
  {
    if es == [] {
      assert es + [e] == [e];
      if Step(limit, s, e).Some? {
        assert Exec(limit, Step(limit, s, e).value, [e][1..]) == Step(limit, s, e);
      }
    } else {
      ExecAppend(limit, Step(limit, s, es[0]).value, es[1..], e);
      assert (es + [e])[1..] == es[1..] + [e];
    }
  }

  lemma Then(limit: nat, s: System, e: Event, t: System)
    requires Reachable(limit, s) && Step(limit, s, e) == Some(t)
    ensures Reachable(limit, t)
  {
    var es: seq<Event> :| Exec(limit, Start, es) == Some(s);
    ExecAppend(limit, Start, es, e);
  }

  const Ask := Request("status", "")
  const First := Completion(1, "status", "")

  function Asked(n: nat): seq<(Issuer, Request)> {
    if n == 0 then [] else Asked(n - 1) + [(Branch(1, n - 1), Ask)]
  }

  function Waiting(n: nat): map<nat, nat> {
    if n == 0 then map[] else Waiting(n - 1)[n := n - 1]
  }

  /** Four branches, the first `n` of which have asked; the first answer is being written. */
  function Jamming(n: nat, mode: Mode, reader: Reader, channel: seq<Frame>): System {
    System(VM(n, 1, Waiting(n), mode), reader, channel, Host(1, map[1 := Ask]), Sending(First),
           map[], [], Asked(n), map[1 := ""], map[])
  }

  /** The first branch has asked, and its frame is on its way or admitted. */
  function Opening(mode: Mode, reader: Reader, channel: seq<Frame>, host: Host, workers: map<nat, Request>): System {
    System(VM(1, 1, Waiting(1), mode), reader, channel, host, Selecting, workers, [], Asked(1), map[], map[])
  }

  const FirstFrame := Operation(1, Ask)

  lemma FirstResumed(limit: nat) returns (s: System)
    requires limit >= 4
    ensures Reachable(limit, s) && s == Start.(vm := VM(0, 1, map[], Resume(0, 1, 4)))
  {
    assert Exec(limit, Start, []) == Some(Start);
    var a := Start.(vm := VM(0, 1, map[], Choose(0, 4)));
    Then(limit, Start, BeginParallel(4), a);
    s := a.(vm := a.vm.(mode := Resume(0, 1, 4)));
    Then(limit, a, Advance, s);
  }

  lemma FirstYields(limit: nat)
    requires limit >= 4
    ensures Reachable(limit, Opening(SendBranch(Ask, 1, 4), Scanning, [], Host(0, map[]), map[]))
  {
    var a := FirstResumed(limit);
    assert map[][1 := 0] == Waiting(1) && [] + [(Branch(1, 0), Ask)] == Asked(1);
    Then(limit, a, Yield(Ask), Opening(SendBranch(Ask, 1, 4), Scanning, [], Host(0, map[]), map[]));
  }

  lemma FirstScanned(limit: nat)
    requires limit >= 4
    ensures Reachable(limit, Opening(Choose(1, 4), Holding(FirstFrame), [], Host(0, map[]), map[]))
  {
    FirstYields(limit);
    Then(limit, Opening(SendBranch(Ask, 1, 4), Scanning, [], Host(0, map[]), map[]), Scan,
         Opening(Choose(1, 4), Holding(FirstFrame), [], Host(0, map[]), map[]));
  }

  lemma FirstAdmitted(limit: nat)
    requires limit >= 4
    ensures Reachable(limit, Opening(Choose(1, 4), Scanning, [], Host(1, map[1 := Ask]), map[1 := Ask]))
  {
    FirstScanned(limit);
    var b := Opening(Choose(1, 4), Scanning, [FirstFrame], Host(0, map[]), map[]);
    Then(limit, Opening(Choose(1, 4), Holding(FirstFrame), [], Host(0, map[]), map[]), Put, b);
    assert [FirstFrame][1..] == [];
    Then(limit, b, TakeFrame, Opening(Choose(1, 4), Scanning, [], Host(1, map[1 := Ask]), map[1 := Ask]));
  }

  lemma FirstWorked(limit: nat) returns (s: System)
    requires limit >= 4
    ensures Reachable(limit, s)
    ensures s == Opening(Choose(1, 4), Scanning, [], Host(1, map[1 := Ask]), map[]).(completions := [First], computed := map[1 := ""])
  {
    FirstAdmitted(limit);
    var a := Opening(Choose(1, 4), Scanning, [], Host(1, map[1 := Ask]), map[1 := Ask]);
    s := a.(workers := map[], completions := [First], computed := map[1 := ""]);
    assert map[1 := Ask] - {1} == map[] && [] + [First] == [First] && map[][1 := ""] == map[1 := ""];
    Then(limit, a, Work(1, ""), s);
  }

  lemma FirstAnswering(limit: nat)
    requires limit >= 4
    ensures Reachable(limit, Jamming(1, Choose(1, 4), Scanning, []))
  {
    var a := FirstWorked(limit);
    assert a.completions[1..] == [];
    Then(limit, a, TakeCompletion, Jamming(1, Choose(1, 4), Scanning, []));
  }

  /** The next branch starts and asks; its frame waits to be scanned. */
  lemma NextAsks(limit: nat, n: nat, reader: Reader, channel: seq<Frame>)
    requires 0 < n < 4 && Reachable(limit, Jamming(n, Choose(n, 4), reader, channel))
    ensures Reachable(limit, Jamming(n + 1, SendBranch(Ask, n + 1, 4), reader, channel))
  {
    var a := Jamming(n, Choose(n, 4), reader, channel);
    var b := Jamming(n, Resume(n, n + 1, 4), reader, channel);
    Then(limit, a, Advance, b);
    Then(limit, b, Yield(Ask), Jamming(n + 1, SendBranch(Ask, n + 1, 4), reader, channel));
  }

  /** Its frame is scanned. */
  lemma NextScanned(limit: nat, n: nat, channel: seq<Frame>)
    requires 0 < n <= 4 && Reachable(limit, Jamming(n, SendBranch(Ask, n, 4), Scanning, channel))
    ensures Reachable(limit, Jamming(n, Choose(n, 4), Holding(Operation(n, Ask)), channel))
  {
    Then(limit, Jamming(n, SendBranch(Ask, n, 4), Scanning, channel), Scan,
         Jamming(n, Choose(n, 4), Holding(Operation(n, Ask)), channel));
  }

  lemma StuckRun(limit: nat) returns (s: System)
    requires limit >= 4
    ensures Reachable(limit, s) && Stuck(limit, s)
  {
    FirstAnswering(limit);
    NextAsks(limit, 1, Scanning, []);
    NextScanned(limit, 2, []);
    var second, third := Operation(2, Ask), Operation(3, Ask);
    Then(limit, Jamming(2, Choose(2, 4), Holding(second), []), Put, Jamming(2, Choose(2, 4), Scanning, [second]));
    NextAsks(limit, 2, Scanning, [second]);
    NextScanned(limit, 3, [second]);
    NextAsks(limit, 3, Holding(third), [second]);
    s := Jamming(4, SendBranch(Ask, 4, 4), Holding(third), [second]);
    JammedStops(limit, s);
  }

  lemma JammedStops(limit: nat, s: System)
    requires IsJammed(s) && s.workers == map[]
    ensures Stuck(limit, s)
  {
  }

  /** A script can bring the exchange to a halt exactly when a Parallel block may have four branches. */
  lemma StuckIff(limit: nat)
    requires 0 < limit <= PENDING_LIMIT
    ensures (exists s :: Reachable(limit, s) && Stuck(limit, s)) <==> limit >= 4
  {
    if limit >= 4 {
      var s := StuckRun(limit);
    } else if s :| Reachable(limit, s) && Stuck(limit, s) {
      StuckNeedsFour(limit, s);
    }
  }
}
