/**
 From which states the Lua operation exchange can still end.
 */
module LuaProgress {
  import opened Common
  import opened LuaExchange
  import opened LuaSafety

  /** Some run from `s` makes the host accept the final frame. */
  ghost predicate CanEnd(limit: nat, s: System) {
    exists es: seq<Event> :: EndsWith(limit, s, es)
  }

  predicate EndsWith(limit: nat, s: System, es: seq<Event>) {
    Exec(limit, s, es).Some? && Exec(limit, s, es).value.serve.Ended?
  }

  // ------------------------------------------- runs that ask for nothing new

  function Unstarted(next: nat, count: nat): nat {
    if next < count then 2 * (count - next) else 0
  }

  /** How many steps the VM can still take by itself, and to spare. */
  function ModeWeight(mode: Mode): nat {
    match mode
    case Running => 10
    case SendMain(_) => 11
    case AwaitMain => 11
    case Choose(next, count) => 11 + Unstarted(next, count)
    case Resume(_, next, count) => 12 + Unstarted(next, count)
    case SendBranch(_, next, count) => 11 + Unstarted(next, count)
    case SendFinished => 0
    case Exited => 0
    case Broken => 0
  }

  /** How far the frames and completions under way still have to go. */
  function Remaining(s: System): nat {
    ModeWeight(s.vm.mode)
    + (if Outgoing(s.vm).Some? then 8 else 0) + (if s.reader.Holding? then 7 else 0) + 6 * |s.channel|
    + 5 * |s.workers| + 4 * |s.completions| + (if s.serve.Sending? then 3 else 0)
  }

  lemma FewerWorkers(workers: map<nat, Request>, k: nat, request: Request)
    ensures |workers[k := request]| <= |workers| + 1
    ensures k in workers ==> |workers - {k}| == |workers| - 1
  {
    assert workers[k := request].Keys == workers.Keys + {k};
    assert (workers - {k}).Keys == workers.Keys - {k};
    assert |workers| == |workers.Keys| && |workers - {k}| == |(workers - {k}).Keys|;
    assert |workers[k := request]| == |workers[k := request].Keys|;
  }

  lemma ScanSettles(s: System)
    requires HostStep(s, Scan).Some?
    ensures Remaining(HostStep(s, Scan).value) < Remaining(s)
  {
  }

  lemma FrameSettles(s: System)
    requires HostStep(s, TakeFrame).Some?
    ensures Remaining(HostStep(s, TakeFrame).value) < Remaining(s)
  {
    var t := HostStep(s, TakeFrame).value;
    assert |t.channel| == |s.channel| - 1;
    if s.channel[0].Operation? {
      FewerWorkers(s.workers, s.channel[0].sequence, s.channel[0].request);
    }
  }

  lemma WorkSettles(s: System, sequence: nat, value: string)
    requires HostStep(s, Work(sequence, value)).Some?
    ensures Remaining(HostStep(s, Work(sequence, value)).value) < Remaining(s)
  {
    FewerWorkers(s.workers, sequence, s.workers[sequence]);
  }

  lemma CompletionSettles(s: System)
    requires HostStep(s, TakeCompletion).Some?
    ensures Remaining(HostStep(s, TakeCompletion).value) < Remaining(s)
  {
  }

  lemma ModeAfterAnswer(vm: VM, sequence: nat)
    requires IsReading(vm)
    ensures ModeWeight(TakeAnswer(vm, sequence).mode) <= ModeWeight(vm.mode) + 1
    ensures Outgoing(TakeAnswer(vm, sequence)).None?
  {
  }

  lemma AnswerSettles(s: System)
    requires AnswerStep(s).Some?
    ensures Remaining(AnswerStep(s).value) < Remaining(s)
  {
    ModeAfterAnswer(s.vm, s.serve.completion.sequence);
  }

  lemma HostSettles(s: System, e: Event)
    requires HostStep(s, e).Some?
    ensures Remaining(HostStep(s, e).value) < Remaining(s)
  {
    if e.Scan? {
      ScanSettles(s);
    } else if e.TakeFrame? {
      FrameSettles(s);
    } else if e.TakeCompletion? {
      CompletionSettles(s);
    } else if e.Work? {
      WorkSettles(s, e.sequence, e.value);
    }
  }

  lemma AdvanceSettles(limit: nat, s: System)
    requires VMStep(limit, s, Advance).Some?
    ensures Remaining(VMStep(limit, s, Advance).value) < Remaining(s)
  {
    assert s.vm.mode.Choose?;
  }

  lemma VMSettles(limit: nat, s: System, e: Event)
    requires VMStep(limit, s, e).Some? && Settles(e)
    ensures Remaining(VMStep(limit, s, e).value) < Remaining(s)
  {
    if e.Advance? {
      AdvanceSettles(limit, s);
    } else if e.EndBranch? {
      assert s.vm.mode.Resume?;
    } else {
      assert e.Finish? && s.vm.mode.Running?;
    }
  }

  /** Unless the script asks for more, every step brings the exchange nearer to its end. */
  lemma StepSettles(limit: nat, s: System, e: Event)
    requires Step(limit, s, e).Some? && Settles(e)
    ensures Remaining(Step(limit, s, e).value) < Remaining(s)
  {
    if e.Answer? {
      AnswerSettles(s);
    } else if HostStep(s, e).Some? {
      HostSettles(s, e);
    } else {
      VMSettles(limit, s, e);
    }
  }

  lemma {:induction false} RunSettles(limit: nat, s: System, es: seq<Event>)
    requires Exec(limit, s, es).Some? && forall k :: 0 <= k < |es| ==> Settles(es[k])
    ensures |es| + Remaining(Exec(limit, s, es).value) <= Remaining(s)
    decreases |es|
  {
    if es != [] {
      StepSettles(limit, s, es[0]);
      RunSettles(limit, Step(limit, s, es[0]).value, es[1..]);
    }
  }

  lemma {:induction false} RunReaches(limit: nat, s: System, es: seq<Event>)
    requires Reachable(limit, s) && Exec(limit, s, es).Some?
    ensures Reachable(limit, Exec(limit, s, es).value)
    decreases |es|
  {
    if es != [] {
      Then(limit, s, es[0], Step(limit, s, es[0]).value);
      RunReaches(limit, Step(limit, s, es[0]).value, es[1..]);
    }
  }

  /**
   A script that asks for nothing more is soon over: its runs are bounded, and
   where none can go on the exchange has ended or every buffer is full.
   */
  lemma QuietRunsEnd(limit: nat, s: System, es: seq<Event>)
    requires Reachable(limit, s) && 0 < limit <= PENDING_LIMIT
    requires Exec(limit, s, es).Some? && forall k :: 0 <= k < |es| ==> Settles(es[k])
    ensures |es| <= Remaining(s)
    ensures var t := Exec(limit, s, es).value;
            Waits(limit, t) ==> t.serve.Ended? || (IsJammed(t) && limit >= 4)
  {
    RunSettles(limit, s, es);
    RunReaches(limit, s, es);
    var t := Exec(limit, s, es).value;
    if Waits(limit, t) && !t.serve.Ended? {
      WaitingIsJammed(limit, t);
      JamNeedsFour(limit, t);
    }
  }

  // ------------------------------------------------------- which states can end

  /** Only taking up an answer fills the last buffer. */
  lemma NoNewJam(limit: nat, s: System, e: Event)
    requires Step(limit, s, e).Some? && Settles(e) && !IsJammed(s)
    requires e.TakeCompletion? ==> s.channel == []
    ensures !IsJammed(Step(limit, s, e).value)
  {
    if HostStep(s, e).None? && !e.Answer? {
      assert !Step(limit, s, e).value.vm.mode.SendBranch?;
    }
  }

  /** While a buffer has room, somebody can take a step that fills no last one. */
  lemma NextStep(limit: nat, s: System) returns (e: Event)
    requires Reachable(limit, s) && 0 < limit <= PENDING_LIMIT && !s.serve.Ended? && !IsJammed(s)
    ensures Settles(e) && Step(limit, s, e).Some? && !IsJammed(Step(limit, s, e).value)
  {
    if s.serve.Selecting? && s.channel != [] {
      e := TakeFrame;
    } else {
      if Waits(limit, s) {
        WaitingIsJammed(limit, s);
      }
      e :| Settles(e) && Step(limit, s, e).Some?;
    }
    NoNewJam(limit, s, e);
  }

  lemma {:induction false} Ending(limit: nat, s: System) returns (es: seq<Event>)
    requires Reachable(limit, s) && 0 < limit <= PENDING_LIMIT && !IsJammed(s)
    ensures EndsWith(limit, s, es)
    decreases Remaining(s)
  {
    if s.serve.Ended? {
      return [];
    }
    var e := NextStep(limit, s);
    var t := Step(limit, s, e).value;
    Then(limit, s, e, t);
    StepSettles(limit, s, e);
    var rest := Ending(limit, t);
    es := [e] + rest;
    assert es[1..] == rest;
  }

  /** Only workers can step, and none of them makes room. */
  lemma JamStays(limit: nat, s: System, e: Event)
    requires IsJammed(s) && Step(limit, s, e).Some?
    ensures IsJammed(Step(limit, s, e).value)
  {
  }

  lemma {:induction false} JamNeverEnds(limit: nat, s: System, es: seq<Event>)
    requires IsJammed(s)
    ensures !EndsWith(limit, s, es)
    decreases |es|
  {
    if es != [] && Step(limit, s, es[0]).Some? {
      JamStays(limit, s, es[0]);
      JamNeverEnds(limit, Step(limit, s, es[0]).value, es[1..]);
    }
  }

  /** The exchange can still end exactly when not every buffer is full while an answer is written. */
  lemma CanEndIff(limit: nat, s: System)
    requires Reachable(limit, s) && 0 < limit <= PENDING_LIMIT
    ensures CanEnd(limit, s) <==> !IsJammed(s)
  {
    if IsJammed(s) {
      forall es: seq<Event>
        ensures !EndsWith(limit, s, es)
      {
        JamNeverEnds(limit, s, es);
      }
    } else {
      var es := Ending(limit, s);
    }
  }

  /** Every reachable state can still end exactly when a Parallel block has at most three branches. */
  lemma AlwaysCanEndIff(limit: nat)
    requires 0 < limit <= PENDING_LIMIT
    ensures (forall s :: Reachable(limit, s) ==> CanEnd(limit, s)) <==> limit <= 3
  {
    if limit >= 4 {
      var s := StuckRun(limit);
      StuckNeedsFour(limit, s);
      CanEndIff(limit, s);
    } else {
      forall s | Reachable(limit, s)
        ensures CanEnd(limit, s)
      {
        if IsJammed(s) {
          JamNeedsFour(limit, s);
        }
        CanEndIff(limit, s);
      }
    }
  }
}
