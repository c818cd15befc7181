/**
 The operation exchange between the embedded Lua VM and its host: numbered
 frames over two synchronous pipes, a reader that holds one frame, a one-slot
 frame channel, operation workers and a bounded completion queue.
 */
module LuaExchange {
  import opened Common

  const PENDING_LIMIT: nat := 8

  datatype Request = Request(operation: string, payload: string)

  datatype Frame = Operation(sequence: nat, request: Request) | Finished(sequence: nat)

  datatype Completion = Completion(sequence: nat, operation: string, value: string)

  // ------------------------------------------------------------------- host

  datatype Host = Host(sequence: nat, pendingFrames: map<nat, Request>)

  datatype Admission = Admitted | Settled | ProtocolError

  /** One `incoming` case of `serve`. */
  function Admit(h: Host, f: Frame): (Host, Admission) {
    match f
    case Finished(sequence) =>
      if sequence != h.sequence || |h.pendingFrames| != 0 then (h, ProtocolError) else (h, Settled)
    case Operation(sequence, request) =>
      if sequence == 0 || sequence != h.sequence + 1 then (h, ProtocolError)
      else if |h.pendingFrames| >= PENDING_LIMIT then (h, ProtocolError)
      else (Host(sequence, h.pendingFrames[sequence := request]), Admitted)
  }

  predicate IsExpected(h: Host, c: Completion) {
    c.sequence in h.pendingFrames && h.pendingFrames[c.sequence].operation == c.operation
  }

  function Forget(h: Host, sequence: nat): Host {
    h.(pendingFrames := h.pendingFrames - {sequence})
  }

  // --------------------------------------------------------------------- VM

  /** `next` of `count` branches is the first one not yet started. */
  datatype Mode =
    | Running                                             // Lua code outside Parallel
    | SendMain(request: Request) | AwaitMain
    | Choose(next: nat, count: nat)                       // between two resumes of a Parallel block
    | Resume(branch: nat, next: nat, count: nat)          // Lua code of one branch
    | SendBranch(request: Request, next: nat, count: nat)
    | SendFinished | Exited | Broken

  datatype VM = VM(sequence: nat, group: nat, pendingBranches: map<nat, nat>, mode: Mode)

  /** Who waits for an operation: the entry function, or a branch of the n-th Parallel block. */
  datatype Issuer = Main | Branch(group: nat, index: nat)

  predicate IsReading(vm: VM) {
    vm.mode.AwaitMain? || (vm.mode.Choose? && vm.mode.next == vm.mode.count && vm.pendingBranches != map[])
  }

  /** The frame the VM is blocked writing. */
  function Outgoing(vm: VM): Option<Frame> {
    match vm.mode
    case SendMain(request) => Some(Operation(vm.sequence, request))
    case SendBranch(request, _, _) => Some(Operation(vm.sequence, request))
    case SendFinished => Some(Finished(vm.sequence))
    case _ => None
  }

  /** The VM after its outgoing frame has been taken. */
  function Sent(vm: VM): VM {
    match vm.mode
    case SendMain(_) => vm.(mode := AwaitMain)
    case SendBranch(_, next, count) => vm.(mode := Choose(next, count))
    case SendFinished => vm.(mode := Exited)
    case _ => vm
  }

  /** A branch hands over a request: it is numbered, remembered and written. */
  function YieldBranch(vm: VM, request: Request): VM
    requires vm.mode.Resume?
  {
    vm.(sequence := vm.sequence + 1,
        pendingBranches := vm.pendingBranches[vm.sequence + 1 := vm.mode.branch],
        mode := SendBranch(request, vm.mode.next, vm.mode.count))
  }

  /** The VM reads the answer numbered `sequence`. */
  function TakeAnswer(vm: VM, sequence: nat): VM
    requires IsReading(vm)
  {
    if vm.mode.AwaitMain? then
      vm.(mode := if sequence == vm.sequence then Running else Broken)
    else if sequence !in vm.pendingBranches then vm.(mode := Broken)
    else vm.(pendingBranches := vm.pendingBranches - {sequence},
             mode := Resume(vm.pendingBranches[sequence], vm.mode.next, vm.mode.count))
  }

  // ----------------------------------------------------------------- system

  datatype Reader = Scanning | Holding(frame: Frame)

  datatype Serve = Selecting | Sending(completion: Completion) | Ended(isProtocolError: bool)

  /** The last three fields are logs: who asked for what, what the workers found, what came back to whom. */
  datatype System = System(vm: VM, reader: Reader, channel: seq<Frame>, host: Host, serve: Serve,
                           workers: map<nat, Request>, completions: seq<Completion>,
                           issued: seq<(Issuer, Request)>, computed: map<nat, string>,
                           received: map<nat, (Issuer, string)>)

  datatype Event =
    | Issue(request: Request) | BeginParallel(count: nat) | Finish
    | Advance | EndBranch | Yield(request: Request)
    | Scan | Put | TakeFrame | TakeCompletion | Work(sequence: nat, value: string) | Answer

  const Start := System(VM(0, 0, map[], Running), Scanning, [], Host(0, map[]), Selecting, map[], [], [], map[], map[])

  function VMStep(limit: nat, s: System, e: Event): Option<System> {
    match (e, s.vm.mode)
    case (Issue(request), Running) =>
      Some(s.(vm := s.vm.(sequence := s.vm.sequence + 1, mode := SendMain(request)),
              issued := s.issued + [(Main, request)]))
    case (BeginParallel(count), Running) =>
      if 0 < count <= limit then Some(s.(vm := s.vm.(group := s.vm.group + 1, pendingBranches := map[], mode := Choose(0, count))))
      else None
    case (Finish, Running) => Some(s.(vm := s.vm.(mode := SendFinished)))
    case (Advance, Choose(next, count)) =>
      if next < count then Some(s.(vm := s.vm.(mode := Resume(next, next + 1, count))))
      else if s.vm.pendingBranches == map[] then Some(s.(vm := s.vm.(mode := Running)))
      else None
    case (EndBranch, Resume(branch, next, count)) => Some(s.(vm := s.vm.(mode := Choose(next, count))))
    case (Yield(request), Resume(branch, next, count)) =>
      Some(s.(vm := YieldBranch(s.vm, request), issued := s.issued + [(Branch(s.vm.group, branch), request)]))
    case _ => None
  }

  function HostStep(s: System, e: Event): Option<System> {
    match e
    case Scan =>
      if s.reader.Scanning? && Outgoing(s.vm).Some? then
        Some(s.(vm := Sent(s.vm), reader := Holding(Outgoing(s.vm).value)))
      else None
    case Put =>
      if s.reader.Holding? && s.channel == [] then Some(s.(channel := [s.reader.frame], reader := Scanning)) else None
    case TakeFrame =>
      if s.serve.Selecting? && s.channel != [] then
        var (h, admission) := Admit(s.host, s.channel[0]);
        Some(s.(channel := s.channel[1..], host := h,
                workers := if admission.Admitted? then s.workers[s.channel[0].sequence := s.channel[0].request] else s.workers,
                serve := if admission.Admitted? then Selecting else Ended(admission.ProtocolError?)))
      else None
    case TakeCompletion =>
      if s.serve.Selecting? && s.completions != [] then
        Some(s.(completions := s.completions[1..],
                serve := if IsExpected(s.host, s.completions[0]) then Sending(s.completions[0]) else Ended(true)))
      else None
    case Work(sequence, value) =>
      if sequence in s.workers && |s.completions| < PENDING_LIMIT then
        Some(s.(workers := s.workers - {sequence},
                completions := s.completions + [Completion(sequence, s.workers[sequence].operation, value)],
                computed := s.computed[sequence := value]))
      else None
    case _ => None
  }

  /** The branch or entry function an answer is handed to. */
  function Recipient(vm: VM, sequence: nat): Issuer {
    if vm.mode.SendMain? || vm.mode.AwaitMain? then Main
    else if sequence in vm.pendingBranches then Branch(vm.group, vm.pendingBranches[sequence])
    else Main
  }

  /** The host's write of an answer meets the VM's read. */
  function AnswerStep(s: System): Option<System> {
    if s.serve.Sending? && IsReading(s.vm) then
      var c := s.serve.completion;
      Some(s.(vm := TakeAnswer(s.vm, c.sequence), serve := Selecting, host := Forget(s.host, c.sequence),
              received := s.received[c.sequence := (Recipient(s.vm, c.sequence), c.value)]))
    else None
  }

  /** `limit` bounds the branches of one Parallel block. */
  function Step(limit: nat, s: System, e: Event): Option<System> {
    if e.Answer? then AnswerStep(s)
    else if HostStep(s, e).Some? then HostStep(s, e)
    else VMStep(limit, s, e)
  }

  function Exec(limit: nat, s: System, es: seq<Event>): Option<System>
    decreases |es|
  {
    if es == [] then Some(s)
    else match Step(limit, s, es[0])
      case None => None
      case Some(next) => Exec(limit, next, es[1..])
  }

  ghost predicate Reachable(limit: nat, s: System) {
    exists es: seq<Event> :: Exec(limit, Start, es) == Some(s)
  }

  // ------------------------------------------------------------- invariants

  /** Frames written but not yet admitted, oldest first. */
  function InFlight(s: System): seq<Frame> {
    s.channel
    + (if s.reader.Holding? then [s.reader.frame] else [])
    + (if Outgoing(s.vm).Some? then [Outgoing(s.vm).value] else [])
  }

  /** What the VM waits for. */
  function Awaited(vm: VM): set<nat> {
    match vm.mode
    case SendMain(_) => {vm.sequence}
    case AwaitMain => {vm.sequence}
    case Choose(_, _) => vm.pendingBranches.Keys
    case Resume(_, _, _) => vm.pendingBranches.Keys
    case SendBranch(_, _, _) => vm.pendingBranches.Keys
    case _ => {}
  }

  ghost predicate VMInv(limit: nat, vm: VM) {
    && !vm.mode.Broken?
    && (vm.mode.Choose? || vm.mode.Resume? || vm.mode.SendBranch? ==>
          && vm.mode.next <= vm.mode.count <= limit
          && (forall k :: k in vm.pendingBranches ==> 0 < k <= vm.sequence && vm.pendingBranches[k] < vm.mode.next)
          && (forall k, l :: k in vm.pendingBranches && l in vm.pendingBranches && k != l
                             ==> vm.pendingBranches[k] != vm.pendingBranches[l]))
    && (vm.mode.Resume? ==> vm.mode.branch < vm.mode.next
                            && forall k :: k in vm.pendingBranches ==> vm.pendingBranches[k] != vm.mode.branch)
    && (vm.mode.SendBranch? ==> vm.sequence in vm.pendingBranches)
    && (vm.mode.SendMain? || vm.mode.AwaitMain? ==> vm.sequence > 0)
  }

  /** Frames in flight carry the numbers after the host's, in order. */
  ghost predicate Flight(frames: seq<Frame>, admitted: nat, issued: seq<(Issuer, Request)>) {
    && admitted <= |issued| && |frames| == |issued| - admitted
    && forall k :: 0 <= k < |frames| ==> frames[k] == Operation(admitted + 1 + k, issued[admitted + k].1)
  }

  predicate IsFinal(vm: VM) {
    vm.mode.SendFinished? || vm.mode.Exited?
  }

  /** The final frame travels alone, after everything was admitted. */
  ghost predicate FramesInv(s: System) {
    && |s.channel| <= 1
    && s.host.sequence <= s.vm.sequence == |s.issued|
    && (s.serve.Ended? ==> !s.serve.isProtocolError && s.vm.mode.Exited?)
    && (if IsFinal(s.vm) then
          && s.host.sequence == s.vm.sequence
          && (InFlight(s) == [Finished(s.vm.sequence)] || (s.serve.Ended? && InFlight(s) == []))
        else Flight(InFlight(s), s.host.sequence, s.issued))
  }

  function Queued(cs: seq<Completion>): set<nat> {
    set k | 0 <= k < |cs| :: cs[k].sequence
  }

  function Answering(serve: Serve): set<nat> {
    if serve.Sending? then {serve.completion.sequence} else {}
  }

  ghost predicate IsGenuine(s: System, c: Completion) {
    && c.sequence in s.host.pendingFrames && c.operation == s.host.pendingFrames[c.sequence].operation
    && c.sequence in s.computed && s.computed[c.sequence] == c.value
  }

  predicate Partition(all: set<nat>, a: set<nat>, b: set<nat>, c: set<nat>) {
    all == a + b + c && a !! b && a !! c && b !! c
  }

  /** Each admitted operation is with a worker, in the queue or being answered, and in one place only. */
  ghost predicate HostInv(s: System) {
    && Partition(s.host.pendingFrames.Keys, s.workers.Keys, Queued(s.completions), Answering(s.serve))
    && (forall k :: k in s.workers ==> k in s.host.pendingFrames && s.workers[k] == s.host.pendingFrames[k])
    && (forall a, b :: 0 <= a < b < |s.completions| ==> s.completions[a].sequence != s.completions[b].sequence)
    && (forall k :: 0 <= k < |s.completions| ==> IsGenuine(s, s.completions[k]))
    && (s.serve.Sending? ==> IsGenuine(s, s.serve.completion))
    && (forall k :: k in s.host.pendingFrames ==>
          0 < k <= s.host.sequence && k <= |s.issued| && s.host.pendingFrames[k] == s.issued[k - 1].1)
  }

  /** The VM waits for exactly what the host still owes it. */
  ghost predicate Owes(awaited: set<nat>, h: Host, sequence: nat) {
    forall k: nat :: k in awaited <==> k in h.pendingFrames || h.sequence < k <= sequence
  }

  /** Every operation not awaited was answered, to its issuer, with what its worker found. */
  ghost predicate Answered(s: System) {
    && (forall k: nat :: k in s.received <==> 0 < k <= |s.issued| && k !in Awaited(s.vm))
    && (forall k: nat :: k in s.received ==>
          0 < k <= |s.issued| && k in s.computed && s.received[k] == (s.issued[k - 1].0, s.computed[k]))
  }

  /** An answer would reach the issuer of its operation. */
  ghost predicate Addressed(vm: VM, issued: seq<(Issuer, Request)>) {
    forall k: nat :: k in Awaited(vm) ==> 0 < k <= |issued| && issued[k - 1].0 == Recipient(vm, k)
  }

  ghost predicate LedgerInv(s: System) {
    Owes(Awaited(s.vm), s.host, s.vm.sequence) && Answered(s) && Addressed(s.vm, s.issued)
  }

  ghost predicate Inv(limit: nat, s: System) {
    VMInv(limit, s.vm) && FramesInv(s) && HostInv(s) && LedgerInv(s)
  }

  lemma QueuedAppend(cs: seq<Completion>, c: Completion)
    ensures Queued(cs + [c]) == Queued(cs) + {c.sequence}
  {
    var ds := cs + [c];
    assert ds[|cs|] == c;
    forall k | k in Queued(cs)
      ensures k in Queued(ds)
    {
      var i :| 0 <= i < |cs| && cs[i].sequence == k;
      assert ds[i].sequence == k;
    }
  }

  lemma QueuedTail(cs: seq<Completion>)
    requires cs != []
    ensures Queued(cs) == {cs[0].sequence} + Queued(cs[1..])
  {
    assert [cs[0]] + cs[1..] == cs;
    forall k | k in Queued(cs)
      ensures k == cs[0].sequence || k in Queued(cs[1..])
    {
      var i :| 0 <= i < |cs| && cs[i].sequence == k;
      if i > 0 {
        assert cs[1..][i - 1].sequence == k;
      }
    }
    forall k | k in Queued(cs[1..])
      ensures k in Queued(cs)
    {
      var i :| 0 <= i < |cs| - 1 && cs[1..][i].sequence == k;
      assert cs[i + 1].sequence == k;
    }
  }

  // ----------------------------------------------------- steps keep the invariant

  /** A VM that waits for nothing has had every operation admitted and answered. */
  lemma NothingAwaited(limit: nat, s: System)
    requires Inv(limit, s) && Awaited(s.vm) == {}
    ensures s.host.sequence == s.vm.sequence && s.host.pendingFrames == map[]
    ensures forall k: nat :: k in s.received <==> 0 < k <= s.vm.sequence
  {
    assert s.vm.sequence !in Awaited(s.vm);
    forall k: nat
      ensures k !in s.host.pendingFrames
    {
      assert k !in Awaited(s.vm);
    }
  }

  lemma HostUnchanged(s: System, t: System)
    requires HostInv(s) && t.host == s.host && t.workers == s.workers && t.completions == s.completions
    requires t.serve == s.serve && t.computed == s.computed && s.issued <= t.issued
    ensures HostInv(t)
  {
    assert forall k :: 0 <= k < |s.completions| ==> IsGenuine(s, s.completions[k]);
  }

  lemma FlightGrows(frames: seq<Frame>, admitted: nat, issued: seq<(Issuer, Request)>, next: (Issuer, Request))
    requires Flight(frames, admitted, issued)
    ensures Flight(frames + [Operation(|issued| + 1, next.1)], admitted, issued + [next])
  {
  }

  lemma FramesAfterVMStep(limit: nat, s: System, e: Event)
    requires Inv(limit, s) && VMStep(limit, s, e).Some?
    ensures FramesInv(VMStep(limit, s, e).value)
  {
    if e.Finish? {
      NothingAwaited(limit, s);
    }
    InFlightAfterVMStep(limit, s, e);
  }

  /** A VM that takes a step of its own is not writing a frame. */
  lemma NothingOutgoing(limit: nat, s: System, e: Event)
    requires VMStep(limit, s, e).Some?
    ensures Outgoing(s.vm).None? && !IsFinal(s.vm)
  {
  }

  lemma InFlightAfterIssue(limit: nat, s: System, e: Event)
    requires FramesInv(s) && VMStep(limit, s, e).Some? && (e.Issue? || e.Yield?)
    ensures FramesInv(VMStep(limit, s, e).value)
  {
    var t := VMStep(limit, s, e).value;
    NothingOutgoing(limit, s, e);
    FlightGrows(InFlight(s), s.host.sequence, s.issued, t.issued[|s.issued|]);
    assert InFlight(t) == InFlight(s) + [Operation(|s.issued| + 1, e.request)];
  }

  lemma InFlightAfterFinish(limit: nat, s: System)
    requires FramesInv(s) && VMStep(limit, s, Finish).Some? && s.host.sequence == s.vm.sequence
    ensures FramesInv(VMStep(limit, s, Finish).value)
  {
    NothingOutgoing(limit, s, Finish);
    assert InFlight(VMStep(limit, s, Finish).value) == InFlight(s) + [Finished(s.vm.sequence)];
  }

  lemma InFlightAfterVMStep(limit: nat, s: System, e: Event)
    requires FramesInv(s) && VMStep(limit, s, e).Some? && (e.Finish? ==> s.host.sequence == s.vm.sequence)
    ensures FramesInv(VMStep(limit, s, e).value)
  {
    if e.Issue? || e.Yield? {
      InFlightAfterIssue(limit, s, e);
    } else if e.Finish? {
      InFlightAfterFinish(limit, s);
    } else {
      NothingOutgoing(limit, s, e);
      assert InFlight(VMStep(limit, s, e).value) == InFlight(s);
    }
  }

  lemma LedgerAfterIssue(limit: nat, s: System, request: Request)
    requires Inv(limit, s) && VMStep(limit, s, Issue(request)).Some?
    ensures LedgerInv(VMStep(limit, s, Issue(request)).value)
  {
    NothingAwaited(limit, s);
  }

  lemma LedgerAfterYield(limit: nat, s: System, request: Request)
    requires Inv(limit, s) && VMStep(limit, s, Yield(request)).Some?
    ensures LedgerInv(VMStep(limit, s, Yield(request)).value)
  {
    var t := VMStep(limit, s, Yield(request)).value;
    assert Awaited(t.vm) == Awaited(s.vm) + {t.vm.sequence};
    forall k: nat | k in Awaited(t.vm)
      ensures 0 < k <= |t.issued| && t.issued[k - 1].0 == Recipient(t.vm, k)
    {
      assert k in Awaited(s.vm) || k == t.vm.sequence;
    }
  }

  lemma ModeChanges(s: System, t: System)
    requires LedgerInv(s) && t == s.(vm := t.vm) && t.vm.sequence == s.vm.sequence
    requires Awaited(t.vm) == Awaited(s.vm)
    requires forall k: nat :: k in Awaited(s.vm) ==> Recipient(t.vm, k) == Recipient(s.vm, k)
    ensures LedgerInv(t)
  {
  }

  lemma LedgerAfterMode(s: System, e: Event, limit: nat)
    requires LedgerInv(s) && VMStep(limit, s, e).Some?
    requires e.BeginParallel? || e.Advance? || e.EndBranch? || e.Finish?
    ensures LedgerInv(VMStep(limit, s, e).value)
  {
    ModeChanges(s, VMStep(limit, s, e).value);
  }

  lemma LedgerAfterVMStep(limit: nat, s: System, e: Event)
    requires Inv(limit, s) && VMStep(limit, s, e).Some?
    ensures LedgerInv(VMStep(limit, s, e).value)
  {
    match e
    case Issue(request) => LedgerAfterIssue(limit, s, request);
    case Yield(request) => LedgerAfterYield(limit, s, request);
    case _ => LedgerAfterMode(s, e, limit);
  }

  lemma VMAfterVMStep(limit: nat, s: System, e: Event)
    requires VMInv(limit, s.vm) && VMStep(limit, s, e).Some?
    ensures VMInv(limit, VMStep(limit, s, e).value.vm)
  {
  }

  lemma HostAfterVMStep(limit: nat, s: System, e: Event)
    requires HostInv(s) && VMStep(limit, s, e).Some?
    ensures HostInv(VMStep(limit, s, e).value)
  {
    HostUnchanged(s, VMStep(limit, s, e).value);
  }

  lemma VMStepKeeps(limit: nat, s: System, e: Event)
    requires Inv(limit, s) && VMStep(limit, s, e).Some?
    ensures Inv(limit, VMStep(limit, s, e).value)
  {
    VMAfterVMStep(limit, s, e);
    FramesAfterVMStep(limit, s, e);
    LedgerAfterVMStep(limit, s, e);
    HostAfterVMStep(limit, s, e);
  }

  lemma ScanKeeps(limit: nat, s: System)
    requires Inv(limit, s) && HostStep(s, Scan).Some?
    ensures Inv(limit, HostStep(s, Scan).value)
  {
    var t := HostStep(s, Scan).value;
    assert InFlight(t) == InFlight(s);
    assert Awaited(t.vm) == Awaited(s.vm);
    assert forall k :: Recipient(t.vm, k) == Recipient(s.vm, k);
    HostUnchanged(s, t);
  }

  lemma PutKeeps(limit: nat, s: System)
    requires Inv(limit, s) && HostStep(s, Put).Some?
    ensures Inv(limit, HostStep(s, Put).value)
  {
    var t := HostStep(s, Put).value;
    assert InFlight(t) == InFlight(s);
    HostUnchanged(s, t);
  }

  // ------------------------------------------------------- how much is owed

  lemma {:induction false} BoundedImages(m: map<nat, nat>, count: nat)
    requires forall k :: k in m ==> m[k] < count
    requires forall k, l :: k in m && l in m && k != l ==> m[k] != m[l]
    ensures |m| <= count
    decreases count
  {
    if count > 0 {
      if k :| k in m && m[k] == count - 1 {
        BoundedImages(m - {k}, count - 1);
        assert m == (m - {k})[k := count - 1];
      } else {
        BoundedImages(m, count - 1);
      }
    } else if k :| k in m {
      assert false;
    }
  }

  /** The VM never waits for more operations than one Parallel block has branches. */
  lemma AwaitedBounded(limit: nat, vm: VM)
    requires VMInv(limit, vm) && limit > 0
    ensures |Awaited(vm)| <= limit
  {
    if vm.mode.Choose? || vm.mode.Resume? || vm.mode.SendBranch? {
      BoundedImages(vm.pendingBranches, vm.mode.count);
    }
  }

  function Numbers(a: nat, b: nat): (r: set<nat>)
    ensures forall k: nat :: k in r <==> a < k <= b
    ensures |r| == if a <= b then b - a else 0
    decreases b
  {
    if a >= b then {} else Numbers(a, b - 1) + {b}
  }

  lemma UnionSize(a: set<nat>, b: set<nat>, c: set<nat>)
    requires forall k :: k in c <==> k in a || k in b
    requires forall k :: k in a ==> k !in b
    ensures |c| == |a| + |b|
  {
    assert c == a + b && a !! b;
  }

  /** Together, what is admitted and what is on its way fit the limit. */
  lemma OwedBounded(limit: nat, vm: VM, h: Host)
    requires VMInv(limit, vm) && Owes(Awaited(vm), h, vm.sequence) && h.sequence <= vm.sequence && limit > 0
    requires forall k :: k in h.pendingFrames ==> k <= h.sequence
    ensures |h.pendingFrames| + (vm.sequence - h.sequence) <= limit
  {
    AwaitedBounded(limit, vm);
    UnionSize(h.pendingFrames.Keys, Numbers(h.sequence, vm.sequence), Awaited(vm));
    assert |h.pendingFrames| == |h.pendingFrames.Keys|;
  }

  // --------------------------------------------------------------- host steps

  lemma FinalFrameIsAlone(s: System)
    requires FramesInv(s) && HostStep(s, TakeFrame).Some? && IsFinal(s.vm)
    ensures s.channel == [Finished(s.vm.sequence)] && s.host.sequence == s.vm.sequence
  {
    assert s.channel[0] == InFlight(s)[0];
  }

  lemma NothingIsPending(awaited: set<nat>, h: Host, sequence: nat)
    requires Owes(awaited, h, sequence) && awaited == {}
    ensures h.pendingFrames == map[]
  {
    assert forall k :: k in h.pendingFrames ==> k in awaited;
  }

  lemma FinalFrameSettles(limit: nat, s: System)
    requires FramesInv(s) && LedgerInv(s) && HostStep(s, TakeFrame).Some? && IsFinal(s.vm)
    ensures s.channel == [s.channel[0]] && s.channel[0].Finished? && Admit(s.host, s.channel[0]).1.Settled?
  {
    FinalFrameIsAlone(s);
    NothingIsPending(Awaited(s.vm), s.host, s.vm.sequence);
  }

  lemma NextFrameIsAdmitted(limit: nat, s: System)
    requires Inv(limit, s) && HostStep(s, TakeFrame).Some? && !IsFinal(s.vm) && 0 < limit <= PENDING_LIMIT
    ensures s.channel == [s.channel[0]] && s.host.sequence < |s.issued|
    ensures s.channel[0] == Operation(s.host.sequence + 1, s.issued[s.host.sequence].1)
    ensures Admit(s.host, s.channel[0]).1.Admitted?
  {
    assert s.channel[0] == InFlight(s)[0];
    OwedBounded(limit, s.vm, s.host);
  }

  lemma FrameIsNext(limit: nat, s: System)
    requires Inv(limit, s) && HostStep(s, TakeFrame).Some? && 0 < limit <= PENDING_LIMIT
    ensures s.channel == [s.channel[0]]
    ensures s.channel[0].Operation? ==>
              && !IsFinal(s.vm) && Admit(s.host, s.channel[0]).1.Admitted? && s.host.sequence < |s.issued|
              && s.channel[0] == Operation(s.host.sequence + 1, s.issued[s.host.sequence].1)
    ensures s.channel[0].Finished? ==> IsFinal(s.vm) && Admit(s.host, s.channel[0]).1.Settled?
  {
    if IsFinal(s.vm) {
      FinalFrameSettles(limit, s);
    } else {
      NextFrameIsAdmitted(limit, s);
    }
  }

  lemma FramesAfterTakeFrame(limit: nat, s: System)
    requires Inv(limit, s) && HostStep(s, TakeFrame).Some? && 0 < limit <= PENDING_LIMIT
    ensures FramesInv(HostStep(s, TakeFrame).value)
  {
    FrameIsNext(limit, s);
    if IsFinal(s.vm) {
      FlightAfterFinal(s);
    } else {
      FlightAfterOperation(s);
    }
  }

  lemma FlightDrops(frames: seq<Frame>, admitted: nat, issued: seq<(Issuer, Request)>)
    requires Flight(frames, admitted, issued) && frames != []
    ensures Flight(frames[1..], admitted + 1, issued)
  {
  }

  lemma TakenFromFlight(s: System)
    requires |s.channel| == 1 && HostStep(s, TakeFrame).Some?
    ensures InFlight(s) == [s.channel[0]] + InFlight(HostStep(s, TakeFrame).value)
  {
    assert s.channel == [s.channel[0]] && s.channel[1..] == [];
  }

  lemma FlightAfterOperation(s: System)
    requires FramesInv(s) && HostStep(s, TakeFrame).Some? && !IsFinal(s.vm)
    requires s.channel[0].Operation? && Admit(s.host, s.channel[0]).1.Admitted? && s.host.sequence < |s.issued|
    ensures FramesInv(HostStep(s, TakeFrame).value)
  {
    TakenFromFlight(s);
    FlightDrops(InFlight(s), s.host.sequence, s.issued);
    assert InFlight(HostStep(s, TakeFrame).value) == InFlight(s)[1..];
  }

  lemma FlightAfterFinal(s: System)
    requires FramesInv(s) && HostStep(s, TakeFrame).Some? && IsFinal(s.vm)
    requires s.channel[0].Finished? && Admit(s.host, s.channel[0]).1.Settled?
    ensures FramesInv(HostStep(s, TakeFrame).value)
  {
    TakenFromFlight(s);
    assert |InFlight(s)| == 1;
  }

  lemma PartitionGrows(all: set<nat>, a: set<nat>, b: set<nat>, c: set<nat>, k: nat)
    requires Partition(all, a, b, c) && k !in all
    ensures Partition(all + {k}, a + {k}, b, c)
  {
  }

  /** What `t` is when the host of `s` has just admitted its next operation. */
  predicate HasAdmitted(s: System, t: System, request: Request) {
    && t.host == Host(s.host.sequence + 1, s.host.pendingFrames[s.host.sequence + 1 := request])
    && t.workers == s.workers[s.host.sequence + 1 := request]
    && t.issued == s.issued && t.serve == s.serve && t.completions == s.completions && t.computed == s.computed
  }

  lemma AdmitPartition(s: System, t: System, request: Request)
    requires HostInv(s) && HasAdmitted(s, t, request)
    ensures Partition(t.host.pendingFrames.Keys, t.workers.Keys, Queued(t.completions), Answering(t.serve))
  {
    var next := s.host.sequence + 1;
    assert next !in s.host.pendingFrames.Keys;
    assert t.host.pendingFrames.Keys == s.host.pendingFrames.Keys + {next};
    assert t.workers.Keys == s.workers.Keys + {next};
    PartitionGrows(s.host.pendingFrames.Keys, s.workers.Keys, Queued(s.completions), Answering(s.serve), next);
  }

  lemma AdmitPending(s: System, t: System, request: Request)
    requires HostInv(s) && s.host.sequence < |s.issued| && request == s.issued[s.host.sequence].1
    requires HasAdmitted(s, t, request)
    ensures forall k :: k in t.workers ==> k in t.host.pendingFrames && t.workers[k] == t.host.pendingFrames[k]
    ensures forall k :: k in t.host.pendingFrames ==>
              0 < k <= t.host.sequence && k <= |t.issued| && t.host.pendingFrames[k] == t.issued[k - 1].1
  {
  }

  lemma HostAdmits(s: System, t: System, request: Request)
    requires HostInv(s) && s.host.sequence < |s.issued| && request == s.issued[s.host.sequence].1
    requires HasAdmitted(s, t, request)
    ensures HostInv(t)
  {
    assert s.host.sequence + 1 !in s.host.pendingFrames;
    AdmitPartition(s, t, request);
    AdmitPending(s, t, request);
    StillGenuine(s, t);
  }

  lemma HostAfterAdmit(s: System)
    requires HostInv(s) && HostStep(s, TakeFrame).Some?
    requires Admit(s.host, s.channel[0]).1.Admitted? && s.host.sequence < |s.issued|
    requires s.channel[0] == Operation(s.host.sequence + 1, s.issued[s.host.sequence].1)
    ensures HostInv(HostStep(s, TakeFrame).value)
  {
    HostAdmits(s, HostStep(s, TakeFrame).value, s.channel[0].request);
  }

  lemma StillGenuine(s: System, t: System)
    requires HostInv(s) && t.completions == s.completions && t.computed == s.computed
    requires forall k :: k in s.host.pendingFrames ==>
               k in t.host.pendingFrames && t.host.pendingFrames[k] == s.host.pendingFrames[k]
    ensures forall k :: 0 <= k < |t.completions| ==> IsGenuine(t, t.completions[k])
  {
    forall k | 0 <= k < |s.completions|
      ensures IsGenuine(t, s.completions[k])
    {
      assert IsGenuine(s, s.completions[k]);
    }
  }

  lemma OwesAfterAdmit(awaited: set<nat>, h: Host, sequence: nat, request: Request)
    requires Owes(awaited, h, sequence) && h.sequence < sequence
    ensures Owes(awaited, Host(h.sequence + 1, h.pendingFrames[h.sequence + 1 := request]), sequence)
  {
  }

  /** Neither answers nor addresses depend on how much the host has taken in. */
  lemma LedgerMoves(s: System, t: System)
    requires LedgerInv(s) && t.vm == s.vm && t.issued == s.issued && t.received == s.received && t.computed == s.computed
    requires Owes(Awaited(t.vm), t.host, t.vm.sequence)
    ensures LedgerInv(t)
  {
  }

  lemma LedgerAfterAdmit(s: System)
    requires LedgerInv(s) && HostStep(s, TakeFrame).Some? && s.channel[0].Operation?
    requires Admit(s.host, s.channel[0]).1.Admitted? && s.host.sequence < s.vm.sequence
    ensures LedgerInv(HostStep(s, TakeFrame).value)
  {
    OwesAfterAdmit(Awaited(s.vm), s.host, s.vm.sequence, s.channel[0].request);
    LedgerMoves(s, HostStep(s, TakeFrame).value);
  }

  lemma TakeFrameKeeps(limit: nat, s: System)
    requires Inv(limit, s) && HostStep(s, TakeFrame).Some? && 0 < limit <= PENDING_LIMIT
    ensures Inv(limit, HostStep(s, TakeFrame).value)
  {
    FramesAfterTakeFrame(limit, s);
    FrameIsNext(limit, s);
    if s.channel[0].Operation? {
      HostAfterAdmit(s);
      LedgerAfterAdmit(s);
    } else {
      NoAnswerLost(s);
    }
  }

  lemma NoAnswerLost(s: System)
    requires HostInv(s) && HostStep(s, TakeFrame).Some? && s.channel[0].Finished?
    requires Admit(s.host, s.channel[0]).1.Settled?
    ensures HostInv(HostStep(s, TakeFrame).value)
  {
    StillGenuine(s, HostStep(s, TakeFrame).value);
  }

  lemma WorkKeeps(limit: nat, s: System, sequence: nat, value: string)
    requires Inv(limit, s) && HostStep(s, Work(sequence, value)).Some?
    ensures Inv(limit, HostStep(s, Work(sequence, value)).value)
  {
    var t := HostStep(s, Work(sequence, value)).value;
    assert InFlight(t) == InFlight(s);
    HostAfterWork(s, sequence, value);
    LedgerAfterWork(s, sequence, value);
  }

  lemma LedgerAfterWork(s: System, sequence: nat, value: string)
    requires HostInv(s) && LedgerInv(s) && HostStep(s, Work(sequence, value)).Some?
    ensures LedgerInv(HostStep(s, Work(sequence, value)).value)
  {
    assert sequence in s.host.pendingFrames;
    assert sequence in Awaited(s.vm) && sequence !in s.received;
  }

  lemma PartitionMoves(all: set<nat>, a: set<nat>, b: set<nat>, c: set<nat>, k: nat)
    requires Partition(all, a, b, c) && k in a
    ensures Partition(all, a - {k}, b + {k}, c)
  {
  }

  lemma HostAfterWork(s: System, sequence: nat, value: string)
    requires HostInv(s) && HostStep(s, Work(sequence, value)).Some?
    ensures HostInv(HostStep(s, Work(sequence, value)).value)
  {
    var t := HostStep(s, Work(sequence, value)).value;
    QueuedAppend(s.completions, Completion(sequence, s.workers[sequence].operation, value));
    assert t.workers.Keys == s.workers.Keys - {sequence};
    PartitionMoves(s.host.pendingFrames.Keys, s.workers.Keys, Queued(s.completions), Answering(s.serve), sequence);
    WorkedGenuine(s, sequence, value);
  }

  lemma WorkedGenuine(s: System, sequence: nat, value: string)
    requires HostInv(s) && HostStep(s, Work(sequence, value)).Some?
    ensures var t := HostStep(s, Work(sequence, value)).value;
            && (forall k :: 0 <= k < |t.completions| ==> IsGenuine(t, t.completions[k]))
            && (forall a, b :: 0 <= a < b < |t.completions| ==> t.completions[a].sequence != t.completions[b].sequence)
            && (t.serve.Sending? ==> IsGenuine(t, t.serve.completion))
  {
    var t := HostStep(s, Work(sequence, value)).value;
    forall k | 0 <= k < |s.completions|
      ensures s.completions[k].sequence != sequence && IsGenuine(t, s.completions[k])
    {
      assert s.completions[k].sequence in Queued(s.completions);
      assert IsGenuine(s, s.completions[k]);
    }
  }

  lemma TakeCompletionKeeps(limit: nat, s: System)
    requires Inv(limit, s) && HostStep(s, TakeCompletion).Some?
    ensures Inv(limit, HostStep(s, TakeCompletion).value)
  {
    var t := HostStep(s, TakeCompletion).value;
    assert InFlight(t) == InFlight(s);
    HostAfterTakeCompletion(s);
  }

  lemma HostAfterTakeCompletion(s: System)
    requires HostInv(s) && HostStep(s, TakeCompletion).Some?
    ensures HostInv(HostStep(s, TakeCompletion).value)
    ensures IsExpected(s.host, s.completions[0])
  {
    var t := HostStep(s, TakeCompletion).value;
    QueuedTail(s.completions);
    assert IsGenuine(s, s.completions[0]);
    forall k | 0 <= k < |t.completions|
      ensures IsGenuine(t, t.completions[k]) && t.completions[k].sequence != s.completions[0].sequence
    {
      assert t.completions[k] == s.completions[k + 1];
      assert IsGenuine(s, s.completions[k + 1]);
    }
    assert s.completions[0].sequence !in Queued(t.completions);
  }

  lemma HostAfterAnswer(s: System)
    requires HostInv(s) && AnswerStep(s).Some?
    ensures HostInv(AnswerStep(s).value)
  {
    var t := AnswerStep(s).value;
    forall k | 0 <= k < |s.completions|
      ensures IsGenuine(t, s.completions[k])
    {
      assert s.completions[k].sequence in Queued(s.completions);
      assert IsGenuine(s, s.completions[k]);
    }
  }

  lemma VMTakesAnswer(limit: nat, vm: VM, sequence: nat)
    requires VMInv(limit, vm) && IsReading(vm) && sequence in Awaited(vm)
    ensures VMInv(limit, TakeAnswer(vm, sequence))
    ensures Awaited(TakeAnswer(vm, sequence)) == Awaited(vm) - {sequence}
    ensures !IsFinal(TakeAnswer(vm, sequence))
  {
  }

  lemma VMAfterAnswer(limit: nat, s: System)
    requires Inv(limit, s) && AnswerStep(s).Some?
    ensures VMInv(limit, AnswerStep(s).value.vm)
    ensures Awaited(AnswerStep(s).value.vm) == Awaited(s.vm) - {s.serve.completion.sequence}
    ensures !IsFinal(AnswerStep(s).value.vm) && s.serve.completion.sequence in Awaited(s.vm)
  {
    assert s.serve.completion.sequence in Awaited(s.vm);
    VMTakesAnswer(limit, s.vm, s.serve.completion.sequence);
  }

  lemma LedgerAfterAnswer(limit: nat, s: System)
    requires LedgerInv(s) && AnswerStep(s).Some? && |s.issued| == s.vm.sequence
    requires var k := s.serve.completion.sequence;
             && k in s.host.pendingFrames && k <= s.host.sequence && IsGenuine(s, s.serve.completion)
             && Awaited(AnswerStep(s).value.vm) == Awaited(s.vm) - {k}
    ensures LedgerInv(AnswerStep(s).value)
  {
    var t := AnswerStep(s).value;
    var sequence := s.serve.completion.sequence;
    assert sequence in Awaited(s.vm);
    forall k: nat | k in Awaited(t.vm)
      ensures Recipient(t.vm, k) == Recipient(s.vm, k)
    {
    }
    assert Answered(t);
    assert Owes(Awaited(t.vm), t.host, t.vm.sequence);
  }

  lemma AnswerKeeps(limit: nat, s: System)
    requires Inv(limit, s) && AnswerStep(s).Some?
    ensures Inv(limit, AnswerStep(s).value)
  {
    var t := AnswerStep(s).value;
    assert InFlight(t) == InFlight(s);
    VMAfterAnswer(limit, s);
    HostAfterAnswer(s);
    LedgerAfterAnswer(limit, s);
  }

  lemma StepKeeps(limit: nat, s: System, e: Event)
    requires Inv(limit, s) && Step(limit, s, e).Some? && 0 < limit <= PENDING_LIMIT
    ensures Inv(limit, Step(limit, s, e).value)
  {
    match e
    case Answer => AnswerKeeps(limit, s);
    case Scan => ScanKeeps(limit, s);
    case Put => PutKeeps(limit, s);
    case TakeFrame => TakeFrameKeeps(limit, s);
    case TakeCompletion => TakeCompletionKeeps(limit, s);
    case Work(sequence, value) => WorkKeeps(limit, s, sequence, value);
    case _ => VMStepKeeps(limit, s, e);
  }

  lemma {:induction false} ExecKeeps(limit: nat, s: System, es: seq<Event>)
    requires Inv(limit, s) && Exec(limit, s, es).Some? && 0 < limit <= PENDING_LIMIT
    ensures Inv(limit, Exec(limit, s, es).value)
    decreases |es|
  {
    if es != [] {
      StepKeeps(limit, s, es[0]);
      ExecKeeps(limit, Step(limit, s, es[0]).value, es[1..]);
    }
  }

  lemma ReachableInv(limit: nat, s: System)
    requires Reachable(limit, s) && 0 < limit <= PENDING_LIMIT
    ensures Inv(limit, s)
  {
    var es: seq<Event> :| Exec(limit, Start, es) == Some(s);
    ExecKeeps(limit, Start, es);
  }
}
