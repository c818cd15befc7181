/**
 What the host takes from a VM that may send anything: exactly the traces that
 follow the numbering, the limit and the pairing of requests with completions.
 */
module LuaHostOrder {
  import opened Common
  import opened LuaExchange

  /** What reaches `serve`: a frame from the VM, or the completion of an operation once its answer is sent. */
  datatype Arrival = Incoming(frame: Frame) | Handed(completion: Completion)

  /** One case of `serve`; `None` ends the exchange with a protocol error, and a flag says whether it is over. */
  function Handle(h: Host, a: Arrival): Option<(Host, bool)> {
    match a
    case Incoming(frame) =>
      var (next, admission) := Admit(h, frame);
      if admission.ProtocolError? then None else Some((next, admission.Settled?))
    case Handed(c) => if IsExpected(h, c) then Some((Forget(h, c.sequence), false)) else None
  }

  /** The host after a whole trace, unless it has complained or gone on past the end. */
  function Serve(trace: seq<Arrival>): Option<(Host, bool)>
    decreases |trace|
  {
    if trace == [] then Some((Host(0, map[]), false))
    else match Serve(trace[..|trace| - 1])
      case None => None
      case Some((h, isOver)) => if isOver then None else Handle(h, trace[|trace| - 1])
  }

  // ------------------------------------------------ the same, said of the trace

  predicate Asks(a: Arrival) {
    a.Incoming? && a.frame.Operation?
  }

  function AskedCount(trace: seq<Arrival>): nat {
    if trace == [] then 0
    else AskedCount(trace[..|trace| - 1]) + (if Asks(trace[|trace| - 1]) then 1 else 0)
  }

  predicate WasAsked(trace: seq<Arrival>, k: nat, request: Request) {
    Incoming(Operation(k, request)) in trace
  }

  predicate WasHanded(trace: seq<Arrival>, k: nat) {
    exists i :: 0 <= i < |trace| && trace[i].Handed? && trace[i].completion.sequence == k
  }

  /** Numbers that were asked for and not yet handed over. */
  predicate IsOpen(trace: seq<Arrival>, k: nat) {
    (exists i :: 0 <= i < |trace| && Asks(trace[i]) && trace[i].frame.sequence == k) && !WasHanded(trace, k)
  }

  function Open(trace: seq<Arrival>): set<nat> {
    set k: nat | k <= |trace| && IsOpen(trace, k)
  }

  /** What may come after `before`. */
  ghost predicate MayFollow(before: seq<Arrival>, a: Arrival) {
    match a
    case Incoming(Operation(k, _)) => k == AskedCount(before) + 1 && |Open(before)| < 8
    case Incoming(Finished(k)) => k == AskedCount(before) && forall j: nat :: !IsOpen(before, j)
    case Handed(c) =>
      !WasHanded(before, c.sequence)
      && exists payload :: WasAsked(before, c.sequence, Request(c.operation, payload))
  }

  predicate EndsIt(a: Arrival) {
    a.Incoming? && a.frame.Finished?
  }

  /** The `k`-th arrival may follow those before it, and is the last if it is the final frame. */
  ghost predicate IsPlaced(trace: seq<Arrival>, k: nat) {
    k < |trace| && MayFollow(trace[..k], trace[k]) && (EndsIt(trace[k]) ==> k == |trace| - 1)
  }

  ghost predicate InOrder(trace: seq<Arrival>) {
    forall k: nat :: k < |trace| ==> IsPlaced(trace, k)
  }

  // ------------------------------------------------------------- the invariant

  /** The host's counter and its pending requests are what the trace says. */
  ghost predicate Follows(h: Host, trace: seq<Arrival>) {
    && h.sequence == AskedCount(trace) <= |trace|
    && (forall k: nat :: k in h.pendingFrames <==> IsOpen(trace, k))
    && (forall k: nat, request :: WasAsked(trace, k, request) ==> 0 < k <= h.sequence)
    && (forall k: nat, request :: WasAsked(trace, k, request) && k in h.pendingFrames ==> h.pendingFrames[k] == request)
    && (forall k: nat :: k in h.pendingFrames ==> WasAsked(trace, k, h.pendingFrames[k]))
  }

  lemma OpenIsPending(h: Host, trace: seq<Arrival>)
    requires Follows(h, trace)
    ensures Open(trace) == h.pendingFrames.Keys && |Open(trace)| == |h.pendingFrames|
  {
    assert |h.pendingFrames| == |h.pendingFrames.Keys|;
  }

  lemma OpenAfter(trace: seq<Arrival>, a: Arrival, k: nat)
    ensures WasHanded(trace + [a], k) <==> WasHanded(trace, k) || (a.Handed? && a.completion.sequence == k)
    ensures IsOpen(trace + [a], k) <==>
            (IsOpen(trace, k) || (Asks(a) && a.frame.sequence == k && !WasHanded(trace, k)))
            && !(a.Handed? && a.completion.sequence == k)
  {
    var more := trace + [a];
    assert more[|trace|] == a && forall i :: 0 <= i < |trace| ==> more[i] == trace[i];
  }

  lemma AskedAfter(trace: seq<Arrival>, a: Arrival)
    ensures AskedCount(trace + [a]) == AskedCount(trace) + (if Asks(a) then 1 else 0)
    ensures forall k: nat, request :: WasAsked(trace + [a], k, request) <==>
              WasAsked(trace, k, request) || a == Incoming(Operation(k, request))
  {
    assert (trace + [a])[..|trace|] == trace;
  }

  /** Nothing was handed over that was not asked for. */
  ghost predicate HandedWereAsked(trace: seq<Arrival>) {
    forall k: nat :: WasHanded(trace, k) ==> k <= AskedCount(trace)
  }

  lemma HandleIff(h: Host, trace: seq<Arrival>, a: Arrival)
    requires Follows(h, trace) && HandedWereAsked(trace)
    ensures Handle(h, a).Some? <==> MayFollow(trace, a)
    ensures Handle(h, a).Some? ==> Handle(h, a).value.1 == EndsIt(a)
  {
    OpenIsPending(h, trace);
    if a.Handed? {
      HandedIff(h, trace, a.completion);
    } else if a.frame.Finished? {
      assert |h.pendingFrames| == 0 <==> forall j: nat :: !IsOpen(trace, j) by {
        if |h.pendingFrames| == 0 {
          assert h.pendingFrames == map[];
        } else {
          var j :| j in h.pendingFrames;
          assert IsOpen(trace, j);
        }
      }
    }
  }

  lemma HandedIff(h: Host, trace: seq<Arrival>, c: Completion)
    requires Follows(h, trace)
    ensures IsExpected(h, c) <==> MayFollow(trace, Handed(c))
  {
    if IsExpected(h, c) {
      var request := h.pendingFrames[c.sequence];
      assert WasAsked(trace, c.sequence, Request(c.operation, request.payload));
      assert IsOpen(trace, c.sequence);
    }
    if MayFollow(trace, Handed(c)) {
      var payload :| WasAsked(trace, c.sequence, Request(c.operation, payload));
      var i :| 0 <= i < |trace| && trace[i] == Incoming(Operation(c.sequence, Request(c.operation, payload)));
      assert Asks(trace[i]) && IsOpen(trace, c.sequence);
      assert h.pendingFrames[c.sequence] == Request(c.operation, payload);
    }
  }

  lemma OpenFollows(h: Host, trace: seq<Arrival>, a: Arrival, k: nat)
    requires Follows(h, trace) && HandedWereAsked(trace) && Handle(h, a).Some?
    ensures k in Handle(h, a).value.0.pendingFrames <==> IsOpen(trace + [a], k)
    ensures WasHanded(trace + [a], k) ==> k <= AskedCount(trace + [a])
  {
    AskedAfter(trace, a);
    OpenAfter(trace, a, k);
  }

  lemma RequestsFollow(h: Host, trace: seq<Arrival>, a: Arrival, k: nat, request: Request)
    requires Follows(h, trace) && Handle(h, a).Some? && WasAsked(trace + [a], k, request)
    ensures var next := Handle(h, a).value.0;
            0 < k <= next.sequence && (k in next.pendingFrames ==> next.pendingFrames[k] == request)
  {
    AskedAfter(trace, a);
  }

  lemma PendingWasAsked(h: Host, trace: seq<Arrival>, a: Arrival, k: nat)
    requires Follows(h, trace) && Handle(h, a).Some? && k in Handle(h, a).value.0.pendingFrames
    ensures WasAsked(trace + [a], k, Handle(h, a).value.0.pendingFrames[k])
  {
    AskedAfter(trace, a);
  }

  lemma HandleFollows(h: Host, trace: seq<Arrival>, a: Arrival)
    requires Follows(h, trace) && HandedWereAsked(trace) && Handle(h, a).Some?
    ensures Follows(Handle(h, a).value.0, trace + [a]) && HandedWereAsked(trace + [a])
  {
    var next, more := Handle(h, a).value.0, trace + [a];
    AskedAfter(trace, a);
    forall k: nat
      ensures k in next.pendingFrames <==> IsOpen(more, k)
      ensures WasHanded(more, k) ==> k <= AskedCount(more)
    {
      OpenFollows(h, trace, a, k);
    }
    forall k: nat, request | WasAsked(more, k, request)
      ensures 0 < k <= next.sequence && (k in next.pendingFrames ==> next.pendingFrames[k] == request)
    {
      RequestsFollow(h, trace, a, k, request);
    }
    forall k: nat | k in next.pendingFrames
      ensures WasAsked(more, k, next.pendingFrames[k])
    {
      PendingWasAsked(h, trace, a, k);
    }
  }

  lemma ServeLast(trace: seq<Arrival>)
    requires trace != [] && Serve(trace).Some?
    ensures Serve(trace[..|trace| - 1]).Some? && !Serve(trace[..|trace| - 1]).value.1
    ensures Handle(Serve(trace[..|trace| - 1]).value.0, trace[|trace| - 1]) == Serve(trace)
  {
  }

  lemma HandledFollows(h: Host, most: seq<Arrival>, a: Arrival, trace: seq<Arrival>, next: Host)
    requires Follows(h, most) && HandedWereAsked(most) && Handle(h, a).Some? && next == Handle(h, a).value.0
    requires trace == most + [a]
    ensures Follows(next, trace) && HandedWereAsked(trace)
  {
    HandleFollows(h, most, a);
  }

  lemma NothingFollows()
    ensures Follows(Host(0, map[]), []) && HandedWereAsked([])
  {
  }

  lemma {:induction false} ServeFollows(trace: seq<Arrival>)
    requires Serve(trace).Some?
    ensures Follows(Serve(trace).value.0, trace) && HandedWereAsked(trace)
    decreases |trace|
  {
    if trace == [] {
      NothingFollows();
    } else {
      var most, a := trace[..|trace| - 1], trace[|trace| - 1];
      ServeLast(trace);
      ServeFollows(most);
      assert trace == most + [a];
      HandledFollows(Serve(most).value.0, most, a, trace, Serve(trace).value.0);
    }
  }

  lemma PlacedBefore(most: seq<Arrival>, a: Arrival, k: nat)
    requires k < |most|
    ensures IsPlaced(most + [a], k) <==> IsPlaced(most, k) && (k == |most| - 1 ==> !EndsIt(most[k]))
  {
    assert (most + [a])[..k] == most[..k] && (most + [a])[k] == most[k];
  }

  lemma PlacedLast(most: seq<Arrival>, a: Arrival)
    ensures IsPlaced(most + [a], |most|) <==> MayFollow(most, a)
  {
    assert (most + [a])[..|most|] == most && (most + [a])[|most|] == a;
  }

  lemma InOrderDrops(most: seq<Arrival>, a: Arrival)
    requires InOrder(most + [a])
    ensures InOrder(most) && MayFollow(most, a) && (most != [] ==> !EndsIt(most[|most| - 1]))
  {
    PlacedLast(most, a);
    assert IsPlaced(most + [a], |most|);
    forall k: nat | k < |most|
      ensures IsPlaced(most, k) && (k == |most| - 1 ==> !EndsIt(most[k]))
    {
      PlacedBefore(most, a, k);
      assert IsPlaced(most + [a], k);
    }
  }

  lemma InOrderGrows(most: seq<Arrival>, a: Arrival)
    requires InOrder(most) && MayFollow(most, a) && (most != [] ==> !EndsIt(most[|most| - 1]))
    ensures InOrder(most + [a])
  {
    forall k: nat | k < |most + [a]|
      ensures IsPlaced(most + [a], k)
    {
      if k < |most| {
        assert IsPlaced(most, k);
        PlacedBefore(most, a, k);
      } else {
        PlacedLast(most, a);
      }
    }
  }

  lemma InOrderLast(most: seq<Arrival>, a: Arrival)
    ensures InOrder(most + [a]) <==>
            InOrder(most) && MayFollow(most, a) && (most != [] ==> !EndsIt(most[|most| - 1]))
  {
    if InOrder(most + [a]) {
      InOrderDrops(most, a);
    } else if InOrder(most) && MayFollow(most, a) && (most != [] ==> !EndsIt(most[|most| - 1])) {
      InOrderGrows(most, a);
    }
  }

  /**
   Whatever a VM sends, the host goes through a trace without a protocol error if
   and only if operations come numbered one by one with never more than eight open,
   each completion is of an open operation of its name, and the final frame comes
   last, with the number of operations and none open.
   */
  lemma {:induction false} ServeIff(trace: seq<Arrival>)
    ensures Serve(trace).Some? <==> InOrder(trace)
    ensures Serve(trace).Some? ==> (Serve(trace).value.1 <==> trace != [] && EndsIt(trace[|trace| - 1]))
    decreases |trace|
  {
    if trace != [] {
      var most, a := trace[..|trace| - 1], trace[|trace| - 1];
      assert most + [a] == trace;
      ServeIff(most);
      InOrderLast(most, a);
      if Serve(most).Some? {
        ServeFollows(most);
        HandleIff(Serve(most).value.0, most, a);
      }
    }
  }
}
