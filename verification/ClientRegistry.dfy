/**
 The registry of owned clients under racing launches, closes, releases of names
 and shutdowns.
 */
module ClientRegistry {
  import opened Common

  datatype Status = Launching | Suspended | Running | LaunchFailed | Inspection | Closed

  /** `isStarted` is the closed start channel: the launch has written its last status. */
  datatype Client = Client(name: string, status: Status, isStarted: bool, isForgotten: bool)

  /** One call of `Close`; clients are named by their position among all ever registered. */
  datatype Closer =
    | Closing(client: nat, isForced: bool) | Done(client: nat, isForced: bool, isClosed: bool) | NotFound(isForced: bool)

  /** What a shutdown did about one client: the calls of `Close` it made, by their position among all. */
  datatype Attempt = Attempt(client: nat, graceful: nat, forced: Option<nat>)

  /**
   One call of `Shutdown`: clients still to close, the close under way, and whether it
   is the forced one.  `listed` is whom it was to close, and `attempts` logs what it did.
   */
  datatype Shutdown = Shutdown(remaining: seq<nat>, closer: Option<nat>, isForced: bool, hasError: bool, isReturned: bool,
                               listed: seq<nat>, attempts: seq<Attempt>)

  datatype System = System(names: map<string, nat>, clients: seq<Client>, isStopping: bool,
                           closers: seq<Closer>, shutdowns: seq<Shutdown>)

  datatype Event =
    | Launch(name: string) | LaunchStatus(client: nat, status: Status) | LaunchEnd(client: nat)
    | CloseBegin(name: string, isForced: bool) | CloseEnd(closer: nat, isClosed: bool)
    | Forget(name: string)
    | ShutdownBegin | ShutdownStep(shutdown: nat)

  const Start := System(map[], [], false, [], [])

  function Lookup(s: System, name: string, isForced: bool): Closer {
    if name in s.names then Closing(s.names[name], isForced) else NotFound(isForced)
  }

  /** The locked part of `Launch`: reserve the name, or refuse. */
  function Reserve(s: System, name: string): System {
    if s.isStopping || name in s.names then s
    else s.(names := s.names[name := |s.clients|], clients := s.clients + [Client(name, Launching, false, false)])
  }

  function Release(s: System, name: string): System {
    if name in s.names && s.names[name] < |s.clients| && s.clients[s.names[name]].status == Closed then
      var i := s.names[name];
      s.(names := s.names - {name}, clients := s.clients[i := s.clients[i].(isForgotten := true)])
    else s
  }

  /** Registered clients, in some order. */
  function Listing(s: System): (r: seq<nat>) {
    Select(s, |s.clients|)
  }

  function Select(s: System, n: nat): (r: seq<nat>)
    requires n <= |s.clients|
    ensures forall i :: i in r <==> 0 <= i < n && !s.clients[i].isForgotten
  {
    if n == 0 then [] else Select(s, n - 1) + (if s.clients[n - 1].isForgotten then [] else [n - 1])
  }

  /** The next client's graceful close begins as the call numbered `call`. */
  function BeginGraceful(h: Shutdown, call: nat): Shutdown
    requires h.remaining != []
  {
    h.(closer := Some(call), isForced := false, attempts := h.attempts + [Attempt(h.remaining[0], call, None)])
  }

  function BeginForced(h: Shutdown, call: nat): Shutdown {
    h.(closer := Some(call), isForced := true,
       attempts := if h.attempts == [] then []
                   else h.attempts[|h.attempts| - 1 := h.attempts[|h.attempts| - 1].(forced := Some(call))])
  }

  /** What a shutdown does next, given how its current close went. */
  function Continue(s: System, h: Shutdown): Option<(Shutdown, Option<string>)> {
    if h.isReturned then None
    else if h.closer.None? then
      if h.remaining == [] then Some((h.(isReturned := true), None))
      else if h.remaining[0] < |s.clients| then
        Some((BeginGraceful(h, |s.closers|), Some(s.clients[h.remaining[0]].name)))
      else None
    else if h.closer.value >= |s.closers| || h.remaining == [] then None
    else match s.closers[h.closer.value]
      case Closing(_, _) => None
      case Done(_, _, true) => Some((h.(remaining := h.remaining[1..], closer := None), None))
      case _ =>
        if h.isForced then Some((h.(remaining := h.remaining[1..], closer := None, hasError := true), None))
        else if h.remaining[0] < |s.clients| then
          Some((BeginForced(h, |s.closers|), Some(s.clients[h.remaining[0]].name)))
        else None
  }

  function Step(s: System, e: Event): Option<System> {
    match e
    case Launch(name) => Some(Reserve(s, name))
    case LaunchStatus(i, status) =>
      if i < |s.clients| && !s.clients[i].isStarted && status != Closed then
        Some(s.(clients := s.clients[i := s.clients[i].(status := status)]))
      else None
    case LaunchEnd(i) =>
      if i < |s.clients| then Some(s.(clients := s.clients[i := s.clients[i].(isStarted := true)])) else None
    case CloseBegin(name, isForced) => Some(s.(closers := s.closers + [Lookup(s, name, isForced)]))
    case CloseEnd(k, isClosed) =>
      if k < |s.closers| && s.closers[k].Closing? && s.closers[k].client < |s.clients| then
        var i := s.closers[k].client;
        var after := s.(closers := s.closers[k := Done(i, s.closers[k].isForced, isClosed)]);
        if !isClosed then Some(after)
        else if s.clients[i].isStarted then
          Some(after.(clients := s.clients[i := s.clients[i].(status := Closed)]))
        else None
      else None
    case Forget(name) => Some(Release(s, name))
    case ShutdownBegin =>
      Some(s.(isStopping := true,
              shutdowns := s.shutdowns + [Shutdown(Listing(s), None, false, false, false, Listing(s), [])]))
    case ShutdownStep(k) =>
      if k >= |s.shutdowns| then None
      else match Continue(s, s.shutdowns[k])
        case None => None
        case Some((h, name)) =>
          Some(s.(shutdowns := s.shutdowns[k := h],
                  closers := if name.Some? then s.closers + [Lookup(s, name.value, h.isForced)] else s.closers))
  }

  function Exec(s: System, es: seq<Event>): Option<System>
    decreases |es|
  {
    if es == [] then Some(s)
    else match Step(s, es[0])
      case None => None
      case Some(next) => Exec(next, es[1..])
  }

  ghost predicate Reachable(s: System) {
    exists es: seq<Event> :: Exec(Start, es) == Some(s)
  }

  // ------------------------------------------------------------- invariant

  predicate ClientInv(c: Client) {
    (c.status == Closed ==> c.isStarted) && (c.isForgotten ==> c.status == Closed)
  }

  /** A name leads to its one registered client. */
  ghost predicate NamesInv(s: System) {
    && (forall name :: name in s.names ==>
          s.names[name] < |s.clients| && s.clients[s.names[name]].name == name && !s.clients[s.names[name]].isForgotten)
    && (forall i :: 0 <= i < |s.clients| && !s.clients[i].isForgotten ==>
          s.clients[i].name in s.names && s.names[s.clients[i].name] == i)
  }

  predicate CloserInv(s: System, c: Closer) {
    match c
    case Closing(i, _) => i < |s.clients|
    case Done(i, _, isClosed) => i < |s.clients| && (isClosed ==> s.clients[i].status == Closed)
    case NotFound(_) => true
  }

  /** The client's name still leads to it, or to nobody. */
  predicate Leads(s: System, i: nat) {
    i < |s.clients| && (s.clients[i].name in s.names ==> s.names[s.clients[i].name] == i)
  }

  ghost predicate ShutdownInv(s: System, h: Shutdown) {
    && s.isStopping
    && (forall k :: 0 <= k < |h.remaining| ==> Leads(s, h.remaining[k]))
    && (forall i :: 0 <= i < |s.clients| ==> s.clients[i].status == Closed || i in h.remaining || h.hasError)
    && (h.isReturned ==> h.remaining == [])
    && (h.closer.Some? ==> h.remaining != [] && h.closer.value < |s.closers| && Targets(s.closers[h.closer.value], h.remaining[0]))
  }

  /** The close concerns this client, or did not find it. */
  predicate Targets(c: Closer, i: nat) {
    match c
    case Closing(j, _) => j == i
    case Done(j, _, _) => j == i
    case NotFound(_) => true
  }

  ghost predicate Inv(s: System) {
    && (forall i :: 0 <= i < |s.clients| ==> ClientInv(s.clients[i]))
    && NamesInv(s)
    && (forall k :: 0 <= k < |s.closers| ==> CloserInv(s, s.closers[k]))
    && (forall k :: 0 <= k < |s.shutdowns| ==> ShutdownInv(s, s.shutdowns[k]))
  }

  /** Later states only add clients before the stop, and never reopen one. */
  ghost predicate Later(s: System, t: System) {
    && |s.clients| <= |t.clients| && |s.closers| <= |t.closers|
    && (s.isStopping ==> t.isStopping && |t.clients| == |s.clients|
                         && forall name :: name in t.names ==> name in s.names && t.names[name] == s.names[name])
    && (forall i :: 0 <= i < |s.clients| ==>
          && t.clients[i].name == s.clients[i].name
          && (s.clients[i].status == Closed ==> t.clients[i].status == Closed)
          && (s.clients[i].isForgotten ==> t.clients[i].isForgotten))
  }

  lemma StepLater(s: System, e: Event)
    requires Inv(s) && Step(s, e).Some?
    ensures Later(s, Step(s, e).value)
  {
  }

  lemma ReserveKeepsNames(s: System, name: string)
    requires NamesInv(s)
    ensures NamesInv(Reserve(s, name))
  {
  }

  lemma ReleaseKeepsNames(s: System, name: string)
    requires NamesInv(s)
    ensures NamesInv(Release(s, name))
  {
  }

  lemma NamesKept(s: System, e: Event)
    requires NamesInv(s) && Step(s, e).Some?
    ensures NamesInv(Step(s, e).value)
  {
    var t := Step(s, e).value;
    if e.Launch? {
      ReserveKeepsNames(s, e.name);
    } else if e.Forget? {
      ReleaseKeepsNames(s, e.name);
    } else {
      assert t.names == s.names && |t.clients| == |s.clients|;
      assert forall i :: 0 <= i < |s.clients| ==>
               t.clients[i].name == s.clients[i].name && t.clients[i].isForgotten == s.clients[i].isForgotten;
    }
  }

  lemma ClientsKept(s: System, e: Event)
    requires Inv(s) && Step(s, e).Some?
    ensures forall i :: 0 <= i < |Step(s, e).value.clients| ==> ClientInv(Step(s, e).value.clients[i])
  {
  }

  lemma ClosersKept(s: System, e: Event)
    requires Inv(s) && Step(s, e).Some?
    ensures forall k :: 0 <= k < |Step(s, e).value.closers| ==> CloserInv(Step(s, e).value, Step(s, e).value.closers[k])
  {
    var t := Step(s, e).value;
    StepLater(s, e);
    forall k | 0 <= k < |t.closers|
      ensures CloserInv(t, t.closers[k])
    {
      if k < |s.closers| {
        assert CloserInv(s, s.closers[k]);
      }
    }
  }

  /** A shutdown that does nothing itself keeps its invariant. */
  lemma BystanderKept(s: System, t: System, h: Shutdown)
    requires ShutdownInv(s, h) && Later(s, t)
    requires forall k, i :: 0 <= k < |s.closers| && Targets(s.closers[k], i) ==> Targets(t.closers[k], i)
    ensures ShutdownInv(t, h)
  {
  }

  lemma TargetsKept(s: System, e: Event, k: nat, i: nat)
    requires Step(s, e).Some? && k < |s.closers| && Targets(s.closers[k], i)
    ensures k < |Step(s, e).value.closers| && Targets(Step(s, e).value.closers[k], i)
  {
  }

  lemma LookupTargets(s: System, i: nat)
    requires NamesInv(s) && Leads(s, i)
    ensures forall isForced :: Targets(Lookup(s, s.clients[i].name, isForced), i)
  {
  }

  lemma ActorKept(s: System, k: nat)
    requires Inv(s) && k < |s.shutdowns| && Step(s, ShutdownStep(k)).Some?
    ensures ShutdownInv(Step(s, ShutdownStep(k)).value, Step(s, ShutdownStep(k)).value.shutdowns[k])
  {
    var t, h := Step(s, ShutdownStep(k)).value, s.shutdowns[k];
    assert ShutdownInv(s, h);
    if h.closer.Some? {
      assert CloserInv(s, s.closers[h.closer.value]);
    }
    if h.remaining != [] {
      assert h.remaining == [h.remaining[0]] + h.remaining[1..];
      LookupTargets(s, h.remaining[0]);
    }
    assert forall i :: Leads(s, i) ==> Leads(t, i);
  }

  lemma NewcomerKept(s: System)
    requires Inv(s)
    ensures var t := Step(s, ShutdownBegin).value; ShutdownInv(t, t.shutdowns[|s.shutdowns|])
  {
    var t, listing := Step(s, ShutdownBegin).value, Listing(s);
    forall k | 0 <= k < |listing|
      ensures Leads(t, listing[k])
    {
      assert listing[k] in listing;
    }
    forall i | 0 <= i < |s.clients|
      ensures s.clients[i].status == Closed || i in listing
    {
      assert ClientInv(s.clients[i]);
    }
  }

  lemma ShutdownsKept(s: System, e: Event)
    requires Inv(s) && Step(s, e).Some?
    ensures forall k :: 0 <= k < |Step(s, e).value.shutdowns| ==> ShutdownInv(Step(s, e).value, Step(s, e).value.shutdowns[k])
  {
    var t := Step(s, e).value;
    StepLater(s, e);
    forall k, i | 0 <= k < |s.closers| && Targets(s.closers[k], i)
      ensures Targets(t.closers[k], i)
    {
      TargetsKept(s, e, k, i);
    }
    forall k | 0 <= k < |t.shutdowns|
      ensures ShutdownInv(t, t.shutdowns[k])
    {
      if e == ShutdownStep(k) {
        ActorKept(s, k);
      } else if k < |s.shutdowns| {
        BystanderKept(s, t, s.shutdowns[k]);
      } else {
        NewcomerKept(s);
      }
    }
  }

  lemma StepKeeps(s: System, e: Event)
    requires Inv(s) && Step(s, e).Some?
    ensures Inv(Step(s, e).value)
  {
    NamesKept(s, e);
    ClientsKept(s, e);
    ClosersKept(s, e);
    ShutdownsKept(s, e);
  }

  lemma {:induction false} ExecKeeps(s: System, es: seq<Event>)
    requires Inv(s) && Exec(s, es).Some?
    ensures Inv(Exec(s, es).value) && Later(s, Exec(s, es).value)
    decreases |es|
  {
    if es != [] {
      StepKeeps(s, es[0]);
      StepLater(s, es[0]);
      ExecKeeps(Step(s, es[0]).value, es[1..]);
    }
  }

  lemma ReachableInv(s: System)
    requires Reachable(s)
    ensures Inv(s)
  {
    var es: seq<Event> :| Exec(Start, es) == Some(s);
    ExecKeeps(Start, es);
  }

  // --------------------------------------------------------------- theorems

  /**
   Once a shutdown has returned without error, every client ever registered is
   closed, stays closed, and no client is registered in any later state.
   */
  lemma ShutdownLeavesNothingOpen(s: System, k: nat, es: seq<Event>)
    requires Reachable(s) && k < |s.shutdowns| && s.shutdowns[k].isReturned && !s.shutdowns[k].hasError
    requires Exec(s, es).Some?
    ensures var t := Exec(s, es).value;
            |t.clients| == |s.clients| && forall i :: 0 <= i < |t.clients| ==> t.clients[i].status == Closed
  {
    ReachableInv(s);
    assert ShutdownInv(s, s.shutdowns[k]);
    ExecKeeps(s, es);
  }

  /** A name is held by at most one client that has not been released. */
  lemma NamesAreExclusive(s: System, i: nat, j: nat)
    requires Reachable(s) && i < |s.clients| && j < |s.clients|
    requires !s.clients[i].isForgotten && !s.clients[j].isForgotten && s.clients[i].name == s.clients[j].name
    ensures i == j
  {
    ReachableInv(s);
  }

  /** Closed is final, and only closed clients are forgotten. */
  lemma ClosedIsFinal(s: System, es: seq<Event>, i: nat)
    requires Reachable(s) && i < |s.clients| && Exec(s, es).Some?
    ensures i < |Exec(s, es).value.clients|
    ensures s.clients[i].status == Closed ==> Exec(s, es).value.clients[i].status == Closed
    ensures Exec(s, es).value.clients[i].isForgotten ==> Exec(s, es).value.clients[i].status == Closed
  {
    ReachableInv(s);
    ExecKeeps(s, es);
    assert ClientInv(Exec(s, es).value.clients[i]);
  }

  // ------------------------------------------------- what a shutdown reports

  predicate HasFailed(c: Closer) {
    c.NotFound? || (c.Done? && !c.isClosed)
  }

  predicate HasSucceeded(c: Closer) {
    c.Done? && c.isClosed
  }

  /** The call numbered `k` is a close of this client, forced or not. */
  predicate IsCall(closers: seq<Closer>, k: nat, client: nat, isForced: bool) {
    k < |closers| && closers[k].isForced == isForced && Targets(closers[k], client)
  }

  /** The attempt made its calls: the forced one only after the graceful one had failed. */
  predicate IsRightly(closers: seq<Closer>, a: Attempt) {
    && IsCall(closers, a.graceful, a.client, false)
    && (a.forced.Some? ==> IsCall(closers, a.forced.value, a.client, true) && HasFailed(closers[a.graceful]))
  }

  /** It is over: the client is closed, or its forced close has failed as well. */
  predicate IsOver(closers: seq<Closer>, a: Attempt)
    requires IsRightly(closers, a)
  {
    if a.forced.None? then HasSucceeded(closers[a.graceful])
    else HasSucceeded(closers[a.forced.value]) || HasFailed(closers[a.forced.value])
  }

  predicate HasGivenUp(closers: seq<Closer>, a: Attempt) {
    && a.graceful < |closers| && HasFailed(closers[a.graceful])
    && a.forced.Some? && a.forced.value < |closers| && HasFailed(closers[a.forced.value])
  }

  /** How many clients the shutdown is done with. */
  function DoneCount(h: Shutdown): nat {
    if h.closer.Some? && h.attempts != [] then |h.attempts| - 1 else |h.attempts|
  }

  /** The call under way is the last one of the last attempt. */
  predicate IsUnderWay(h: Shutdown) {
    h.closer.Some? ==>
      && h.attempts != []
      && var a := h.attempts[|h.attempts| - 1]; if h.isForced then a.forced == h.closer else a.forced.None? && Some(a.graceful) == h.closer
  }

  ghost predicate AttemptsInv(closers: seq<Closer>, h: Shutdown) {
    && IsUnderWay(h) && DoneCount(h) <= |h.attempts| <= |h.listed|
    && h.remaining == h.listed[DoneCount(h)..]
    && (h.isReturned ==> h.closer.None? && h.remaining == [])
    && (forall j :: 0 <= j < |h.attempts| ==> h.attempts[j].client == h.listed[j] && IsRightly(closers, h.attempts[j]))
    && (forall j :: 0 <= j < DoneCount(h) ==> IsOver(closers, h.attempts[j]))
    && (h.hasError <==> exists j :: 0 <= j < DoneCount(h) && HasGivenUp(closers, h.attempts[j]))
  }

  /** A call of `Close` only goes from under way to done. */
  ghost predicate ClosersGrow(before: seq<Closer>, after: seq<Closer>) {
    && |before| <= |after|
    && forall k :: 0 <= k < |before| ==>
         after[k] == before[k] || (before[k].Closing? && after[k].Done?
                                   && after[k].client == before[k].client && after[k].isForced == before[k].isForced)
  }

  lemma StepGrows(s: System, e: Event)
    requires Step(s, e).Some?
    ensures ClosersGrow(s.closers, Step(s, e).value.closers)
  {
  }

  lemma AttemptStays(before: seq<Closer>, after: seq<Closer>, a: Attempt)
    requires ClosersGrow(before, after) && IsRightly(before, a)
    ensures IsRightly(after, a) && (IsOver(before, a) ==> IsOver(after, a))
    ensures IsOver(before, a) ==> (HasGivenUp(before, a) <==> HasGivenUp(after, a))
  {
  }

  lemma AttemptsStay(before: seq<Closer>, after: seq<Closer>, h: Shutdown)
    requires ClosersGrow(before, after) && AttemptsInv(before, h)
    ensures AttemptsInv(after, h)
  {
    forall j | 0 <= j < |h.attempts|
      ensures IsRightly(after, h.attempts[j])
      ensures IsOver(before, h.attempts[j]) ==> IsOver(after, h.attempts[j])
      ensures IsOver(before, h.attempts[j]) ==> (HasGivenUp(before, h.attempts[j]) <==> HasGivenUp(after, h.attempts[j]))
    {
      AttemptStays(before, after, h.attempts[j]);
    }
  }

  /** A shutdown goes on to the next client. */
  lemma GracefulBegins(closers: seq<Closer>, h: Shutdown, c: Closer)
    requires AttemptsInv(closers, h) && h.closer.None? && !h.isReturned && h.remaining != []
    requires !c.isForced && Targets(c, h.remaining[0])
    ensures AttemptsInv(closers + [c], BeginGraceful(h, |closers|))
  {
    var more, g := closers + [c], BeginGraceful(h, |closers|);
    assert ClosersGrow(closers, more);
    AttemptsStay(closers, more, h);
    assert g.attempts[..|h.attempts|] == h.attempts && h.listed[|h.attempts|] == h.remaining[0];
    assert forall j :: 0 <= j < |h.attempts| ==> g.attempts[j] == h.attempts[j];
  }

  /** After a graceful close that failed, it forces the same client. */
  lemma ForcedBegins(closers: seq<Closer>, h: Shutdown, c: Closer)
    requires AttemptsInv(closers, h) && h.closer.Some? && !h.isForced && h.remaining != []
    requires h.closer.value < |closers| && HasFailed(closers[h.closer.value])
    requires c.isForced && Targets(c, h.remaining[0])
    ensures AttemptsInv(closers + [c], BeginForced(h, |closers|))
  {
    var more, g, n := closers + [c], BeginForced(h, |closers|), |h.attempts| - 1;
    assert ClosersGrow(closers, more);
    AttemptsStay(closers, more, h);
    assert h.remaining[0] == h.listed[n];
    assert forall j :: 0 <= j < n ==> g.attempts[j] == h.attempts[j];
    assert IsRightly(more, g.attempts[n]);
  }

  /** It is done with a client once its close has succeeded, or its forced one has ended. */
  lemma AttemptEnds(closers: seq<Closer>, h: Shutdown, g: Shutdown)
    requires AttemptsInv(closers, h) && h.closer.Some? && h.closer.value < |closers| && h.remaining != [] && !h.isReturned
    requires HasSucceeded(closers[h.closer.value]) || (h.isForced && HasFailed(closers[h.closer.value]))
    requires g == h.(remaining := h.remaining[1..], closer := None,
                     hasError := h.hasError || HasFailed(closers[h.closer.value]))
    ensures AttemptsInv(closers, g)
  {
    var n := |h.attempts| - 1;
    assert h.listed[n..][1..] == h.listed[n + 1..];
    assert IsRightly(closers, h.attempts[n]) && IsOver(closers, h.attempts[n]);
    assert HasGivenUp(closers, h.attempts[n]) <==> HasFailed(closers[h.closer.value]);
    if h.hasError {
      var j :| 0 <= j < n && HasGivenUp(closers, h.attempts[j]);
    }
  }

  /** The call that is under way is among the calls of the last attempt, and none follows a returned shutdown. */
  lemma ActorMoves(s: System, k: nat)
    requires k < |s.shutdowns| && Step(s, ShutdownStep(k)).Some?
    ensures var t, h := Step(s, ShutdownStep(k)).value, s.shutdowns[k];
            && k < |t.shutdowns| && !h.isReturned
            && var g := t.shutdowns[k];
               if h.closer.None? then
                 if h.remaining == [] then g == h.(isReturned := true) && t.closers == s.closers
                 else h.remaining[0] < |s.clients| && g == BeginGraceful(h, |s.closers|)
                      && t.closers == s.closers + [Lookup(s, s.clients[h.remaining[0]].name, false)]
               else
                 && h.closer.value < |s.closers| && h.remaining != []
                 && var c := s.closers[h.closer.value];
                    if HasFailed(c) && !h.isForced then
                      h.remaining[0] < |s.clients| && g == BeginForced(h, |s.closers|)
                      && t.closers == s.closers + [Lookup(s, s.clients[h.remaining[0]].name, true)]
                    else
                      && (HasSucceeded(c) || (h.isForced && HasFailed(c))) && t.closers == s.closers
                      && g == h.(remaining := h.remaining[1..], closer := None, hasError := h.hasError || HasFailed(c))
  {
  }

  lemma ActorAttempts(s: System, k: nat)
    requires Inv(s) && k < |s.shutdowns| && Step(s, ShutdownStep(k)).Some? && AttemptsInv(s.closers, s.shutdowns[k])
    ensures AttemptsInv(Step(s, ShutdownStep(k)).value.closers, Step(s, ShutdownStep(k)).value.shutdowns[k])
  {
    var t, h := Step(s, ShutdownStep(k)).value, s.shutdowns[k];
    ActorMoves(s, k);
    assert ShutdownInv(s, h);
    if h.remaining != [] {
      LookupTargets(s, h.remaining[0]);
    }
    if h.closer.None? {
      if h.remaining != [] {
        GracefulBegins(s.closers, h, Lookup(s, s.clients[h.remaining[0]].name, false));
      }
    } else if HasFailed(s.closers[h.closer.value]) && !h.isForced {
      ForcedBegins(s.closers, h, Lookup(s, s.clients[h.remaining[0]].name, true));
    } else {
      AttemptEnds(s.closers, h, t.shutdowns[k]);
    }
  }

  ghost predicate AllAttempts(s: System) {
    forall k :: 0 <= k < |s.shutdowns| ==> AttemptsInv(s.closers, s.shutdowns[k])
  }

  /** Only its own steps change a shutdown, and a new one has done nothing yet. */
  lemma ShutdownsStand(s: System, e: Event, k: nat)
    requires Step(s, e).Some? && k < |Step(s, e).value.shutdowns| && e != ShutdownStep(k)
    ensures var t := Step(s, e).value;
            if k < |s.shutdowns| then t.shutdowns[k] == s.shutdowns[k]
            else t.shutdowns[k] == Shutdown(Listing(s), None, false, false, false, Listing(s), [])
  {
  }

  lemma NewcomerAttempts(closers: seq<Closer>, listed: seq<nat>)
    ensures AttemptsInv(closers, Shutdown(listed, None, false, false, false, listed, []))
  {
  }

  lemma AttemptsKept(s: System, e: Event)
    requires Inv(s) && AllAttempts(s) && Step(s, e).Some?
    ensures AllAttempts(Step(s, e).value)
  {
    var t := Step(s, e).value;
    StepGrows(s, e);
    forall k | 0 <= k < |t.shutdowns|
      ensures AttemptsInv(t.closers, t.shutdowns[k])
    {
      if e == ShutdownStep(k) {
        ActorAttempts(s, k);
      } else {
        ShutdownsStand(s, e, k);
        if k < |s.shutdowns| {
          AttemptsStay(s.closers, t.closers, s.shutdowns[k]);
        } else {
          NewcomerAttempts(t.closers, Listing(s));
        }
      }
    }
  }

  lemma {:induction false} AttemptsAlong(s: System, es: seq<Event>)
    requires Inv(s) && AllAttempts(s) && Exec(s, es).Some?
    ensures AllAttempts(Exec(s, es).value)
    decreases |es|
  {
    if es != [] {
      AttemptsKept(s, es[0]);
      StepKeeps(s, es[0]);
      AttemptsAlong(Step(s, es[0]).value, es[1..]);
    }
  }

  /**
   A shutdown that has returned made, for each client it had listed and in that
   order, a graceful close, and a forced one exactly when that failed; and it reports
   an error exactly when for some client both have failed.
   */
  lemma ShutdownErrorIff(s: System, k: nat)
    requires Reachable(s) && k < |s.shutdowns| && s.shutdowns[k].isReturned
    ensures var h, closers := s.shutdowns[k], s.closers;
            && |h.attempts| == |h.listed|
            && (forall j :: 0 <= j < |h.attempts| ==>
                  var a := h.attempts[j];
                  && a.client == h.listed[j] && IsCall(closers, a.graceful, a.client, false)
                  && (a.forced.Some? <==> HasFailed(closers[a.graceful]))
                  && (a.forced.Some? ==> IsCall(closers, a.forced.value, a.client, true)))
            && (h.hasError <==> exists j :: 0 <= j < |h.attempts| && HasGivenUp(closers, h.attempts[j]))
  {
    ReachableInv(s);
    var es: seq<Event> :| Exec(Start, es) == Some(s);
    AttemptsAlong(Start, es);
    assert AttemptsInv(s.closers, s.shutdowns[k]);
    assert |s.shutdowns[k].listed[DoneCount(s.shutdowns[k])..]| == 0;
    assert forall j :: 0 <= j < |s.shutdowns[k].attempts| ==> IsOver(s.closers, s.shutdowns[k].attempts[j]);
  }

  /** Before that too: an error is reported only for a client whose forced close has failed. */
  lemma NoErrorBeforeForce(s: System, k: nat)
    requires Reachable(s) && k < |s.shutdowns| && s.shutdowns[k].hasError
    ensures exists j :: 0 <= j < |s.shutdowns[k].attempts| && HasGivenUp(s.closers, s.shutdowns[k].attempts[j])
  {
    ReachableInv(s);
    var es: seq<Event> :| Exec(Start, es) == Some(s);
    AttemptsAlong(Start, es);
    assert AttemptsInv(s.closers, s.shutdowns[k]);
  }

  lemma {:induction false} ExecAppend(s: System, es: seq<Event>, e: Event)
    requires Exec(s, es).Some?
    ensures Exec(s, es + [e]) == Step(Exec(s, es).value, e)
    decreases |es|
  {
    if es == [] {
      assert [] + [e] == [e] && [e][1..] == [];
      if Step(s, e).Some? {
        assert Exec(Step(s, e).value, []) == Step(s, e);
      }
    } else {
      ExecAppend(Step(s, es[0]).value, es[1..], e);
      assert (es + [e])[1..] == es[1..] + [e];
    }
  }

  lemma Then(s: System, e: Event, t: System)
    requires Reachable(s) && Step(s, e) == Some(t)
    ensures Reachable(t)
  {
    var es: seq<Event> :| Exec(Start, es) == Some(s);
    ExecAppend(Start, es, e);
  }

  /** One client, launched, and a shutdown that has it still to close. */
  lemma OneListed() returns (s: System)
    ensures Reachable(s)
    ensures s == System(map["a" := 0], [Client("a", Launching, true, false)], true, [],
                        [Shutdown([0], None, false, false, false, [0], [])])
  {
    assert Exec(Start, []) == Some(Start);
    var a := System(map["a" := 0], [Client("a", Launching, false, false)], false, [], []);
    assert Start.names["a" := 0] == a.names && Start.clients + a.clients == a.clients;
    Then(Start, Launch("a"), a);
    var b := a.(clients := [Client("a", Launching, true, false)]);
    assert a.clients[0 := b.clients[0]] == b.clients;
    Then(a, LaunchEnd(0), b);
    s := b.(isStopping := true, shutdowns := [Shutdown([0], None, false, false, false, [0], [])]);
    assert Select(b, 0) == [] && Select(b, 1) == [0] && b.shutdowns + s.shutdowns == s.shutdowns;
    Then(b, ShutdownBegin, s);
  }

  /** Meanwhile another caller closes it and releases its name. */
  lemma ClosedByAnother() returns (s: System)
    ensures Reachable(s)
    ensures s == System(map[], [Client("a", Closed, true, true)], true, [Done(0, false, true)],
                        [Shutdown([0], None, false, false, false, [0], [])])
  {
    var a := OneListed();
    var b := a.(closers := [Closing(0, false)]);
    assert a.closers + [Closing(0, false)] == b.closers;
    Then(a, CloseBegin("a", false), b);
    var c := b.(closers := [Done(0, false, true)], clients := [Client("a", Closed, true, false)]);
    assert b.closers[0 := Done(0, false, true)] == c.closers && b.clients[0 := c.clients[0]] == c.clients;
    Then(b, CloseEnd(0, true), c);
    s := c.(names := map[], clients := [Client("a", Closed, true, true)]);
    assert c.names - {"a"} == map[] && c.clients[0 := s.clients[0]] == s.clients;
    Then(c, Forget("a"), s);
  }

  /** A shutdown reports an error although every client is closed: neither of its closes found the released one. */
  lemma ErrorAlthoughClosed() returns (s: System)
    ensures Reachable(s) && |s.shutdowns| == 1 && s.shutdowns[0].hasError && s.shutdowns[0].isReturned
    ensures forall i :: 0 <= i < |s.clients| ==> s.clients[i].status == Closed
  {
    var a := ClosedByAnother();
    var h := a.shutdowns[0];
    var first := BeginGraceful(h, 1);
    var b := a.(closers := [Done(0, false, true), NotFound(false)], shutdowns := [first]);
    assert a.shutdowns[0 := first] == b.shutdowns && a.closers + [NotFound(false)] == b.closers;
    Then(a, ShutdownStep(0), b);
    var second := BeginForced(first, 2);
    var c := b.(closers := [Done(0, false, true), NotFound(false), NotFound(true)], shutdowns := [second]);
    assert b.shutdowns[0 := second] == c.shutdowns && b.closers + [NotFound(true)] == c.closers;
    Then(b, ShutdownStep(0), c);
    var third := second.(remaining := [], closer := None, hasError := true);
    var d := c.(shutdowns := [third]);
    assert second.remaining[1..] == [] && c.shutdowns[0 := third] == d.shutdowns;
    Then(c, ShutdownStep(0), d);
    s := d.(shutdowns := [third.(isReturned := true)]);
    assert d.shutdowns[0 := third.(isReturned := true)] == s.shutdowns;
    Then(d, ShutdownStep(0), s);
  }

  // --------------------------------------------------- what each section means

  /** A client of that name is registered and has not been forgotten. */
  predicate IsHeld(s: System, name: string, i: nat) {
    i < |s.clients| && s.clients[i].name == name && !s.clients[i].isForgotten
  }

  lemma NamesIff(s: System, name: string)
    requires Reachable(s)
    ensures forall i: nat :: IsHeld(s, name, i) <==> name in s.names && s.names[name] == i
    ensures name in s.names <==> exists i: nat :: IsHeld(s, name, i)
  {
    ReachableInv(s);
    if name in s.names {
      assert IsHeld(s, name, s.names[name]);
    }
  }

  /** A launch registers a client exactly when no shutdown has begun and nobody holds the name. */
  lemma LaunchIff(s: System, name: string)
    requires Reachable(s)
    ensures Step(s, Launch(name)).Some?
    ensures var t := Step(s, Launch(name)).value;
            if |s.shutdowns| > 0 || (exists i: nat :: IsHeld(s, name, i)) then t == s
            else t.clients == s.clients + [Client(name, Launching, false, false)]
                 && t.names == s.names[name := |s.clients|] && t.(names := s.names, clients := s.clients) == s
  {
    ReachableInv(s);
    NamesIff(s, name);
    StoppingIff(s);
  }

  ghost predicate StoppingInv(s: System) {
    s.isStopping <==> |s.shutdowns| > 0
  }

  lemma {:induction false} StoppingAlong(s: System, es: seq<Event>)
    requires StoppingInv(s) && Exec(s, es).Some?
    ensures StoppingInv(Exec(s, es).value)
    decreases |es|
  {
    if es != [] {
      StoppingAlong(Step(s, es[0]).value, es[1..]);
    }
  }

  lemma StoppingIff(s: System)
    requires Reachable(s)
    ensures s.isStopping <==> |s.shutdowns| > 0
  {
    var es: seq<Event> :| Exec(Start, es) == Some(s);
    StoppingAlong(Start, es);
  }

  /** Releasing a name forgets its client exactly when that is closed. */
  lemma ForgetIff(s: System, name: string)
    requires Reachable(s)
    ensures Step(s, Forget(name)).Some?
    ensures var t := Step(s, Forget(name)).value;
            && |t.clients| == |s.clients|
            && forall i :: 0 <= i < |s.clients| ==>
                 t.clients[i] == if IsHeld(s, name, i) && s.clients[i].status == Closed
                                 then s.clients[i].(isForgotten := true) else s.clients[i]
  {
    NamesIff(s, name);
  }

  /** A close, by a caller or a shutdown, concerns who holds the name, or finds nobody. */
  lemma CloseBeginsIff(s: System, name: string, isForced: bool)
    requires Reachable(s)
    ensures Step(s, CloseBegin(name, isForced)).Some?
    ensures var t := Step(s, CloseBegin(name, isForced)).value;
            && t.(closers := s.closers) == s && |t.closers| == |s.closers| + 1 && t.closers[..|s.closers|] == s.closers
            && var c := t.closers[|s.closers|];
               && c.isForced == isForced
               && (c.NotFound? <==> forall i: nat :: !IsHeld(s, name, i))
               && (c.NotFound? || (c.Closing? && IsHeld(s, name, c.client)))
  {
    NamesIff(s, name);
  }

  /** A close that ends well closes its client, and cannot before its launch has ended. */
  lemma CloseEndsIff(s: System, k: nat, isClosed: bool)
    requires Reachable(s) && k < |s.closers| && s.closers[k].Closing?
    ensures s.closers[k].client < |s.clients|
    ensures Step(s, CloseEnd(k, isClosed)).Some? <==> (isClosed ==> s.clients[s.closers[k].client].isStarted)
    ensures Step(s, CloseEnd(k, isClosed)).Some? ==>
              var t, i := Step(s, CloseEnd(k, isClosed)).value, s.closers[k].client;
              && t.closers == s.closers[k := Done(i, s.closers[k].isForced, isClosed)]
              && t.clients == if isClosed then s.clients[i := s.clients[i].(status := Closed)] else s.clients
  {
    ReachableInv(s);
    assert CloserInv(s, s.closers[k]);
  }

  /** A shutdown lists exactly the clients that are held at its beginning, each once. */
  lemma ShutdownLists(s: System)
    requires Reachable(s)
    ensures Step(s, ShutdownBegin).Some?
    ensures var t := Step(s, ShutdownBegin).value;
            && |t.shutdowns| == |s.shutdowns| + 1
            && var h := t.shutdowns[|s.shutdowns|];
               && h.remaining == h.listed && h.attempts == [] && !h.isReturned && !h.hasError
               && (forall i: nat :: i in h.listed <==> i < |s.clients| && !s.clients[i].isForgotten)
               && (forall a, b :: 0 <= a < b < |h.listed| ==> h.listed[a] != h.listed[b])
  {
    SelectOnce(s, |s.clients|);
  }

  lemma {:induction false} SelectOnce(s: System, n: nat)
    requires n <= |s.clients|
    ensures forall a, b :: 0 <= a < b < |Select(s, n)| ==> Select(s, n)[a] < Select(s, n)[b]
  {
    if n > 0 {
      SelectOnce(s, n - 1);
      var most := Select(s, n - 1);
      forall a | 0 <= a < |most|
        ensures most[a] < n - 1
      {
        assert most[a] in most;
      }
    }
  }

  // ------------------------------------------------------------- the object

  class OwnedClient {
    const name: string
    var status: Status

    constructor (name: string)
      ensures this.name == name && status == Launching
    {
      this.name, status := name, Launching;
    }
  }

  class DebugClientManager {
    var clientsByID: map<string, OwnedClient>
    var isStopping: bool

    constructor ()
      ensures clientsByID == map[] && !isStopping && Valid()
    {
      clientsByID, isStopping := map[], false;
    }

    predicate Valid()
      reads this
    {
      forall name :: name in clientsByID ==> clientsByID[name].name == name
    }

    /** The locked part of `Launch`. */
    method Reserve(name: string) returns (client: OwnedClient?)
      requires Valid()
      modifies this`clientsByID
      ensures Valid()
      ensures (client != null) == (!isStopping && name !in old(clientsByID))
      ensures client != null ==> fresh(client) && clientsByID == old(clientsByID)[name := client]
      ensures client == null ==> clientsByID == old(clientsByID)
    {
      if isStopping || name in clientsByID { return null; }
      client := new OwnedClient(name);
      clientsByID := clientsByID[name := client];
    }

    method Forget(name: string) returns (isReleased: bool)
      requires Valid()
      modifies this`clientsByID
      ensures Valid()
      ensures isReleased == (name !in old(clientsByID) || old(clientsByID)[name].status == Closed)
      ensures clientsByID == if isReleased then old(clientsByID) - {name} else old(clientsByID)
    {
      if name !in clientsByID { return true; }
      if clientsByID[name].status != Closed { return false; }
      clientsByID := clientsByID - {name};
      isReleased := true;
    }

    /** The locked part of `Shutdown`: refuse launches from now on, and list whom to close. */
    method BeginShutdown() returns (clients: set<OwnedClient>)
      modifies this`isStopping
      ensures isStopping && clients == clientsByID.Values
    {
      isStopping := true;
      clients := clientsByID.Values;
    }
  }
}
