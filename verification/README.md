# Verified models of the darkspinner launcher's protocols and parsers

This project models the parts of the launcher repository whose correctness
depends on interleavings, on bytes from outside, or on a file system that may
fail, and proves what their code promises.

* **Owned-client control pipe** (`PipeSections`, `PipeRuns`, `PipeSafety`,
  `PipeMeaning`, `PipeFutures`, `PipeWitness`, `PipeObject`). Callers, the reader thread, closers and the
  debugger pauser share one pending slot. Each mutex-held section is a function;
  a run is any sequence of sections, frame writes and channel operations that a
  scheduler, a peer and a clock can choose. `PipeObject` holds the same sections
  as methods on the mutable records, each proved equal to its function.
* **Lua operation exchange** (`LuaExchange`, `LuaSafety`, `LuaProgress`, `LuaHostOrder`,
  `LuaObject`). The VM,
  the host's reader, its `serve` loop and its operation workers as one system
  over two synchronous pipes, a one-slot frame channel and an eight-slot
  completion queue.
* **Lua values** (`LuaValues`, `LuaMeaning`, `LuaRoundTrip`). Conversion between JSON and Lua
  tables on a heap that may be cyclic.
* **Automation gate** (`AutomationGate`) and **client registry**
  (`ClientRegistry`), again over all interleavings.
* **Loot affixes** (`LootAffix`, `LootLayout`, `LootEncode`). The cursor parser,
  a cursor-free description of what it accepts, and an encoder it inverts.
* **Patcher** (`Patcher`), **temporary-file cleaner** (`TempCleaner`),
  **deletion scan** (`DeletionScan`), **editor hierarchy** (`EditorHierarchy`),
  **pixel sampling** (`PixelSampling`) and **activity cache** (`ActivityCache`).

`Common` holds `Option` and `Result`; `Arithmetic` the few facts about products
and quotients the other proofs use.

## What turned out to be false of the code

* The pause fence does not rule out a later `outcome_unknown`. A caller that has
  looked at its channel for the last time, but has not yet abandoned its command,
  lets a receipt settle the command and the fence go up, and then reports the
  outcome of that command as unknown (`StragglerBehindFence`).
  `UnknownUnderFenceIff` says exactly when that can still happen. What does hold
  is `FenceSettlesEveryCommand`.
* A command frame can be written under the fence if the peer answers a command
  before its frame has been written (`WriterBehindFence`,
  `CommandFrameUnderFenceIff`); with a peer that does not, it cannot
  (`HonestPeerStopsFrames`).
* Between a partial frame write and the `Close` that answers it another caller
  may write a complete frame (`FrameAfterPartialFrame`). `FrameAfterPartialIff`
  says exactly when one can still follow; none does once the file is gone
  (`FramesEndWithTheFile`).
* `isConnected` can become true again after `Close` (`ConnectedAfterClose`),
  exactly when the reader still holds a state frame it read before
  (`ConnectedAfterCloseIff`); the nil file is what stays.
* A caller never sees the `disconnected` delivery code: whoever waits for a
  delivery has been dispatched, so loss of the pipe reaches it as
  `outcome_unknown` (`ReportedOutcome`).
* A script with four branches in one `Parallel` block can stop the exchange until
  the script's deadline cancels it (`StuckRun`); with three it cannot (`StuckIff`).
  A reachable state can still end by itself exactly when not every buffer is full
  behind an answer (`CanEndIff`), and every one can exactly when blocks have at
  most three branches (`AlwaysCanEndIff`).
* Reported patch progress rises within 0..100 to exactly 100 if a hundred times the
  plan's size fits 64 bits and, for sizes that add up within 64 bits, only then
  (`PercentagesIff`, `WrappedSumRises`).
* Patching need not converge, for instance for a manifest that names another
  entry's backup file (`OverlapDoesNotConverge`). `ConvergesIff` says exactly
  when it does: no entry is undone by the last download that touches its target.
  `AlwaysConvergesIff` says from plan and manifest alone when it does so whatever
  acceptable contents are served, for a digest that tells contents of each length
  apart.
* A shutdown of the client registry can report an error although every client is
  closed: when another caller closed a client and released its name meanwhile,
  neither of its closes finds it (`ErrorAlthoughClosed`). `ShutdownErrorIff` says
  exactly when it reports one.
* JSON survives the trip through Lua exactly when it has no null inside a
  container and no empty array (`RoundTripIff`).

## Model

| member | source | states |
|---|---|---|
| PipeSafety.FenceSettlesEveryCommand | app/darkspinner/debug_pause_pipe_windows.go:12-43 | in every reachable state with the fence up nothing is pending and every command ever marked dispatched has exactly one delivery: a sound receipt of its own that does not say `outcome_unknown` |
| PipeSafety.FenceFreezesCommands | app/darkspinner/control_pipe_windows.go:222-250 | over every run that keeps the fence up no command is issued, marked dispatched or answered |
| PipeSafety.CommandFrameUnderFenceIff | app/darkspinner/control_pipe_windows.go:489-503 | a command frame can still be written under the fence if and only if some caller had been marked and was still writing |
| PipeSafety.HonestPeerStopsFrames | app/darkspinner/control_pipe_windows.go:495-502 | with a peer that answers only written commands nobody is writing a command frame while the fence is up |
| PipeSafety.UnknownUnderFenceIff | app/darkspinner/control_pipe_windows.go:273-290 | under the fence an unknown outcome is reported, or can still be, if and only if a dispatched caller has reported it, is writing, or is on its way to abandon |
| PipeSafety.FenceGoesUpClean | app/darkspinner/debug_pause_pipe_windows.go:19-35 | when the fence goes up no command has been reported unknown |
| PipeSafety.ReceiptResolvesOnlyItsCommand | app/darkspinner/control_pipe_windows.go:347-359 | in every reachable state a receipt is delivered exactly when it is sound and carries the sequence, ID and operation of the outstanding command; a sound one for another issued command changes nothing; after a delivery only that command and the unsafe flag differ, and the flag goes up exactly for `outcome_unknown` |
| PipeSafety.SendNeverBlocks | app/darkspinner/control_pipe_windows.go:319-332 | whatever is pending has an empty one-slot channel, every command gets at most one delivery, no returned call is pending, and a waiting call is pending or has its delivery |
| PipeSafety.ReportedOutcome | app/darkspinner/control_pipe_windows.go:262-317 | an error says not dispatched exactly when the frame was not and will never be written; an answer is the command's own receipt or an unknown outcome of a written frame |
| PipeSafety.ReturnedIsFinal | app/darkspinner/control_pipe_windows.go:273-291 | what a call has returned stays what it returned in every later state |
| PipeSafety.FramesInOrder | app/darkspinner/control_pipe_windows.go:427-444 | each command frame is written at most once, and a cancel frame only after the complete frame of its command and before no frame of it |
| PipeSafety.NothingIssuedAfterDisconnect | app/darkspinner/control_pipe_windows.go:507-529 | once a close, or the reader's last section, has run, no command is ever issued or pending again |
| PipeSafety.DeadForever | app/darkspinner/control_pipe_windows.go:535-557 | a pipe whose file is gone never gets one again and issues no command |
| PipeSafety.UnsafeForbidsFence | app/darkspinner/debug_pause_pipe_windows.go:19-22 | once an outcome is unknown the flag stays, every later attempt to raise the fence is refused, and a fence that is up can only stay or come down |
| PipeSafety.OneWriterAtATime | app/darkspinner/control_pipe_windows.go:465-505 | at most one call is ever between taking the writer slot and releasing it |
| PipeMeaning.RequestMeaning | app/darkspinner/control_pipe_windows.go:222-250 | a request is refused as paused, disconnected or busy exactly under a fence, without a connected file or with a command outstanding; otherwise the next numbered command is issued and nothing else changes |
| PipeMeaning.PendingIff | app/darkspinner/control_pipe_windows.go:222-250 | the pending command is exactly the one whose caller has neither given up nor been answered |
| PipeMeaning.RequestIDMeaning | app/darkspinner/control_pipe_windows.go:240-240 | a request ID is a fixed word and the sequence number in decimal, so that different numbers give different IDs |
| PipeMeaning.CommandsDiffer | app/darkspinner/control_pipe_windows.go:239-243 | no two commands of any run share an ID or a sequence number |
| PipeMeaning.ErrorMeaning | app/darkspinner/control_pipe_windows.go:300-316 | an error says that the outcome is unknown exactly for a dispatched command, and otherwise names its cause |
| PipeMeaning.ReceiptMeaning | app/darkspinner/control_pipe_windows.go:334-425 | the reader goes on after a receipt that is delivered or late and leaves the connection after any other |
| PipeMeaning.DeliveryIsTaken | app/darkspinner/control_pipe_windows.go:273-291 | a waiting caller that has a delivery never abandons its command: in every later state it has returned it or still can |
| PipeMeaning.FenceMeaning | app/darkspinner/debug_pause_pipe_windows.go:18-60 | when an attempt to raise the fence, or to lift it, is refused, fails or succeeds, and that only the token changes |
| PipeMeaning.FenceNeedsItsToken | app/darkspinner/debug_pause_pipe_windows.go:44-51 | over every run in which nobody presents its token a fence stays up with that token |
| PipeMeaning.UnsafeIff | app/darkspinner/control_pipe_windows.go:309-417 | in every reachable state the unsafe flag is up if and only if some command was abandoned after its dispatch or was answered with `outcome_unknown` |
| PipeMeaning.FenceGoesUpIff | app/darkspinner/debug_pause_pipe_windows.go:18-36 | the fence can go up if and only if none is up, the pipe is connected, nothing is outstanding and no command is unresolved |
| PipeMeaning.LossMeaning | app/darkspinner/control_pipe_windows.go:319-332 | the loss of the pipe answers the outstanding command with its dispatch state and touches no other |
| PipeMeaning.PartialFrameEndsThePipe | app/darkspinner/control_pipe_windows.go:263-272 | a call whose frame was cut short returns only once the pipe is gone, and with an error |
| PipeMeaning.CancelFollows | app/darkspinner/control_pipe_windows.go:427-438 | a caller that gave up waiting on a connected pipe can send its cancel frame as soon as the writer is free |
| PipeFutures.ConnectedAfterCloseIff | app/darkspinner/control_pipe_windows.go:613-647 | a pipe whose file is gone is shown connected, now or later, if and only if it is so now or the reader still holds a state frame read before |
| PipeFutures.CommandFrameIff | app/darkspinner/control_pipe_windows.go:222-272 | from any reachable state a command frame is ever attempted, or completed, again if and only if a caller is writing, the pending command is still to be marked, or one can still be issued on a pipe that is or can become connected |
| PipeFutures.FrameAfterPartialIff | app/darkspinner/control_pipe_windows.go:263-272 | the same after a frame that was cut short, for attempts and for complete frames |
| PipeFutures.FramesEndWithTheFile | app/darkspinner/control_pipe_windows.go:507-521 | once the file is gone no command frame is ever completed |
| PipeRuns.StepKeeps | app/darkspinner/control_pipe_windows.go:222-648 | every section, write and channel operation keeps the invariant of pipe, calls, write log, peer log, writer slot and reader |
| PipeRuns.ReceiveKeeps | app/darkspinner/control_pipe_windows.go:334-425 | handling any receipt keeps the part of that invariant about pipe, calls, write log and peer log |
| PipeRuns.SubmitKeeps | app/darkspinner/control_pipe_windows.go:222-250 | issuing or refusing a command keeps the part of that invariant about pipe, calls, write log and peer log |
| PipeRuns.MarkKeeps | app/darkspinner/control_pipe_windows.go:489-497 | marking a command dispatched, or finding it no longer pending, keeps the part of that invariant about pipe, calls, write log and peer log |
| PipeRuns.AbandonKeeps | app/darkspinner/control_pipe_windows.go:294-317 | abandoning a command keeps the part of that invariant about pipe, calls, write log and peer log |
| PipeRuns.DisconnectKeeps | app/darkspinner/control_pipe_windows.go:536-556 | failing the pending command on loss of the pipe keeps the part of that invariant about pipe, calls, write log and peer log |
| PipeRuns.PauseKeeps | app/darkspinner/debug_pause_pipe_windows.go:18-36 | trying to raise the fence keeps the part of that invariant about pipe, calls, write log and peer log |
| PipeRuns.SlotKept | app/darkspinner/control_pipe_windows.go:465-505 | every step keeps its part about the writer slot: a call is between taking and releasing the slot exactly when the slot names it |
| PipeRuns.LinkKept | app/darkspinner/control_pipe_windows.go:606-646 | every step keeps its part about the reader: a connected pipe, and a reader past its greeting, has a generation, and an open pipe that ever issued a command is connected |
| PipeWitness.StragglerBehindFence | app/darkspinner/control_pipe_windows.go:279-290 | a concrete run with an honest peer: the fence is up, the command has its conclusive receipt, and its caller is past its last look at the channel and reports it unknown in its next section |
| PipeWitness.WriterBehindFence | app/darkspinner/control_pipe_windows.go:495-498 | a concrete run in which an early answer leaves a writer behind the fence |
| PipeWitness.FrameAfterPartialFrame | app/darkspinner/control_pipe_windows.go:263-272 | a concrete run that writes a complete command frame after a partial one |
| PipeWitness.ConnectedAfterClose | app/darkspinner/control_pipe_windows.go:624-646 | a concrete run that marks a closed pipe connected |
| PipeObject.ControlPipe.Submit | app/darkspinner/control_pipe_windows.go:222-250 | the method has the effect and the verdict the section gives, and creates a fresh record only when it issues a command |
| PipeObject.ControlPipe.MarkDispatched | app/darkspinner/control_pipe_windows.go:489-497 | marks exactly the record it is given, and only while that is the pending one |
| PipeObject.ControlPipe.AbandonPending | app/darkspinner/control_pipe_windows.go:294-317 | clears the slot only for its own command and reports its own dispatch state |
| PipeObject.ControlPipe.Send | app/darkspinner/control_pipe_windows.go:422-423 | frees the slot and delivers to that record alone |
| PipeObject.ControlPipe.FailPendingLocked | app/darkspinner/control_pipe_windows.go:319-332 | delivers a disconnection to the pending record, if any |
| PipeObject.ControlPipe.ReceiveResult | app/darkspinner/control_pipe_windows.go:334-425 | the method agrees with the section on state and verdict for every receipt |
| PipeObject.ControlPipe.CloseLocked | app/darkspinner/control_pipe_windows.go:509-520 | ends the connection and fails the pending record |
| PipeObject.ControlPipe.BeginDebugPause | app/darkspinner/debug_pause_pipe_windows.go:18-36 | raises the fence exactly when the section does |
| PipeObject.ControlPipe.EndDebugPause | app/darkspinner/debug_pause_pipe_windows.go:44-60 | drops the fence only for its own token, and tells a changed token, a closed bridge and a failed deadline apart |
| PipeObject.ControlPending.ToError | app/darkspinner/control_pipe_windows.go:300-316 | builds the error of the record's current dispatch state and cause |
| LuaSafety.NeverProtocolError | app/darkspinner/debug_lua_host.go:128-147 | no reachable state of a VM that follows the protocol shows a protocol error at either end, and admitted plus travelling operations fit the branch limit |
| LuaSafety.WorkerNeverBlocks | app/darkspinner/debug_lua_host.go:198-202 | a worker with a result always finds room in the completion queue |
| LuaSafety.AnswersReachTheirIssuer | app/darkspinner/debug_lua_parallel.go:136-145 | every operation issued is still awaited or was answered; the answer went to its issuer and is what the worker of that request found |
| LuaSafety.AnswerResumesItsIssuer | app/darkspinner/debug_lua_parallel.go:136-170 | handing an answer to the VM resumes exactly the branch, or the entry function, that issued the operation of that number |
| LuaSafety.BranchResumedRightly | app/darkspinner/debug_lua_parallel.go:129-170 | a branch is resumed only to be started, each in its turn, or to be given its own answer |
| LuaSafety.AnsweredOnce | app/darkspinner/debug_lua_host.go:150-159 | the answer being sent is for an operation that is awaited and has had none |
| LuaSafety.FinishedMeansSettled | app/darkspinner/debug_lua_host.go:128-139 | when the host accepts the final frame every operation was admitted and answered and no worker or completion is left |
| LuaSafety.StuckNeedsFour | app/darkspinner/debug_lua_host.go:165-187 | a reachable state in which nobody can step has every buffer full and at least four operations outstanding |
| LuaSafety.StuckRun | app/darkspinner/debug_lua_parallel.go:129-135 | a concrete run of four branches that ends in a state where nobody can step |
| LuaSafety.StuckIff | app/darkspinner/debug_lua_parallel.go:102-104 | a stuck state is reachable if and only if a block may have four branches |
| LuaProgress.CanEndIff | app/darkspinner/debug_lua_host.go:119-163 | from a reachable state some run makes the host accept the final frame if and only if not every buffer between VM and host is full while an answer is written |
| LuaProgress.AlwaysCanEndIff | app/darkspinner/debug_lua_parallel.go:102-104 | from every reachable state some run ends the exchange if and only if a block has at most three branches |
| LuaProgress.QuietRunsEnd | app/darkspinner/debug_lua_host.go:119-203 | a script that asks for nothing new takes a bounded number of steps, and where none is left the exchange has ended, or all buffers are full and blocks may have four branches |
| LuaHostOrder.ServeIff | app/darkspinner/debug_lua_host.go:119-163 | whatever a VM sends, the host goes through a trace without a protocol error if and only if operations are numbered one by one with at most eight open, each completion is of an open operation of its name, and the final frame comes last with the right count and none open |
| LuaExchange.StepKeeps | app/darkspinner/debug_lua_host.go:106-163 | every step of VM, reader, server and workers keeps the invariant |
| LuaExchange.OwedBounded | app/darkspinner/debug_lua_host.go:143-145 | admitted operations and frames on their way together never exceed the branch limit |
| LuaExchange.FrameIsNext | app/darkspinner/debug_lua_host.go:140-147 | the frame taken is the next operation in order and is admitted, or the final frame and accepted |
| LuaExchange.TakeFrameKeeps | app/darkspinner/debug_lua_host.go:119-149 | taking a frame keeps the invariant |
| LuaExchange.WorkKeeps | app/darkspinner/debug_lua_host.go:189-203 | a worker's result moves it from the workers to the queue and keeps the invariant |
| LuaExchange.TakeCompletionKeeps | app/darkspinner/debug_lua_host.go:150-154 | a completion taken is always of a pending operation, and the invariant holds |
| LuaExchange.AnswerKeeps | app/darkspinner/debug_lua_host.go:155-160 | handing an answer to the VM keeps the invariant |
| LuaExchange.VMStepKeeps | app/darkspinner/debug_lua_parallel.go:206-242 | issuing, yielding, starting and ending branches keep the invariant |
| LuaExchange.NothingAwaited | app/darkspinner/debug_lua_binding.go:309-321 | a VM that awaits nothing has had everything admitted and answered |
| LuaObject.LuaHost.AcceptFrame | app/darkspinner/debug_lua_host.go:128-147 | the method registers or refuses a frame as the function says |
| LuaObject.LuaHost.AcceptCompletion | app/darkspinner/debug_lua_host.go:150-159 | forgets exactly the expected completion |
| LuaObject.LuaVM.YieldRequest | app/darkspinner/debug_lua_parallel.go:233-241 | numbers, remembers and frames the yielded request |
| LuaObject.LuaVM.ReadAnswer | app/darkspinner/debug_lua_parallel.go:136-145 | finds the branch of an answer, forgets it and resumes that branch, or the entry function, and breaks exactly on an answer nobody waits for |
| LuaValues.ToJSON | app/darkspinner/debug_lua_binding.go:374-445 | the recursion with its loops ends on every heap and computes the conversion, whose meaning is `LuaMeaning.ConvertIff` |
| LuaValues.ReadElements | app/darkspinner/debug_lua_binding.go:380-406 | the array loop, in listing order, with its key and count checks |
| LuaValues.ReadFields | app/darkspinner/debug_lua_binding.go:408-428 | the object loop, in listing order, with its key and count checks |
| LuaValues.ResultFits | app/darkspinner/debug_lua_binding.go:375-416 | any result, from any heap, is at most sixteen levels deep and has at most 128 members in each container |
| LuaValues.ChainsAreShort | app/darkspinner/debug_lua_binding.go:375-377 | a conversion that succeeds met no chain of more than seventeen tables |
| LuaValues.CyclesAreRefused | app/darkspinner/debug_lua_binding.go:375-377 | a table that holds itself, directly or through others, is always an error |
| LuaValues.ToLua | app/darkspinner/debug_lua_binding.go:347-372 | builds fresh values that represent the JSON, in any order of fields, and leaves the older heap alone |
| LuaMeaning.ConvertIff | app/darkspinner/debug_lua_binding.go:374-445 | on every heap and for every value a script can make: the conversion gives a JSON value if and only if everything in the value can be encoded within the limits and the JSON denotes it, holes being null |
| LuaMeaning.ConvertsIff | app/darkspinner/debug_lua_binding.go:374-445 | at any depth the conversion succeeds if and only if every value met is nil, a boolean, a finite number, a text or a table with allowed keys, sizes and depth |
| LuaMeaning.ConvertDenotes | app/darkspinner/debug_lua_binding.go:380-428 | what comes out denotes what went in, under each key what is listed last |
| LuaMeaning.DenotesOnce | app/darkspinner/debug_lua_binding.go:374-445 | a value denotes at most one JSON value |
| LuaMeaning.InsideFails | app/darkspinner/debug_lua_binding.go:434-443 | a function or a number that is not finite, however deep inside, makes the conversion fail |
| LuaMeaning.RefusalMeaning | app/darkspinner/debug_lua_binding.go:375-443 | which refusal a value meets by itself |
| LuaRoundTrip.ReturnsNormal | app/darkspinner/debug_lua_binding.go:347-445 | what was built converts back to its normal form, or fails exactly when that breaks the limits |
| LuaRoundTrip.NormalIff | app/darkspinner/debug_lua_binding.go:357-368 | a value is its own normal form if and only if no container of it holds a null and no array is empty |
| LuaRoundTrip.RoundTripIff | app/darkspinner/debug_lua_binding.go:347-445 | the round trip is exact if and only if the value is plain and within the limits |
| LuaRoundTrip.ThereAndBack | app/darkspinner/debug_lua_binding.go:347-445 | both conversions run one after the other have these results |
| AutomationGate.NoLostWakeup | app/darkspinner/debug_automation.go:40-45 | in every reachable state a waiter whose condition has come true holds a closed channel, and one on the current channel sleeps |
| AutomationGate.PauseSettles | app/darkspinner/debug_automation.go:81-98 | a pause that reports success does so with the gate paused and nobody inside |
| AutomationGate.QuietUntilResume | app/darkspinner/debug_automation.go:53-58 | from a settled pause nobody is admitted, over every run without a resume |
| AutomationGate.EntersIff | app/darkspinner/debug_automation.go:53-60 | in a reachable state an entering thread's locked section lets it in and counts it if and only if the gate is not paused; otherwise it waits on the current channel |
| AutomationGate.PausesIff | app/darkspinner/debug_automation.go:81-99 | a pauser closes the gate and wakes everybody, and is told that the pause has settled if and only if it has not expired, the gate is paused and nobody is inside, and to wait if and only if somebody is |
| AutomationGate.LeavesAndResumes | app/darkspinner/debug_automation.go:69-116 | leaving counts one operation out, resuming opens the gate, and both wake every waiter |
| AutomationGate.CountIsExact | app/darkspinner/debug_automation.go:54-73 | the count is the number of operations inside and never negative |
| AutomationGate.StepKeeps | app/darkspinner/debug_automation.go:47-116 | every locked section, wake-up and expiry keeps the invariant |
| AutomationGate.DebugAutomation.Enter | app/darkspinner/debug_automation.go:53-60 | one round admits, or returns the channel to wait on |
| AutomationGate.DebugAutomation.Leave | app/darkspinner/debug_automation.go:69-74 | counts the operation out and wakes every waiter |
| AutomationGate.DebugAutomation.Pause | app/darkspinner/debug_automation.go:81-99 | closes the gate, wakes every waiter and decides once |
| AutomationGate.DebugAutomation.Decide | app/darkspinner/debug_automation.go:84-99 | expired, superseded, settled, or the channel to wait on |
| AutomationGate.DebugAutomation.Resume | app/darkspinner/debug_automation.go:110-116 | opens the gate and wakes every waiter |
| ClientRegistry.ShutdownLeavesNothingOpen | app/darkspinner/debug_client_windows.go:555-585 | after a shutdown without error every client ever registered is closed, stays closed, and none is registered later |
| ClientRegistry.ShutdownErrorIff | app/darkspinner/debug_client_windows.go:563-585 | a returned shutdown made a graceful close of each client it had listed, a forced one exactly where that failed, and reports an error if and only if for some client both have failed |
| ClientRegistry.NoErrorBeforeForce | app/darkspinner/debug_client_windows.go:568-579 | at no time does a shutdown hold an error unless some client's graceful and forced closes have both failed |
| ClientRegistry.ErrorAlthoughClosed | app/darkspinner/debug_client_windows.go:565-579 | a concrete run in which a shutdown reports an error although every client is closed |
| ClientRegistry.ShutdownLists | app/darkspinner/debug_client_windows.go:556-562 | a shutdown lists exactly the clients that are not forgotten, each once |
| ClientRegistry.LaunchIff | app/darkspinner/debug_client_windows.go:92-100 | a launch registers a client if and only if no shutdown has begun and nobody holds the name |
| ClientRegistry.ForgetIff | app/darkspinner/debug_client_windows.go:539-553 | a release forgets exactly the closed client of that name |
| ClientRegistry.CloseBeginsIff | app/darkspinner/debug_client_windows.go:478-484 | a close concerns the one client that holds the name, or finds nobody |
| ClientRegistry.CloseEndsIff | app/darkspinner/debug_client_windows.go:497-537 | a close that succeeds closes its client and cannot before the launch has ended |
| ClientRegistry.NamesAreExclusive | app/darkspinner/debug_client_windows.go:92-100 | a name is held by at most one client that has not been forgotten |
| ClientRegistry.ClosedIsFinal | app/darkspinner/debug_client_windows.go:532-552 | closed is terminal and only closed clients are forgotten |
| ClientRegistry.StepKeeps | app/darkspinner/debug_client_windows.go:478-585 | launches, closes, releases and shutdown steps keep the invariant |
| ClientRegistry.DebugClientManager.Reserve | app/darkspinner/debug_client_windows.go:92-100 | registers a fresh client exactly when the name is free and no shutdown has begun |
| ClientRegistry.DebugClientManager.Forget | app/darkspinner/debug_client_windows.go:539-553 | releases a name exactly when it is unknown or its client is closed |
| ClientRegistry.DebugClientManager.BeginShutdown | app/darkspinner/debug_client_windows.go:556-562 | refuses launches from then on and lists every registered client |
| LootAffix.Cursor.Reference | content/loot_affix_tail.go:16-30 | reads one optional text, leaves the cursor alone on error and otherwise moves it forward within the payload |
| LootAffix.Cursor.Strings | content/loot_affix_tail.go:32-52 | reads an array of texts with its presence and count checks, never outside the payload |
| LootAffix.Cursor.Collect | content/loot_affix_tail.go:41-51 | the loop reads exactly the announced references in order |
| LootAffix.ParseLootAffix | content/loot_affix.go:100-190 | the imperative parser computes the parsing function on every payload, with its errors in its order |
| LootAffix.ReadArrays | content/loot_affix.go:152-176 | the five array reads of one cursor |
| LootAffix.ReadModifiers | content/loot_affix.go:180-189 | keeps all 115 modifiers or reports that one is not finite |
| LootLayout.ReferenceExact | content/loot_affix_tail.go:16-30 | a text is read up to a position if and only if those bytes are that NUL-free text and its terminator, or nothing when absent |
| LootLayout.StringsExact | content/loot_affix_tail.go:32-52 | an array is read if and only if its count, presence words and texts lie there |
| LootLayout.SuffixExact | content/loot_affix.go:192-210 | a name is recognised as an identity and family if and only if it is that family's word and the identity in hexadecimal |
| LootLayout.ReadErrors | content/loot_affix_tail.go:16-52 | why a text or an array cannot be read |
| LootLayout.IdentityErrors | content/loot_affix.go:118-141 | what is wrong with an identity: its kind, its number, its name or its family flag |
| LootLayout.ErrorsExact | content/loot_affix.go:110-190 | which refusal a payload meets, in the order length, identity, levels, arrays, remainder, modifiers |
| LootLayout.NumberExact | content/loot_affix.go:184-187 | a modifier is accepted if and only if its exponent is not all ones |
| LootLayout.ParseExact | content/loot_affix.go:100-190 | a payload parses to an affix if and only if it lays that affix out, field by field at its fixed positions, to the last byte |
| LootEncode.Hex4RoundTrip | content/loot_affix.go:192-210 | four hexadecimal digits of an ID parse back to it |
| LootEncode.SuffixNameRoundTrip | content/loot_affix.go:192-210 | the name built from an identity and family is recognised as exactly these |
| LootEncode.RoundTrip | content/loot_affix.go:100-190 | parsing the encoding of any well-formed affix returns that affix |
| Patcher.Build | patcher/patcher.go:107-123 | selects, in order, the entries whose file is missing or not verified, with the 64-bit sum of their sizes, unless a name is unsafe |
| Patcher.SelectedMembers | patcher/patcher.go:195-215 | an entry is selected if and only if it is in the manifest and its file is missing or has another checksum than it asks for |
| Patcher.Disk.ReplaceExisting | patcher/patcher.go:286-320 | at every intermediate state and every failing operation the old or new content is whole at the target, or the old one at the backup; each outcome has its exact files; without faults it succeeds |
| Patcher.Disk.ReplaceMissing | patcher/patcher.go:286-299 | installs where no target exists, or leaves all but the backup alone |
| Patcher.Disk.Download | patcher/patcher.go:217-284 | success means an acceptable content installed and companions gone; an unacceptable one never touches the target; nothing outside target, temporary and backup changes; an existing target is recoverable at every intermediate state; without faults it succeeds exactly for an acceptable answer to a safe name |
| Patcher.Apply | patcher/patcher.go:164-187 | success means every planned download had an acceptable size and checksum and was applied in order, with the percentages of the plan and a final 100; without faults it succeeds exactly when every answer is acceptable |
| Patcher.ChecksumMeaning | patcher/patcher.go:202-214 | a content is accepted if and only if the checksum is blank or its digest is the same up to the case of letters |
| Patcher.ReplacementMeaning | patcher/patcher.go:286-320 | what each outcome of a replacement leaves at target, temporary and backup, and that nothing else changes |
| Patcher.SizeMeaning | patcher/patcher.go:119-122 | each entry counts its size, or one when that is less, and the sum is kept modulo 2^64 |
| Patcher.NeededAfterIff | patcher/patcher.go:195-215 | after the downloads any entry is needed exactly when the last one to touch its target removes it or installs what its checksum does not accept, or none touches it and it was needed |
| Patcher.NeededAgainIff | patcher/patcher.go:195-215 | an entry that was planned or satisfied is needed again if and only if the last download to touch its target undoes it |
| Patcher.ConvergesIff | patcher/patcher.go:107-123 | a second plan from the same manifest is empty if and only if no entry of it was undone |
| Patcher.AlwaysConvergesIff | patcher/patcher.go:107-123 | before any download: the second plan is empty for all contents that pass the tests if and only if no entry may be undone, which targets and checksums alone decide, or no contents pass |
| Patcher.AppliedSatisfies | patcher/patcher.go:195-215 | when no entry's files are another's, every planned entry is satisfied afterwards and every entry that was satisfied still is |
| Patcher.PatchingConverges | patcher/patcher.go:107-123 | a second plan from the same manifest is empty when no entry's files are another's |
| Patcher.PatchTwice | patcher/patcher.go:164-187 | build, apply and build again, on a disk with faults and any manifest: after success the second plan is empty if and only if no entry was undone; without faults it succeeds exactly when all names are safe and all answers acceptable |
| Patcher.OverlapDoesNotConverge | patcher/patcher.go:286-288 | a manifest whose entry is another's backup leaves work after a successful apply |
| Patcher.ProgressRises | patcher/patcher.go:181-182 | progress never falls and stays in 0..100 while the product fits 64 bits |
| Patcher.PercentagesRise | patcher/patcher.go:176-184 | the same over the whole plan, entry by entry |
| Patcher.PercentagesIff | patcher/patcher.go:171-185 | the percentages of any plan rise within 0..100 and end at 100 if a hundred times its size fits 64 bits; of a plan whose sizes add up within 64 bits, only then |
| Patcher.WrappedSumRises | patcher/patcher.go:121-182 | a concrete plan whose sizes wrap the 64-bit sum and whose percentages rise to 100 all the same |
| Patcher.ProgressReachesHundred | patcher/patcher.go:181-182 | the last download reports exactly 100 if and only if the product fits 64 bits |
| TempCleaner.DisposableIff | mage_temp.go:130-160 | an entry may go if and only if ordinary directories other than the root's scenario ones lead to it and it is a plain file older than the cutoff or a directory that holds nothing but such files and directories |
| TempCleaner.ListedMeaning | mage_temp.go:148-160 | the files listed are exactly those that may go, each once and in the order of the walk |
| TempCleaner.PrunableRecursively | mage_temp.go:92-108 | nothing below keeps a directory if and only if each entry in it is stale or goes itself |
| TempCleaner.ProtectedStays | mage_temp.go:134-145 | links, root scenario directories, all they hold and whatever leads to them are never disposable |
| TempCleaner.WalkStep | mage_temp.go:130-160 | visiting one more entry gives what the definitions give for one more entry |
| TempCleaner.EmptyMeansPrunable | mage_temp.go:93-101 | in reverse order of the walk a directory is empty exactly when it is prunable in the tree before the walk |
| TempCleaner.TemporaryFileCleanup.Visit | mage_temp.go:123-161 | the walk's callback, with its removals, counters and failures |
| TempCleaner.TemporaryFileCleanup.Walk | mage_temp.go:87-90 | the walk removes and reports exactly the stale files it reaches; on failure only such files are gone |
| TempCleaner.TemporaryFileCleanup.Prune | mage_temp.go:92-110 | the reverse loop removes and counts every collected directory that is prunable; a failure leaves it pruned down to some index |
| TempCleaner.TemporaryFileCleanup.Clean | mage_temp.go:86-121 | success removes exactly the disposable entries and reports their files, bytes and pruned directories; a preview changes nothing and reports the same files and bytes; a failure removes nothing that is not disposable |
| DeletionScan.LinesJoin | app/darkspinner/debug_hero_retirement.go:67-77 | whole lines split off a text are its first lines and the rest its others |
| DeletionScan.ObserveReadsWhatItPasses | app/darkspinner/debug_hero_retirement.go:67-106 | a successful call reads exactly the complete lines it moves past |
| DeletionScan.ObserveMeaning | app/darkspinner/debug_hero_retirement.go:53-107 | a call waits without a newline in the next 512 KiB and fails once they are full; else it moves to just after the last one, unless a line on the way is malformed |
| DeletionScan.StillMeansCaughtUp | app/darkspinner/debug_hero_retirement.go:70-76 | a successful call that does not move leaves no complete line behind |
| DeletionScan.ScanIgnoresGrowth | app/darkspinner/debug_hero_retirement.go:53-107 | over any successive calls on a growing file the witness is as if the lines passed had been read once in one go |
| DeletionScan.ExamineMeaning | app/darkspinner/debug_hero_retirement.go:88-104 | a scan fails exactly on a malformed line, and otherwise records the frame of the last deletion of the object |
| DeletionScan.FramesMeaning | app/darkspinner/debug_hero_retirement.go:149-151 | the frame test asks for at least two steps of the 32-bit counter and fewer than half of all it counts |
| DeletionScan.VisitMeaning | app/darkspinner/debug_hero_retirement.go:115-151 | when one visit fails, and that it settles the witness exactly when the frame is far enough past the deletion it then holds |
| DeletionScan.SettledMeansSeen | app/darkspinner/debug_hero_retirement.go:132-151 | a witness settles only at a round at least two frames, modulo 2^32, past the deletion it holds; one created without a deletion holds the last one among the lines it has passed |
| DeletionScan.WaitMeansSeen | app/darkspinner/debug_hero_retirement.go:109-164 | the same for each witness of a whole wait |
| DeletionScan.ObserveDelete | app/darkspinner/debug_hero_retirement.go:53-107 | the loop updates its witness in place as one call does, and no other |
| DeletionScan.WaitRound | app/darkspinner/debug_hero_retirement.go:115-155 | a round visits every witness once and is done exactly when all are settled |
| DeletionScan.WaitRetirement | app/darkspinner/debug_hero_retirement.go:109-164 | the wait succeeds if and only if after one of its rounds every witness has got through its visits and is settled |
| EditorHierarchy.DeriveStates | app/darkspinner/debug_editor_windows.go:81-93 | the in-place pass accepts exactly the arrays whose first node alone has no parent and whose other parents are earlier, and leaves each node visible and enabled exactly when it and all above it carry the flag |
| EditorHierarchy.TreeMeaning | app/darkspinner/debug_editor_windows.go:83-85 | which parent indices are accepted |
| EditorHierarchy.ShowsMeaning | app/darkspinner/debug_editor_windows.go:86-92 | a node is shown, or enabled, if and only if bit 0, or bit 1, is set on it and all the way up |
| EditorHierarchy.ShowsThroughParent | app/darkspinner/debug_editor_windows.go:88-92 | a node shows a flag if and only if it carries it and its parent shows it |
| EditorHierarchy.ClimbsToFirst | app/darkspinner/debug_editor_windows.go:83-85 | in an accepted array climbing from any node ends at the first |
| EditorHierarchy.HiddenAboveHides | app/darkspinner/debug_editor_windows.go:88-92 | what hides a node hides everything below it |
| PixelSampling.SampleInside | app/darkspinner/debug_client_capture.go:50-58 | every sample lies in the central region and its four bytes in the image |
| PixelSampling.SamplesDiffer | app/darkspinner/debug_client_capture.go:54-58 | no pixel is sampled twice |
| PixelSampling.AxisMeaning | app/darkspinner/debug_client_capture.go:50-58 | how many samples lie along an axis, and where |
| PixelSampling.SampleMeaning | app/darkspinner/debug_client_capture.go:56-65 | the sample in a row and column of the grid is the pixel at that position, byte by byte |
| PixelSampling.SummaryMeaning | app/darkspinner/debug_client_capture.go:61-80 | the report is the share of samples with alpha 255 and, only if that is all, the share with no channel above 8 and the mean channel |
| PixelSampling.TotalsBounded | app/darkspinner/debug_client_capture.go:59-69 | near-black samples are opaque, opaque ones are samples, and the channel sum fits 255 a channel |
| PixelSampling.SummaryBounded | app/darkspinner/debug_client_capture.go:72-80 | reported fractions lie in 0..1 and the mean channel in 0..255 |
| PixelSampling.SampleRow | app/darkspinner/debug_client_capture.go:56-70 | the inner loop adds exactly the samples of its row |
| PixelSampling.SamplePixels | app/darkspinner/debug_client_capture.go:42-81 | what is reported counts rows times columns samples, and exactly the opaque and near-black ones among them |
| ActivityCache.CachedIsLatest | app/darkspinner/control_activity.go:143-150 | an answer that is not fetched is the server's latest to this question, for the session's server and account, returned before its refresh time and that at most an hour after it was taken in |
| ActivityCache.GetMeaning | app/darkspinner/control_personal.go:52-101 | a call is refused, answered from an entry whose time has not come, or answered with exactly what the server says, each under its conditions |
| ActivityCache.SessionMeaning | app/darkspinner/control_personal.go:66-69 | who is signed in after a call |
| ActivityCache.KeptMeaning | app/darkspinner/control_activity_cache.go:39-54 | a fetched answer is kept if and only if it names a refresh after now and within the hour |
| ActivityCache.PersonalIsOwn | app/darkspinner/control_personal.go:71-90 | a personal answer, cached or fetched, carries the account ID of the current session |
| ActivityCache.HitAfterFetch | app/darkspinner/control_activity_cache.go:39-54 | an equal call right after a fetch is answered from the cache if and only if the answer was kept and its time has not come |
| ActivityCache.GetKeeps | app/darkspinner/control_activity.go:123-159 | every call keeps each entry the latest answer to its question |
| ActivityCache.StepKeeps | app/darkspinner/control_panel.go:60-153 | so do signing in, refreshing and signing out |
| ActivityCache.App.SelectOwnerLocked | app/darkspinner/control_activity_cache.go:28-37 | keeps the cache of the same owner and empties it for another |
| ActivityCache.App.GetRemoteControlActivity | app/darkspinner/control_activity.go:123-159 | the shared call has the effect and the outcome of the function |
| ActivityCache.App.CacheActivityLocked | app/darkspinner/control_activity_cache.go:39-54 | keeps an answer exactly when its refresh time is to come within the hour |
| ActivityCache.App.GetMyControlActivity | app/darkspinner/control_personal.go:52-101 | the personal call has the effect and the outcome of the function |

## Left out

- Control pipe: operating-system handles, deadlines and access control; a write
  is attempted and completes or not, a frame is received, the pipe is lost.
- Control pipe: the per-operation argument checks of `Request` and the
  per-operation shape checks of a receipt; the latter are one given verdict.
- Control pipe: cancel frames are written whole or not at all, and no framing is
  claimed beyond command frames; the handshake frame is not in the log of writes.
- Control pipe: `pauseUntil`, the read deadlines it extends, and the polling
  between attempts; one attempt of the loop is one section.
- Lua exchange: cancellation, decode and encode failures, branch failures and
  what a script returns; after a failure of either pipe both ends stop.
- LuaProgress.AlwaysCanEndIff: says that a run to the end exists, not that every
  run reaches it; scripts may run forever.
- Lua library: gopher-lua is not part of this model; a table is an array part,
  whose length is that of its last element that is not nil, and listed entries.
- LuaValues.ToLua: a table enters the heap once its members are built, where the
  source creates it first and fills it.
- Automation gate: the state record reported to callers.
- Client registry: what launching and closing do to processes, windows, bridges
  and pauses; `Close` is its lookup and its end, in between anything may happen.
  `Terminate` is left out, and so is `Close` as a method on the client.
- Loot affixes: the package around the payloads and the asset name; modifiers
  are bit patterns of 32-bit floats.
- Patcher: network, URLs, safe path joining (an unsafe name is an absent target, and a
  target is one canonical file whatever the case it is written in),
  directory creation, contexts and errors of `Stat` while building a plan.
- Patcher.ChecksumMeaning: folds the case of ASCII letters only; a digest is hexadecimal.
- Patcher.ReplaceExisting: recovery over a crash followed by another run.
- Patcher.PercentagesIff: its "only if" half is for plans whose sizes add up within
  64 bits; past that the sum itself wraps and it is false (`WrappedSumRises`).
- Patcher.AlwaysConvergesIff: its "only if" half is for digests that tell contents
  of each length apart, since the digest itself is not modelled.
- Temporary files: the order of the walk and the paths whose removal fails are
  inputs; ancestors of the root and unreadable entries are not modelled.
- Deletion scan: decoding of a line is a given function of the line; whether an
  owner is still the same and which native frame it shows are inputs; file errors
  are left out.
- Editor hierarchy: reading and checking the artifact the nodes come from.
- Pixel sampling: fractions are real numbers rather than 64-bit floats.
- Activity cache: address normalisation, trimming, the deep copy of an answer and
  the text of timestamps; each call is given the times at which it looks at the
  clock.
- `SetServerSetup`: its rollback does not restore every setting on every path, so
  nothing is claimed of it.
- Launcher user interface, process listing, injection, asset tables and build
  targets: plumbing, or easy members.
