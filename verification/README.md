# Verified models of wapc-rs

Dafny 4.11 models of three parts of the repository, with proofs about them.
`dafny verify dfyconfig.toml` checks everything.

**The waPC call protocol.** `CallTable` is the host's `ModuleState`: the map of
calls, the wrapping id counter and the oneshot channels, as a class whose
methods are compositions of atomic table events. `CallProtocol` is the
transition system in which any number of sync and async callers, guest tasks,
host-call tasks and the channel loop work on one table in any interleaving,
with guest entries serialised by the store lock; `CallSafety` proves what every
run of it keeps. Actors carry only their own history, and the central invariant
says the shared table is, id by id, a function of these histories.
`LinearMemory`, `GuestCalls` and `HostReplies` follow one synchronous call
byte by byte through the guest's memory and its registry of handlers;
`ChannelLoop` is the loop that re-enters the guest and how dropping the context
cuts it off, and `GuestTasks` the guest's
executor and its count of calls in flight. `CallResults` maps a finished call
to the caller's reply.

**The elastic host pool.** `HostPool` is the transition system of callers, the
channel of capacity one, the worker bodies and the thread pool. `PoolSafety`
proves conservation of requests and bounds on workers, `PoolProgress` total
correctness, and `PoolBounds` how sharp the bounds are. `PoolObject` is the
pool as an object that carries their invariant: what a caller of `call` and a
worker in its loop can rely on. The thread pool is taken by
contract: at most `max` bodies run, further ones wait, and the worker count it
reports is at least min(live bodies, max).

**The code generator's text algorithms.** `CommentFormat` is `formatComment`, and
`Paragraphs` what becomes of the newlines its first pass leaves; `CommentLines`
reads its output line by line. `CaseConversion` is `noCase` with `snakeCase` and
`dotCase`, and `Spelling` reads their output unit by unit. All are over sequences
of UTF-16 code units (`CodeUnits`).

## Where the code and its description differ

- `CallStatus::Complete` carries the failure (code 0) and `CallStatus::Error` the
  success; the model keeps the names and their use.
- The comment on `do_host_call` (crates/wapc/src/wapchost/traits.rs:28-29)
  promises a value above 0 for success. Ids wrap, so this holds exactly in the
  first 2^31 - 1 of every 2^32 allocations: `CallTable.ModuleState.DoHostCall`.
- Past 2^32 allocations on one table, which host calls alone can make, an id is
  reused: the entry of a pending call is displaced, its caller gets "Async wait
  failed", and finishing it panics. Up to 2^32 every reply is right and nothing
  panics: `CallSafety.BoundIsExact`, `CallSafety.PanicBoundIsExact`.
- Dropping a call context sends `Close` behind the completions that are queued,
  but then cancels the loop: those it has not received are lost.
  `ChannelLoop.CompletionsArrive`, `ChannelLoop.DropCanLose`.
- `async_host_call` does not look at the code the host reports, so a failed host
  call reaches the guest as an empty success, and a refused one as a success that
  holds the error text: `HostReplies.AsyncHostCallEnd`.
- `exhaust_tasks` assumes every call in flight has a live task. A call the host
  refuses with 0 leaves its sender behind. The subtraction underflows exactly when
  fewer tasks can run than calls were refused: `GuestTasks.Scheduling`,
  `GuestTasks.RefusalUnderflows`.
- A pool with `min_threads` 0 does not answer its first call until another call
  overlaps it: `PoolBounds.FirstCallNeedsAnother`, `PoolProgress.NeverStallsExactly`.
- The number of pool workers can exceed `max_threads`, because the count is
  checked before the spawn. It stays within `max_threads` exactly if at most two
  calls overlap or `min_threads` equals it: `PoolBounds.MaxThreadsKeptExactly`.
- `formatComment` announces that multiple newlines are preserved. Its first pass
  does so; the wrapper then loses the blank line between two paragraphs when the
  last line and word of the first no longer fit together, unless a first word as
  long as a line brings a blank line of its own:
  `Paragraphs.ParagraphsStayApartExactly`. For instance "abcd", a blank line and
  "ef" at `wrapLength` 3 come out without the line between: `Paragraphs.BreakLost`.
- `async_host_call` takes its index from a wrapping counter. A call that still waits
  when 2^32 have been made shares its index with the next one, and the second echo
  finds no sender: `GuestTasks.BoundIsExact`.
- The provider takes a guest pointer as signed, so a buffer at or above 2^31 is not
  where it writes: `LinearMemory.PointersExact`.

## Model

| member | source | states |
|---|---|---|
| `Int32.IdCollision` | crates/wapc/src/wapchost/modulestate.rs:82-93 | two allocations get the same id exactly when a multiple of 2^32 separates them |
| `Int32.IdsDistinct` | crates/wapc/src/wapchost/modulestate.rs:82-93 | within 2^32 consecutive allocations, invocations and host calls together, all ids differ |
| `Int32.PositiveIds` | crates/wapc/src/wapchost/modulestate.rs:174-212 | an id is positive exactly in the first 2^31 - 1 allocations of each 2^32 |
| `CallTable.EventIsLocal` | crates/wapc/src/wapchost/modulestate.rs:97-152 | a table access moves only its own id's automaton, and panics exactly if that automaton would |
| `CallTable.RunProjects` | crates/wapc/src/wapchost/modulestate.rs:61-152 | any run of the shared table, seen from one id, is a run of that id's own automaton |
| `CallTable.CellsSafeImpliesRunSafe` | crates/wapc/src/wapchost/modulestate.rs:97-107 | the table panics nowhere in a run if none of the single-id automata does |
| `CallTable.EventsCommute` | crates/wapc/src/wapchost/modulestate.rs:61-152 | accesses to different ids commute, and neither can make the other panic |
| `CallTable.InterleavingsAgree` | crates/wapc/src/wapchost/modulestate.rs:61-152 | two interleavings with the same accesses per id end with the same content at every id |
| `CallTable.ModuleState.Allocate` | crates/wapc/src/wapchost/modulestate.rs:83 | the counter hands out the ids of successive allocations, wrapping |
| `CallTable.ModuleState.NewInvocation` | crates/wapc/src/wapchost/modulestate.rs:82-94 | a fresh oneshot and id; the table changes by exactly this one entry |
| `CallTable.ModuleState.FinishGuestInvocation` | crates/wapc/src/wapchost/modulestate.rs:97-107 | removes the entry and sends it, without its channel, as `Complete` for code 0 and as `Error` otherwise; an absent id changes nothing |
| `CallTable.ModuleState.TakeState` | crates/wapc/src/wapchost/modulestate.rs:109-113 | returns the entry, if any, and removes it |
| `CallTable.ModuleState.SetGuestError` | crates/wapc/src/wapchost/modulestate.rs:130-135 | stores the text in an existing entry and changes nothing else |
| `CallTable.ModuleState.SetGuestResponse` | crates/wapc/src/wapchost/modulestate.rs:138-143 | stores the response in an existing entry and changes nothing else |
| `CallTable.ModuleState.SetGuestCallComplete` | crates/wapc/src/wapchost/modulestate.rs:146-152 | is storing the response followed by finishing the call |
| `CallTable.ModuleState.StoreHostResult` | crates/wapc/src/wapchost/modulestate.rs:190-209 | files response or error of a host callback under the call's id; the code is the id or 0 |
| `CallTable.ModuleState.DoHostCall` | crates/wapc/src/wapchost/modulestate.rs:167-213 | exactly the new id holds exactly the callback's result (or the missing-callback error); the value returned is positive if and only if the callback succeeded and the id counter is in the first 2^31 - 1 of its cycle |
| `CallTable.ModuleState.DoAsyncHostCall` | crates/wapc/src/wapchost/modulestate.rs:216-267 | allocates an id and files an empty entry under it before the task starts |
| `CallSafety.InvKept` | crates/wapc/src/wapchost/modulestate.rs:82-152 | every step of every actor keeps the table equal, id by id, to what the actors' own histories prescribe, and panics nowhere |
| `CallSafety.NeverPanics` | crates/wapc/src/wapchost.rs:237 | in no run of up to 2^32 allocations does finishing meet an entry without channel, or a sync caller miss its entry |
| `CallSafety.PanicBoundIsExact` | crates/wapc/src/wapchost/modulestate.rs:97-107 | no unwrap fails in any run of up to n allocations if and only if n is at most 2^32 |
| `CallSafety.EveryEntryHasAnOwner` | crates/wapc/src/wapchost/modulestate.rs:61-152 | every entry of the table, and everything sent, belongs to one issued id and is what its owner's history prescribes |
| `CallSafety.EndToEnd` | crates/wapc/src/wapchost.rs:268-311 | in every interleaving a caller's reply is what its own dispatch produced if that was reported before its guest entry trapped, and otherwise its own trap's text; the dispatch saw the caller's own operation and payload |
| `CallSafety.WaitingEndsExactly` | crates/wapc/src/wapchost.rs:290-292 | an awaiting caller can be answered exactly when its call has ended, and never because its sender was dropped |
| `CallSafety.ProtocolProjects` | crates/wapc/src/wapchost/modulestate.rs:61-152 | every run of the whole protocol, seen from one id, is a run of that id's automaton from nothing |
| `CallSafety.OneEnd` | crates/wapc/src/wapchost/modulestate.rs:82-113 | every invocation in the table is open with its channel, or sent exactly once, or taken back; its own history decides which |
| `CallSafety.EndIsFinal` | crates/wasmtime-provider/src/engine_provider.rs:213-221 | after a call is sent or taken no step of anyone, the trap path included, changes anything at its id |
| `CallSafety.MessagesFollowAnnouncements` | crates/wasmtime-provider/src/engine_provider.rs:118-136 | what was delivered to the guest followed by what is queued is the sequence of completions in completion order, each host call at most once |
| `CallSafety.PublishBeforeNotify` | crates/wapc/src/wapchost/modulestate.rs:231-264 | a queued or delivered pair names a host call whose callback gave one result in the run; the table holds exactly that result under the id, and the code is the id for a response and 0 for an error (for id 0 both are 0); no id occurs twice |
| `CallSafety.AnnouncedIsFinal` | crates/wapc/src/wapchost/modulestate.rs:242-264 | once announced, the stored result never changes again |
| `CallSafety.ReusedIdLosesReply` | crates/wapc/src/wapchost/modulestate.rs:77-93 | an invocation or a host call that enters under a waiting call's id drops that caller's sender, and it is told the async wait failed |
| `CallSafety.WrappedIdLosesReply` | crates/wapc/src/wapchost/modulestate.rs:216-230 | whenever one of its guest's later host calls gets the invocation's id, there is a run with that one invocation in which its caller loses its reply although its call neither answered nor trapped |
| `CallSafety.WrappedIdPanics` | crates/wapc/src/wapchost/modulestate.rs:97-107 | and one in which the guest answers and finishing the call meets an entry without channel |
| `CallSafety.BoundIsExact` | crates/wapc/src/wapchost.rs:268-311 | all runs of up to n allocations give every caller its own reply if and only if n is at most 2^32, and the same of the runs with a single invocation |
| `LinearMemory.GetVecExact` | crates/wasmtime-provider/src/wapc_wasmtime.rs:13-16 | the slice succeeds exactly for non-negative ranges that end below 2^31 and inside the memory, and is then that range |
| `LinearMemory.LengthRoundTrip` | crates/wapc/src/wapchost.rs:226-230 | a length survives the trip through i32 into the guest exactly when it is below 2^32 |
| `LinearMemory.WriteBytes` | crates/wasmtime-provider/src/wapc_wasmtime.rs:18-24 | at a pointer for which the copy is defined, the bytes end up there and the rest of the memory is unchanged |
| `LinearMemory.PointersExact` | crates/wasmtime-provider/src/wapc_wasmtime.rs:18-24 | a copy stays inside the memory if and only if it is empty or the guest's address, as the raw i32 gives it, is below 2^31 and the buffer in bounds |
| `LinearMemory.TwoWrites` | crates/wasmtime-provider/src/wapc_wasmtime.rs:100-104 | with disjoint in-bounds buffers operation and payload both arrive whole, and memory apart from both keeps its content |
| `GuestCalls.Instance.GuestRequest` | crates/wasmtime-provider/src/wapc_wasmtime.rs:84-110 | writes payload and then operation of the pending request; an absent id leaves memory alone |
| `GuestCalls.Instance.ReadRequest` | crates/wapc-guest/src/protocol.rs:28-36 | both exports read exactly operation and payload of a pending request into their buffers; for an absent one they read what the buffers held |
| `GuestCalls.Instance.AsyncGuestCall` | crates/wapc-guest/src/protocol.rs:78-99 | the spawned task's dispatcher is given exactly the pending request |
| `GuestCalls.Instance.GuestResponse` | crates/wasmtime-provider/src/wapc_wasmtime.rs:312-332 | files exactly the named memory range as the response |
| `GuestCalls.Instance.GuestError` | crates/wasmtime-provider/src/wapc_wasmtime.rs:334-354 | files exactly the named memory range as the error |
| `GuestCalls.Instance.RegisterFunction` | crates/wapc-guest/src/protocol.rs:217-219 | the registry is that of all registrations so far, the new one last |
| `GuestCalls.LastRegistrationWins` | crates/wapc-guest/src/protocol.rs:210-219 | the handler found for an operation is the last one registered for it |
| `GuestCalls.UnregisteredIsAbsent` | crates/wapc-guest/src/protocol.rs:210-219 | an operation never registered has no handler |
| `GuestCalls.Instance.GuestCall` | crates/wapc-guest/src/protocol.rs:26-63 | for a pending request, the handler registered for its operation runs on its payload, and exactly its response (code 1) or its error (code 0) is filed under the call's id, or the missing-handler text with the operation's name |
| `GuestCalls.CallContext.ReturnSync` | crates/wasmtime-provider/src/engine_provider.rs:187-196 | a return passes the code on; a trap files its text and yields 0 |
| `GuestCalls.CallContext.ReturnAsync` | crates/wasmtime-provider/src/engine_provider.rs:211-221 | a trap ends the call with its text if it is still open and changes nothing otherwise; other ids are untouched |
| `GuestCalls.CallContext.Call` | crates/wapc/src/wapchost.rs:224-259 | the reply is the outcome of the registered handler on the caller's own operation and payload, the missing-handler failure, or the trap's text; the table is left as if the call had not been |
| `GuestCalls.HostCall` | crates/wapc/src/wapchost.rs:80-95 | through a fresh state and instance the reply is the response of the last handler registered for the operation, untouched, or "Guest call failure: " and its error, its trap's text, or the missing-handler text naming the operation |
| `GuestCalls.HostCallOutcome` | crates/wapc-guest/src/protocol.rs:38-62 | over any list of registrations the outcome is that of the last handler for the operation, or the missing-handler failure naming it |
| `GuestCalls.TrapPath` | crates/wasmtime-provider/src/engine_provider.rs:215-220 | the trap path turns any open entry into a failure with the trap's text, and leaves an ended call alone |
| `GuestCalls.SyncAsyncAgree` | crates/wapc/src/wapchost.rs:230-309 | the same guest steps ending in the same code or trap give the same reply through `call` and `call_async` |
| `GuestCalls.RepliesExactly` | crates/wapc/src/wapchost.rs:239-309 | in either mode the reply is the trap's text; for code 0 the error the guest stored last; for another code the response it stored last, else the error; and the two stock texts if it stored nothing to the purpose |
| `HostReplies.FetchReply` | crates/wasmtime-provider/src/wapc_wasmtime.rs:253-292 | measuring, copying and reading gives the guest exactly the filed bytes, or none |
| `HostReplies.HostCallEnd` | crates/wapc-guest/src/protocol.rs:244-273 | response on code 1, error otherwise; it is the host's outcome exactly when the host says 1 for success and only then |
| `HostReplies.AsyncHostCallEnd` | crates/wapc-guest/src/protocol.rs:305-346 | it is the host's outcome if and only if the callback succeeded, with an empty response if the call was refused; a failure comes back as a success, empty or holding the error text |
| `ChannelLoop.Serve` | crates/wasmtime-provider/src/engine_provider.rs:118-136 | one guest entry per message up to the first `Close` or the cancellation, with the message's id and code |
| `ChannelLoop.LoopServes` | crates/wasmtime-provider/src/engine_provider.rs:118-136 | in any interleaving of sends, receives and the drop, the loop has done what serving everything posted, up to its number of receives, would do |
| `ChannelLoop.CompletionsArrive` | crates/wasmtime-provider/src/engine_provider.rs:166-171 | in every run the guest has been entered for exactly the first n completions sent before the drop, unaltered and in order, where n is what the loop has received, and for all of them if and only if it has received them all |
| `ChannelLoop.EndedStays` | crates/wasmtime-provider/src/engine_provider.rs:166-171 | once the loop has ended nothing more enters the guest |
| `ChannelLoop.DropCanLose` | crates/wasmtime-provider/src/engine_provider.rs:166-171 | for any completions and any n some run's drop cuts the loop off after exactly the first n |
| `GuestTasks.InvHolds` | crates/wapc-guest/src/protocol.rs:278-303 | in every run the calls the peer owes an answer to and the tasks awaiting them point at each other, and the other senders are as many as the refused calls |
| `GuestTasks.SendersAndTasks` | crates/wapc-guest/src/protocol.rs:146-151 | senders and runnable tasks together are as many as live tasks and stale senders |
| `GuestTasks.StopsExactly` | crates/wapc-guest/src/protocol.rs:146-151 | the task count minus calls in flight underflows exactly if fewer tasks can run than senders are stale, and is positive exactly if more can |
| `GuestTasks.Scheduling` | crates/wapc-guest/src/protocol.rs:68-73 | over whole runs, refusals included, the sender of every echoed index is found; the count underflows if and only if fewer tasks can run than calls were refused, and stops the loop if and only if as many can; without refusals that is the bijection of live tasks and calls in flight |
| `GuestTasks.RefusalUnderflows` | crates/wapc-guest/src/protocol.rs:305-321 | a run can go on, with no further refusal, to an underflow if and only if a call was refused in it |
| `GuestTasks.BoundIsExact` | crates/wapc-guest/src/protocol.rs:68-73 | in all runs of up to n calls every echo finds its sender if and only if n is at most 2^32 |
| `GuestTasks.ExhaustRuns` | crates/wapc-guest/src/protocol.rs:146-151 | what `exhaust_tasks` does is the run of exactly those polls that find their task runnable, in their order |
| `GuestTasks.AsyncGuest.AsyncHostCall` | crates/wapc-guest/src/protocol.rs:278-321 | takes an unused index and registers the calling task's sender under it; an accepted call blocks the task, a refused one leaves the sender behind |
| `GuestTasks.AsyncGuest.ExhaustTasks` | crates/wapc-guest/src/protocol.rs:146-151 | makes the polls in their order, each by its task if that can run, as long as more tasks are alive than calls in flight, and goes on until that fails or the polls end; with no stale sender it stops exactly when every live task awaits a call in flight |
| `GuestTasks.AsyncGuest.Wake` | crates/wapc-guest/src/protocol.rs:70-71 | finds and removes the sender of an owed index, whatever was refused, and its task can run |
| `GuestTasks.AsyncGuest.HostCallResponseReady` | crates/wapc-guest/src/protocol.rs:68-73 | wakes the task of the index, and then the tasks are polled as by `exhaust_tasks`, that task able to run |
| `PoolObject.HostPoolObject.constructor` | crates/wapc-pool/src/hostpool.rs:46-85 | the spawn loop leaves exactly `min_threads` permanent bodies and nothing else, and the pool's invariant holds |
| `PoolObject.HostPoolObject.BeginCall` | crates/wapc-pool/src/hostpool.rs:144-149 | the new caller's oneshot is nobody else's and unsent |
| `PoolObject.HostPoolObject.SendTimeout` | crates/wapc-pool/src/hostpool.rs:147-163 | if there is room the channel holds exactly this caller's request; else the caller has its own triple back, and the channel is filled by another caller, who waits |
| `PoolObject.HostPoolObject.CheckCount` | crates/wapc-pool/src/hostpool.rs:165 | goes on to spawn exactly if the reported count is below `max_threads`; then live bodies are below it, and with all pending spawns within the limit |
| `PoolObject.HostPoolObject.Grow` | crates/wapc-pool/src/hostpool.rs:166-171 | one live body more, within the limit, and the caller still holds its own triple |
| `PoolObject.HostPoolObject.CallUntilWait` | crates/wapc-pool/src/hostpool.rs:144-173 | uninterrupted, `call` leaves the request whole in the channel or in the caller's hand, and has grown the pool exactly if it gave up and there was room |
| `PoolObject.HostPoolObject.AwaitReply` | crates/wapc-pool/src/hostpool.rs:177-180 | the result is one the host may give to this caller's own operation and payload |
| `PoolObject.HostPoolObject.Receive` | crates/wapc-pool/src/hostpool.rs:112-120 | the worker holds the oldest request, unaltered, of a caller who waits and has not been answered |
| `PoolObject.HostPoolObject.Answer` | crates/wapc-pool/src/hostpool.rs:128-131 | the oneshot was unsent, and its caller can now collect this result |
| `PoolObject.HostPoolObject.Turn` | crates/wapc-pool/src/hostpool.rs:111-132 | a turn of the loop hands the oldest request's own caller the answer to its own operation and payload, touches no other oneshot, and leaves the workers as they were |
| `PoolObject.HostPoolObject.Leave` | crates/wapc-pool/src/hostpool.rs:116-119 | one live body fewer, a surplus one, and still at least `min_threads` |
| `PoolSafety.ConservedKept` | crates/wapc-pool/src/hostpool.rs:111-132 | each step leaves every request unaltered and in exactly one of caller's hand, channel, one worker, or answered |
| `PoolSafety.AtWorkIsUnanswered` | crates/wapc-pool/src/hostpool.rs:128-131 | a request in a worker is genuine, unanswered and awaited, so no oneshot is sent to twice |
| `PoolSafety.TimeoutKeepsLate` | crates/wapc-pool/src/hostpool.rs:147-163 | when a caller times out, some other call is under way that has not |
| `PoolSafety.CheckKeepsBound` | crates/wapc-pool/src/hostpool.rs:164-169 | a caller that passes the check keeps live bodies and pending spawns within the limit |
| `PoolSafety.InvKept` | crates/wapc-pool/src/hostpool.rs:96-181 | every step keeps conservation, the permanent staff and all the bounds |
| `PoolSafety.CountsAre` | crates/wapc-pool/src/hostpool.rs:88-94 | the counts the bounds speak of are the numbers of bodies alive, of bodies running and of calls under way |
| `PoolProgress.AnswersAreOwn` | crates/wapc-pool/src/hostpool.rs:144-181 | in every run each submitted request is in exactly one place, a held triple is the caller's own, and an answer is one the host may give to that caller's own operation and payload |
| `PoolProgress.MeasureDecreases` | crates/wapc-pool/src/hostpool.rs:96-181 | every send, timeout, check, spawn, start, receive, reply and idle exit decreases one measure |
| `PoolProgress.RunsEnd` | crates/wapc-pool/src/hostpool.rs:96-181 | a run without new calls is no longer than the measure |
| `PoolProgress.StuckExactly` | crates/wapc-pool/src/hostpool.rs:96-181 | a reachable pool with a permanent worker can make no step if and only if every call is answered and exactly the permanent workers are left, idle |
| `PoolProgress.EveryCallIsAnswered` | crates/wapc-pool/src/hostpool.rs:144-181 | total correctness: after any run, what follows without new calls is bounded, and where it stops all calls are answered and `min_threads` workers remain |
| `PoolProgress.NoPermanentWorkerStalls` | crates/wapc-pool/src/hostpool.rs:80-82 | with `min_threads` 0 the first call sits in the channel, and nothing can happen until another call is made |
| `PoolProgress.NeverStallsExactly` | crates/wapc-pool/src/hostpool.rs:80-82 | no run leaves a call unanswered if and only if `min_threads` is at least 1 |
| `PoolBounds.BodiesStayBetween` | crates/wapc-pool/src/hostpool.rs:164-169 | with C overlapping calls live bodies stay between `min_threads` and `max_threads` + C - 2, or at `min_threads` if C is below 2 or `max_threads` no larger; permanent bodies never exit; at most `max_threads` run |
| `PoolBounds.OnlyIdleSurplusLeaves` | crates/wapc-pool/src/hostpool.rs:111-119 | only an idle surplus body ever exits |
| `PoolBounds.AtomicSpawnsBound` | crates/wapc-pool/src/hostpool.rs:165-166 | if check and spawn were one action, live bodies would never exceed `max_threads` |
| `PoolBounds.AdjacentSpawnsBound` | crates/wapc-pool/src/hostpool.rs:165-166 | so too if only every caller that finds room spawns in its very next step |
| `PoolBounds.OverlapGrows` | crates/wapc-pool/src/hostpool.rs:144-173 | two overlapping calls to a quiet pool with room can both be answered and leave it quiet with one live body more |
| `PoolBounds.CeilingIsReached` | crates/wapc-pool/src/hostpool.rs:164-169 | for every configuration some run has as many live bodies as the limit allows |
| `PoolBounds.LimitIsExact` | crates/wapc-pool/src/hostpool.rs:164-169 | a number bounds the live bodies of all runs if and only if it is at least that limit |
| `PoolBounds.MaxThreadsKeptExactly` | crates/wapc-pool/src/hostpool.rs:164-169 | no run has more than `max_threads` live bodies if and only if at most two calls overlap or `min_threads` equals `max_threads` |
| `PoolBounds.FirstCallNeedsAnother` | crates/wapc-pool/src/hostpool.rs:80-82 | with `min_threads` 0 the first call, once in the channel, can be answered if and only if a second call may overlap it and `max_threads` is positive |
| `CommentFormat.CollapseNewlines` | wapc-guest-codegen/src/utils/index.ts:42-50 | the in-place pass turns a newline into a space exactly when it is interior and neither neighbour in the original text is a newline |
| `CommentFormat.RunsOfNewlinesSurvive` | wapc-guest-codegen/src/utils/index.ts:39-41 | of adjacent newlines the pass leaves every one |
| `CommentFormat.FormatComment` | wapc-guest-codegen/src/utils/index.ts:24-100 | the loop's output is the layout of the text, each line trimmed and prefixed |
| `CommentFormat.InkKept` | wapc-guest-codegen/src/utils/index.ts:55-95 | the line bodies carry the text's non-white units, all of them, in order |
| `CommentFormat.LayoutIsWellCut` | wapc-guest-codegen/src/utils/index.ts:55-95 | every line fits `wrapLength` or has no space; none holds a newline; a line ended for lack of room plus its next word exceeds `wrapLength`, and that word opens the next line |
| `CommentFormat.FormattedComment` | wapc-guest-codegen/src/utils/index.ts:24-100 | for a non-empty prefix without newline, splitting the output at newlines gives exactly the prefixed bodies, which fit or cannot be broken and carry the text's non-white units in order |
| `CommentLines.OutputExactly` | wapc-guest-codegen/src/utils/index.ts:52-99 | for a non-empty prefix without newline the output is lines of prefix and body, where a body fits or has no space, neither begins nor ends with white space, and the bodies hold the text's units outside the list of white space and line terminators of ECMA-262, all of them, in order |
| `CommentFormat.OutputIsRendered` | wapc-guest-codegen/src/utils/index.ts:59-62 | the output is one full line per laid-out line exactly when the prefix is not empty or the first body is not blank |
| `Paragraphs.NewlineDecides` | wapc-guest-codegen/src/utils/index.ts:57-76 | at every newline the first pass leaves, the output lines are those of the text with a space in its place if the line and word before it are too long, and otherwise those of the text before it and of the text after it on its own, with a blank one if nothing was under way |
| `Paragraphs.ParagraphsStayApartExactly` | wapc-guest-codegen/src/utils/index.ts:39-76 | two paragraphs, the first ending and the second beginning with a non-white unit, come out as each does alone with a blank line between if and only if the last line and word of the first fit together, or its last word and the paragraphs of the second, up to one that goes on, all fill their lines |
| `Paragraphs.ApartOrRunOn` | wapc-guest-codegen/src/utils/index.ts:39-76 | if the first word of the second is shorter than a line, the paragraphs stay apart if and only if the last line and word of the first fit together, and otherwise the second begins on the very next line |
| `Paragraphs.LongWordRunsOn` | wapc-guest-codegen/src/utils/index.ts:57-76 | after a first paragraph of one word longer than `wrapLength`, a second whose first word is shorter begins on the very next line |
| `Paragraphs.BreakLost` | wapc-guest-codegen/src/utils/index.ts:39-41 | "abcd", a blank line and "ef" at `wrapLength` 3 give the lines "", "abcd", "ef" |
| `Paragraphs.StayApartInOutput` | wapc-guest-codegen/src/utils/index.ts:24-100 | for a non-empty prefix without newline, paragraphs stay apart if and only if the output is the two outputs with a line of the prefix alone between them |
| `CaseConversion.PassesMarkBoundaries` | wapc-guest-codegen/src/utils/index.ts:158-159 | the two non-overlapping left-to-right replacements put a mark at every word boundary, decided position by position on the original text, and nowhere else |
| `CaseConversion.WordsInOnePass` | wapc-guest-codegen/src/utils/index.ts:158-189 | splitting, stripping and trimming together do what one pass over the input does: neighbouring alphanumerics of the output are parted exactly if other units, or a word boundary, part them in the input |
| `CaseConversion.TrimMarks` | wapc-guest-codegen/src/utils/index.ts:180-186 | the trimming loops cut the marks off both ends and no more, also when nothing else is there |
| `CaseConversion.NoCase` | wapc-guest-codegen/src/utils/index.ts:171-193 | the words are parted at the marks, each part is transformed at its own place, and the results are joined by the delimiter |
| `CaseConversion.WordsAreNeat` | wapc-guest-codegen/src/utils/index.ts:161-189 | what is split into words holds exactly the input's ASCII alphanumerics, with single marks between them and none at the ends |
| `CaseConversion.DelimitedIsRendered` | wapc-guest-codegen/src/utils/index.ts:191-192 | split, lower-casing and join amount to lower-casing the words in place and replacing each mark by the delimiter |
| `CaseConversion.DelimitedShape` | wapc-guest-codegen/src/utils/index.ts:144-193 | for a non-alphanumeric delimiter the output has none at its ends and none doubled, and without them is the lower-cased alphanumeric part of the input |
| `CaseConversion.ConversionsAbsorb` | wapc-guest-codegen/src/utils/index.ts:144-193 | converting an output again, with any delimiter, equals converting the input with it |
| `CaseConversion.SnakeCaseIdempotent` | wapc-guest-codegen/src/utils/index.ts:144-156 | `snakeCase` and `dotCase` are idempotent, and `dotCase` after `snakeCase` is `dotCase` |
| `Spelling.ConversionExactly` | wapc-guest-codegen/src/utils/index.ts:144-193 | the output is the input's letters and digits in order, a capital as the letter 32 further on and every other as it is, with one delimiter between two neighbours if and only if something else stands between them in the input, or a small letter or digit meets a capital, or two capitals meet before a small letter |
| `Spelling.Delimiters` | wapc-guest-codegen/src/utils/index.ts:144-156 | `snakeCase` delimits with the underscore and `dotCase` with the full stop |

## Left out

- Ids of host calls as guest and host see them: the guest passes its own index as a ninth argument (crates/wapc-guest/src/protocol.rs:165-188) while the linker takes eight and the host allocates its own (crates/wasmtime-provider/src/wapc_wasmtime.rs:141-154), so `HostReplies` and `GuestTasks` are stated against a host that files results under the guest's index and echoes it.
- CallProtocol: an async call is only claimed to be answered rightly, not eventually; a guest task may wait for something that never comes.
- The `Err` and positive-code branches of `call` and `call_async` (crates/wapc/src/wapchost.rs:232, 277-288), which the wasmtime provider takes only when a guest export is missing.
- GuestTasks: an accepted `async_host_call` is awaited at once by the task that made it, so each task has at most one call outstanding.
- GuestCalls.Instance.GuestCall: handlers are functions of the payload, so host calls made from inside a handler, and handlers that register functions, are not modelled; the guest's allocator is a choice of disjoint in-bounds buffers.
- Text as UTF-8 bytes throughout: the panics and replacements of the conversions from invalid UTF-8 are not modelled.
- Console log, and the `init` starters other than as a list of registrations.
- Calls dropped before they are answered, on the host and in the pool, and panics in a factory or handler.
- Shutting the pool down: `shutdown_join` waits for permanent workers that never leave while the pool still holds its sender.
- Real time: the two timeouts are steps that may happen, the timed send's only while the channel is full.
- The thread pool's, channel's, oneshot's and executor's own code: taken by contract.
- Builders, error texts other than the guest-call failure's, and logging.
- The wasm3 provider, module loading, WASI set-up, and the MessagePack codec.
- `camelCase` and `pascalCase`: other transforms over the same words; and the locale tables.
- Paragraphs.ParagraphsStayApartExactly: says nothing of a second paragraph with tabs or later indented paragraphs whose first word is exactly `wrapLength` long and ends in white space or at a newline the first pass leaves; whether a blank line comes out then depends on how the whole rest of the text wraps.
- LinearMemory.WriteBytes: the copy at a pointer that `PointersExact` rules out is undefined in the source and not modelled; `GuestCalls` places its buffers below 2^31.
- `formatComment` on an undefined text, which is the empty string, and the code generator's visitors.
