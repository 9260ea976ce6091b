/**
 The call protocol as a transition system over one shared `ModuleState`.

 Any number of callers (sync and async), guest tasks, host-call tasks and the
 channel loop take steps in any order; a step is one access to the table, the
 channel or the store mutex.  The store mutex (`lock`) admits one guest entry at
 a time; everything else interleaves freely.

 An actor records only its own program position and what it has itself seen.
 The main invariant says that the shared table is, cell by cell, a function of
 these private histories.
 */
module CallProtocol {
  import opened Basics
  import opened Int32
  import opened CallTable
  import opened CallResults

  datatype Mode = Sync | Async

  /** The guest's side of one invocation. */
  datatype Task =
    | NoTask
    | Running(seen: Invocation)
    | Decided(seen: Invocation, outcome: Outcome)
    | Published(seen: Invocation, outcome: Outcome)
    | Done(seen: Invocation, outcome: Outcome)

  datatype Phase =
    | Reserved
    | Inserted
    | InGuest
    | Trapping(stage: nat)
    | Awaiting
    | Returned(code: int32)
    | Replied(reply: Reply)

  /** Who reached the end of the call first. */
  datatype Cause = Unfinished | ByTask | ByTrap

  datatype HostPhase = HostReserved | HostReady | HostStored(result: Outcome) | HostNotified(result: Outcome)

  datatype Actor =
    | Caller(mode: Mode, inv: Invocation, phase: Phase, task: Task, trap: Option<Bytes>, cause: Cause)
    | HostCall(kind: Mode, host: HostPhase)

  datatype Lock = Free | Entry(owner: nat) | Loop

  datatype Message = Message(id: int32, code: int32)

  /** `actors[k]` made the (k+1)-st allocation; `delivered` is what the guest has been told. */
  datatype System = System(
    table: Table,
    actors: seq<Actor>,
    lock: Lock,
    queue: seq<Message>,
    delivered: seq<Message>)

  const INIT := System(Table(map[], map[]), [], Free, [], [])

  // ----------------------------------------------------------------- steps

  datatype Step =
    | ReserveCall(mode: Mode, inv: Invocation)  // the counter, in new_invocation
    | InsertCall(k: nat)                        // the table entry, in new_invocation
    | EnterGuest(k: nat)                        // the provider's call / call_async takes the store
    | ReadRequest(k: nat, garbage: Invocation)  // __guest_request; garbage is the buffers' old content
    | Dispatch(k: nat, outcome: Outcome)        // the handler or dispatcher answers
    | Publish(k: nat)                           // __guest_response or __guest_error
    | Ready(k: nat)                             // __guest_call_response_ready
    | LeaveGuest(k: nat)                        // __async_guest_call returns
    | ReturnCode(k: nat)                        // __guest_call returns its code
    | Trap(k: nat, text: Bytes)                 // the guest entry traps
    | HandleTrap(k: nat)                        // one table access of the provider's trap path
    | TakeBack(k: nat)                          // take_state, and the sync reply
    | AwaitReply(k: nat)                        // the oneshot resolves, and the async reply
    | ReserveHost(kind: Mode)                   // the counter, in do_host_call / do_async_host_call
    | InitHost(k: nat)                          // init_host_call
    | StoreHost(k: nat, result: Outcome)        // the callback's result goes into the table
    | NotifyHost(k: nat)                        // the async callback queues (id, code)
    | Deliver                                   // the loop enters __host_call_response_ready
    | LeaveLoop                                 // and returns (or traps) from it

  predicate IsCaller(s: System, k: nat) {
    k < |s.actors| && s.actors[k].Caller?
  }

  predicate IsHost(s: System, k: nat) {
    k < |s.actors| && s.actors[k].HostCall?
  }

  /** Some guest code is executing, and has not trapped. */
  predicate GuestRunning(s: System) {
    s.lock.Loop? || (s.lock.Entry? && IsCaller(s, s.lock.owner) && s.actors[s.lock.owner].phase.InGuest?)
  }

  /** A sync handler runs inside its own entry; an async task inside any entry. */
  predicate TaskMayRun(s: System, k: nat) {
    IsCaller(s, k) && GuestRunning(s) && (s.actors[k].mode.Sync? ==> s.lock == Entry(k))
  }

  /** The oneshot of caller `k` still has its sending half in the table. */
  predicate SenderAlive(s: System, k: nat) {
    IdOf(k) in s.table.calls && s.table.calls[IdOf(k)].channel == Some(k)
  }

  predicate Enabled(s: System, step: Step) {
    match step
    case ReserveCall(_, _) => true
    case InsertCall(k) => IsCaller(s, k) && s.actors[k].phase.Reserved?
    case EnterGuest(k) => IsCaller(s, k) && s.actors[k].phase.Inserted? && s.lock.Free?
    case ReadRequest(k, _) =>
      IsCaller(s, k) && s.lock == Entry(k) && s.actors[k].phase.InGuest? && s.actors[k].task.NoTask?
    case Dispatch(k, _) => TaskMayRun(s, k) && s.actors[k].task.Running?
    case Publish(k) => TaskMayRun(s, k) && s.actors[k].task.Decided?
    case Ready(k) => TaskMayRun(s, k) && s.actors[k].task.Published? && s.actors[k].mode.Async?
    case LeaveGuest(k) =>
      && IsCaller(s, k) && s.lock == Entry(k) && s.actors[k].phase.InGuest?
      && s.actors[k].mode.Async? && !s.actors[k].task.NoTask?
    case ReturnCode(k) =>
      && IsCaller(s, k) && s.lock == Entry(k) && s.actors[k].phase.InGuest?
      && s.actors[k].mode.Sync? && s.actors[k].task.Published?
    case Trap(k, _) => IsCaller(s, k) && s.lock == Entry(k) && s.actors[k].phase.InGuest?
    case HandleTrap(k) => IsCaller(s, k) && s.lock == Entry(k) && s.actors[k].phase.Trapping?
    case TakeBack(k) => IsCaller(s, k) && s.actors[k].phase.Returned?
    case AwaitReply(k) =>
      && IsCaller(s, k) && s.actors[k].phase.Awaiting?
      && (Received(SendsOf(s.table, IdOf(k)), k).Some? || !SenderAlive(s, k))
    case ReserveHost(_) => GuestRunning(s)
    case InitHost(k) => IsHost(s, k) && s.actors[k].host.HostReserved?
    case StoreHost(k, _) => IsHost(s, k) && s.actors[k].host.HostReady?
    case NotifyHost(k) => IsHost(s, k) && s.actors[k].host.HostStored? && s.actors[k].kind.Async?
    case Deliver => s.lock.Free? && s.queue != []
    case LeaveLoop => s.lock.Loop?
  }

  function PublishEvent(k: nat, outcome: Outcome): Event {
    match outcome
    case Ok(v) => Set(IdOf(k), GuestResponse, v)
    case Err(e) => Set(IdOf(k), GuestError, e)
  }

  /** What `__guest_call` returns and `__async_guest_call` reports. */
  function GuestCode(outcome: Outcome): int32 {
    if outcome.Ok? then 1 else 0
  }

  /** The code is 1 for a response and 0 for an error. */
  lemma GuestCodeIs(outcome: Outcome)
    ensures match outcome case Ok(_) => GuestCode(outcome) == 1 case Err(_) => GuestCode(outcome) == 0
  {
  }

  /** The table access of a step, if it makes one. */
  function EventOf(s: System, step: Step): Option<Event>
    requires Enabled(s, step)
  {
    match step
    case InsertCall(k) => Some(Insert(IdOf(k), NewCall(s.actors[k].inv, k)))
    case Publish(k) => Some(PublishEvent(k, s.actors[k].task.outcome))
    case Ready(k) => Some(Finish(IdOf(k), GuestCode(s.actors[k].task.outcome)))
    case HandleTrap(k) =>
      if s.actors[k].phase.stage == 0 then
        Some(Set(IdOf(k), GuestError, if s.actors[k].trap.Some? then s.actors[k].trap.value else []))
      else if s.actors[k].phase.stage == 1 then Some(Set(IdOf(k), GuestResponse, []))
      else Some(Finish(IdOf(k), 0))
    case TakeBack(k) => Some(Take(IdOf(k)))
    case InitHost(k) => Some(Insert(IdOf(k), EMPTY_STATE))
    case StoreHost(k, result) => Some(HostResultEvent(IdOf(k), result))
    case _ => None
  }

  /** The two unwraps on the host's side: a finished entry has a channel, and
      the entry a sync call takes back is there. */
  predicate NoPanic(s: System, step: Step)
    requires Enabled(s, step)
  {
    && (EventOf(s, step).Some? ==> !Panics(s.table, EventOf(s, step).value))
    && (step.TakeBack? ==> IdOf(step.k) in s.table.calls)
  }

  function Finished(a: Actor, cause: Cause): Cause
    requires a.Caller?
  {
    if a.cause.Unfinished? then cause else a.cause
  }

  /** The actor that takes a step, after it. */
  function Advance(s: System, step: Step): Actor
    requires Enabled(s, step) && NoPanic(s, step) && !step.Deliver? && !step.LeaveLoop?
  {
    match step
    case ReserveCall(mode, inv) => Caller(mode, inv, Reserved, NoTask, None, Unfinished)
    case InsertCall(k) => s.actors[k].(phase := Inserted)
    case EnterGuest(k) => s.actors[k].(phase := InGuest)
    case ReadRequest(k, garbage) =>
      var state := Get(s.table.calls, IdOf(k));
      var seen := if state.Some? && state.value.guestRequest.Some? then state.value.guestRequest.value else garbage;
      s.actors[k].(task := Running(seen))
    case Dispatch(k, outcome) => s.actors[k].(task := Decided(s.actors[k].task.seen, outcome))
    case Publish(k) => s.actors[k].(task := Published(s.actors[k].task.seen, s.actors[k].task.outcome))
    case Ready(k) =>
      var a := s.actors[k];
      a.(task := Done(a.task.seen, a.task.outcome), cause := Finished(a, ByTask))
    case LeaveGuest(k) => s.actors[k].(phase := Awaiting)
    case ReturnCode(k) =>
      var a := s.actors[k];
      a.(phase := Returned(GuestCode(a.task.outcome)), task := Done(a.task.seen, a.task.outcome),
         cause := Finished(a, ByTask))
    case Trap(k, text) => s.actors[k].(phase := Trapping(0), trap := Some(text))
    case HandleTrap(k) =>
      var a := s.actors[k];
      if a.mode.Sync? then a.(phase := Returned(0), cause := Finished(a, ByTrap))
      else if a.phase.stage < 2 then a.(phase := Trapping(a.phase.stage + 1))
      else a.(phase := Awaiting, cause := Finished(a, ByTrap))
    case TakeBack(k) =>
      s.actors[k].(phase := Replied(SyncReply(s.actors[k].phase.code, s.table.calls[IdOf(k)])))
    case AwaitReply(k) =>
      s.actors[k].(phase := Replied(
        match Received(SendsOf(s.table, IdOf(k)), k)
        case Some(status) => AsyncReply(status)
        case None => GuestCallFailure(ASYNC_WAIT_FAILED)))
    case ReserveHost(kind) => HostCall(kind, HostReserved)
    case InitHost(k) => s.actors[k].(host := HostReady)
    case StoreHost(k, result) => s.actors[k].(host := HostStored(result))
    case NotifyHost(k) => s.actors[k].(host := HostNotified(s.actors[k].host.result))
  }

  /** The allocation a step belongs to; the two reservations make a new one. */
  function ActorOf(s: System, step: Step): nat
    requires !step.Deliver? && !step.LeaveLoop?
  {
    if step.ReserveCall? || step.ReserveHost? then |s.actors| else step.k
  }

  function LockAfter(s: System, step: Step): Lock
    requires Enabled(s, step)
  {
    match step
    case EnterGuest(k) => Entry(k)
    case LeaveGuest(_) => Free
    case ReturnCode(_) => Free
    case HandleTrap(k) => if s.actors[k].mode.Sync? || s.actors[k].phase.stage >= 2 then Free else s.lock
    case Deliver => Loop
    case LeaveLoop => Free
    case _ => s.lock
  }

  function Put(actors: seq<Actor>, k: nat, a: Actor): seq<Actor>
    requires k <= |actors|
  {
    if k < |actors| then actors[k := a] else actors + [a]
  }

  /** What the async callback sends: the id and code of its own call. */
  function Completion(s: System, step: Step): seq<Message>
    requires Enabled(s, step)
  {
    match step
    case NotifyHost(k) => [Message(IdOf(k), HostCode(IdOf(k), s.actors[k].host.result))]
    case _ => []
  }

  /** One step; a step that would panic does nothing, and is shown not to occur. */
  function Next(s: System, step: Step): System
    requires Enabled(s, step)
  {
    if !NoPanic(s, step) then s
    else if step.Deliver? then s.(lock := Loop, queue := s.queue[1..], delivered := s.delivered + [s.queue[0]])
    else if step.LeaveLoop? then s.(lock := Free)
    else
      s.(table := if EventOf(s, step).Some? then Apply(s.table, EventOf(s, step).value) else s.table,
         actors := Put(s.actors, ActorOf(s, step), Advance(s, step)),
         lock := LockAfter(s, step),
         queue := s.queue + Completion(s, step))
  }

  // ------------------------------------------------------------------ runs

  predicate Valid(steps: seq<Step>)
    decreases |steps|, 0
  {
    steps == [] || (Valid(steps[..|steps| - 1]) && Enabled(After(steps[..|steps| - 1]), steps[|steps| - 1]))
  }

  /** The state after a run from `INIT`. */
  function After(steps: seq<Step>): System
    requires Valid(steps)
    decreases |steps|, 1
  {
    if steps == [] then INIT else Next(After(steps[..|steps| - 1]), steps[|steps| - 1])
  }
}
