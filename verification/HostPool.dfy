/**
 The elastic host pool as a transition system: callers, the channel of capacity
 one, the worker bodies and the thread pool that runs them.

 The thread pool is taken by contract: at most `max` bodies run, the others wait,
 and the worker count it reports is at least min(live bodies, max).
 */
module HostPool {
  import opened Basics
  import opened Sums

  const CAPACITY: nat := 1

  /** `callers` bounds how many calls are under way at once. */
  datatype Config = Config(min: nat, max: nat, callers: nat)

  /** `tx` names the oneshot of the caller that made the request. */
  datatype Message = Message(tx: nat, op: Bytes, payload: Bytes)

  datatype Phase = Sending | TimedOut | WillSpawn | Blocked | Waiting | Answered(result: Outcome)

  /** `held` is the triple in the caller's hand, as the failed send gave it back. */
  datatype Client = Client(op: Bytes, payload: Bytes, phase: Phase, held: Option<Message>)

  datatype Kind = Permanent | Surplus

  datatype BodyState = Starting | Idle | Busy(message: Message) | Exited

  datatype Body = Body(kind: Kind, state: BodyState)

  /** `replies` holds what each oneshot was sent. */
  datatype Pool = Pool(clients: seq<Client>, queue: seq<Message>, bodies: seq<Body>, replies: map<nat, Outcome>)

  /** What `WapcHost::call_async` may answer to an operation and payload. */
  type Host = (Bytes, Bytes, Outcome) -> bool

  function Initial(cfg: Config): Pool {
    Pool([], [], seq(cfg.min, i => Body(Permanent, Starting)), map[])
  }

  // ---------------------------------------------------------------- counts

  function Alive(b: Body): nat { if b.state.Exited? then 0 else 1 }
  function Running(b: Body): nat { if b.state.Idle? || b.state.Busy? then 1 else 0 }
  function Open(c: Client): nat { if c.phase.Answered? then 0 else 1 }
  function Late(c: Client): nat { if c.phase.TimedOut? || c.phase.WillSpawn? then 1 else 0 }
  function Spawning(c: Client): nat { if c.phase.WillSpawn? then 1 else 0 }

  function LiveBodies(p: Pool): nat { Sum(p.bodies, Alive) }
  function RunningBodies(p: Pool): nat { Sum(p.bodies, Running) }
  function OpenCalls(p: Pool): nat { Sum(p.clients, Open) }
  function LateCalls(p: Pool): nat { Sum(p.clients, Late) }
  function Spawns(p: Pool): nat { Sum(p.clients, Spawning) }

  function Min(a: nat, b: nat): nat { if a < b then a else b }

  // ----------------------------------------------------------------- steps

  datatype Step =
    | Submit(op: Bytes, payload: Bytes)
    | SendNow(c: nat)               // send_timeout finds room
    | Timeout(c: nat)               // send_timeout gives up on a full channel
    | Check(c: nat, count: nat)     // num_active_workers() < max_threads
    | Spawn(c: nat)                 // spawn(Some(max_idle))
    | SendBlocked(c: nat)           // the second, blocking send finds room
    | Start(b: nat)                 // the thread pool runs a body
    | Receive(b: nat)               // recv / recv_timeout
    | Finish(b: nat, result: Outcome)  // the host call returns and its result is sent
    | IdleExit(b: nat)              // recv_timeout runs out
    | Collect(c: nat)               // rx.await

  predicate IsClient(p: Pool, c: nat, phase: Phase) {
    c < |p.clients| && p.clients[c].phase == phase
  }

  predicate Holding(p: Pool, c: nat, phase: Phase) {
    IsClient(p, c, phase) && p.clients[c].held.Some?
  }

  predicate Enabled(cfg: Config, host: Host, p: Pool, step: Step) {
    match step
    case Submit(_, _) => OpenCalls(p) < cfg.callers
    case SendNow(c) => Holding(p, c, Sending) && |p.queue| < CAPACITY
    case Timeout(c) => Holding(p, c, Sending) && |p.queue| >= CAPACITY
    case Check(c, count) => IsClient(p, c, TimedOut) && Min(LiveBodies(p), cfg.max) <= count
    case Spawn(c) => IsClient(p, c, WillSpawn)
    case SendBlocked(c) => Holding(p, c, Blocked) && |p.queue| < CAPACITY
    case Start(b) => b < |p.bodies| && p.bodies[b].state.Starting? && RunningBodies(p) < cfg.max
    case Receive(b) => b < |p.bodies| && p.bodies[b].state.Idle? && p.queue != []
    case Finish(b, result) =>
      && b < |p.bodies| && p.bodies[b].state.Busy?
      && host(p.bodies[b].state.message.op, p.bodies[b].state.message.payload, result)
    case IdleExit(b) => b < |p.bodies| && p.bodies[b] == Body(Surplus, Idle)
    case Collect(c) => IsClient(p, c, Waiting) && c in p.replies
  }

  function SetPhase(p: Pool, c: nat, phase: Phase): Pool
    requires c < |p.clients|
  {
    p.(clients := p.clients[c := p.clients[c].(phase := phase)])
  }

  function SetBody(p: Pool, b: nat, state: BodyState): Pool
    requires b < |p.bodies|
  {
    p.(bodies := p.bodies[b := p.bodies[b].(state := state)])
  }

  function Enqueue(p: Pool, c: nat): Pool
    requires c < |p.clients| && p.clients[c].held.Some?
  {
    p.(clients := p.clients[c := p.clients[c].(phase := Waiting, held := None)],
       queue := p.queue + [p.clients[c].held.value])
  }

  function Next(cfg: Config, host: Host, p: Pool, step: Step): Pool
    requires Enabled(cfg, host, p, step)
  {
    match step
    case Submit(op, payload) =>
      p.(clients := p.clients + [Client(op, payload, Sending, Some(Message(|p.clients|, op, payload)))])
    case SendNow(c) => Enqueue(p, c)
    case Timeout(c) => SetPhase(p, c, TimedOut)
    case Check(c, count) => SetPhase(p, c, if count < cfg.max then WillSpawn else Blocked)
    case Spawn(c) => SetPhase(p, c, Blocked).(bodies := p.bodies + [Body(Surplus, Starting)])
    case SendBlocked(c) => Enqueue(p, c)
    case Start(b) => SetBody(p, b, Idle)
    case Receive(b) => SetBody(p, b, Busy(p.queue[0])).(queue := p.queue[1..])
    case Finish(b, result) =>
      SetBody(p, b, Idle).(replies := p.replies[p.bodies[b].state.message.tx := result])
    case IdleExit(b) => SetBody(p, b, Exited)
    case Collect(c) => SetPhase(p, c, Answered(p.replies[c]))
  }

  predicate Valid(cfg: Config, host: Host, p: Pool, steps: seq<Step>)
    decreases |steps|
  {
    steps == [] ||
    (Enabled(cfg, host, p, steps[0]) && Valid(cfg, host, Next(cfg, host, p, steps[0]), steps[1..]))
  }

  function After(cfg: Config, host: Host, p: Pool, steps: seq<Step>): Pool
    requires Valid(cfg, host, p, steps)
    decreases |steps|
  {
    if steps == [] then p else After(cfg, host, Next(cfg, host, p, steps[0]), steps[1..])
  }
}
