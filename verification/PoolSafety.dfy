/**
 What every run of the pool keeps: requests are neither lost, duplicated nor
 altered, the permanent workers stay, and the number of bodies is bounded.
 */
module PoolSafety {
  import opened Basics
  import opened Sums
  import opened HostPool

  // ---------------------------------------------------------- conservation

  function InQueueFor(c: nat): Message -> nat {
    (m: Message) => if m.tx == c then 1 else 0
  }

  function AtWorkFor(c: nat): Body -> nat {
    (b: Body) => if b.state.Busy? && b.state.message.tx == c then 1 else 0
  }

  function InHand(p: Pool, c: nat): nat
    requires c < |p.clients|
  {
    if p.clients[c].held.Some? then 1 else 0
  }

  /** In how many places request `c` is: its caller's hand, the channel, the workers, or
      the oneshot. */
  function Places(p: Pool, c: nat): nat
    requires c < |p.clients|
  {
    InHand(p, c) + Sum(p.queue, InQueueFor(c)) + Sum(p.bodies, AtWorkFor(c)) + (if c in p.replies then 1 else 0)
  }

  function Request(p: Pool, c: nat): Message
    requires c < |p.clients|
  {
    Message(c, p.clients[c].op, p.clients[c].payload)
  }

  /** `m` is, unaltered, the request of the caller it names. */
  predicate Genuine(p: Pool, m: Message) {
    m.tx < |p.clients| && m == Request(p, m.tx)
  }

  predicate ClientOk(host: Host, p: Pool, c: nat)
    requires c < |p.clients|
  {
    var k := p.clients[c];
    && (k.held.Some? <==> !k.phase.Waiting? && !k.phase.Answered?)
    && (k.held.Some? ==> k.held.value == Request(p, c))
    && (k.phase.Answered? ==> c in p.replies && p.replies[c] == k.phase.result)
    && (c in p.replies ==> host(k.op, k.payload, p.replies[c]))
  }

  predicate Conserved(host: Host, p: Pool) {
    && (forall c :: 0 <= c < |p.clients| ==> ClientOk(host, p, c) && Places(p, c) == 1)
    && (forall i :: 0 <= i < |p.queue| ==> Genuine(p, p.queue[i]))
    && (forall b :: 0 <= b < |p.bodies| && p.bodies[b].state.Busy? ==> Genuine(p, p.bodies[b].state.message))
    && (forall c :: c in p.replies ==> c < |p.clients|)
  }

  /** No request anywhere bears the name the next caller will get. */
  lemma NewRequestIsNowhere(host: Host, p: Pool)
    requires Conserved(host, p)
    ensures Sum(p.queue, InQueueFor(|p.clients|)) == 0
    ensures Sum(p.bodies, AtWorkFor(|p.clients|)) == 0
  {
    var c := |p.clients|;
    SumPositive(p.queue, InQueueFor(c));
    SumPositive(p.bodies, AtWorkFor(c));
  }

  /** A send moves a request from its caller's hand into the channel. */
  lemma PlacesAfterSend(p: Pool, d: nat, c: nat)
    requires d < |p.clients| && c < |p.clients|
    requires p.clients[d].held == Some(Request(p, d))
    ensures Places(Enqueue(p, d), c) == Places(p, c)
  {
    SumAppend(p.queue, InQueueFor(c), p.clients[d].held.value);
  }

  /** Receiving moves a request from the channel to a worker. */
  lemma PlacesAfterReceive(cfg: Config, host: Host, p: Pool, b: nat, c: nat)
    requires Enabled(cfg, host, p, Receive(b)) && c < |p.clients|
    ensures Places(Next(cfg, host, p, Receive(b)), c) == Places(p, c)
  {
    var q := Next(cfg, host, p, Receive(b));
    SumUpdate(p.bodies, AtWorkFor(c), b, q.bodies[b]);
  }

  /** Answering moves it from the worker to the oneshot, which was unsent. */
  lemma PlacesAfterFinish(cfg: Config, host: Host, p: Pool, b: nat, result: Outcome, c: nat)
    requires Enabled(cfg, host, p, Finish(b, result)) && c < |p.clients|
    requires Places(p, c) == 1
    ensures Places(Next(cfg, host, p, Finish(b, result)), c) == 1
  {
    var q := Next(cfg, host, p, Finish(b, result));
    SumUpdate(p.bodies, AtWorkFor(c), b, q.bodies[b]);
  }

  /** A body that holds no request before and after a step does not matter. */
  lemma PlacesWithoutWork(p: Pool, b: nat, state: BodyState, c: nat)
    requires b < |p.bodies| && c < |p.clients| && !p.bodies[b].state.Busy? && !state.Busy?
    ensures Places(SetBody(p, b, state), c) == Places(p, c)
  {
    SumUpdate(p.bodies, AtWorkFor(c), b, p.bodies[b].(state := state));
  }

  /** Nor does what a caller does apart from sending. */
  lemma PlacesWithoutSend(cfg: Config, host: Host, p: Pool, step: Step, c: nat)
    requires Enabled(cfg, host, p, step) && c < |p.clients|
    requires step.Submit? || step.Timeout? || step.Check? || step.Spawn? || step.Collect?
    ensures Places(Next(cfg, host, p, step), c) == Places(p, c)
  {
    if step.Spawn? {
      SumAppend(p.bodies, AtWorkFor(c), Body(Surplus, Starting));
    }
  }

  /** A step may move a request from one place to the next; it is still in exactly one. */
  lemma PlacesKept(cfg: Config, host: Host, p: Pool, step: Step, c: nat)
    requires Conserved(host, p) && Enabled(cfg, host, p, step) && c < |p.clients|
    ensures Places(Next(cfg, host, p, step), c) == 1
  {
    assert ClientOk(host, p, c) && Places(p, c) == 1;
    match step
    case SendNow(d) =>
      assert ClientOk(host, p, d);
      PlacesAfterSend(p, d, c);
    case SendBlocked(d) =>
      assert ClientOk(host, p, d);
      PlacesAfterSend(p, d, c);
    case Receive(b) => PlacesAfterReceive(cfg, host, p, b, c);
    case Finish(b, result) => PlacesAfterFinish(cfg, host, p, b, result, c);
    case Start(b) => PlacesWithoutWork(p, b, Idle, c);
    case IdleExit(b) => PlacesWithoutWork(p, b, Exited, c);
    case _ => PlacesWithoutSend(cfg, host, p, step, c);
  }

  /** A request a worker holds has not been answered, and waits for its answer. */
  lemma AtWorkIsUnanswered(host: Host, p: Pool, b: nat)
    requires Conserved(host, p) && b < |p.bodies| && p.bodies[b].state.Busy?
    ensures var m := p.bodies[b].state.message;
            Genuine(p, m) && m.tx !in p.replies && p.clients[m.tx].phase.Waiting?
  {
    var m := p.bodies[b].state.message;
    assert Genuine(p, m);
    assert ClientOk(host, p, m.tx) && Places(p, m.tx) == 1;
    SumPositive(p.bodies, AtWorkFor(m.tx));
    assert AtWorkFor(m.tx)(p.bodies[b]) > 0;
  }

  /** Requests never change, so a genuine message stays genuine. */
  lemma StaysGenuine(cfg: Config, host: Host, p: Pool, step: Step, m: Message)
    requires Enabled(cfg, host, p, step) && Genuine(p, m)
    ensures Genuine(Next(cfg, host, p, step), m)
  {
  }

  lemma QueueStaysGenuine(cfg: Config, host: Host, p: Pool, step: Step, i: nat)
    requires Conserved(host, p) && Enabled(cfg, host, p, step) && i < |Next(cfg, host, p, step).queue|
    ensures Genuine(Next(cfg, host, p, step), Next(cfg, host, p, step).queue[i])
  {
    var m := Next(cfg, host, p, step).queue[i];
    if step.Receive? {
      assert Genuine(p, p.queue[i + 1]);
    } else if i < |p.queue| {
      assert Genuine(p, p.queue[i]);
    } else {
      assert ClientOk(host, p, step.c);
    }
    StaysGenuine(cfg, host, p, step, m);
  }

  lemma WorkStaysGenuine(cfg: Config, host: Host, p: Pool, step: Step, b: nat)
    requires Conserved(host, p) && Enabled(cfg, host, p, step) && b < |Next(cfg, host, p, step).bodies|
    requires Next(cfg, host, p, step).bodies[b].state.Busy?
    ensures Genuine(Next(cfg, host, p, step), Next(cfg, host, p, step).bodies[b].state.message)
  {
    var m := Next(cfg, host, p, step).bodies[b].state.message;
    if step.Receive? && step.b == b {
      assert Genuine(p, p.queue[0]);
    } else {
      assert b < |p.bodies| && Genuine(p, p.bodies[b].state.message);
    }
    StaysGenuine(cfg, host, p, step, m);
  }

  lemma ClientStaysOk(cfg: Config, host: Host, p: Pool, step: Step, c: nat)
    requires Conserved(host, p) && Enabled(cfg, host, p, step) && c < |Next(cfg, host, p, step).clients|
    ensures ClientOk(host, Next(cfg, host, p, step), c)
  {
    if c < |p.clients| {
      assert ClientOk(host, p, c);
    }
    if step.Finish? {
      AtWorkIsUnanswered(host, p, step.b);
    }
  }

  lemma ConservedKept(cfg: Config, host: Host, p: Pool, step: Step)
    requires Conserved(host, p) && Enabled(cfg, host, p, step)
    ensures Conserved(host, Next(cfg, host, p, step))
  {
    var q := Next(cfg, host, p, step);
    forall c | 0 <= c < |q.clients| ensures ClientOk(host, q, c) && Places(q, c) == 1 {
      ClientStaysOk(cfg, host, p, step, c);
      if c < |p.clients| {
        PlacesKept(cfg, host, p, step, c);
      } else {
        NewRequestIsNowhere(host, p);
      }
    }
    forall i | 0 <= i < |q.queue| ensures Genuine(q, q.queue[i]) {
      QueueStaysGenuine(cfg, host, p, step, i);
    }
    forall b | 0 <= b < |q.bodies| && q.bodies[b].state.Busy? ensures Genuine(q, q.bodies[b].state.message) {
      WorkStaysGenuine(cfg, host, p, step, b);
    }
    if step.Finish? {
      AtWorkIsUnanswered(host, p, step.b);
    }
  }

  // ----------------------------------------------------- bodies are bounded

  /** At most this many bodies are ever alive; `min` if no two calls overlap, or if there is
      no room to grow. */
  function BodyLimit(cfg: Config): nat {
    if cfg.callers < 2 || cfg.max <= cfg.min then cfg.min else cfg.max + cfg.callers - 2
  }

  /** The first `min` bodies are the permanent ones and are alive; the others are surplus. */
  predicate Staffed(cfg: Config, p: Pool) {
    && cfg.min <= |p.bodies|
    && (forall b :: 0 <= b < |p.bodies| ==> p.bodies[b].kind == if b < cfg.min then Permanent else Surplus)
    && (forall b :: 0 <= b < cfg.min ==> !p.bodies[b].state.Exited?)
  }

  predicate Bounded(cfg: Config, p: Pool) {
    && |p.queue| <= CAPACITY
    && RunningBodies(p) <= cfg.max
    && (Spawns(p) > 0 || |p.bodies| > cfg.min ==> cfg.min < cfg.max)
    && OpenCalls(p) <= cfg.callers
    && (LateCalls(p) == 0 || LateCalls(p) < cfg.callers)
    && LiveBodies(p) + Spawns(p) <= BodyLimit(cfg)
  }

  predicate Inv(cfg: Config, host: Host, p: Pool) {
    Conserved(host, p) && Staffed(cfg, p) && Bounded(cfg, p)
  }

  /** The counts are what their names say. */
  lemma CountsAre(p: Pool)
    ensures LiveBodies(p) == |set b | 0 <= b < |p.bodies| && !p.bodies[b].state.Exited?|
    ensures RunningBodies(p) == |set b | 0 <= b < |p.bodies| && (p.bodies[b].state.Idle? || p.bodies[b].state.Busy?)|
    ensures OpenCalls(p) == |set c | 0 <= c < |p.clients| && !p.clients[c].phase.Answered?|
  {
    SumCounts(p.bodies, Alive, set b | 0 <= b < |p.bodies| && !p.bodies[b].state.Exited?);
    SumCounts(p.bodies, Running, set b | 0 <= b < |p.bodies| && (p.bodies[b].state.Idle? || p.bodies[b].state.Busy?));
    SumCounts(p.clients, Open, set c | 0 <= c < |p.clients| && !p.clients[c].phase.Answered?);
  }

  lemma {:induction false} AllEqualSum(n: nat, x: Body, f: Body -> nat)
    ensures Sum(seq(n, i => x), f) == n * f(x)
  {
    if n == 0 {
    } else {
      assert seq(n, i => x)[1..] == seq(n - 1, i => x);
      AllEqualSum(n - 1, x, f);
    }
  }

  lemma InvInitially(cfg: Config, host: Host)
    ensures Inv(cfg, host, Initial(cfg))
  {
    AllEqualSum(cfg.min, Body(Permanent, Starting), Alive);
    AllEqualSum(cfg.min, Body(Permanent, Starting), Running);
  }

  /** The first `n` of a pool's bodies are alive. */
  lemma {:induction false} PrefixIsAlive(bodies: seq<Body>, n: nat)
    requires n <= |bodies| && forall b :: 0 <= b < n ==> !bodies[b].state.Exited?
    ensures n <= Sum(bodies, Alive)
    ensures n == Sum(bodies, Alive) <==> forall b :: n <= b < |bodies| ==> bodies[b].state.Exited?
  {
    if n > 0 {
      PrefixIsAlive(bodies[1..], n - 1);
      assert forall b :: n <= b < |bodies| ==> bodies[b] == bodies[1..][b - 1];
      assert forall b :: n - 1 <= b < |bodies[1..]| ==> bodies[1..][b] == bodies[b + 1];
    } else {
      SumPositive(bodies, Alive);
    }
  }

  /** A step by client `c`, or by body `b`, moves each count by that one member. */
  lemma ClientCount(p: Pool, c: nat, k: Client, f: Client -> nat)
    requires c < |p.clients|
    ensures Sum(p.clients[c := k], f) + f(p.clients[c]) == Sum(p.clients, f) + f(k)
  {
    SumUpdate(p.clients, f, c, k);
  }

  lemma OneMoreLives(p: Pool)
    ensures Sum(p.bodies + [Body(Surplus, Starting)], Alive) == LiveBodies(p) + 1
  {
    SumAppend(p.bodies, Alive, Body(Surplus, Starting));
  }

  lemma OneFewerLives(p: Pool, b: nat)
    requires b < |p.bodies| && !p.bodies[b].state.Exited?
    ensures LiveBodies(SetBody(p, b, Exited)) == LiveBodies(p) - 1
  {
    SumUpdate(p.bodies, Alive, b, p.bodies[b].(state := Exited));
  }

  /** The caller whose request fills the channel is neither late nor done. */
  lemma QueueOwnerWaits(host: Host, p: Pool) returns (d: nat)
    requires Conserved(host, p) && p.queue != []
    ensures d == p.queue[0].tx && d < |p.clients| && p.clients[d].phase.Waiting?
  {
    d := p.queue[0].tx;
    assert Genuine(p, p.queue[0]);
    assert ClientOk(host, p, d) && Places(p, d) == 1;
    SumPositive(p.queue, InQueueFor(d));
    assert InQueueFor(d)(p.queue[0]) > 0;
  }

  lemma StaffedKept(cfg: Config, host: Host, p: Pool, step: Step)
    requires Staffed(cfg, p) && Enabled(cfg, host, p, step)
    ensures Staffed(cfg, Next(cfg, host, p, step))
  {
  }

  lemma RunningKept(cfg: Config, host: Host, p: Pool, step: Step)
    requires Enabled(cfg, host, p, step) && RunningBodies(p) <= cfg.max
    ensures RunningBodies(Next(cfg, host, p, step)) <= cfg.max
  {
    var q := Next(cfg, host, p, step);
    if step.Spawn? {
      SumAppend(p.bodies, Running, Body(Surplus, Starting));
    } else if step.Start? || step.Receive? || step.Finish? || step.IdleExit? {
      SumUpdate(p.bodies, Running, step.b, q.bodies[step.b]);
    }
  }

  /** Bodies are only ever added when there is room above the permanent ones. */
  lemma SurplusNeedsRoom(cfg: Config, host: Host, p: Pool, step: Step)
    requires Inv(cfg, host, p) && Enabled(cfg, host, p, step)
    ensures var q := Next(cfg, host, p, step);
            Spawns(q) > 0 || |q.bodies| > cfg.min ==> cfg.min < cfg.max
  {
    var q := Next(cfg, host, p, step);
    if step.Submit? {
      SumAppend(p.clients, Spawning, q.clients[|p.clients|]);
    } else if step.Start? || step.Receive? || step.Finish? || step.IdleExit? {
      assert q.clients == p.clients;
    } else {
      ClientCount(p, step.c, q.clients[step.c], Spawning);
      PrefixIsAlive(p.bodies, cfg.min);
    }
  }

  /** A caller that times out is neither the first nor the last one under way: the request
      that fills the channel has an owner too. */
  lemma TimeoutKeepsLate(cfg: Config, host: Host, p: Pool, c: nat)
    requires Inv(cfg, host, p) && Enabled(cfg, host, p, Timeout(c))
    ensures LateCalls(Next(cfg, host, p, Timeout(c))) < OpenCalls(p)
    ensures OpenCalls(Next(cfg, host, p, Timeout(c))) == OpenCalls(p)
  {
    var q := Next(cfg, host, p, Timeout(c));
    ClientCount(p, c, q.clients[c], Open);
    var d := QueueOwnerWaits(host, p);
    SumBelow(q.clients, Late, Open, d);
  }

  predicate IsBodyStep(step: Step) {
    step.Start? || step.Receive? || step.Finish? || step.IdleExit?
  }

  /** Only a new call adds to those under way, and only a timeout to the late ones. */
  lemma OpenAndLateGrow(cfg: Config, host: Host, p: Pool, step: Step)
    requires Enabled(cfg, host, p, step)
    ensures var q := Next(cfg, host, p, step);
            && OpenCalls(q) <= OpenCalls(p) + (if step.Submit? then 1 else 0)
            && (LateCalls(q) <= LateCalls(p) || step.Timeout?)
  {
    var q := Next(cfg, host, p, step);
    if step.Submit? {
      SumAppend(p.clients, Open, q.clients[|p.clients|]);
      SumAppend(p.clients, Late, q.clients[|p.clients|]);
    } else if IsBodyStep(step) {
      assert q.clients == p.clients;
    } else {
      ClientCount(p, step.c, q.clients[step.c], Open);
      ClientCount(p, step.c, q.clients[step.c], Late);
    }
  }

  lemma OpenAndLateKept(cfg: Config, host: Host, p: Pool, step: Step)
    requires Inv(cfg, host, p) && Enabled(cfg, host, p, step)
    ensures var q := Next(cfg, host, p, step);
            && OpenCalls(q) <= cfg.callers
            && (LateCalls(q) == 0 || LateCalls(q) < cfg.callers)
  {
    OpenAndLateGrow(cfg, host, p, step);
    if step.Timeout? {
      TimeoutKeepsLate(cfg, host, p, step.c);
    }
  }

  lemma QueueStaysShort(cfg: Config, host: Host, p: Pool, step: Step)
    requires Enabled(cfg, host, p, step) && |p.queue| <= CAPACITY
    ensures |Next(cfg, host, p, step).queue| <= CAPACITY
  {
  }

  /** Whoever finds room to grow has seen fewer than `max` bodies, and at most
      `callers - 1` callers are about to spawn. */
  lemma CheckKeepsBound(cfg: Config, host: Host, p: Pool, c: nat, count: nat)
    requires Inv(cfg, host, p) && Enabled(cfg, host, p, Check(c, count))
    ensures LiveBodies(p) + Spawns(Next(cfg, host, p, Check(c, count))) <= BodyLimit(cfg)
  {
    var q := Next(cfg, host, p, Check(c, count));
    ClientCount(p, c, q.clients[c], Spawning);
    PrefixIsAlive(p.bodies, cfg.min);
    if count < cfg.max {
      ClientCount(p, c, q.clients[c], Late);
      SumAtMost(q.clients, Spawning, Late);
      SumPositive(q.clients, Late);
      assert Late(q.clients[c]) > 0;
    }
  }

  /** Only a look at the count can lead to more live bodies and pending spawns together. */
  lemma LiveAndSpawning(cfg: Config, host: Host, p: Pool, step: Step)
    requires Enabled(cfg, host, p, step) && !step.Check?
    ensures LiveBodies(Next(cfg, host, p, step)) + Spawns(Next(cfg, host, p, step)) <= LiveBodies(p) + Spawns(p)
  {
    var q := Next(cfg, host, p, step);
    if step.Submit? {
      SumAppend(p.clients, Spawning, q.clients[|p.clients|]);
    } else if IsBodyStep(step) {
      SumUpdate(p.bodies, Alive, step.b, q.bodies[step.b]);
    } else {
      ClientCount(p, step.c, q.clients[step.c], Spawning);
      SumAppend(p.bodies, Alive, Body(Surplus, Starting));
    }
  }

  lemma BodiesBoundedKept(cfg: Config, host: Host, p: Pool, step: Step)
    requires Inv(cfg, host, p) && Enabled(cfg, host, p, step)
    ensures LiveBodies(Next(cfg, host, p, step)) + Spawns(Next(cfg, host, p, step)) <= BodyLimit(cfg)
  {
    if step.Check? {
      CheckKeepsBound(cfg, host, p, step.c, step.count);
    } else {
      LiveAndSpawning(cfg, host, p, step);
    }
  }

  lemma InvKept(cfg: Config, host: Host, p: Pool, step: Step)
    requires Inv(cfg, host, p) && Enabled(cfg, host, p, step)
    ensures Inv(cfg, host, Next(cfg, host, p, step))
  {
    ConservedKept(cfg, host, p, step);
    StaffedKept(cfg, host, p, step);
    RunningKept(cfg, host, p, step);
    SurplusNeedsRoom(cfg, host, p, step);
    QueueStaysShort(cfg, host, p, step);
    OpenAndLateKept(cfg, host, p, step);
    BodiesBoundedKept(cfg, host, p, step);
  }

  lemma {:induction false} InvAlways(cfg: Config, host: Host, p: Pool, steps: seq<Step>)
    requires Inv(cfg, host, p) && Valid(cfg, host, p, steps)
    ensures Inv(cfg, host, After(cfg, host, p, steps))
    decreases |steps|
  {
    if steps == [] {
    } else {
      InvKept(cfg, host, p, steps[0]);
      InvAlways(cfg, host, Next(cfg, host, p, steps[0]), steps[1..]);
    }
  }
}
