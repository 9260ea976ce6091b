/**
 The pool as the object the source has: its constructor's spawn loop, `call` up to
 its waits, and a turn of a worker's loop.  Each atomic action is a method that makes
 one step of the transition system, so that what is proved of its runs holds here;
 what a caller or a worker can rely on comes from the invariant the object carries.
 */
module PoolObject {
  import opened Basics
  import opened HostPool
  import opened PoolSafety

  class HostPoolObject {
    const cfg: Config
    ghost const host: Host
    var clients: seq<Client>
    var queue: seq<Message>
    var bodies: seq<Body>
    var replies: map<nat, Outcome>

    function View(): Pool reads this {
      Pool(clients, queue, bodies, replies)
    }

    ghost predicate Ok() reads this {
      Inv(cfg, host, View())
    }

    /** `HostPool::new`. */
    constructor (minThreads: nat, maxThreads: nat, callers: nat, ghost host: Host)
      ensures cfg == Config(minThreads, maxThreads, callers) && this.host == host
      ensures Ok() && View() == Initial(cfg)
    {
      cfg, this.host := Config(minThreads, maxThreads, callers), host;
      clients, queue, bodies, replies := [], [], [], map[];
      new;
      var i := 0;
      while i < minThreads
        invariant 0 <= i <= minThreads
        invariant clients == [] && queue == [] && replies == map[]
        invariant bodies == seq(i, _ => Body(Permanent, Starting))
      {
        SpawnBody(Permanent);
        i := i + 1;
      }
      InvInitially(cfg, host);
    }

    /** `spawn`: hand a worker body to the thread pool. */
    method SpawnBody(kind: Kind)
      modifies `bodies
      ensures bodies == old(bodies) + [Body(kind, Starting)]
    {
      bodies := bodies + [Body(kind, Starting)];
    }

    // ------------------------------------------------------------- callers

    /** `call` up to its first send: a oneshot nobody else has, and the triple. */
    method BeginCall(op: Bytes, payload: Bytes) returns (c: nat)
      requires Ok() && Enabled(cfg, host, View(), Submit(op, payload))
      modifies `clients
      ensures Ok() && View() == Next(cfg, host, old(View()), Submit(op, payload))
      ensures c !in replies && forall m :: m in queue ==> m.tx != c
      ensures c == |old(clients)|
      ensures clients == old(clients) + [Client(op, payload, Sending, Some(Message(c, op, payload)))]
    {
      c := |clients|;
      InvKept(cfg, host, View(), Submit(op, payload));
      clients := clients + [Client(op, payload, Sending, Some(Message(c, op, payload)))];
    }

    method Push(c: nat)
      requires c < |clients| && clients[c].held.Some?
      modifies `clients, `queue
      ensures View() == Enqueue(old(View()), c)
    {
      queue := queue + [clients[c].held.value];
      clients := clients[c := clients[c].(phase := Waiting, held := None)];
    }

    /** The timed send, at the moment it succeeds or gives up.  If it gives up the caller has
        its own triple back, and the channel holds the request of another, who waits. */
    method SendTimeout(c: nat) returns (sent: bool)
      requires Ok() && Holding(View(), c, Sending)
      modifies `clients, `queue
      ensures sent <==> |old(queue)| < CAPACITY
      ensures Ok() && View() == Next(cfg, host, old(View()), if sent then SendNow(c) else Timeout(c))
      ensures sent ==> clients == old(clients)[c := old(clients)[c].(phase := Waiting, held := None)]
      ensures sent ==> queue == [Request(View(), c)]
      ensures !sent ==> clients == old(clients)[c := old(clients)[c].(phase := TimedOut)] && queue == old(queue)
      ensures !sent ==> clients[c].held == Some(Request(View(), c))
      ensures !sent ==> exists d :: 0 <= d < |clients| && d != c && clients[d].phase.Waiting?
    {
      assert ClientOk(host, View(), c);
      sent := |queue| < CAPACITY;
      InvKept(cfg, host, View(), if sent then SendNow(c) else Timeout(c));
      if sent {
        Push(c);
      } else {
        ghost var d := QueueOwnerWaits(host, View());
        clients := clients[c := clients[c].(phase := TimedOut)];
        assert d != c && clients[d].phase.Waiting?;
      }
    }

    /** `if self.num_active_workers() < self.max_threads`, for the count the thread pool reports:
        a caller grows the pool only if there is room, and never beyond the limit. */
    method CheckCount(c: nat, count: nat) returns (grow: bool)
      requires Ok() && Enabled(cfg, host, View(), Check(c, count))
      modifies `clients
      ensures Ok() && View() == Next(cfg, host, old(View()), Check(c, count))
      ensures grow <==> count < cfg.max
      ensures grow ==> cfg.min <= LiveBodies(View()) < cfg.max && LiveBodies(View()) + Spawns(View()) <= BodyLimit(cfg)
    {
      grow := count < cfg.max;
      InvKept(cfg, host, View(), Check(c, count));
      PrefixIsAlive(bodies, cfg.min);
      clients := clients[c := clients[c].(phase := if grow then WillSpawn else Blocked)];
    }

    /** `self.spawn(Some(self.max_idle))`. */
    method Grow(c: nat)
      requires Ok() && Enabled(cfg, host, View(), Spawn(c))
      modifies `clients, `bodies
      ensures Ok() && View() == Next(cfg, host, old(View()), Spawn(c))
      ensures LiveBodies(View()) == old(LiveBodies(View())) + 1 <= BodyLimit(cfg)
      ensures clients[c].held == Some(Request(View(), c))
    {
      InvKept(cfg, host, View(), Spawn(c));
      OneMoreLives(View());
      assert ClientOk(host, View(), c);
      SpawnBody(Surplus);
      clients := clients[c := clients[c].(phase := Blocked)];
    }

    /** The second, blocking send, at the moment it finds room: the same triple goes in. */
    method Send(c: nat)
      requires Ok() && Enabled(cfg, host, View(), SendBlocked(c))
      modifies `clients, `queue
      ensures Ok() && View() == Next(cfg, host, old(View()), SendBlocked(c))
      ensures queue == [Request(View(), c)]
    {
      assert ClientOk(host, View(), c);
      InvKept(cfg, host, View(), SendBlocked(c));
      Push(c);
    }

    /** What `call` does when its timed send has given up, up to the blocking send. */
    method GrowIfRoom(c: nat, count: nat)
      requires Ok() && Enabled(cfg, host, View(), Check(c, count))
      modifies `clients, `bodies
      ensures Ok() && clients == old(clients)[c := old(clients)[c].(phase := Blocked)]
      ensures clients[c].held == Some(Request(View(), c))
      ensures bodies == old(bodies) + if count < cfg.max then [Body(Surplus, Starting)] else []
    {
      var grow := CheckCount(c, count);
      assert ClientOk(host, View(), c);
      if grow {
        Grow(c);
      }
    }

    /** `call` up to the point where it waits: for its reply, or for room in the channel.  The
        request is whole in the one place or the other, and the pool has grown by at most one. */
    method CallUntilWait(op: Bytes, payload: Bytes, count: nat) returns (c: nat, sent: bool)
      requires Ok() && Enabled(cfg, host, View(), Submit(op, payload))
      requires Min(LiveBodies(View()), cfg.max) <= count
      modifies this
      ensures Ok() && c == |old(clients)| && |clients| == c + 1 && clients[..c] == old(clients)
      ensures Request(View(), c) == Message(c, op, payload)
      ensures sent <==> |old(queue)| < CAPACITY
      ensures if sent then clients[c].phase.Waiting? && queue == [Request(View(), c)]
              else clients[c].phase.Blocked? && clients[c].held == Some(Request(View(), c)) && queue == old(queue)
      ensures bodies == old(bodies) + if !sent && count < cfg.max then [Body(Surplus, Starting)] else []
    {
      c := BeginCall(op, payload);
      sent := SendTimeout(c);
      if !sent {
        GrowIfRoom(c, count);
      }
    }

    /** The oneshot resolves, with what the host may answer to this caller's own request. */
    method AwaitReply(c: nat) returns (result: Outcome)
      requires Ok() && Enabled(cfg, host, View(), Collect(c))
      modifies `clients
      ensures Ok() && View() == Next(cfg, host, old(View()), Collect(c))
      ensures host(clients[c].op, clients[c].payload, result)
      ensures clients[c].phase == Answered(result)
    {
      InvKept(cfg, host, View(), Collect(c));
      assert ClientOk(host, View(), c);
      result := replies[c];
      clients := clients[c := clients[c].(phase := Answered(result))];
    }

    // ------------------------------------------------------------- workers

    /** A worker's `recv` or `recv_timeout` that yields a message: the whole request of a
        caller who waits for it and has not been answered. */
    method Receive(b: nat) returns (m: Message)
      requires Ok() && Enabled(cfg, host, View(), Step.Receive(b))
      modifies `queue, `bodies
      ensures Ok() && View() == Next(cfg, host, old(View()), Step.Receive(b))
      ensures bodies[b].state == Busy(m) && m == old(queue)[0]
      ensures Genuine(View(), m) && clients[m.tx].phase.Waiting? && m.tx !in replies
    {
      InvKept(cfg, host, View(), Step.Receive(b));
      m := queue[0];
      queue := queue[1..];
      bodies := bodies[b := bodies[b].(state := Busy(m))];
      AtWorkIsUnanswered(host, View(), b);
    }

    /** The host call has returned: its result goes to a oneshot that nothing was sent to, and
        whose caller is there to collect it. */
    method Answer(b: nat, result: Outcome)
      requires Ok() && Enabled(cfg, host, View(), Finish(b, result))
      modifies `bodies, `replies
      ensures Ok() && View() == Next(cfg, host, old(View()), Finish(b, result))
      ensures var tx := old(bodies[b].state.message.tx);
              tx !in old(replies) && Enabled(cfg, host, View(), Collect(tx)) && replies[tx] == result
    {
      AtWorkIsUnanswered(host, View(), b);
      InvKept(cfg, host, View(), Finish(b, result));
      var tx := bodies[b].state.message.tx;
      replies := replies[tx := result];
      bodies := bodies[b := bodies[b].(state := Idle)];
    }

    /** One turn of a worker's loop, for a host that computes `answer`: the oldest request's
        own caller can collect the answer to its own operation and payload, nobody else's
        oneshot is touched, and the worker is where it was. */
    method Turn(b: nat, answer: (Bytes, Bytes) -> Outcome) returns (tx: nat)
      requires Ok() && Enabled(cfg, host, View(), Step.Receive(b))
      requires forall op, payload :: host(op, payload, answer(op, payload))
      modifies `queue, `bodies, `replies
      ensures Ok() && bodies == old(bodies) && queue == old(queue)[1..]
      ensures tx == old(queue)[0].tx && tx !in old(replies) && Enabled(cfg, host, View(), Collect(tx))
      ensures replies == old(replies)[tx := answer(clients[tx].op, clients[tx].payload)]
    {
      var m := Receive(b);
      tx := m.tx;
      Answer(b, answer(m.op, m.payload));
    }

    /** `recv_timeout` ran out: the loop breaks.  The permanent workers are still there. */
    method Leave(b: nat)
      requires Ok() && Enabled(cfg, host, View(), IdleExit(b))
      modifies `bodies
      ensures Ok() && View() == Next(cfg, host, old(View()), IdleExit(b))
      ensures b >= cfg.min && cfg.min <= LiveBodies(View()) == old(LiveBodies(View())) - 1
    {
      InvKept(cfg, host, View(), IdleExit(b));
      OneFewerLives(View(), b);
      bodies := bodies[b := bodies[b].(state := Exited)];
      PrefixIsAlive(bodies, cfg.min);
    }
  }
}
