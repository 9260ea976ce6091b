/**
 How many worker bodies there can be: the floor and the ceiling that every run
 keeps, and runs that reach the ceiling.  Also what becomes of a pool without
 permanent workers.
 */
module PoolBounds {
  import opened Basics
  import opened Sums
  import opened HostPool
  import opened PoolSafety
  import opened PoolProgress

  // ------------------------------------------------------ bodies and bounds

  /** The floor and the ceiling on live bodies, in every run. */
  lemma {:induction false} BodiesStayBetween(cfg: Config, host: Host, steps: seq<Step>)
    requires Valid(cfg, host, Initial(cfg), steps)
    ensures var q := After(cfg, host, Initial(cfg), steps);
            && cfg.min <= LiveBodies(q) <= BodyLimit(cfg)
            && cfg.min <= |q.bodies| && (forall b :: 0 <= b < cfg.min ==> !q.bodies[b].state.Exited?)
            && RunningBodies(q) <= cfg.max
  {
    InvInitially(cfg, host);
    InvAlways(cfg, host, Initial(cfg), steps);
    PrefixIsAlive(After(cfg, host, Initial(cfg), steps).bodies, cfg.min);
  }

  /** Only a surplus body leaves, and only when idle. */
  lemma OnlyIdleSurplusLeaves(cfg: Config, host: Host, p: Pool, step: Step, b: nat)
    requires Inv(cfg, host, p) && Enabled(cfg, host, p, step) && b < |p.bodies|
    ensures p.bodies[b].state.Exited? || !Next(cfg, host, p, step).bodies[b].state.Exited? ||
            (p.bodies[b] == Body(Surplus, Idle) && b >= cfg.min)
  {
  }

  /** Check and spawn as one action: nobody looks at the count while a caller that has
      looked has not yet spawned. */
  predicate AtomicSpawns(cfg: Config, host: Host, p: Pool, steps: seq<Step>)
    requires Valid(cfg, host, p, steps)
    decreases |steps|
  {
    steps == [] ||
    ((steps[0].Check? ==> Spawns(p) == 0) && AtomicSpawns(cfg, host, Next(cfg, host, p, steps[0]), steps[1..]))
  }

  lemma AtomicStep(cfg: Config, host: Host, p: Pool, step: Step)
    requires Enabled(cfg, host, p, step)
    requires LiveBodies(p) + Spawns(p) <= cfg.max && (step.Check? ==> Spawns(p) == 0)
    ensures LiveBodies(Next(cfg, host, p, step)) + Spawns(Next(cfg, host, p, step)) <= cfg.max
  {
    if step.Check? {
      ClientCount(p, step.c, Next(cfg, host, p, step).clients[step.c], Spawning);
    } else {
      LiveAndSpawning(cfg, host, p, step);
    }
  }

  /** Then the number of live bodies never exceeds `max`. */
  lemma {:induction false} AtomicSpawnsBound(cfg: Config, host: Host, p: Pool, steps: seq<Step>)
    requires LiveBodies(p) + Spawns(p) <= cfg.max
    requires Valid(cfg, host, p, steps) && AtomicSpawns(cfg, host, p, steps)
    ensures LiveBodies(After(cfg, host, p, steps)) <= cfg.max
    decreases |steps|
  {
    if steps == [] {
    } else {
      AtomicStep(cfg, host, p, steps[0]);
      AtomicSpawnsBound(cfg, host, Next(cfg, host, p, steps[0]), steps[1..]);
    }
  }

  /** A spawn that follows its check at once leaves none pending. */
  lemma SpawnsBack(cfg: Config, host: Host, p: Pool, c: nat, count: nat)
    requires Enabled(cfg, host, p, Check(c, count)) && Spawns(p) == 0 && count < cfg.max
    ensures var q := Next(cfg, host, p, Check(c, count));
            Enabled(cfg, host, q, Spawn(c)) && Spawns(Next(cfg, host, q, Spawn(c))) == 0
  {
    var q := Next(cfg, host, p, Check(c, count));
    ClientCount(p, c, q.clients[c], Spawning);
    ClientCount(q, c, Next(cfg, host, q, Spawn(c)).clients[c], Spawning);
  }

  lemma NoSpawnComes(cfg: Config, host: Host, p: Pool, step: Step)
    requires Enabled(cfg, host, p, step) && Spawns(p) == 0
    requires step.Check? ==> step.count >= cfg.max
    ensures Spawns(Next(cfg, host, p, step)) == 0
  {
    var q := Next(cfg, host, p, step);
    if step.Submit? {
      SumAppend(p.clients, Spawning, q.clients[|p.clients|]);
    } else if IsBodyStep(step) {
      assert q.clients == p.clients;
    } else {
      ClientCount(p, step.c, q.clients[step.c], Spawning);
    }
  }

  /** If every caller that finds room spawns in its very next breath, as a lock around check and
      spawn would have it, the number of live bodies never exceeds `max`. */
  lemma {:induction false} AdjacentSpawnsBound(cfg: Config, host: Host, p: Pool, steps: seq<Step>)
    requires LiveBodies(p) <= cfg.max && Spawns(p) == 0 && Valid(cfg, host, p, steps)
    requires forall i :: 0 <= i < |steps| && steps[i].Check? && steps[i].count < cfg.max ==>
               i + 1 < |steps| && steps[i + 1] == Spawn(steps[i].c)
    ensures LiveBodies(After(cfg, host, p, steps)) <= cfg.max
    ensures AtomicSpawns(cfg, host, p, steps)
    decreases |steps|
  {
    if steps == [] {
    } else {
      var step := steps[0];
      var q := Next(cfg, host, p, step);
      AtomicStep(cfg, host, p, step);
      if step.Check? && step.count < cfg.max {
        assert steps[1] == Spawn(step.c) && steps[1..][0] == steps[1] && steps[1..][1..] == steps[2..];
        SpawnsBack(cfg, host, p, step.c, step.count);
        AtomicStep(cfg, host, q, steps[1]);
        LaterAdjacent(cfg, steps, 2);
        AdjacentSpawnsBound(cfg, host, Next(cfg, host, q, steps[1]), steps[2..]);
      } else {
        NoSpawnComes(cfg, host, p, step);
        LaterAdjacent(cfg, steps, 1);
        AdjacentSpawnsBound(cfg, host, q, steps[1..]);
      }
    }
  }

  lemma LaterAdjacent(cfg: Config, steps: seq<Step>, n: nat)
    requires n <= |steps|
    requires forall i :: 0 <= i < |steps| && steps[i].Check? && steps[i].count < cfg.max ==>
               i + 1 < |steps| && steps[i + 1] == Spawn(steps[i].c)
    ensures forall i :: 0 <= i < |steps[n..]| && steps[n..][i].Check? && steps[n..][i].count < cfg.max ==>
              i + 1 < |steps[n..]| && steps[n..][i + 1] == Spawn(steps[n..][i].c)
  {
    forall i | 0 <= i < |steps[n..]| && steps[n..][i].Check? && steps[n..][i].count < cfg.max
      ensures i + 1 < |steps[n..]| && steps[n..][i + 1] == Spawn(steps[n..][i].c)
    {
      assert steps[n..][i] == steps[n + i] && steps[n + i + 1] == Spawn(steps[n + i].c);
    }
  }

  // ---------------------------------------------------------- building runs

  lemma {:induction false} RunAppend(cfg: Config, host: Host, p: Pool, steps: seq<Step>, more: seq<Step>)
    requires Valid(cfg, host, p, steps) && Valid(cfg, host, After(cfg, host, p, steps), more)
    ensures Valid(cfg, host, p, steps + more)
    ensures After(cfg, host, p, steps + more) == After(cfg, host, After(cfg, host, p, steps), more)
    decreases |steps|
  {
    if steps == [] {
      assert steps + more == more;
    } else {
      assert (steps + more)[0] == steps[0] && (steps + more)[1..] == steps[1..] + more;
      RunAppend(cfg, host, Next(cfg, host, p, steps[0]), steps[1..], more);
    }
  }

  predicate IsRun(cfg: Config, host: Host, p: Pool, steps: seq<Step>, q: Pool) {
    Valid(cfg, host, p, steps) && After(cfg, host, p, steps) == q
  }

  /** Some run leads from `p` to `q`. */
  ghost predicate Leads(cfg: Config, host: Host, p: Pool, q: Pool) {
    exists steps :: IsRun(cfg, host, p, steps, q)
  }

  lemma LeadsNowhere(cfg: Config, host: Host, p: Pool)
    ensures Leads(cfg, host, p, p)
  {
    assert IsRun(cfg, host, p, [], p);
  }

  lemma LeadsOn(cfg: Config, host: Host, p: Pool, q: Pool, step: Step)
    requires Leads(cfg, host, p, q) && Enabled(cfg, host, q, step)
    ensures Leads(cfg, host, p, Next(cfg, host, q, step))
  {
    var steps :| IsRun(cfg, host, p, steps, q);
    assert [step][0] == step && [step][1..] == [];
    var after := Next(cfg, host, q, step);
    assert Valid(cfg, host, after, []) && After(cfg, host, after, []) == after;
    RunAppend(cfg, host, p, steps, [step]);
    assert IsRun(cfg, host, p, steps + [step], Next(cfg, host, q, step));
  }

  // ------------------------------------------------ two calls grow the pool

  /** No call is under way. */
  predicate Quiet(p: Pool) {
    p.queue == [] && OpenCalls(p) == 0
  }

  /** A quiet pool after one caller's request has gone into the channel. */
  function Filled(p: Pool, op: Bytes, payload: Bytes): Pool {
    p.(clients := p.clients + [Client(op, payload, Waiting, None)], queue := [Message(|p.clients|, op, payload)])
  }

  lemma OneFills(cfg: Config, host: Host, start: Pool, p: Pool, op: Bytes, payload: Bytes)
    requires Leads(cfg, host, start, p) && Quiet(p) && cfg.callers >= 1
    ensures Leads(cfg, host, start, Filled(p, op, payload))
  {
    LeadsOn(cfg, host, start, p, Submit(op, payload));
    var q := Next(cfg, host, p, Submit(op, payload));
    LeadsOn(cfg, host, start, q, SendNow(|p.clients|));
    assert Next(cfg, host, q, SendNow(|p.clients|)) == Filled(p, op, payload);
  }

  /** A second caller has found the channel full and spawned a body. */
  function Overlapped(p: Pool, op: Bytes, payload: Bytes): Pool {
    Pool(p.clients + [Client(op, payload, Waiting, None),
                      Client([], [], Blocked, Some(Message(|p.clients| + 1, [], [])))],
         [Message(|p.clients|, op, payload)],
         p.bodies + [Body(Surplus, Starting)],
         p.replies)
  }

  lemma AnotherOverlaps(cfg: Config, host: Host, start: Pool, p: Pool, op: Bytes, payload: Bytes)
    requires Quiet(p) && LiveBodies(p) < cfg.max && cfg.callers >= 2
    requires Leads(cfg, host, start, Filled(p, op, payload))
    ensures Leads(cfg, host, start, Overlapped(p, op, payload))
  {
    var d := |p.clients| + 1;
    var p0 := Filled(p, op, payload);
    SumAppend(p.clients, Open, p0.clients[|p.clients|]);
    LeadsOn(cfg, host, start, p0, Submit([], []));
    var p1 := Next(cfg, host, p0, Submit([], []));
    LeadsOn(cfg, host, start, p1, Timeout(d));
    var p2 := Next(cfg, host, p1, Timeout(d));
    LeadsOn(cfg, host, start, p2, Check(d, LiveBodies(p)));
    var p3 := Next(cfg, host, p2, Check(d, LiveBodies(p)));
    LeadsOn(cfg, host, start, p3, Spawn(d));
    assert Next(cfg, host, p3, Spawn(d)) == Overlapped(p, op, payload);
  }

  /** The new body has answered the first caller. */
  function FirstServed(p: Pool, op: Bytes, payload: Bytes, r: Outcome): Pool {
    Pool(p.clients + [Client(op, payload, Answered(r), None),
                      Client([], [], Blocked, Some(Message(|p.clients| + 1, [], [])))],
         [],
         p.bodies + [Body(Surplus, Idle)],
         p.replies[|p.clients| := r])
  }

  lemma NewBodyStarts(cfg: Config, p: Pool)
    requires LiveBodies(p) < cfg.max
    ensures Sum(p.bodies + [Body(Surplus, Starting)], Running) < cfg.max
  {
    SumAppend(p.bodies, Running, Body(Surplus, Starting));
    SumAtMost(p.bodies, Running, Alive);
  }

  lemma FirstIsServed(cfg: Config, host: Host, start: Pool, p: Pool, op: Bytes, payload: Bytes, r: Outcome)
    requires LiveBodies(p) < cfg.max && host(op, payload, r)
    requires Leads(cfg, host, start, Overlapped(p, op, payload))
    ensures Leads(cfg, host, start, FirstServed(p, op, payload, r))
  {
    var b, c := |p.bodies|, |p.clients|;
    var p0 := Overlapped(p, op, payload);
    NewBodyStarts(cfg, p);
    LeadsOn(cfg, host, start, p0, Start(b));
    var p1 := Next(cfg, host, p0, Start(b));
    LeadsOn(cfg, host, start, p1, Receive(b));
    var p2 := Next(cfg, host, p1, Receive(b));
    LeadsOn(cfg, host, start, p2, Finish(b, r));
    var p3 := Next(cfg, host, p2, Finish(b, r));
    LeadsOn(cfg, host, start, p3, Collect(c));
    assert Next(cfg, host, p3, Collect(c)) == FirstServed(p, op, payload, r);
  }

  /** And the second one. */
  function BothServed(p: Pool, op: Bytes, payload: Bytes, r: Outcome, s: Outcome): Pool {
    Pool(p.clients + [Client(op, payload, Answered(r), None), Client([], [], Answered(s), None)],
         [],
         p.bodies + [Body(Surplus, Idle)],
         p.replies[|p.clients| := r][|p.clients| + 1 := s])
  }

  lemma SecondIsServed(cfg: Config, host: Host, start: Pool, p: Pool, op: Bytes, payload: Bytes, r: Outcome, s: Outcome)
    requires host([], [], s)
    requires Leads(cfg, host, start, FirstServed(p, op, payload, r))
    ensures Leads(cfg, host, start, BothServed(p, op, payload, r, s))
  {
    var b, d := |p.bodies|, |p.clients| + 1;
    var p0 := FirstServed(p, op, payload, r);
    LeadsOn(cfg, host, start, p0, SendBlocked(d));
    var p1 := Next(cfg, host, p0, SendBlocked(d));
    LeadsOn(cfg, host, start, p1, Receive(b));
    var p2 := Next(cfg, host, p1, Receive(b));
    LeadsOn(cfg, host, start, p2, Finish(b, s));
    var p3 := Next(cfg, host, p2, Finish(b, s));
    LeadsOn(cfg, host, start, p3, Collect(d));
    assert Next(cfg, host, p3, Collect(d)) == BothServed(p, op, payload, r, s);
  }

  /** Two overlapping calls leave a quiet pool quiet, with one live body more. */
  lemma OverlapGrows(cfg: Config, host: Host, start: Pool, p: Pool, op: Bytes, payload: Bytes) returns (q: Pool)
    requires Quiet(p) && LiveBodies(p) < cfg.max && cfg.callers >= 2 && Answering(host)
    requires Leads(cfg, host, start, Filled(p, op, payload))
    ensures Leads(cfg, host, start, q) && Quiet(q) && LiveBodies(q) == LiveBodies(p) + 1
    ensures |q.clients| == |p.clients| + 2 && q.clients[..|p.clients|] == p.clients
    ensures q.clients[|p.clients|].phase.Answered? && q.clients[|p.clients| + 1].phase.Answered?
  {
    assert HasAnswer(host, op, payload) && HasAnswer(host, [], []);
    var r :| host(op, payload, r);
    var s :| host([], [], s);
    AnotherOverlaps(cfg, host, start, p, op, payload);
    FirstIsServed(cfg, host, start, p, op, payload, r);
    SecondIsServed(cfg, host, start, p, op, payload, r, s);
    q := BothServed(p, op, payload, r, s);
    var first, second := q.clients[|p.clients|], q.clients[|p.clients| + 1];
    assert q.clients == (p.clients + [first]) + [second];
    SumAppend(p.clients, Open, first);
    SumAppend(p.clients + [first], Open, second);
    SumAppend(p.bodies, Alive, Body(Surplus, Idle));
  }

  lemma InitiallyQuiet(cfg: Config)
    ensures Quiet(Initial(cfg)) && LiveBodies(Initial(cfg)) == cfg.min
  {
    AllEqualSum(cfg.min, Body(Permanent, Starting), Alive);
  }

  /** So any number of live bodies from `min` up to `max` can be had, one round at a time. */
  lemma {:induction false} GrowsTo(cfg: Config, host: Host, live: nat) returns (p: Pool)
    requires cfg.min <= live <= cfg.max && cfg.callers >= 2 && Answering(host)
    ensures Leads(cfg, host, Initial(cfg), p) && Quiet(p) && LiveBodies(p) == live
    decreases live
  {
    if live == cfg.min {
      p := Initial(cfg);
      LeadsNowhere(cfg, host, p);
      InitiallyQuiet(cfg);
    } else {
      var smaller := GrowsTo(cfg, host, live - 1);
      OneFills(cfg, host, Initial(cfg), smaller, [], []);
      p := OverlapGrows(cfg, host, Initial(cfg), smaller, [], []);
    }
  }

  // ------------------------------------------------- the ceiling is reached

  /** A crowd on a quiet pool: its first request fills the channel, callers up to `late`
      have timed out and looked at the count, and those up to `spawned` have spawned. */
  function CrowdClient(base: nat, c: nat, sent: bool, late: nat, spawned: nat): Client {
    if c == 0 && sent then Client([], [], Waiting, None)
    else
      Client([], [], if c == 0 || late < c then Sending else if spawned < c then WillSpawn else Blocked,
             Some(Message(base + c, [], [])))
  }

  function Crowd(p: Pool, n: nat, sent: bool, late: nat, spawned: nat): Pool {
    Pool(p.clients + seq(n, (c: nat) => CrowdClient(|p.clients|, c, sent, late, spawned)),
         if sent then [Message(|p.clients|, [], [])] else [],
         p.bodies + seq(spawned, i => Body(Surplus, Starting)),
         p.replies)
  }

  lemma {:induction false} CrowdLive(p: Pool, n: nat, sent: bool, late: nat, spawned: nat)
    ensures LiveBodies(Crowd(p, n, sent, late, spawned)) == LiveBodies(p) + spawned
  {
    if spawned == 0 {
      assert Crowd(p, n, sent, late, 0).bodies == p.bodies;
    } else {
      CrowdLive(p, n, sent, late, spawned - 1);
      var fewer := Crowd(p, n, sent, late, spawned - 1).bodies;
      assert Crowd(p, n, sent, late, spawned).bodies == fewer + [Body(Surplus, Starting)];
      SumAppend(fewer, Alive, Body(Surplus, Starting));
    }
  }

  lemma {:induction false} CrowdOpen(p: Pool, n: nat)
    ensures OpenCalls(Crowd(p, n, false, 0, 0)) == OpenCalls(p) + n
  {
    if n == 0 {
      assert Crowd(p, 0, false, 0, 0).clients == p.clients;
    } else {
      CrowdOpen(p, n - 1);
      var fewer := Crowd(p, n - 1, false, 0, 0).clients;
      var last := CrowdClient(|p.clients|, n - 1, false, 0, 0);
      assert Crowd(p, n, false, 0, 0).clients == fewer + [last];
      SumAppend(fewer, Open, last);
    }
  }

  lemma {:induction false} CrowdSubmits(cfg: Config, host: Host, start: Pool, p: Pool, n: nat)
    requires Leads(cfg, host, start, p) && Quiet(p) && n <= cfg.callers
    ensures Leads(cfg, host, start, Crowd(p, n, false, 0, 0))
  {
    if n == 0 {
      assert Crowd(p, 0, false, 0, 0) == p;
    } else {
      CrowdSubmits(cfg, host, start, p, n - 1);
      CrowdOpen(p, n - 1);
      var q := Crowd(p, n - 1, false, 0, 0);
      LeadsOn(cfg, host, start, q, Submit([], []));
      assert Next(cfg, host, q, Submit([], [])).clients == Crowd(p, n, false, 0, 0).clients;
    }
  }

  lemma CrowdSends(cfg: Config, host: Host, start: Pool, p: Pool, n: nat)
    requires Quiet(p) && n > 0 && Leads(cfg, host, start, Crowd(p, n, false, 0, 0))
    ensures Leads(cfg, host, start, Crowd(p, n, true, 0, 0))
  {
    var q := Crowd(p, n, false, 0, 0);
    LeadsOn(cfg, host, start, q, SendNow(|p.clients|));
    var r := Next(cfg, host, q, SendNow(|p.clients|));
    assert r.clients == Crowd(p, n, true, 0, 0).clients;
    assert r.queue == Crowd(p, n, true, 0, 0).queue;
  }

  /** The next of the crowd times out. */
  lemma NextTimesOut(cfg: Config, host: Host, start: Pool, p: Pool, n: nat, late: nat)
    requires 0 < late < n && Leads(cfg, host, start, Crowd(p, n, true, late - 1, 0))
    ensures Leads(cfg, host, start, SetPhase(Crowd(p, n, true, late - 1, 0), |p.clients| + late, TimedOut))
  {
    var c := |p.clients| + late;
    var q := Crowd(p, n, true, late - 1, 0);
    assert q.clients[c] == CrowdClient(|p.clients|, late, true, late - 1, 0);
    LeadsOn(cfg, host, start, q, Timeout(c));
  }

  /** It looks at the count, and finds room. */
  lemma OneMoreIsLate(cfg: Config, host: Host, start: Pool, p: Pool, n: nat, late: nat)
    requires LiveBodies(p) < cfg.max && 0 < late < n
    requires Leads(cfg, host, start, Crowd(p, n, true, late - 1, 0))
    ensures Leads(cfg, host, start, Crowd(p, n, true, late, 0))
  {
    var c := |p.clients| + late;
    var q := Crowd(p, n, true, late - 1, 0);
    NextTimesOut(cfg, host, start, p, n, late);
    CrowdLive(p, n, true, late - 1, 0);
    LeadsOn(cfg, host, start, SetPhase(q, c, TimedOut), Check(c, LiveBodies(p)));
    assert SetPhase(SetPhase(q, c, TimedOut), c, WillSpawn).clients == Crowd(p, n, true, late, 0).clients;
  }

  lemma {:induction false} CrowdIsLate(cfg: Config, host: Host, start: Pool, p: Pool, n: nat, late: nat)
    requires Leads(cfg, host, start, p) && Quiet(p) && LiveBodies(p) < cfg.max
    requires late < n <= cfg.callers
    ensures Leads(cfg, host, start, Crowd(p, n, true, late, 0))
  {
    if late == 0 {
      CrowdSubmits(cfg, host, start, p, n);
      CrowdSends(cfg, host, start, p, n);
    } else {
      CrowdIsLate(cfg, host, start, p, n, late - 1);
      OneMoreIsLate(cfg, host, start, p, n, late);
    }
  }

  lemma {:induction false} CrowdSpawns(cfg: Config, host: Host, start: Pool, p: Pool, n: nat, spawned: nat)
    requires Leads(cfg, host, start, p) && Quiet(p) && LiveBodies(p) < cfg.max
    requires spawned < n <= cfg.callers
    ensures Leads(cfg, host, start, Crowd(p, n, true, n - 1, spawned))
  {
    if spawned == 0 {
      CrowdIsLate(cfg, host, start, p, n, n - 1);
    } else {
      CrowdSpawns(cfg, host, start, p, n, spawned - 1);
      var c := |p.clients| + spawned;
      var q := Crowd(p, n, true, n - 1, spawned - 1);
      LeadsOn(cfg, host, start, q, Spawn(c));
      assert Next(cfg, host, q, Spawn(c)).clients == Crowd(p, n, true, n - 1, spawned).clients;
      assert Next(cfg, host, q, Spawn(c)).bodies == Crowd(p, n, true, n - 1, spawned).bodies;
    }
  }

  /** The check-then-spawn race is real and the limit cannot be lowered: for every
      configuration some run has exactly as many live bodies. */
  lemma CeilingIsReached(cfg: Config, host: Host) returns (steps: seq<Step>)
    requires Answering(host)
    ensures Valid(cfg, host, Initial(cfg), steps)
    ensures LiveBodies(After(cfg, host, Initial(cfg), steps)) == BodyLimit(cfg)
  {
    if cfg.callers < 2 || cfg.max <= cfg.min {
      steps := [];
      InitiallyQuiet(cfg);
    } else {
      var n := cfg.callers;
      var p := GrowsTo(cfg, host, cfg.max - 1);
      CrowdSpawns(cfg, host, Initial(cfg), p, n, n - 1);
      CrowdLive(p, n, true, n - 1, n - 1);
      steps :| IsRun(cfg, host, Initial(cfg), steps, Crowd(p, n, true, n - 1, n - 1));
    }
  }

  ghost predicate NeverMoreThan(cfg: Config, host: Host, limit: nat) {
    forall steps | Valid(cfg, host, Initial(cfg), steps) ::
      LiveBodies(After(cfg, host, Initial(cfg), steps)) <= limit
  }

  /** A number bounds the live bodies of all runs exactly if it is at least `BodyLimit`. */
  lemma LimitIsExact(cfg: Config, host: Host, limit: nat)
    requires Answering(host)
    ensures NeverMoreThan(cfg, host, limit) <==> BodyLimit(cfg) <= limit
  {
    if BodyLimit(cfg) <= limit {
      forall steps | Valid(cfg, host, Initial(cfg), steps)
        ensures LiveBodies(After(cfg, host, Initial(cfg), steps)) <= limit
      {
        BodiesStayBetween(cfg, host, steps);
      }
    } else {
      var steps := CeilingIsReached(cfg, host);
      assert LiveBodies(After(cfg, host, Initial(cfg), steps)) > limit;
    }
  }

  /** `max_threads` is such a bound exactly if at most two calls overlap, or the pool has no
      room to grow. */
  lemma MaxThreadsKeptExactly(cfg: Config, host: Host)
    requires cfg.min <= cfg.max && Answering(host)
    ensures NeverMoreThan(cfg, host, cfg.max) <==> cfg.callers <= 2 || cfg.min == cfg.max
  {
    LimitIsExact(cfg, host, cfg.max);
  }

  // ------------------------------------------------- without permanent workers

  /** A pool that may have no bodies has none, and answers nothing. */
  lemma {:induction false} NoBodiesNoReplies(cfg: Config, host: Host, p: Pool, steps: seq<Step>)
    requires Inv(cfg, host, p) && cfg.min == 0 && cfg.max == 0 && p.replies == map[]
    requires Valid(cfg, host, p, steps)
    ensures After(cfg, host, p, steps).replies == map[]
    decreases |steps|
  {
    if steps == [] {
    } else {
      assert p.bodies == [];
      InvKept(cfg, host, p, steps[0]);
      NoBodiesNoReplies(cfg, host, Next(cfg, host, p, steps[0]), steps[1..]);
    }
  }

  ghost predicate CanBeAnswered(cfg: Config, host: Host, p: Pool, c: nat) {
    exists q :: Leads(cfg, host, p, q) && c < |q.clients| && q.clients[c].phase.Answered?
  }

  /** The first call to a pool without permanent workers waits in the channel until another
      one overlaps it: it can be answered exactly if a second call, and a body, may be had. */
  lemma FirstCallNeedsAnother(cfg: Config, host: Host, op: Bytes, payload: Bytes)
    requires cfg.min == 0 && cfg.callers >= 1 && Answering(host)
    ensures CanBeAnswered(cfg, host, Filled(Initial(cfg), op, payload), 0) <==> cfg.callers >= 2 && cfg.max >= 1
  {
    var first := Filled(Initial(cfg), op, payload);
    InitiallyQuiet(cfg);
    if cfg.callers >= 2 && cfg.max >= 1 {
      LeadsNowhere(cfg, host, first);
      var q := OverlapGrows(cfg, host, first, Initial(cfg), op, payload);
      assert q.clients[0].phase.Answered?;
    } else {
      forall q | Leads(cfg, host, first, q) && 0 < |q.clients| ensures !q.clients[0].phase.Answered? {
        var steps :| IsRun(cfg, host, first, steps, q);
        FirstCallStays(cfg, host, op, payload, steps);
      }
    }
  }

  lemma {:induction false} FirstCallStays(cfg: Config, host: Host, op: Bytes, payload: Bytes, steps: seq<Step>)
    requires cfg.min == 0 && cfg.callers >= 1 && (cfg.callers < 2 || cfg.max == 0)
    requires Valid(cfg, host, Filled(Initial(cfg), op, payload), steps)
    ensures var q := After(cfg, host, Filled(Initial(cfg), op, payload), steps);
            0 < |q.clients| ==> !q.clients[0].phase.Answered?
  {
    var first := Filled(Initial(cfg), op, payload);
    NoPermanentWorkerStalls(cfg, host, op, payload);
    InvInitially(cfg, host);
    var start := [Submit(op, payload), SendNow(0)];
    StalledIs(cfg, host, op, payload);
    InvAlways(cfg, host, Initial(cfg), start);
    if cfg.max == 0 {
      NoBodiesNoReplies(cfg, host, first, steps);
      InvAlways(cfg, host, first, steps);
      var q := After(cfg, host, first, steps);
      assert 0 < |q.clients| ==> ClientOk(host, q, 0);
    } else {
      SumAppend([], Open, first.clients[0]);
      if steps != [] {
        assert false;
      }
    }
  }

  lemma StalledIs(cfg: Config, host: Host, op: Bytes, payload: Bytes)
    requires cfg.min == 0 && cfg.callers >= 1
    ensures IsRun(cfg, host, Initial(cfg), [Submit(op, payload), SendNow(0)], Filled(Initial(cfg), op, payload))
  {
    var steps := [Submit(op, payload), SendNow(0)];
    var p1 := Next(cfg, host, Initial(cfg), steps[0]);
    assert steps[1..] == [SendNow(0)] && steps[1..][1..] == [];
    assert Valid(cfg, host, p1, [SendNow(0)]);
    assert Next(cfg, host, p1, SendNow(0)) == Filled(Initial(cfg), op, payload);
  }
}
