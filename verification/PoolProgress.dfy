/**
 What the pool achieves: every call is answered with a result for its own
 request, every run ends, and an idle pool shrinks back to its permanent workers.
 */
module PoolProgress {
  import opened Basics
  import opened Sums
  import opened HostPool
  import opened PoolSafety

  // ------------------------------------------------------------ the answers

  /** The calls a run submits, in order. */
  function Submissions(steps: seq<Step>): seq<Step> {
    if steps == [] then []
    else (if steps[0].Submit? then [steps[0]] else []) + Submissions(steps[1..])
  }

  lemma {:induction false} ClientsAreSubmissions(cfg: Config, host: Host, p: Pool, steps: seq<Step>)
    requires Valid(cfg, host, p, steps)
    ensures var q := After(cfg, host, p, steps);
            && |q.clients| == |p.clients| + |Submissions(steps)|
            && (forall c :: 0 <= c < |p.clients| ==>
                  q.clients[c].op == p.clients[c].op && q.clients[c].payload == p.clients[c].payload)
            && (forall c :: 0 <= c < |Submissions(steps)| ==>
                  Submissions(steps)[c] == Submit(q.clients[|p.clients| + c].op, q.clients[|p.clients| + c].payload))
    decreases |steps|
  {
    if steps == [] {
    } else {
      var p' := Next(cfg, host, p, steps[0]);
      ClientsAreSubmissions(cfg, host, p', steps[1..]);
      var q := After(cfg, host, p, steps);
      forall c | 0 <= c < |Submissions(steps)|
        ensures Submissions(steps)[c] == Submit(q.clients[|p.clients| + c].op, q.clients[|p.clients| + c].payload)
      {
        if steps[0].Submit? && c > 0 {
          assert Submissions(steps)[c] == Submissions(steps[1..])[c - 1];
        }
      }
    }
  }

  /** In every run, each request is in exactly one place, and an answered call got what
      the host answers to the operation and payload that call submitted. */
  lemma {:induction false} AnswersAreOwn(cfg: Config, host: Host, steps: seq<Step>, c: nat)
    requires Valid(cfg, host, Initial(cfg), steps) && c < |Submissions(steps)|
    ensures var q := After(cfg, host, Initial(cfg), steps);
            && c < |q.clients|
            && Places(q, c) == 1
            && var k := q.clients[c];
            && Submissions(steps)[c] == Submit(k.op, k.payload)
            && (k.phase.Answered? ==> host(k.op, k.payload, k.phase.result))
            && (k.held.Some? ==> k.held.value == Message(c, k.op, k.payload))
  {
    InvInitially(cfg, host);
    InvAlways(cfg, host, Initial(cfg), steps);
    ClientsAreSubmissions(cfg, host, Initial(cfg), steps);
    assert ClientOk(host, After(cfg, host, Initial(cfg), steps), c);
  }

  // ----------------------------------------------------------- every run ends

  function ClientWeight(c: Client): nat {
    match c.phase
    case Sending => 9
    case TimedOut => 8
    case WillSpawn => 7
    case Blocked => 4
    case Waiting => 1
    case Answered(_) => 0
  }

  function BodyWeight(b: Body): nat {
    match b.state
    case Starting => 2
    case Idle => 1
    case Busy(_) => 2
    case Exited => 0
  }

  function Measure(p: Pool): nat {
    Sum(p.clients, ClientWeight) + 2 * |p.queue| + Sum(p.bodies, BodyWeight)
  }

  lemma BodyStepDecreases(cfg: Config, host: Host, p: Pool, step: Step)
    requires Enabled(cfg, host, p, step)
    requires step.Start? || step.Receive? || step.Finish? || step.IdleExit?
    ensures Measure(Next(cfg, host, p, step)) < Measure(p)
  {
    SumUpdate(p.bodies, BodyWeight, step.b, Next(cfg, host, p, step).bodies[step.b]);
  }

  lemma SpawnDecreases(cfg: Config, host: Host, p: Pool, c: nat)
    requires Enabled(cfg, host, p, Spawn(c))
    ensures Measure(Next(cfg, host, p, Spawn(c))) < Measure(p)
  {
    ClientCount(p, c, p.clients[c].(phase := Blocked), ClientWeight);
    SumAppend(p.bodies, BodyWeight, Body(Surplus, Starting));
  }

  /** Everything but a new submission uses up some of the measure. */
  lemma MeasureDecreases(cfg: Config, host: Host, p: Pool, step: Step)
    requires Enabled(cfg, host, p, step) && !step.Submit?
    ensures Measure(Next(cfg, host, p, step)) < Measure(p)
  {
    if step.Start? || step.Receive? || step.Finish? || step.IdleExit? {
      BodyStepDecreases(cfg, host, p, step);
    } else if step.Spawn? {
      SpawnDecreases(cfg, host, p, step.c);
    } else {
      ClientCount(p, step.c, Next(cfg, host, p, step).clients[step.c], ClientWeight);
    }
  }

  /** Without new calls a run is no longer than the measure. */
  lemma {:induction false} RunsEnd(cfg: Config, host: Host, p: Pool, steps: seq<Step>)
    requires Valid(cfg, host, p, steps) && forall step :: step in steps ==> !step.Submit?
    ensures |steps| + Measure(After(cfg, host, p, steps)) <= Measure(p)
    decreases |steps|
  {
    if steps == [] {
    } else {
      assert steps[0] in steps;
      MeasureDecreases(cfg, host, p, steps[0]);
      RunsEnd(cfg, host, Next(cfg, host, p, steps[0]), steps[1..]);
    }
  }

  // ----------------------------------------------------------- where it ends

  /** Host calls terminate: there is some answer to everything. */
  ghost predicate Answering(host: Host) {
    forall op, payload :: HasAnswer(host, op, payload)
  }

  ghost predicate HasAnswer(host: Host, op: Bytes, payload: Bytes) {
    exists result :: host(op, payload, result)
  }

  lemma ComputedIsAnswering(host: Host, answer: (Bytes, Bytes) -> Outcome)
    requires forall op, payload :: host(op, payload, answer(op, payload))
    ensures Answering(host)
  {
    forall op, payload ensures HasAnswer(host, op, payload) {
      assert host(op, payload, answer(op, payload));
    }
  }

  ghost predicate Stuck(cfg: Config, host: Host, p: Pool) {
    forall step :: Enabled(cfg, host, p, step) ==> step.Submit?
  }

  predicate AllAnswered(p: Pool) {
    forall c :: 0 <= c < |p.clients| ==> p.clients[c].phase.Answered?
  }

  /** The pool at rest: exactly its permanent workers, waiting for a request. */
  predicate AtRest(cfg: Config, p: Pool) {
    && p.queue == []
    && cfg.min <= |p.bodies|
    && forall b :: 0 <= b < |p.bodies| ==> p.bodies[b].state == if b < cfg.min then Idle else Exited
  }

  predicate WellConfigured(cfg: Config) {
    1 <= cfg.min <= cfg.max
  }

  lemma BusyCanFinish(cfg: Config, host: Host, p: Pool, b: nat) returns (step: Step)
    requires Answering(host) && b < |p.bodies| && p.bodies[b].state.Busy?
    ensures Enabled(cfg, host, p, step) && !step.Submit?
  {
    var m := p.bodies[b].state.message;
    assert HasAnswer(host, m.op, m.payload);
    var result :| host(m.op, m.payload, result);
    step := Finish(b, result);
  }

  /** With a permanent worker, a queued request can move. */
  lemma QueueCanMove(cfg: Config, host: Host, p: Pool) returns (step: Step)
    requires Inv(cfg, host, p) && WellConfigured(cfg) && Answering(host) && p.queue != []
    ensures Enabled(cfg, host, p, step) && !step.Submit?
  {
    if p.bodies[0].state.Starting? && RunningBodies(p) < cfg.max {
      step := Start(0);
    } else {
      var b: nat := 0;
      if p.bodies[0].state.Starting? {
        SumPositive(p.bodies, Running);
        b :| 0 <= b < |p.bodies| && Running(p.bodies[b]) > 0;
      }
      if p.bodies[b].state.Busy? {
        step := BusyCanFinish(cfg, host, p, b);
      } else {
        step := Receive(b);
      }
    }
  }

  /** Some call is unanswered: something can still happen. */
  lemma CallCanMove(cfg: Config, host: Host, p: Pool, c: nat) returns (step: Step)
    requires Inv(cfg, host, p) && WellConfigured(cfg) && Answering(host)
    requires c < |p.clients| && !p.clients[c].phase.Answered?
    ensures Enabled(cfg, host, p, step) && !step.Submit?
  {
    assert ClientOk(host, p, c) && Places(p, c) == 1;
    match p.clients[c].phase
    case Sending => step := if |p.queue| < CAPACITY then SendNow(c) else Timeout(c);
    case TimedOut => step := Check(c, cfg.max);
    case WillSpawn => step := Spawn(c);
    case Blocked =>
      if |p.queue| < CAPACITY {
        step := SendBlocked(c);
      } else {
        step := QueueCanMove(cfg, host, p);
      }
    case Waiting =>
      if c in p.replies {
        step := Collect(c);
      } else if p.queue != [] {
        step := QueueCanMove(cfg, host, p);
      } else {
        SumPositive(p.bodies, AtWorkFor(c));
        var b :| 0 <= b < |p.bodies| && AtWorkFor(c)(p.bodies[b]) > 0;
        step := BusyCanFinish(cfg, host, p, b);
      }
  }

  lemma {:induction false} SumSplit(s: seq<Body>, f: Body -> nat, n: nat)
    requires n <= |s|
    ensures Sum(s, f) == Sum(s[..n], f) + Sum(s[n..], f)
  {
    if n == 0 {
      assert s[0..] == s;
    } else {
      assert s[..n][1..] == s[1..][..n - 1] && s[n..] == s[1..][n - 1..];
      SumSplit(s[1..], f, n - 1);
    }
  }

  lemma {:induction false} SumAtMostLength(s: seq<Body>)
    ensures Sum(s, Running) <= |s|
    ensures (exists b :: 0 <= b < |s| && s[b].state.Starting?) ==> Sum(s, Running) < |s|
  {
    if s == [] {
    } else {
      SumAtMostLength(s[1..]);
      if b :| 0 < b < |s| && s[b].state.Starting? {
        assert s[1..][b - 1].state.Starting?;
      }
    }
  }

  /** A full house holds a running surplus body, unless it is all permanent workers. */
  lemma RunningSurplus(cfg: Config, p: Pool) returns (b: nat)
    requires Staffed(cfg, p) && RunningBodies(p) >= cfg.min
    requires RunningBodies(p) > cfg.min || exists b :: 0 <= b < cfg.min && p.bodies[b].state.Starting?
    ensures cfg.min <= b < |p.bodies| && Running(p.bodies[b]) > 0
  {
    SumSplit(p.bodies, Running, cfg.min);
    var permanent := p.bodies[..cfg.min];
    SumAtMostLength(permanent);
    if a :| 0 <= a < cfg.min && p.bodies[a].state.Starting? {
      assert permanent[a].state.Starting?;
    }
    SumPositive(p.bodies[cfg.min..], Running);
    var i :| 0 <= i < |p.bodies[cfg.min..]| && Running(p.bodies[cfg.min..][i]) > 0;
    b := cfg.min + i;
  }

  /** Some body is not where an idle pool would have it: something can still happen. */
  lemma BodyCanMove(cfg: Config, host: Host, p: Pool, b: nat) returns (step: Step)
    requires Inv(cfg, host, p) && WellConfigured(cfg) && Answering(host)
    requires b < |p.bodies| && p.bodies[b].state != if b < cfg.min then Idle else Exited
    ensures Enabled(cfg, host, p, step) && !step.Submit?
  {
    match p.bodies[b].state
    case Busy(_) => step := BusyCanFinish(cfg, host, p, b);
    case Idle => step := IdleExit(b);
    case Starting =>
      if RunningBodies(p) < cfg.max {
        step := Start(b);
      } else {
        var r := RunningSurplus(cfg, p);
        if p.bodies[r].state.Busy? {
          step := BusyCanFinish(cfg, host, p, r);
        } else {
          step := IdleExit(r);
        }
      }
  }

  /** A reachable pool can make no further step exactly when every call is answered and
      the pool is back to its permanent workers. */
  lemma {:induction false} StuckExactly(cfg: Config, host: Host, p: Pool)
    requires Inv(cfg, host, p) && WellConfigured(cfg) && Answering(host)
    ensures Stuck(cfg, host, p) <==> AllAnswered(p) && AtRest(cfg, p)
    ensures AtRest(cfg, p) ==> LiveBodies(p) == cfg.min
  {
    PrefixIsAlive(p.bodies, cfg.min);
    if Stuck(cfg, host, p) {
      forall c | 0 <= c < |p.clients| ensures p.clients[c].phase.Answered? {
        if !p.clients[c].phase.Answered? {
          var step := CallCanMove(cfg, host, p, c);
        }
      }
      if p.queue != [] {
        var step := QueueCanMove(cfg, host, p);
      }
      forall b | 0 <= b < |p.bodies| ensures p.bodies[b].state == if b < cfg.min then Idle else Exited {
        if p.bodies[b].state != if b < cfg.min then Idle else Exited {
          var step := BodyCanMove(cfg, host, p, b);
        }
      }
    }
  }

  /**
   Total correctness.  With a permanent worker and terminating host calls: after any run,
   whatever happens next without new calls is bounded by the measure, and where nothing
   more can happen every call has its answer and exactly the permanent workers are left.
   */
  lemma {:induction false} EveryCallIsAnswered(cfg: Config, host: Host, steps: seq<Step>, more: seq<Step>)
    requires WellConfigured(cfg) && Answering(host)
    requires Valid(cfg, host, Initial(cfg), steps)
    requires Valid(cfg, host, After(cfg, host, Initial(cfg), steps), more)
    requires forall step :: step in more ==> !step.Submit?
    ensures var p := After(cfg, host, Initial(cfg), steps);
            var q := After(cfg, host, p, more);
            && |more| <= Measure(p)
            && (Stuck(cfg, host, q) <==> AllAnswered(q) && AtRest(cfg, q))
            && (Stuck(cfg, host, q) ==> LiveBodies(q) == cfg.min)
  {
    var p := After(cfg, host, Initial(cfg), steps);
    InvInitially(cfg, host);
    InvAlways(cfg, host, Initial(cfg), steps);
    InvAlways(cfg, host, p, more);
    RunsEnd(cfg, host, p, more);
    StuckExactly(cfg, host, After(cfg, host, p, more));
  }

  /** Without a permanent worker the first request fits the channel, nobody spawns, and
      nothing more happens until another call overlaps it. */
  lemma NoPermanentWorkerStalls(cfg: Config, host: Host, op: Bytes, payload: Bytes)
    requires cfg.min == 0 && cfg.callers >= 1
    ensures var steps := [Submit(op, payload), SendNow(0)];
            && Valid(cfg, host, Initial(cfg), steps)
            && Stuck(cfg, host, After(cfg, host, Initial(cfg), steps))
            && !AllAnswered(After(cfg, host, Initial(cfg), steps))
  {
    var steps := [Submit(op, payload), SendNow(0)];
    var p0 := Initial(cfg);
    var p1 := Next(cfg, host, p0, steps[0]);
    var p2 := Next(cfg, host, p1, steps[1]);
    assert steps[1..] == [SendNow(0)] && steps[1..][1..] == [];
    assert Valid(cfg, host, p1, [SendNow(0)]) && After(cfg, host, p1, [SendNow(0)]) == p2;
    assert p2.bodies == [] && p2.replies == map[] && |p2.clients| == 1 && p2.clients[0].phase.Waiting?;
  }

  ghost predicate NeverStalls(cfg: Config, host: Host) {
    forall steps | Valid(cfg, host, Initial(cfg), steps) ::
      NoStall(cfg, host, After(cfg, host, Initial(cfg), steps))
  }

  ghost predicate NoStall(cfg: Config, host: Host, p: Pool) {
    Stuck(cfg, host, p) ==> AllAnswered(p)
  }

  /** So a pool never leaves a call unanswered exactly when it has a permanent worker. */
  lemma NeverStallsExactly(cfg: Config, host: Host)
    requires cfg.min <= cfg.max && cfg.callers >= 1 && Answering(host)
    ensures NeverStalls(cfg, host) <==> cfg.min >= 1
  {
    if cfg.min >= 1 {
      forall steps | Valid(cfg, host, Initial(cfg), steps)
        ensures NoStall(cfg, host, After(cfg, host, Initial(cfg), steps))
      {
        InvInitially(cfg, host);
        InvAlways(cfg, host, Initial(cfg), steps);
        StuckExactly(cfg, host, After(cfg, host, Initial(cfg), steps));
      }
    } else {
      NoPermanentWorkerStalls(cfg, host, [], []);
      var steps := [Submit([], []), SendNow(0)];
      assert !NoStall(cfg, host, After(cfg, host, Initial(cfg), steps));
    }
  }
}
