/**
 The guest's async side: a single-threaded executor, the map of host calls in
 flight, and `exhaust_tasks`, which runs tasks while more are alive than calls
 are in flight.  The peer that answers host calls echoes the guest's own index.
 */
module GuestTasks {
  import opened Basics
  import opened Int32

  /** A live task is runnable, or awaits the oneshot of its one outstanding call. */
  datatype Task = Runnable | Blocked(index: int32)

  /** `inFlight` is ASYNC_HOST_CALLS, mapping an index to the task that awaits it;
      `calls` counts CALL_NUM's increments; `owed` is how often the peer has yet to echo
      an index. */
  datatype Guest = Guest(tasks: map<nat, Task>, inFlight: map<int32, nat>, calls: nat, owed: map<int32, nat>)

  const START := Guest(map[], map[], 0, map[])

  datatype Step =
    | Spawn(t: nat)              // __async_guest_call spawns a task
    | Work(t: nat)               // a task runs and yields, or makes a sync host call
    | CallHost(t: nat)           // async_host_call, accepted by the host
    | Refused(t: nat)            // async_host_call, for which the host returned 0
    | Complete(t: nat)           // a task ends
    | Respond(index: int32)      // __host_call_response_ready, up to exhaust_tasks

  /** CALL_NUM's values: it starts at 0. */
  function IndexOf(n: nat): int32 {
    Wrap(n)
  }

  /** One echo of `index` more, or fewer, to come. */
  function Owing(owed: map<int32, nat>, index: int32): map<int32, nat> {
    owed[index := if index in owed then owed[index] + 1 else 1]
  }

  function Paid(owed: map<int32, nat>, index: int32): map<int32, nat>
    requires index in owed
  {
    if owed[index] <= 1 then owed - {index} else owed[index := owed[index] - 1]
  }

  predicate Enabled(g: Guest, step: Step) {
    match step
    case Spawn(t) => t !in g.tasks
    case Work(t) => t in g.tasks && g.tasks[t].Runnable?
    case CallHost(t) => t in g.tasks && g.tasks[t].Runnable?
    case Refused(t) => t in g.tasks && g.tasks[t].Runnable?
    case Complete(t) => t in g.tasks && g.tasks[t].Runnable?
    case Respond(index) => index in g.owed
  }

  /** `__host_call_response_ready` unwraps the sender it removes. */
  predicate NoPanic(g: Guest, step: Step) {
    step.Respond? ==> step.index in g.inFlight
  }

  function Next(g: Guest, step: Step): Guest
    requires Enabled(g, step)
  {
    match step
    case Spawn(t) => g.(tasks := g.tasks[t := Runnable])
    case Work(t) => g
    case CallHost(t) =>
      var index := IndexOf(g.calls);
      Guest(g.tasks[t := Blocked(index)], g.inFlight[index := t], g.calls + 1, Owing(g.owed, index))
    case Refused(t) =>
      // The sender stays in the map; the task carries on with an error.
      g.(inFlight := g.inFlight[IndexOf(g.calls) := t], calls := g.calls + 1)
    case Complete(t) => g.(tasks := g.tasks - {t})
    case Respond(index) =>
      if index in g.inFlight then
        var t := g.inFlight[index];
        Guest(if t in g.tasks && g.tasks[t] == Blocked(index) then g.tasks[t := Runnable] else g.tasks,
              g.inFlight - {index}, g.calls, Paid(g.owed, index))
      else g
  }

  predicate Valid(g: Guest, steps: seq<Step>)
    decreases |steps|
  {
    steps == [] || (Enabled(g, steps[0]) && Valid(Next(g, steps[0]), steps[1..]))
  }

  function After(g: Guest, steps: seq<Step>): Guest
    requires Valid(g, steps)
    decreases |steps|
  {
    if steps == [] then g else After(Next(g, steps[0]), steps[1..])
  }

  /** The condition `run_while` evaluates, in machine arithmetic on unsigned numbers:
      `None` is the underflow of `tasks_count() - num_in_flight`. */
  function MoreToRun(g: Guest): Option<bool> {
    if |g.tasks| < |g.inFlight| then None else Some(|g.tasks| - |g.inFlight| > 0)
  }

  /** The senders of refused calls: nobody will ever remove them. */
  function Stale(g: Guest): set<int32> {
    g.inFlight.Keys - g.owed.Keys
  }

  /** Calls the peer owes an answer to and blocked tasks point at each other; what else is in
      flight is stale. */
  predicate Inv(g: Guest) {
    && (forall index :: index in g.owed ==> g.owed[index] == 1 && index in g.inFlight)
    && (forall index :: index in g.owed ==>
          g.inFlight[index] in g.tasks && g.tasks[g.inFlight[index]] == Blocked(index))
    && (forall t :: t in g.tasks && g.tasks[t].Blocked? ==>
          g.tasks[t].index in g.owed && g.inFlight[g.tasks[t].index] == t)
    && (forall n: nat :: g.calls <= n < TWO_32 ==> IndexOf(n) !in g.inFlight)
  }

  lemma CallKeepsInv(g: Guest, t: nat)
    requires Inv(g) && Enabled(g, CallHost(t)) && g.calls < TWO_32
    ensures Inv(Next(g, CallHost(t))) && Stale(Next(g, CallHost(t))) == Stale(g)
  {
    var h := Next(g, CallHost(t));
    var unused := IndexOf(g.calls);
    assert unused !in g.inFlight && unused !in g.owed;
    forall n: nat | h.calls <= n < TWO_32 ensures IndexOf(n) !in h.inFlight {
      assert IndexOf(n) !in g.inFlight;
    }
  }

  lemma UnusedIndex(g: Guest)
    requires Inv(g) && g.calls < TWO_32
    ensures IndexOf(g.calls) !in g.inFlight && IndexOf(g.calls) !in g.owed
  {
  }

  lemma RefusalKeepsInv(g: Guest, t: nat)
    requires Inv(g) && Enabled(g, Refused(t)) && g.calls < TWO_32
    ensures Inv(Next(g, Refused(t)))
  {
    var h := Next(g, Refused(t));
    UnusedIndex(g);
    forall n: nat | h.calls <= n < TWO_32 ensures IndexOf(n) !in h.inFlight {
      assert IndexOf(n) !in g.inFlight;
    }
  }

  /** A sender that nobody owes an echo is one more stale sender. */
  lemma OneMoreStale(g: Guest, h: Guest, index: int32, t: nat)
    requires h.inFlight == g.inFlight[index := t] && h.owed == g.owed
    requires index !in g.inFlight && index !in g.owed
    ensures |Stale(h)| == |Stale(g)| + 1
  {
    assert Stale(h) == Stale(g) + {index};
  }

  lemma ResponseKeepsInv(g: Guest, index: int32)
    requires Inv(g) && Enabled(g, Respond(index))
    ensures NoPanic(g, Respond(index)) && Inv(Next(g, Respond(index)))
    ensures Stale(Next(g, Respond(index))) == Stale(g)
  {
    var h := Next(g, Respond(index));
    forall n: nat | h.calls <= n < TWO_32 ensures IndexOf(n) !in h.inFlight {
      assert IndexOf(n) !in g.inFlight;
    }
  }

  lemma OthersKeepInv(g: Guest, step: Step)
    requires Inv(g) && Enabled(g, step) && (step.Spawn? || step.Work? || step.Complete?)
    ensures Inv(Next(g, step)) && Stale(Next(g, step)) == Stale(g)
  {
  }

  lemma InvKept(g: Guest, step: Step)
    requires Inv(g) && Enabled(g, step) && Next(g, step).calls <= TWO_32
    ensures NoPanic(g, step) && Inv(Next(g, step))
    ensures |Stale(Next(g, step))| == |Stale(g)| + if step.Refused? then 1 else 0
  {
    match step
    case CallHost(t) => CallKeepsInv(g, t);
    case Refused(t) =>
      UnusedIndex(g);
      RefusalKeepsInv(g, t);
      OneMoreStale(g, Next(g, step), IndexOf(g.calls), t);
    case Respond(index) => ResponseKeepsInv(g, index);
    case _ => OthersKeepInv(g, step);
  }

  /** How many calls the host has refused in a run. */
  function Refusals(steps: seq<Step>): nat {
    if steps == [] then 0 else (if steps[0].Refused? then 1 else 0) + Refusals(steps[1..])
  }

  lemma {:induction false} CallsGrow(g: Guest, steps: seq<Step>)
    requires Valid(g, steps)
    ensures g.calls <= After(g, steps).calls
    decreases |steps|
  {
    if steps == [] {
    } else {
      CallsGrow(Next(g, steps[0]), steps[1..]);
    }
  }

  lemma {:induction false} InvHolds(g: Guest, steps: seq<Step>)
    requires Inv(g) && Valid(g, steps) && After(g, steps).calls <= TWO_32
    ensures Inv(After(g, steps))
    ensures |Stale(After(g, steps))| == |Stale(g)| + Refusals(steps)
    decreases |steps|
  {
    if steps == [] {
    } else {
      CallsGrow(Next(g, steps[0]), steps[1..]);
      InvKept(g, steps[0]);
      InvHolds(Next(g, steps[0]), steps[1..]);
    }
  }

  // ------------------------------------------------------------- counting

  function RunnableTasks(g: Guest): set<nat> {
    set t | t in g.tasks && g.tasks[t].Runnable?
  }

  function BlockedTasks(g: Guest): set<nat> {
    set t | t in g.tasks && g.tasks[t].Blocked?
  }

  /** A set is as large as its image under an injective map. */
  lemma {:induction false} ImageCounts(m: map<int32, nat>, keys: set<int32>, image: set<nat>)
    requires keys <= m.Keys && forall i, j :: i in keys && j in keys && m[i] == m[j] ==> i == j
    requires forall i :: i in keys ==> m[i] in image
    requires forall t :: t in image ==> exists i :: i in keys && m[i] == t
    ensures |keys| == |image|
    decreases keys
  {
    if keys == {} {
      assert image == {};
    } else {
      var i :| i in keys;
      var fewer := image - {m[i]};
      forall t | t in fewer ensures exists j :: j in keys - {i} && m[j] == t {
        var j :| j in keys && m[j] == t;
        assert j in keys - {i};
      }
      ImageCounts(m, keys - {i}, fewer);
    }
  }

  /** As many tasks are blocked as the peer owes answers. */
  lemma BlockedAreOwed(g: Guest)
    requires Inv(g)
    ensures |g.owed.Keys| == |BlockedTasks(g)|
  {
    forall t | t in BlockedTasks(g) ensures exists index :: index in g.owed.Keys && g.inFlight[index] == t {
      assert g.tasks[t].index in g.owed.Keys;
    }
    forall i, j | i in g.owed.Keys && j in g.owed.Keys && g.inFlight[i] == g.inFlight[j] ensures i == j {
      assert g.tasks[g.inFlight[i]] == Blocked(i) && g.tasks[g.inFlight[j]] == Blocked(j);
    }
    ImageCounts(g.inFlight, g.owed.Keys, BlockedTasks(g));
  }

  lemma TasksSplit(g: Guest)
    ensures |g.tasks| == |RunnableTasks(g)| + |BlockedTasks(g)|
  {
    assert g.tasks.Keys == RunnableTasks(g) + BlockedTasks(g);
    assert RunnableTasks(g) !! BlockedTasks(g);
  }

  lemma SendersSplit(g: Guest)
    requires g.owed.Keys <= g.inFlight.Keys
    ensures |g.inFlight| == |g.owed.Keys| + |Stale(g)|
  {
    assert g.inFlight.Keys == g.owed.Keys + Stale(g);
    assert |g.inFlight| == |g.inFlight.Keys|;
  }

  /** Counting both ways: every live task is runnable or awaited, every sender awaited or stale. */
  lemma SendersAndTasks(g: Guest)
    requires Inv(g)
    ensures |g.inFlight| + |RunnableTasks(g)| == |g.tasks| + |Stale(g)|
  {
    BlockedAreOwed(g);
    TasksSplit(g);
    SendersSplit(g);
  }

  ghost predicate Awaited(g: Guest, t: nat) {
    t in g.tasks && exists index :: index in g.inFlight && g.inFlight[index] == t && g.tasks[t] == Blocked(index)
  }

  lemma NoneRunnable(g: Guest)
    requires Inv(g)
    ensures RunnableTasks(g) == {} <==> forall t :: t in g.tasks ==> Awaited(g, t)
  {
    if RunnableTasks(g) == {} {
      forall t | t in g.tasks ensures Awaited(g, t) {
        assert t !in RunnableTasks(g);
        assert g.tasks[t].index in g.inFlight;
      }
    } else {
      var t :| t in RunnableTasks(g);
      assert !Awaited(g, t);
    }
  }

  /** The subtraction underflows exactly if fewer tasks can run than senders are stale, and
      reaches 0 exactly if as many can. */
  lemma StopsExactly(g: Guest)
    requires Inv(g)
    ensures MoreToRun(g).None? <==> |RunnableTasks(g)| < |Stale(g)|
    ensures MoreToRun(g).Some? ==> (MoreToRun(g).value <==> |RunnableTasks(g)| > |Stale(g)|)
    ensures RunnableTasks(g) == {} <==> forall t :: t in g.tasks ==> Awaited(g, t)
  {
    SendersAndTasks(g);
    NoneRunnable(g);
  }

  /**
   Scheduling over whole runs, with at most 2^32 calls.  The sender of every echoed index is
   found.  The count underflows exactly if fewer tasks can run than calls were refused, and
   `exhaust_tasks` stops exactly if as many can; so without refusals it never underflows
   and stops exactly when every live task awaits a call in flight.
   */
  lemma Scheduling(steps: seq<Step>, step: Step)
    requires Valid(START, steps) && After(START, steps).calls <= TWO_32
    ensures var g := After(START, steps);
            && (Enabled(g, step) ==> NoPanic(g, step))
            && (MoreToRun(g).None? <==> |RunnableTasks(g)| < Refusals(steps))
            && (MoreToRun(g) == Some(false) <==> |RunnableTasks(g)| == Refusals(steps))
            && (Refusals(steps) == 0 ==>
                  && MoreToRun(g).Some?
                  && (!MoreToRun(g).value <==> forall t :: t in g.tasks ==> Awaited(g, t)))
  {
    InvHolds(START, steps);
    StopsExactly(After(START, steps));
  }

  /** From any state the runnable tasks may simply end. */
  lemma {:induction false} TasksMayEnd(g: Guest) returns (steps: seq<Step>)
    ensures Valid(g, steps) && Refusals(steps) == 0
    ensures RunnableTasks(After(g, steps)) == {} && After(g, steps).calls == g.calls
    decreases |RunnableTasks(g)|
  {
    if RunnableTasks(g) == {} {
      steps := [];
    } else {
      var t :| t in RunnableTasks(g);
      var h := Next(g, Complete(t));
      assert RunnableTasks(h) == RunnableTasks(g) - {t};
      var later := TasksMayEnd(h);
      steps := [Complete(t)] + later;
      assert steps[1..] == later;
    }
  }

  lemma {:induction false} RunAppend(g: Guest, steps: seq<Step>, more: seq<Step>)
    requires Valid(g, steps) && Valid(After(g, steps), more)
    ensures Valid(g, steps + more) && After(g, steps + more) == After(After(g, steps), more)
    ensures Refusals(steps + more) == Refusals(steps) + Refusals(more)
    decreases |steps|
  {
    if steps == [] {
      assert steps + more == more;
    } else {
      assert (steps + more)[0] == steps[0] && (steps + more)[1..] == steps[1..] + more;
      RunAppend(Next(g, steps[0]), steps[1..], more);
    }
  }

  ghost predicate CanUnderflow(steps: seq<Step>)
    requires Valid(START, steps)
  {
    exists more :: Underflows(steps, more)
  }

  /** Going on without another refused call, the count underflows. */
  predicate Underflows(steps: seq<Step>, more: seq<Step>)
    requires Valid(START, steps)
  {
    var g := After(START, steps);
    Valid(g, more) && Refusals(more) == 0 && After(g, more).calls <= TWO_32 && MoreToRun(After(g, more)).None?
  }

  /** One refused call is enough, and nothing else will do: a run can go on to an underflow
      exactly if a call was refused in it. */
  lemma RefusalUnderflows(steps: seq<Step>)
    requires Valid(START, steps) && After(START, steps).calls <= TWO_32
    ensures CanUnderflow(steps) <==> Refusals(steps) > 0
  {
    var g := After(START, steps);
    if Refusals(steps) > 0 {
      var more := TasksMayEnd(g);
      RunAppend(START, steps, more);
      Scheduling(steps + more, Work(0));
      assert Underflows(steps, more);
    } else {
      forall more | Valid(g, more) ensures !Underflows(steps, more) {
        if Underflows(steps, more) {
          RunAppend(START, steps, more);
          Scheduling(steps + more, Work(0));
        }
      }
    }
  }

  // ------------------------------------------------------ the bound is exact

  ghost predicate SendersFoundUpTo(n: nat) {
    forall steps | Valid(START, steps) && After(START, steps).calls <= n :: SenderFound(After(START, steps))
  }

  ghost predicate SenderFound(g: Guest) {
    forall step | Enabled(g, step) :: NoPanic(g, step)
  }

  /** Task 0 waits for its first call for ever, while task 1 has had others answered. */
  function Waiting(calls: nat): Guest {
    Guest(map[0 := Blocked(IndexOf(0)), 1 := Runnable], map[IndexOf(0) := 0], calls, map[IndexOf(0) := 1])
  }

  lemma RunOne(g: Guest, a: Step)
    requires Enabled(g, a)
    ensures Valid(g, [a]) && After(g, [a]) == Next(g, a)
  {
    var h := Next(g, a);
    assert [a][0] == a && [a][1..] == [];
    assert Valid(h, []) && After(h, []) == h;
  }

  lemma RunTwo(g: Guest, a: Step, b: Step)
    requires Enabled(g, a) && Enabled(Next(g, a), b)
    ensures Valid(g, [a, b]) && After(g, [a, b]) == Next(Next(g, a), b)
  {
    RunOne(Next(g, a), b);
    assert [a, b][0] == a && [a, b][1..] == [b];
  }

  lemma RunThree(g: Guest, a: Step, b: Step, c: Step)
    requires Enabled(g, a) && Enabled(Next(g, a), b) && Enabled(Next(Next(g, a), b), c)
    ensures Valid(g, [a, b, c]) && After(g, [a, b, c]) == Next(Next(Next(g, a), b), c)
  {
    RunTwo(Next(g, a), b, c);
    assert [a, b, c][0] == a && [a, b, c][1..] == [b, c];
  }

  /** One more call of task 1, under an index of its own, and its answer. */
  lemma OneMoreAnswered(calls: nat)
    requires IndexOf(calls) != IndexOf(0)
    ensures Valid(Waiting(calls), [CallHost(1), Respond(IndexOf(calls))])
    ensures After(Waiting(calls), [CallHost(1), Respond(IndexOf(calls))]) == Waiting(calls + 1)
  {
    var call, response := CallHost(1), Respond(IndexOf(calls));
    var g := Next(Waiting(calls), call);
    assert Enabled(g, response);
    assert Next(g, response) == Waiting(calls + 1);
    RunTwo(Waiting(calls), call, response);
  }

  lemma LaterIndexDiffers(n: nat)
    requires 0 < n < TWO_32
    ensures IndexOf(n) != IndexOf(0)
  {
    IdCollision(n, 0);
    IdsDistinct(0, n);
    WrapOnce(n);
    WrapOnce(0);
  }

  /** So any number of calls can have been made, up to a full round. */
  lemma {:induction false} ManyAnswered(calls: nat) returns (steps: seq<Step>)
    requires 1 <= calls <= TWO_32
    ensures Valid(START, steps) && After(START, steps) == Waiting(calls)
  {
    if calls == 1 {
      steps := [Spawn(0), CallHost(0), Spawn(1)];
      RunThree(START, Spawn(0), CallHost(0), Spawn(1));
    } else {
      var before := ManyAnswered(calls - 1);
      LaterIndexDiffers(calls - 1);
      OneMoreAnswered(calls - 1);
      steps := before + [CallHost(1), Respond(IndexOf(calls - 1))];
      RunAppend(START, before, [CallHost(1), Respond(IndexOf(calls - 1))]);
    }
  }

  /** The call after 2^32 others takes the index of the one that still waits; the peer owes two
      answers to it, and for the second there is no sender. */
  lemma ReusedIndexPanics() returns (steps: seq<Step>)
    ensures Valid(START, steps) && After(START, steps).calls == TWO_32 + 1 && !SenderFound(After(START, steps))
  {
    var before := ManyAnswered(TWO_32);
    var index := IndexOf(0);
    assert IndexOf(TWO_32) == index;
    var call, response := CallHost(1), Respond(index);
    var g := Next(Waiting(TWO_32), call);
    assert g.owed == map[index := 2];
    var h := Next(g, response);
    assert h.owed == map[index := 1] && index !in h.inFlight;
    assert Enabled(h, response) && !NoPanic(h, response);
    RunTwo(Waiting(TWO_32), call, response);
    RunAppend(START, before, [call, response]);
    steps := before + [call, response];
  }

  /** Senders are found in all runs of up to `n` calls exactly when `n` is at most 2^32. */
  lemma BoundIsExact(n: nat)
    ensures SendersFoundUpTo(n) <==> n <= TWO_32
  {
    if n <= TWO_32 {
      forall steps | Valid(START, steps) && After(START, steps).calls <= n ensures SenderFound(After(START, steps)) {
        forall step | Enabled(After(START, steps), step) ensures NoPanic(After(START, steps), step) {
          Scheduling(steps, step);
        }
      }
    } else {
      var steps := ReusedIndexPanics();
    }
  }

  // ------------------------------------------------------- the guest object

  predicate IsPoll(p: Step) {
    p.Work? || p.CallHost? || p.Refused? || p.Complete?
  }

  predicate OnlyPolls(polls: seq<Step>) {
    forall p :: p in polls ==> IsPoll(p)
  }

  predicate CanPoll(g: Guest, p: Step)
    requires IsPoll(p)
  {
    p.t in g.tasks && g.tasks[p.t].Runnable?
  }

  /** One poll: a runnable task does what `p` says, a blocked or ended one does nothing. */
  function Polled(g: Guest, p: Step): Guest
    requires IsPoll(p)
  {
    if CanPoll(g, p) then Next(g, p) else g
  }

  /** The states that polls lead through, each made while the count says so. */
  predicate Traces(states: seq<Guest>, polls: seq<Step>)
    requires OnlyPolls(polls)
  {
    && 0 < |states| <= |polls| + 1
    && forall i :: 0 <= i < |states| - 1 ==>
         && polls[i] in polls && |states[i].tasks| > |states[i].inFlight|
         && states[i + 1] == if polls[i].t in states[i].tasks && states[i].tasks[polls[i].t].Runnable?
                             then Next(states[i], polls[i]) else states[i]
  }

  lemma TracesOn(states: seq<Guest>, polls: seq<Step>, g: Guest)
    requires OnlyPolls(polls) && Traces(states, polls) && |states| <= |polls|
    requires var last := states[|states| - 1];
             && |last.tasks| > |last.inFlight| && polls[|states| - 1] in polls
             && g == Polled(last, polls[|states| - 1])
    ensures Traces(states + [g], polls)
  {
    var more := states + [g];
    assert forall i :: 0 <= i < |states| ==> more[i] == states[i];
  }

  /** The states `exhaust_tasks` goes through when `polls` is what the tasks do, in the order
      the executor polls them: it stops where the count says so, or `polls` ends. */
  predicate Exhausts(states: seq<Guest>, polls: seq<Step>)
    requires OnlyPolls(polls)
  {
    Traces(states, polls) && (|states| == |polls| + 1 || MoreToRun(states[|states| - 1]) != Some(true))
  }

  lemma ExhaustsOn(states: seq<Guest>, polls: seq<Step>)
    requires OnlyPolls(polls) && Exhausts(states, polls) && |states| > 1
    ensures polls[0] in polls && states[1] == Polled(states[0], polls[0])
    ensures OnlyPolls(polls[1..]) && Exhausts(states[1..], polls[1..])
  {
    var later, rest := states[1..], polls[1..];
    assert forall i :: 0 <= i < |later| ==> later[i] == states[i + 1];
    assert forall i :: 0 <= i < |rest| ==> rest[i] == polls[i + 1];
    assert forall i :: 0 <= i < |rest| ==> rest[i] in rest;
  }

  /** The polls at which a task acted. */
  function Acting(states: seq<Guest>, polls: seq<Step>): seq<Step>
    requires OnlyPolls(polls) && 0 < |states| <= |polls| + 1
  {
    if |states| == 1 then []
    else
      assert polls[0] in polls && OnlyPolls(polls[1..]);
      (if CanPoll(states[0], polls[0]) then [polls[0]] else []) + Acting(states[1..], polls[1..])
  }

  /** It is a run of the guest: of the polls made, those that found their task runnable. */
  lemma {:induction false} ExhaustRuns(states: seq<Guest>, polls: seq<Step>)
    requires OnlyPolls(polls) && Exhausts(states, polls)
    requires Inv(states[0]) && states[0].calls + |polls| <= TWO_32
    ensures var ran, last := Acting(states, polls), states[|states| - 1];
            && Valid(states[0], ran) && |ran| < |states| && After(states[0], ran) == last
            && Inv(last) && |Stale(last)| == |Stale(states[0])| + Refusals(ran)
    decreases |polls|
  {
    if |states| == 1 {
    } else {
      var later, rest := states[1..], polls[1..];
      ExhaustsOn(states, polls);
      if CanPoll(states[0], polls[0]) {
        InvKept(states[0], polls[0]);
        ExhaustRuns(later, rest);
        assert ([polls[0]] + Acting(later, rest))[1..] == Acting(later, rest);
      } else {
        ExhaustRuns(later, rest);
        assert [] + Acting(later, rest) == Acting(later, rest);
      }
    }
  }

  /** The guest's statics.  A task is named by its executor slot. */
  class AsyncGuest {
    var tasks: map<nat, Task>
    var inFlight: map<int32, nat>
    var callNum: int32
    ghost var calls: nat
    ghost var owed: map<int32, nat>

    ghost function View(): Guest reads this {
      Guest(tasks, inFlight, calls, owed)
    }

    ghost predicate Ok() reads this {
      Inv(View()) && callNum == IndexOf(calls)
    }

    constructor ()
      ensures Ok() && View() == START && callNum == 0
    {
      tasks, inFlight, callNum, calls, owed := map[], map[], 0, 0, map[];
    }

    /** `CALL_NUM.fetch_add(1)`. */
    method NextIndex() returns (index: int32)
      requires callNum == IndexOf(calls)
      modifies `callNum, `calls
      ensures index == old(callNum) && calls == old(calls) + 1 && callNum == IndexOf(calls)
    {
      WrapOnce(calls);
      index := callNum;
      callNum, calls := Wrap(callNum + 1), calls + 1;
    }

    /** `async_host_call`, up to the await, for what the host says to it at once. */
    method AsyncHostCall(t: nat, accepted: bool) returns (index: int32)
      requires Ok() && Enabled(View(), CallHost(t)) && calls < TWO_32
      modifies this
      ensures Ok() && index == old(callNum) && index !in old(inFlight)
      ensures View() == Next(old(View()), if accepted then CallHost(t) else Refused(t))
    {
      ghost var before := View();
      index := NextIndex();
      UnusedIndex(before);
      inFlight := inFlight[index := t];
      if accepted {
        tasks := tasks[t := Blocked(index)];
        owed := Owing(owed, index);
        assert View() == Next(before, CallHost(t));
        CallKeepsInv(before, t);
      } else {
        assert View() == Next(before, Refused(t));
        RefusalKeepsInv(before, t);
      }
    }

    /** One poll of a runnable task; `action` is what its code does next. */
    method Poll(action: Step)
      requires Ok() && IsPoll(action) && Enabled(View(), action)
      requires Next(View(), action).calls <= TWO_32
      modifies this
      ensures Ok() && View() == Next(old(View()), action)
    {
      InvKept(View(), action);
      match action
      case CallHost(t) =>
        var _ := AsyncHostCall(t, true);
      case Refused(t) =>
        var _ := AsyncHostCall(t, false);
      case Complete(t) =>
        tasks := tasks - {t};
      case _ =>
    }

    /** The condition `exhaust_tasks` gives to `run_while`; `None` is the underflow. */
    method HasMoreToRun() returns (more: Option<bool>)
      requires Ok()
      ensures more == MoreToRun(View())
      ensures more.None? <==> |RunnableTasks(View())| < |Stale(View())|
      ensures Stale(View()) == {} ==> (more == Some(false) <==> forall t :: t in tasks ==> Awaited(View(), t))
    {
      StopsExactly(View());
      var numInFlight := |inFlight|;
      more := if |tasks| < numInFlight then None else Some(|tasks| - numInFlight > 0);
    }

    /** The executor polls a task: a runnable one acts, a blocked one does not. */
    method PollIfRunnable(action: Step)
      requires Ok() && calls < TWO_32 && IsPoll(action)
      modifies this
      ensures Ok() && calls <= old(calls) + 1
      ensures View() == Polled(old(View()), action)
    {
      if action.t in tasks && tasks[action.t].Runnable? {
        Poll(action);
      }
    }

    /** `exhaust_tasks`, as far as `polls` goes: each poll in its turn is made while more tasks are
        alive than calls in flight, by its task if that can run, until the count says
        otherwise or the polls are used up.  `more` is the condition where it stands. */
    method ExhaustTasks(polls: seq<Step>) returns (more: Option<bool>, ghost states: seq<Guest>)
      requires Ok() && calls + |polls| <= TWO_32
      requires forall p :: p in polls ==> p.Work? || p.CallHost? || p.Refused? || p.Complete?
      modifies this
      ensures Ok() && 0 < |states| <= |polls| + 1
      ensures states[0] == old(View()) && states[|states| - 1] == View()
      ensures forall i :: 0 <= i < |states| - 1 ==>
                && polls[i] in polls && |states[i].tasks| > |states[i].inFlight|
                && states[i + 1] == if polls[i].t in states[i].tasks && states[i].tasks[polls[i].t].Runnable?
                                    then Next(states[i], polls[i]) else states[i]
      ensures |states| == |polls| + 1 || |tasks| <= |inFlight|
      ensures Exhausts(states, polls)
      ensures more == if |tasks| < |inFlight| then None else Some(|tasks| > |inFlight|)
      ensures more.None? <==> |RunnableTasks(View())| < |Stale(View())|
      ensures Stale(View()) == {} ==> (more == Some(false) <==> forall t :: t in tasks ==> Awaited(View(), t))
    {
      more := HasMoreToRun();
      states := [View()];
      var next := 0;
      while next < |polls| && more == Some(true)
        invariant next <= |polls| && Ok()
        invariant calls + |polls| - next <= TWO_32
        invariant |states| == next + 1 && states[0] == old(View()) && states[next] == View()
        invariant Traces(states, polls) && more == MoreToRun(View())
      {
        assert polls[next] in polls;
        PollIfRunnable(polls[next]);
        TracesOn(states, polls, View());
        states := states + [View()];
        next := next + 1;
        more := HasMoreToRun();
      }
      StopsExactly(View());
    }

    /** The removal in `__host_call_response_ready`, and the send that wakes the task. */
    method Wake(index: int32)
      requires Ok() && index in owed
      modifies `tasks, `inFlight, `owed
      ensures Ok() && View() == Next(old(View()), Respond(index))
      ensures old(inFlight)[index] in tasks && tasks[old(inFlight)[index]].Runnable?
    {
      ghost var before := View();
      ResponseKeepsInv(before, index);
      var tx := inFlight[index];
      inFlight := inFlight - {index};
      tasks := tasks[tx := Runnable];
      owed := Paid(owed, index);
      assert View() == Next(before, Respond(index));
    }

    /** `__host_call_response_ready` for an index the peer owes: the sender is there, whatever
        else was refused, its task can run, and the tasks are polled. */
    method HostCallResponseReady(index: int32, polls: seq<Step>) returns (more: Option<bool>, ghost states: seq<Guest>)
      requires Ok() && index in owed && calls + |polls| <= TWO_32
      requires forall p :: p in polls ==> p.Work? || p.CallHost? || p.Refused? || p.Complete?
      modifies this
      ensures Ok() && Exhausts(states, polls)
      ensures states[0] == Next(old(View()), Respond(index)) && states[|states| - 1] == View()
      ensures old(inFlight)[index] in states[0].tasks && states[0].tasks[old(inFlight)[index]].Runnable?
      ensures more == MoreToRun(View())
      ensures Stale(View()) == {} ==> (more == Some(false) <==> forall t :: t in tasks ==> Awaited(View(), t))
    {
      Wake(index);
      more, states := ExhaustTasks(polls);
    }
  }
}
