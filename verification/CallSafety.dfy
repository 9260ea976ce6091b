/**
 Safety of the call protocol over every run with at most 2^32 allocations, and
 the proof that the bound is exact.
 */
module CallSafety {
  import opened Basics
  import opened Int32
  import opened CallTable
  import opened CallResults
  import opened CallProtocol

  // ----------------------------------------- the table as private histories

  function OkValue(t: Task): Option<Bytes> {
    if (t.Published? || t.Done?) && t.outcome.Ok? then Some(t.outcome.value) else None
  }

  function ErrText(t: Task): Option<Bytes> {
    if (t.Published? || t.Done?) && t.outcome.Err? then Some(t.outcome.text) else None
  }

  /** The entry a call that is still open must have, given its caller's history. */
  function OpenState(a: Actor, k: nat): CallState
    requires a.Caller?
  {
    var trapStored := a.trap.Some? && !(a.phase == Trapping(0));
    CallState(
      Some(a.inv),
      if a.phase == Trapping(2) then Some([]) else OkValue(a.task),
      None,
      if trapStored then a.trap else ErrText(a.task),
      None,
      Some(k))
  }

  /** What the channel of a completed async call was sent. */
  function FinalStatus(a: Actor): CallStatus
    requires a.Caller?
  {
    if a.cause.ByTask? then
      StatusOf(if a.task.Done? then GuestCode(a.task.outcome) else 0,
               CallState(Some(a.inv), OkValue(a.task), None, ErrText(a.task), None, None))
    else
      Complete(CallState(Some(a.inv), Some([]), None, a.trap, None, None))
  }

  const BLANK := Cell(None, [])

  /** The cell an actor's own history prescribes for its id. */
  function Prescribed(a: Actor, k: nat): Cell {
    match a
    case HostCall(_, HostReserved) => BLANK
    case HostCall(_, HostReady) => Cell(Some(EMPTY_STATE), [])
    case HostCall(_, HostStored(r)) => Cell(Some(HostDone(r)), [])
    case HostCall(_, HostNotified(r)) => Cell(Some(HostDone(r)), [])
    case Caller(mode, inv, phase, task, trap, cause) =>
      if phase.Reserved? then BLANK
      else if mode.Async? && !cause.Unfinished? then Cell(None, [Send(k, FinalStatus(a))])
      else if mode.Sync? && phase.Replied? then BLANK
      else Cell(Some(OpenState(a, k)), [])
  }

  /** The reply a completed call owes: its own outcome, or its own entry's trap. */
  function Owed(a: Actor): Reply
    requires a.Caller?
  {
    if a.cause.ByTask? && a.task.Done? then ReplyFor(a.task.outcome)
    else GuestCallFailure(if a.trap.Some? then a.trap.value else [])
  }

  predicate ActorOk(a: Actor, k: nat, lock: Lock) {
    a.Caller? ==>
      && ((a.phase.InGuest? || a.phase.Trapping?) <==> lock == Entry(k))
      && (a.phase.Reserved? || a.phase.Inserted? ==> a.task.NoTask? && a.trap.None? && a.cause.Unfinished?)
      && (!a.task.NoTask? ==> a.task.seen == a.inv)
      && (a.phase.Trapping? ==> a.trap.Some? && a.phase.stage <= (if a.mode.Sync? then 0 else 2))
      && (a.phase.InGuest? ==> a.trap.None?)
      && (a.cause.ByTask? ==> a.task.Done?)
      && (a.cause.ByTrap? ==> a.trap.Some? && !a.phase.Trapping?)
      && (a.task.Done? ==> !a.cause.Unfinished?)
      && (a.mode.Sync? ==> (a.cause.Unfinished? <==> !(a.phase.Returned? || a.phase.Replied?)))
      && (a.mode.Async? ==> !a.phase.Returned?)
      && (a.mode.Sync? ==> !a.phase.Awaiting?)
      && (a.mode.Sync? && a.cause.ByTask? ==> a.trap.None?)
      && (a.phase.Returned? ==> a.phase.code == if a.cause.ByTask? then GuestCode(a.task.outcome) else 0)
      && (a.phase.Awaiting? && a.cause.Unfinished? ==> a.trap.None?)
      && (a.phase.Replied? ==> !a.cause.Unfinished? && a.phase.reply == Owed(a))
  }

  predicate LockOk(s: System) {
    s.lock.Entry? ==> IsCaller(s, s.lock.owner)
  }

  function PrescribedAt(actors: seq<Actor>, k: nat): Cell {
    if k < |actors| then Prescribed(actors[k], k) else BLANK
  }

  predicate Inv(s: System) {
    && |s.actors| <= TWO_32
    && LockOk(s)
    && (forall k: nat :: k < |s.actors| ==> ActorOk(s.actors[k], k, s.lock))
    && (forall k: nat :: k < TWO_32 ==> CellOf(s.table, IdOf(k)) == PrescribedAt(s.actors, k))
  }

  /** A table access by actor `k` that matches its new history keeps the whole
      table in step with all histories. */
  lemma CellsFollow(s: System, e: Event, k: nat, a: Actor)
    requires Inv(s) && k <= |s.actors| && k < TWO_32
    requires e.id == IdOf(k)
    requires !CellPanics(PrescribedAt(s.actors, k), e)
    requires StepCell(PrescribedAt(s.actors, k), e) == Prescribed(a, k)
    ensures !Panics(s.table, e)
    ensures forall j: nat :: j < TWO_32 ==>
              CellOf(Apply(s.table, e), IdOf(j)) == PrescribedAt(Put(s.actors, k, a), j)
  {
    EventIsLocal(s.table, e, e.id);
    forall j: nat | j < TWO_32
      ensures CellOf(Apply(s.table, e), IdOf(j)) == PrescribedAt(Put(s.actors, k, a), j)
    {
      EventIsLocal(s.table, e, IdOf(j));
      if j < k {
        IdsDistinct(j, k);
      } else if k < j {
        IdsDistinct(k, j);
      }
    }
  }

  /** A step that does not touch the table must not change what its actor's history prescribes. */
  lemma CellsStay(s: System, k: nat, a: Actor)
    requires Inv(s) && k <= |s.actors|
    requires PrescribedAt(s.actors, k) == Prescribed(a, k)
    ensures forall j: nat :: j < TWO_32 ==>
              CellOf(s.table, IdOf(j)) == PrescribedAt(Put(s.actors, k, a), j)
  {
  }

  /** The automaton of a step's own actor moves to what its new history prescribes. */
  predicate CellFollows(s: System, step: Step)
    requires Enabled(s, step) && !step.Deliver? && !step.LeaveLoop?
  {
    NoPanic(s, step) &&
    var k := ActorOf(s, step);
    var c := PrescribedAt(s.actors, k);
    var a := Advance(s, step);
    match EventOf(s, step)
    case Some(e) => e.id == IdOf(k) && !CellPanics(c, e) && StepCell(c, e) == Prescribed(a, k)
    case None => c == Prescribed(a, k)
  }

  /** Entering the guest and coming back from it leaves the table alone. */
  lemma EntryStepFollows(s: System, step: Step)
    requires Inv(s) && Enabled(s, step)
    requires step.EnterGuest? || step.LeaveGuest? || step.ReturnCode? || step.Trap?
    ensures CellFollows(s, step)
  {
    assert ActorOk(s.actors[step.k], step.k, s.lock);
  }

  /** So do a task's reading and thinking, and the reply. */
  lemma QuietStepFollows(s: System, step: Step)
    requires Inv(s) && Enabled(s, step)
    requires step.ReadRequest? || step.Dispatch? || step.AwaitReply?
    ensures CellFollows(s, step)
  {
    assert ActorOk(s.actors[step.k], step.k, s.lock);
  }

  /** Steps of a caller or its task that access the table, other than the trap path's. */
  lemma AccessFollows(s: System, step: Step)
    requires Inv(s) && Enabled(s, step)
    requires step.InsertCall? || step.Publish? || step.Ready? || step.TakeBack?
    ensures CellFollows(s, step)
  {
    assert CellOf(s.table, IdOf(step.k)) == PrescribedAt(s.actors, step.k);
    assert ActorOk(s.actors[step.k], step.k, s.lock);
  }

  /** The three accesses of the trap path. */
  lemma TrapFollows(s: System, k: nat)
    requires Inv(s) && Enabled(s, HandleTrap(k))
    ensures CellFollows(s, HandleTrap(k))
  {
    assert CellOf(s.table, IdOf(k)) == PrescribedAt(s.actors, k);
    assert ActorOk(s.actors[k], k, s.lock);
  }

  lemma HostStepFollows(s: System, step: Step)
    requires Inv(s) && Enabled(s, step)
    requires step.InitHost? || step.StoreHost? || step.NotifyHost?
    ensures CellFollows(s, step)
  {
  }

  lemma OwnCellFollows(s: System, step: Step)
    requires Inv(s) && Enabled(s, step) && !step.Deliver? && !step.LeaveLoop?
    requires ActorOf(s, step) < TWO_32
    ensures CellFollows(s, step)
  {
    match step
    case ReserveCall(_, _) =>
    case ReserveHost(_) =>
    case InsertCall(_) => AccessFollows(s, step);
    case Publish(_) => AccessFollows(s, step);
    case Ready(_) => AccessFollows(s, step);
    case TakeBack(_) => AccessFollows(s, step);
    case HandleTrap(k) => TrapFollows(s, k);
    case InitHost(_) => HostStepFollows(s, step);
    case StoreHost(_, _) => HostStepFollows(s, step);
    case NotifyHost(_) => HostStepFollows(s, step);
    case ReadRequest(_, _) => QuietStepFollows(s, step);
    case Dispatch(_, _) => QuietStepFollows(s, step);
    case AwaitReply(_) => QuietStepFollows(s, step);
    case _ => EntryStepFollows(s, step);
  }

  lemma EntryStepActorOk(s: System, step: Step)
    requires Inv(s) && Enabled(s, step) && NoPanic(s, step)
    requires step.EnterGuest? || step.LeaveGuest? || step.ReturnCode? || step.Trap?
    ensures ActorOk(Advance(s, step), step.k, LockAfter(s, step))
  {
    assert ActorOk(s.actors[step.k], step.k, s.lock);
  }

  lemma TaskStepActorOk(s: System, step: Step)
    requires Inv(s) && Enabled(s, step) && NoPanic(s, step)
    requires step.InsertCall? || step.Dispatch? || step.Publish? || step.Ready? || step.HandleTrap?
    ensures ActorOk(Advance(s, step), step.k, LockAfter(s, step))
  {
    assert ActorOk(s.actors[step.k], step.k, s.lock);
  }

  /** The steps that read the table. */
  lemma ReadingStepActorOk(s: System, step: Step)
    requires Inv(s) && Enabled(s, step) && NoPanic(s, step) && (step.ReadRequest? || step.TakeBack? || step.AwaitReply?)
    ensures ActorOk(Advance(s, step), step.k, LockAfter(s, step))
  {
    assert CellOf(s.table, IdOf(step.k)) == PrescribedAt(s.actors, step.k);
    assert ActorOk(s.actors[step.k], step.k, s.lock);
  }

  lemma OwnActorOk(s: System, step: Step)
    requires Inv(s) && Enabled(s, step) && NoPanic(s, step) && !step.Deliver? && !step.LeaveLoop?
    requires ActorOf(s, step) < TWO_32
    ensures ActorOk(Advance(s, step), ActorOf(s, step), LockAfter(s, step))
  {
    match step
    case ReserveCall(_, _) =>
    case ReserveHost(_) =>
    case InitHost(_) =>
    case StoreHost(_, _) =>
    case NotifyHost(_) =>
    case EnterGuest(_) => EntryStepActorOk(s, step);
    case LeaveGuest(_) => EntryStepActorOk(s, step);
    case ReturnCode(_) => EntryStepActorOk(s, step);
    case Trap(_, _) => EntryStepActorOk(s, step);
    case ReadRequest(_, _) => ReadingStepActorOk(s, step);
    case TakeBack(_) => ReadingStepActorOk(s, step);
    case AwaitReply(_) => ReadingStepActorOk(s, step);
    case _ => TaskStepActorOk(s, step);
  }

  /** A step moves no actor but its own. */
  lemma OthersStay(s: System, step: Step, k: nat)
    requires Enabled(s, step) && (step.Deliver? || step.LeaveLoop? || ActorOf(s, step) != k)
    ensures k < |Next(s, step).actors| <==> k < |s.actors|
    ensures k < |s.actors| ==> Next(s, step).actors[k] == s.actors[k]
  {
  }

  /** The others' positions are untouched, and the lock is none of theirs. */
  lemma OtherActorOk(s: System, step: Step, j: nat)
    requires Inv(s) && Enabled(s, step) && NoPanic(s, step) && j < |s.actors|
    requires step.Deliver? || step.LeaveLoop? || ActorOf(s, step) != j
    ensures ActorOk(s.actors[j], j, Next(s, step).lock)
  {
    assert ActorOk(s.actors[j], j, s.lock);
  }

  lemma ActorsKept(s: System, step: Step)
    requires Inv(s) && Enabled(s, step) && NoPanic(s, step) && |Next(s, step).actors| <= TWO_32
    ensures LockOk(Next(s, step))
    ensures forall j: nat :: j < |Next(s, step).actors| ==> ActorOk(Next(s, step).actors[j], j, Next(s, step).lock)
  {
    var t := Next(s, step);
    forall j: nat | j < |t.actors| ensures ActorOk(t.actors[j], j, t.lock) {
      if !step.Deliver? && !step.LeaveLoop? && ActorOf(s, step) == j {
        OwnActorOk(s, step);
      } else {
        OtherActorOk(s, step, j);
      }
    }
  }

  lemma {:induction false} CellsKept(s: System, step: Step)
    requires Inv(s) && Enabled(s, step) && |Next(s, step).actors| <= TWO_32
    ensures NoPanic(s, step)
    ensures forall k: nat :: k < TWO_32 ==>
              CellOf(Next(s, step).table, IdOf(k)) == PrescribedAt(Next(s, step).actors, k)
  {
    if !step.Deliver? && !step.LeaveLoop? {
      var k := ActorOf(s, step);
      OwnCellFollows(s, step);
      if EventOf(s, step).Some? {
        CellsFollow(s, EventOf(s, step).value, k, Advance(s, step));
      } else {
        CellsStay(s, k, Advance(s, step));
      }
    }
  }

  lemma {:induction false} InvKept(s: System, step: Step)
    requires Inv(s) && Enabled(s, step) && |Next(s, step).actors| <= TWO_32
    ensures NoPanic(s, step) && Inv(Next(s, step))
  {
    CellsKept(s, step);
    ActorsKept(s, step);
  }

  // ------------------------------------------------------------ whole runs

  /** The (k+1)-st reservation of a run made actor `k`. */
  function Reservations(steps: seq<Step>): seq<Step> {
    if steps == [] then []
    else
      var last := steps[|steps| - 1];
      Reservations(steps[..|steps| - 1]) + (if last.ReserveCall? || last.ReserveHost? then [last] else [])
  }

  predicate Reserves(a: Actor, step: Step) {
    match a
    case Caller(mode, inv, _, _, _, _) => step == ReserveCall(mode, inv)
    case HostCall(kind, _) => step == ReserveHost(kind)
  }

  lemma ReservationsKept(s: System, step: Step)
    requires Enabled(s, step)
    ensures var t := Next(s, step);
            && |s.actors| <= |t.actors|
            && (forall k, r :: 0 <= k < |s.actors| && Reserves(s.actors[k], r) ==> Reserves(t.actors[k], r))
            && if step.ReserveCall? || step.ReserveHost? then
                 |t.actors| == |s.actors| + 1 && Reserves(t.actors[|s.actors|], step)
               else |t.actors| == |s.actors|
  {
  }

  /** No step forgets an actor, or what it was created with. */
  lemma {:induction false} ActorsAreReservations(steps: seq<Step>)
    requires Valid(steps)
    ensures |After(steps).actors| == |Reservations(steps)|
    ensures forall k :: 0 <= k < |Reservations(steps)| ==> Reserves(After(steps).actors[k], Reservations(steps)[k])
  {
    if steps == [] {
    } else {
      ActorsAreReservations(steps[..|steps| - 1]);
      ReservationsKept(After(steps[..|steps| - 1]), steps[|steps| - 1]);
    }
  }

  lemma {:induction false} InvHolds(steps: seq<Step>)
    requires Valid(steps) && |After(steps).actors| <= TWO_32
    ensures Inv(After(steps))
  {
    if steps == [] {
    } else {
      var init := steps[..|steps| - 1];
      ActorsAreReservations(init);
      ActorsAreReservations(steps);
      InvHolds(init);
      InvKept(After(init), steps[|steps| - 1]);
    }
  }

  /** No entry is anybody's leftover: each belongs to one actor, whose history it follows. */
  lemma {:induction false} EveryEntryHasAnOwner(steps: seq<Step>, id: int32) returns (k: nat)
    requires Valid(steps) && |After(steps).actors| <= TWO_32
    ensures IdOf(k) == id && CellOf(After(steps).table, id) == PrescribedAt(After(steps).actors, k)
    ensures id in After(steps).table.calls || SendsOf(After(steps).table, id) != [] ==> k < |After(steps).actors|
  {
    InvHolds(steps);
    k := EveryIdIsIssued(id);
    assert CellOf(After(steps).table, IdOf(k)) == PrescribedAt(After(steps).actors, k);
  }

  /** Neither unwrap on the host's side ever fails. */
  lemma {:induction false} NeverPanics(steps: seq<Step>, step: Step)
    requires Valid(steps) && Enabled(After(steps), step) && |Next(After(steps), step).actors| <= TWO_32
    ensures NoPanic(After(steps), step)
  {
    ActorsAreReservations(steps);
    InvHolds(steps);
    InvKept(After(steps), step);
  }

  /** The call's own code reported its end before any trap of its entry. */
  ghost predicate FinishedBeforeTrap(steps: seq<Step>, k: nat) {
    exists i :: 0 <= i < |steps| && (steps[i] == Ready(k) || steps[i] == ReturnCode(k)) && NoTrap(steps[..i], k)
  }

  ghost predicate NoTrap(steps: seq<Step>, k: nat) {
    forall text :: Trap(k, text) !in steps
  }

  predicate HasOutcome(a: Actor, o: Outcome) {
    a.Caller? && (a.task.Decided? || a.task.Published? || a.task.Done?) && a.task.outcome == o
  }

  /** An actor's record agrees with the steps of the run. */
  ghost predicate Recorded(steps: seq<Step>, actors: seq<Actor>, k: nat) {
    && (forall o :: Dispatch(k, o) in steps <==> k < |actors| && HasOutcome(actors[k], o))
    && (forall text :: Trap(k, text) in steps <==>
                       k < |actors| && actors[k].Caller? && actors[k].trap == Some(text))
    && (FinishedBeforeTrap(steps, k) <==> k < |actors| && actors[k].Caller? && actors[k].cause.ByTask?)
  }

  lemma FinishedBeforeTrapSnoc(init: seq<Step>, last: Step, k: nat)
    ensures FinishedBeforeTrap(init + [last], k) <==>
            FinishedBeforeTrap(init, k) || ((last == Ready(k) || last == ReturnCode(k)) && NoTrap(init, k))
  {
    var steps := init + [last];
    if FinishedBeforeTrap(init, k) {
      var i :| 0 <= i < |init| && (init[i] == Ready(k) || init[i] == ReturnCode(k)) && NoTrap(init[..i], k);
      assert steps[..i] == init[..i] && steps[i] == init[i];
    }
    if (last == Ready(k) || last == ReturnCode(k)) && NoTrap(init, k) {
      assert steps[..|init|] == init && steps[|init|] == last;
    }
    if FinishedBeforeTrap(steps, k) {
      var i :| 0 <= i < |steps| && (steps[i] == Ready(k) || steps[i] == ReturnCode(k)) && NoTrap(steps[..i], k);
      if i < |init| {
        assert steps[..i] == init[..i] && steps[i] == init[i];
      } else {
        assert steps[..i] == init;
      }
    }
  }

  /** What one step adds to the record of the actor that takes it. */
  lemma RecordGrows(s: System, step: Step)
    requires Inv(s) && Enabled(s, step) && NoPanic(s, step) && !step.Deliver? && !step.LeaveLoop?
    ensures var k := ActorOf(s, step);
            var a := Advance(s, step);
            && (forall o :: HasOutcome(a, o) <==>
                            (k < |s.actors| && HasOutcome(s.actors[k], o)) || step == Dispatch(k, o))
            && (forall text :: a.Caller? && a.trap == Some(text) <==>
                               || (k < |s.actors| && s.actors[k].Caller? && s.actors[k].trap == Some(text))
                               || step == Trap(k, text))
            && (a.Caller? && a.cause.ByTask? <==>
                || (k < |s.actors| && s.actors[k].Caller? && s.actors[k].cause.ByTask?)
                || ((step == Ready(k) || step == ReturnCode(k)) && s.actors[k].trap.None?))
  {
    var k := ActorOf(s, step);
    if k < |s.actors| {
      assert ActorOk(s.actors[k], k, s.lock);
    }
  }

  /** A step is recorded for the actor that takes it. */
  lemma RecordedOwn(steps: seq<Step>, s: System, step: Step)
    requires Inv(s) && Enabled(s, step) && NoPanic(s, step) && !step.Deliver? && !step.LeaveLoop?
    requires Recorded(steps, s.actors, ActorOf(s, step))
    ensures Recorded(steps + [step], Next(s, step).actors, ActorOf(s, step))
  {
    var k := ActorOf(s, step);
    FinishedBeforeTrapSnoc(steps, step, k);
    RecordGrows(s, step);
    assert NoTrap(steps, k) <==> !(k < |s.actors| && s.actors[k].Caller? && s.actors[k].trap.Some?);
    assert k < |Next(s, step).actors| && Next(s, step).actors[k] == Advance(s, step);
  }

  /** And is nothing to the others. */
  lemma RecordedOther(steps: seq<Step>, s: System, step: Step, k: nat)
    requires Enabled(s, step) && NoPanic(s, step) && Recorded(steps, s.actors, k)
    requires step.Deliver? || step.LeaveLoop? || ActorOf(s, step) != k
    ensures Recorded(steps + [step], Next(s, step).actors, k)
  {
    FinishedBeforeTrapSnoc(steps, step, k);
    OthersStay(s, step, k);
  }

  lemma {:induction false} HistoriesMatch(steps: seq<Step>, k: nat)
    requires Valid(steps) && |After(steps).actors| <= TWO_32
    ensures Recorded(steps, After(steps).actors, k)
  {
    if steps == [] {
    } else {
      var init, last := steps[..|steps| - 1], steps[|steps| - 1];
      assert steps == init + [last];
      ActorsAreReservations(init);
      ActorsAreReservations(steps);
      InvHolds(init);
      HistoriesMatch(init, k);
      InvKept(After(init), last);
      if !last.Deliver? && !last.LeaveLoop? && ActorOf(After(init), last) == k {
        RecordedOwn(init, After(init), last);
      } else {
        RecordedOther(init, After(init), last, k);
      }
    }
  }

  /**
   End to end.  Whoever else is calling, and however guest tasks, host tasks and
   the loop interleave: a caller's reply is what its own dispatch produced if that
   was reported before its guest entry trapped, and the trap's text otherwise; and
   the dispatch saw the caller's own operation and payload.
   */
  lemma {:induction false} EndToEnd(steps: seq<Step>, k: nat)
    requires Valid(steps) && |After(steps).actors| <= TWO_32
    requires IsCaller(After(steps), k) && After(steps).actors[k].phase.Replied?
    ensures var a := After(steps).actors[k];
            && k < |Reservations(steps)| && Reservations(steps)[k] == ReserveCall(a.mode, a.inv)
            && (!a.task.NoTask? ==> a.task.seen == a.inv)
            && if FinishedBeforeTrap(steps, k)
               then exists o :: Dispatch(k, o) in steps &&
                      a.phase.reply == match o case Ok(v) => Reply(v) case Err(e) => GuestCallFailure(e)
               else exists text :: Trap(k, text) in steps && a.phase.reply == GuestCallFailure(text)
    ensures forall o, p :: Dispatch(k, o) in steps && Dispatch(k, p) in steps ==> o == p
  {
    ActorsAreReservations(steps);
    InvHolds(steps);
    HistoriesMatch(steps, k);
    var s := After(steps);
    var a := s.actors[k];
    assert ActorOk(a, k, s.lock);
    if a.cause.ByTask? {
      assert HasOutcome(a, a.task.outcome);
    } else {
      assert a.trap == Some(a.trap.value);
    }
  }

  lemma WaitingCell(s: System, k: nat)
    requires Inv(s) && IsCaller(s, k) && s.actors[k].phase.Awaiting?
    ensures SenderAlive(s, k) <==> s.actors[k].cause.Unfinished?
    ensures Received(SendsOf(s.table, IdOf(k)), k).Some? <==> !s.actors[k].cause.Unfinished?
  {
    assert CellOf(s.table, IdOf(k)) == PrescribedAt(s.actors, k);
    assert ActorOk(s.actors[k], k, s.lock);
  }

  /** A waiting caller can be answered exactly when its call has ended, and never because
      its channel was lost. */
  lemma {:induction false} WaitingEndsExactly(steps: seq<Step>, k: nat)
    requires Valid(steps) && |After(steps).actors| <= TWO_32
    requires IsCaller(After(steps), k) && After(steps).actors[k].phase.Awaiting?
    ensures var s := After(steps);
            && (Enabled(s, AwaitReply(k)) <==> !s.actors[k].cause.Unfinished?)
            && (Enabled(s, AwaitReply(k)) <==> Received(SendsOf(s.table, IdOf(k)), k).Some?)
            && (SenderAlive(s, k) <==> s.actors[k].cause.Unfinished?)
  {
    InvHolds(steps);
    WaitingCell(After(steps), k);
  }

  /** The table accesses of a run, in order. */
  function Accesses(steps: seq<Step>): seq<Event>
    requires Valid(steps)
  {
    if steps == [] then []
    else
      var init, last := steps[..|steps| - 1], steps[|steps| - 1];
      match EventOf(After(init), last)
      case Some(e) => Accesses(init) + [e]
      case None => Accesses(init)
  }

  lemma {:induction false} TableFollowsAccesses(steps: seq<Step>)
    requires Valid(steps) && |After(steps).actors| <= TWO_32
    ensures SafeRun(INIT.table, Accesses(steps))
    ensures After(steps).table == Run(INIT.table, Accesses(steps))
  {
    if steps == [] {
    } else {
      var init, last := steps[..|steps| - 1], steps[|steps| - 1];
      ActorsAreReservations(init);
      ActorsAreReservations(steps);
      TableFollowsAccesses(init);
      NeverPanics(init, last);
      if EventOf(After(init), last).Some? {
        RunSnoc(INIT.table, Accesses(init), EventOf(After(init), last).value);
      }
    }
  }

  /** Seen from one id, any run of the whole protocol is a run of that id's automaton
      alone, starting from nothing. */
  lemma {:induction false} ProtocolProjects(steps: seq<Step>, id: int32)
    requires Valid(steps) && |After(steps).actors| <= TWO_32
    ensures SafeRun(INIT.table, Accesses(steps))
    ensures CellSafeRun(BLANK, Project(Accesses(steps), id))
    ensures CellOf(After(steps).table, id) == RunCell(BLANK, Project(Accesses(steps), id))
  {
    TableFollowsAccesses(steps);
    RunProjects(INIT.table, Accesses(steps), id);
    assert CellOf(INIT.table, id) == BLANK;
  }

  // ------------------------------------------------------ exactly one end

  /** Every invocation that has entered the table is open, has been sent once, or has
      been taken back; which of the three is decided by its mode and its own history. */
  lemma {:induction false} OneEnd(steps: seq<Step>, k: nat)
    requires Valid(steps) && |After(steps).actors| <= TWO_32
    requires IsCaller(After(steps), k) && !After(steps).actors[k].phase.Reserved?
    ensures var s := After(steps);
            var a := s.actors[k];
            if a.mode.Async? && !a.cause.Unfinished? then
              && IdOf(k) !in s.table.calls
              && |SendsOf(s.table, IdOf(k))| == 1 && SendsOf(s.table, IdOf(k))[0].token == k
            else if a.mode.Sync? && a.phase.Replied? then
              IdOf(k) !in s.table.calls && SendsOf(s.table, IdOf(k)) == []
            else
              && IdOf(k) in s.table.calls && s.table.calls[IdOf(k)].channel == Some(k)
              && SendsOf(s.table, IdOf(k)) == []
  {
    InvHolds(steps);
    var s := After(steps);
    assert CellOf(s.table, IdOf(k)) == PrescribedAt(s.actors, k);
  }

  lemma EndedHistoryStays(s: System, step: Step, k: nat)
    requires Inv(s) && Enabled(s, step) && NoPanic(s, step)
    requires IsCaller(s, k) && !s.actors[k].phase.Reserved?
    requires Prescribed(s.actors[k], k).entry.None?
    ensures Prescribed(Next(s, step).actors[k], k) == Prescribed(s.actors[k], k)
  {
    assert ActorOk(s.actors[k], k, s.lock);
  }

  lemma EndedCellStays(s: System, step: Step, k: nat)
    requires Inv(s) && Enabled(s, step) && NoPanic(s, step) && Inv(Next(s, step))
    requires IsCaller(s, k) && !s.actors[k].phase.Reserved? && k < |Next(s, step).actors|
    requires IdOf(k) !in s.table.calls
    ensures CellOf(Next(s, step).table, IdOf(k)) == CellOf(s.table, IdOf(k))
  {
    assert CellOf(s.table, IdOf(k)) == PrescribedAt(s.actors, k);
    assert CellOf(Next(s, step).table, IdOf(k)) == PrescribedAt(Next(s, step).actors, k);
    EndedHistoryStays(s, step, k);
  }

  /** Once sent or taken, no later step of anyone changes anything at that id: it never
      re-enters the table and no second value is sent. */
  lemma {:induction false} EndIsFinal(steps: seq<Step>, step: Step, k: nat)
    requires Valid(steps) && Enabled(After(steps), step) && |Next(After(steps), step).actors| <= TWO_32
    requires IsCaller(After(steps), k) && !After(steps).actors[k].phase.Reserved?
    requires IdOf(k) !in After(steps).table.calls
    ensures CellOf(Next(After(steps), step).table, IdOf(k)) == CellOf(After(steps).table, IdOf(k))
  {
    var s := After(steps);
    ReservationsKept(s, step);
    InvHolds(steps);
    InvKept(s, step);
    EndedCellStays(s, step, k);
  }

  // -------------------------------------------------- publish before notify

  /** The host calls whose completion was queued, in that order. */
  function Announced(steps: seq<Step>): seq<nat> {
    if steps == [] then []
    else
      var last := steps[|steps| - 1];
      Announced(steps[..|steps| - 1]) + (if last.NotifyHost? then [last.k] else [])
  }

  predicate Announces(s: System, m: Message, k: nat) {
    && IsHost(s, k) && s.actors[k].host.HostNotified?
    && m == Message(IdOf(k), HostCode(IdOf(k), s.actors[k].host.result))
  }

  /** An announcement stays true, and a host call announces only once. */
  lemma AnnouncementKept(s: System, step: Step, m: Message, k: nat)
    requires Inv(s) && Enabled(s, step) && Announces(s, m, k)
    ensures Announces(Next(s, step), m, k)
    ensures step != NotifyHost(k)
  {
    assert step.Deliver? || step.LeaveLoop? || ActorOf(s, step) != k;
    OthersStay(s, step, k);
  }

  /** Delivered and queued messages are what the host calls `ks` announced, in that order. */
  predicate InOrder(s: System, ks: seq<nat>) {
    var ms := s.delivered + s.queue;
    && |ms| == |ks|
    && (forall i :: 0 <= i < |ms| ==> Announces(s, ms[i], ks[i]))
    && (forall i, j :: 0 <= i < j < |ks| ==> ks[i] != ks[j])
  }

  /** The message stream grows at its end, and only by an announcement. */
  lemma MessagesSnoc(s: System, step: Step)
    requires Enabled(s, step) && NoPanic(s, step)
    ensures var t := Next(s, step);
            var ms := s.delivered + s.queue;
            if step.NotifyHost? then
              exists m :: t.delivered + t.queue == ms + [m] && Announces(t, m, step.k)
            else t.delivered + t.queue == ms
  {
    var t := Next(s, step);
    var ms := s.delivered + s.queue;
    if step.NotifyHost? {
      var m := Message(IdOf(step.k), HostCode(IdOf(step.k), s.actors[step.k].host.result));
      assert t.delivered + t.queue == ms + [m];
      assert Announces(t, m, step.k);
    } else if step.Deliver? {
      assert [s.queue[0]] + s.queue[1..] == s.queue;
      assert t.delivered + t.queue == s.delivered + ([s.queue[0]] + s.queue[1..]);
    }
  }

  lemma OrderKept(s: System, step: Step, ks: seq<nat>)
    requires Inv(s) && Enabled(s, step) && NoPanic(s, step) && InOrder(s, ks)
    ensures InOrder(Next(s, step), ks + if step.NotifyHost? then [step.k] else [])
  {
    var t := Next(s, step);
    var ms := s.delivered + s.queue;
    forall i | 0 <= i < |ms| ensures Announces(t, ms[i], ks[i]) && step != NotifyHost(ks[i]) {
      AnnouncementKept(s, step, ms[i], ks[i]);
    }
    MessagesSnoc(s, step);
  }

  /** Delivered and queued messages, in order, are the announcements of the run, in
      order; no host call announces twice. */
  lemma {:induction false} MessagesFollowAnnouncements(steps: seq<Step>)
    requires Valid(steps) && |After(steps).actors| <= TWO_32
    ensures InOrder(After(steps), Announced(steps))
  {
    if steps == [] {
    } else {
      var init := steps[..|steps| - 1];
      ActorsAreReservations(init);
      ActorsAreReservations(steps);
      InvHolds(init);
      MessagesFollowAnnouncements(init);
      InvKept(After(init), steps[|steps| - 1]);
      OrderKept(After(init), steps[|steps| - 1], Announced(init));
    }
  }

  predicate HasResult(a: Actor, r: Outcome) {
    a.HostCall? && (a.host.HostStored? || a.host.HostNotified?) && a.host.result == r
  }

  lemma ResultStep(s: System, step: Step, k: nat, r: Outcome)
    requires Enabled(s, step)
    ensures var t := Next(s, step);
            k < |t.actors| && HasResult(t.actors[k], r) <==>
            (k < |s.actors| && HasResult(s.actors[k], r)) || step == StoreHost(k, r)
  {
    if step.Deliver? || step.LeaveLoop? || ActorOf(s, step) != k {
      OthersStay(s, step, k);
    } else if NoPanic(s, step) {
      assert Next(s, step).actors[k] == Advance(s, step);
    }
  }

  /** The result a host call's record holds is the one the run stored. */
  lemma {:induction false} ResultsMatch(steps: seq<Step>, k: nat, r: Outcome)
    requires Valid(steps)
    ensures StoreHost(k, r) in steps <==> k < |After(steps).actors| && HasResult(After(steps).actors[k], r)
  {
    if steps == [] {
    } else {
      var init, last := steps[..|steps| - 1], steps[|steps| - 1];
      assert steps == init + [last];
      ResultsMatch(init, k, r);
      ResultStep(After(init), last, k, r);
    }
  }

  /**
   Publish before notify.  Whatever is queued for or delivered to the guest names a host
   call whose callback has given one result; the table now holds exactly that result under
   the message's id, and the code is the one for it.  No id is announced twice.
   */
  lemma {:induction false} PublishBeforeNotify(steps: seq<Step>, i: nat) returns (k: nat, result: Outcome)
    requires Valid(steps) && |After(steps).actors| <= TWO_32
    requires i < |After(steps).delivered + After(steps).queue|
    ensures var ms := After(steps).delivered + After(steps).queue;
            && i < |Announced(steps)| && k == Announced(steps)[i]
            && (forall r :: StoreHost(k, r) in steps <==> r == result)
            && ms[i] == Message(IdOf(k), if result.Ok? then IdOf(k) else 0)
            && IdOf(k) in After(steps).table.calls
            && After(steps).table.calls[IdOf(k)] ==
               (match result
                case Ok(v) => CallState(None, None, Some(v), None, None, None)
                case Err(e) => CallState(None, None, None, None, Some(e), None))
            && forall j :: 0 <= j < |ms| && ms[j].id == ms[i].id ==> j == i
  {
    InvHolds(steps);
    MessagesFollowAnnouncements(steps);
    var s := After(steps);
    var ms := s.delivered + s.queue;
    k := Announced(steps)[i];
    assert Announces(s, ms[i], k);
    assert CellOf(s.table, IdOf(k)) == PrescribedAt(s.actors, k);
    result := s.actors[k].host.result;
    forall r ensures StoreHost(k, r) in steps <==> r == result {
      ResultsMatch(steps, k, r);
    }
    forall j | 0 <= j < |ms| && ms[j].id == ms[i].id ensures j == i {
      var l := Announced(steps)[j];
      assert Announces(s, ms[j], l);
      if l < k {
        IdsDistinct(l, k);
      } else if k < l {
        IdsDistinct(k, l);
      }
    }
  }

  /** A host call that has announced itself has its final entry, now and after any step. */
  lemma NotifiedEntryStays(s: System, step: Step, k: nat)
    requires Inv(s) && Enabled(s, step) && |Next(s, step).actors| <= TWO_32
    requires IsHost(s, k) && s.actors[k].host.HostNotified?
    ensures CellOf(Next(s, step).table, IdOf(k)) == CellOf(s.table, IdOf(k))
  {
    var t := Next(s, step);
    InvKept(s, step);
    assert t.actors[k] == s.actors[k];
    assert CellOf(s.table, IdOf(k)) == PrescribedAt(s.actors, k);
    assert CellOf(t.table, IdOf(k)) == PrescribedAt(t.actors, k);
  }

  /** Once announced, a host call's entry never changes again. */
  lemma {:induction false} AnnouncedIsFinal(steps: seq<Step>, step: Step, k: nat)
    requires Valid(steps) && Enabled(After(steps), step) && |Next(After(steps), step).actors| <= TWO_32
    requires k in Announced(steps)
    ensures k in Announced(steps + [step])
    ensures CellOf(Next(After(steps), step).table, IdOf(k)) == CellOf(After(steps).table, IdOf(k))
  {
    ActorsAreReservations(steps);
    InvHolds(steps);
    MessagesFollowAnnouncements(steps);
    var i :| 0 <= i < |Announced(steps)| && Announced(steps)[i] == k;
    assert Announces(After(steps), (After(steps).delivered + After(steps).queue)[i], k);
    NotifiedEntryStays(After(steps), step, k);
    assert (steps + [step])[..|steps|] == steps;
  }

  // ------------------------------------------------------ the bound is exact

  /** Every reply was earned by the caller's own dispatch or its own entry's trap. */
  ghost predicate RepliesAreOwn(steps: seq<Step>)
    requires Valid(steps)
  {
    forall k: nat :: RepliesOwn(steps, k)
  }

  ghost predicate RepliesOwn(steps: seq<Step>, k: nat)
    requires Valid(steps)
  {
    var s := After(steps);
    IsCaller(s, k) && s.actors[k].phase.Replied? ==>
      || (exists o :: Dispatch(k, o) in steps &&
            s.actors[k].phase.reply == match o case Ok(v) => Reply(v) case Err(e) => GuestCallFailure(e))
      || (exists text :: Trap(k, text) in steps && s.actors[k].phase.reply == GuestCallFailure(text))
  }

  ghost predicate SafeUpTo(n: nat) {
    forall steps | Valid(steps) && |After(steps).actors| <= n :: RepliesAreOwn(steps)
  }

  /** There is one invocation, and everybody else is a host call its guest has made. */
  predicate OneInvocation(s: System) {
    forall j: nat :: 0 < j < |s.actors| ==> s.actors[j].HostCall?
  }

  ghost predicate SafeAloneUpTo(n: nat) {
    forall steps | Valid(steps) && |After(steps).actors| <= n &&
      (forall j: nat :: 0 < j < |After(steps).actors| ==> After(steps).actors[j].HostCall?) :: RepliesAreOwn(steps)
  }

  ghost predicate PanicFree(steps: seq<Step>, n: nat)
    requires Valid(steps)
  {
    forall step | Enabled(After(steps), step) && |Next(After(steps), step).actors| <= n :: NoPanic(After(steps), step)
  }

  ghost predicate PanicFreeUpTo(n: nat) {
    forall steps | Valid(steps) :: PanicFree(steps, n)
  }

  lemma Snoc(steps: seq<Step>, step: Step)
    requires Valid(steps) && Enabled(After(steps), step)
    ensures Valid(steps + [step]) && After(steps + [step]) == Next(After(steps), step)
  {
    assert (steps + [step])[..|steps|] == steps;
  }

  /** One async call, alone: into the table ... */
  lemma InsertedAlone(inv: Invocation) returns (steps: seq<Step>)
    ensures Valid(steps) && steps == [ReserveCall(Async, inv), InsertCall(0)]
    ensures After(steps) == System(Table(map[IdOf(0) := NewCall(inv, 0)], map[]),
                                   [Caller(Async, inv, Inserted, NoTask, None, Unfinished)], Free, [], [])
  {
    var s0: seq<Step> := [];
    Snoc(s0, ReserveCall(Async, inv));
    var s1 := s0 + [ReserveCall(Async, inv)];
    Snoc(s1, InsertCall(0));
    steps := s1 + [InsertCall(0)];
  }

  /** ... and into the guest, which reads its request. */
  lemma EnteredAlone(inv: Invocation) returns (steps: seq<Step>)
    ensures Valid(steps) && steps == [ReserveCall(Async, inv), InsertCall(0), EnterGuest(0), ReadRequest(0, inv)]
    ensures After(steps) == System(Table(map[IdOf(0) := NewCall(inv, 0)], map[]),
                                   [Caller(Async, inv, InGuest, Running(inv), None, Unfinished)], Entry(0), [], [])
  {
    var s2 := InsertedAlone(inv);
    Snoc(s2, EnterGuest(0));
    var s3 := s2 + [EnterGuest(0)];
    Snoc(s3, ReadRequest(0, inv));
    steps := s3 + [ReadRequest(0, inv)];
  }

  /** Caller 0's guest has read its request and made `n` host calls, and nothing else. */
  predicate Busy(s: System, inv: Invocation, n: nat) {
    && |s.actors| == n + 1 && OneInvocation(s)
    && s.actors[0] == Caller(Async, inv, InGuest, Running(inv), None, Unfinished)
    && s.lock == Entry(0)
    && s.table.sends == map[]
    && (n > 0 ==> Get(s.table.calls, IdOf(n)) == Some(EMPTY_STATE))
  }

  predicate Answers(step: Step, k: nat) {
    (step.Dispatch? || step.Trap?) && step.k == k
  }

  ghost predicate NeverAnswered(steps: seq<Step>, k: nat) {
    forall step :: step in steps ==> !Answers(step, k)
  }

  /** One host call more, as the import makes it: the id, and at once the entry. */
  lemma StillBusy(s: System, inv: Invocation, n: nat)
    requires Busy(s, inv, n)
    ensures Enabled(s, ReserveHost(Async))
    ensures var t := Next(s, ReserveHost(Async));
            Enabled(t, InitHost(n + 1)) && Busy(Next(t, InitHost(n + 1)), inv, n + 1)
  {
    var t := Next(s, ReserveHost(Async));
    assert t.actors == s.actors + [HostCall(Async, HostReserved)];
  }

  lemma OneMoreHostCall(steps: seq<Step>, inv: Invocation, n: nat) returns (more: seq<Step>)
    requires Valid(steps) && Busy(After(steps), inv, n) && NeverAnswered(steps, 0)
    ensures Valid(more) && Busy(After(more), inv, n + 1) && NeverAnswered(more, 0)
  {
    StillBusy(After(steps), inv, n);
    Snoc(steps, ReserveHost(Async));
    var reserved := steps + [ReserveHost(Async)];
    Snoc(reserved, InitHost(n + 1));
    more := reserved + [InitHost(n + 1)];
  }

  lemma {:induction false} ManyHostCalls(inv: Invocation, n: nat) returns (steps: seq<Step>)
    ensures Valid(steps) && Busy(After(steps), inv, n) && NeverAnswered(steps, 0)
  {
    if n == 0 {
      steps := EnteredAlone(inv);
    } else {
      var fewer := ManyHostCalls(inv, n - 1);
      steps := OneMoreHostCall(fewer, inv, n - 1);
    }
  }

  /** Whoever enters the table under the id of a waiting call, an invocation or a host call,
      takes its place, and the waiting caller's oneshot fails. */
  lemma ReusedIdLosesReply(s: System, k: nat, step: Step)
    requires IsCaller(s, k) && s.actors[k].phase.Awaiting? && SendsOf(s.table, IdOf(k)) == []
    requires Enabled(s, step) && (step.InsertCall? || step.InitHost?) && step.k != k && IdOf(step.k) == IdOf(k)
    ensures var t := Next(s, step);
            && Enabled(t, AwaitReply(k))
            && Next(t, AwaitReply(k)).actors ==
               t.actors[k := s.actors[k].(phase := Replied(GuestCallFailure(Ascii("Async wait failed"))))]
  {
    var t := Next(s, step);
    assert t.table.calls[IdOf(k)].channel != Some(k);
    assert SendsOf(t.table, IdOf(k)) == [];
  }

  lemma BusyLeaves(s: System, inv: Invocation, n: nat)
    requires Busy(s, inv, n) && n > 0 && IdOf(n) == IdOf(0)
    ensures Enabled(s, LeaveGuest(0))
    ensures var t := Next(s, LeaveGuest(0));
            && Enabled(t, AwaitReply(0))
            && var u := Next(t, AwaitReply(0));
            && |u.actors| == n + 1 && OneInvocation(u)
            && u.actors[0].Caller? && u.actors[0].phase == Replied(GuestCallFailure(Ascii("Async wait failed")))
  {
    var t := Next(s, LeaveGuest(0));
    assert t.table == s.table && t.actors == s.actors[0 := s.actors[0].(phase := Awaiting)];
    assert SendsOf(t.table, IdOf(0)) == [];
  }

  /** A guest whose host calls come round to its own invocation's id loses the reply: the
      caller is told that the wait failed, though nobody answered or trapped. */
  lemma WrappedIdLosesReply(n: nat) returns (steps: seq<Step>)
    requires n > 0 && IdOf(n) == IdOf(0)
    ensures Valid(steps) && |After(steps).actors| == n + 1
    ensures forall j: nat :: 0 < j <= n ==> After(steps).actors[j].HostCall?
    ensures IsCaller(After(steps), 0)
    ensures After(steps).actors[0].phase == Replied(GuestCallFailure(Ascii("Async wait failed")))
    ensures NeverAnswered(steps, 0)
  {
    var busy := ManyHostCalls(Invocation([], []), n);
    BusyLeaves(After(busy), Invocation([], []), n);
    Snoc(busy, LeaveGuest(0));
    var left := busy + [LeaveGuest(0)];
    Snoc(left, AwaitReply(0));
    steps := left + [AwaitReply(0)];
  }

  lemma BusyAnswers(s: System, inv: Invocation, n: nat, outcome: Outcome)
    requires Busy(s, inv, n) && n > 0 && IdOf(n) == IdOf(0)
    ensures Enabled(s, Dispatch(0, outcome))
    ensures var t := Next(s, Dispatch(0, outcome));
            && Enabled(t, Publish(0))
            && var u := Next(t, Publish(0));
            && |u.actors| == n + 1 && OneInvocation(u)
            && Enabled(u, Ready(0)) && !NoPanic(u, Ready(0))
  {
    var t := Next(s, Dispatch(0, outcome));
    assert t.table == s.table && t.lock == s.lock;
    assert t.actors == s.actors[0 := s.actors[0].(task := Decided(inv, outcome))];
    var u := Next(t, Publish(0));
    assert u.actors == s.actors[0 := s.actors[0].(task := Published(inv, outcome))];
  }

  /** If such a guest does answer, finishing its call meets an entry without channel. */
  lemma WrappedIdPanics(n: nat) returns (steps: seq<Step>)
    requires n > 0 && IdOf(n) == IdOf(0)
    ensures Valid(steps) && |After(steps).actors| == n + 1
    ensures forall j: nat :: 0 < j <= n ==> After(steps).actors[j].HostCall?
    ensures Enabled(After(steps), Ready(0)) && !NoPanic(After(steps), Ready(0))
  {
    var busy := ManyHostCalls(Invocation([], []), n);
    BusyAnswers(After(busy), Invocation([], []), n, Outcome.Ok([]));
    Snoc(busy, Dispatch(0, Outcome.Ok([])));
    var decided := busy + [Dispatch(0, Outcome.Ok([]))];
    Snoc(decided, Publish(0));
    steps := decided + [Publish(0)];
  }

  /** All runs of up to `n` allocations reply correctly exactly when `n` is at most 2^32; and
      likewise the runs with a single invocation, as `WapcHost` makes them. */
  lemma BoundIsExact(n: nat)
    ensures SafeUpTo(n) <==> n <= TWO_32
    ensures SafeAloneUpTo(n) <==> n <= TWO_32
  {
    if n <= TWO_32 {
      forall steps | Valid(steps) && |After(steps).actors| <= n ensures RepliesAreOwn(steps) {
        forall k: nat ensures RepliesOwn(steps, k) {
          if IsCaller(After(steps), k) && After(steps).actors[k].phase.Replied? {
            EndToEnd(steps, k);
          }
        }
      }
    } else {
      IdCollision(0, TWO_32);
      var steps := WrappedIdLosesReply(TWO_32);
      NeverAnsweredIsNotOwn(steps);
    }
  }

  lemma NeverAnsweredIsNotOwn(steps: seq<Step>)
    requires Valid(steps) && NeverAnswered(steps, 0)
    requires IsCaller(After(steps), 0) && After(steps).actors[0].phase.Replied?
    ensures !RepliesAreOwn(steps)
  {
    forall o ensures Dispatch(0, o) !in steps {
      assert Answers(Dispatch(0, o), 0);
    }
    forall text ensures Trap(0, text) !in steps {
      assert Answers(Trap(0, text), 0);
    }
    assert !RepliesOwn(steps, 0);
  }

  /** No unwrap fails in runs of up to `n` allocations exactly when `n` is at most 2^32. */
  lemma PanicBoundIsExact(n: nat)
    ensures PanicFreeUpTo(n) <==> n <= TWO_32
  {
    if n <= TWO_32 {
      forall steps | Valid(steps) ensures PanicFree(steps, n) {
        forall step | Enabled(After(steps), step) && |Next(After(steps), step).actors| <= n
          ensures NoPanic(After(steps), step)
        {
          NeverPanics(steps, step);
        }
      }
    } else {
      IdCollision(0, TWO_32);
      var steps := WrappedIdPanics(TWO_32);
      assert Next(After(steps), Ready(0)) == After(steps);
      assert !PanicFree(steps, n);
    }
  }
}
