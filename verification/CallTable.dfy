/**
 The host's shared call table (`ModuleState`): a map from call ids to call
 states behind one mutex, and a wrapping id counter beside it.

 Every access made while the mutex is held is one `Event`; a method of the
 class is the composition of the events it performs.  The table as a whole is
 shown to refine one independent automaton per id.
 */
module CallTable {
  import opened Basics
  import opened Int32

  datatype Invocation = Invocation(operation: Bytes, msg: Bytes)

  /** One call.  `channel` is the sending half of a oneshot channel, named by the
      number of the allocation that created it. */
  datatype CallState = CallState(
    guestRequest: Option<Invocation>,
    guestResponse: Option<Bytes>,
    hostResponse: Option<Bytes>,
    guestError: Option<Bytes>,
    hostError: Option<Bytes>,
    channel: Option<nat>)

  /** The names are the source's: `Complete` carries code 0, the failure. */
  datatype CallStatus = Complete(state: CallState) | Error(state: CallState)

  /** A value that has been put into a oneshot channel. */
  datatype Send = Send(token: nat, status: CallStatus)

  const EMPTY_STATE := CallState(None, None, None, None, None, None)

  function NewCall(inv: Invocation, token: nat): CallState {
    EMPTY_STATE.(guestRequest := Some(inv), channel := Some(token))
  }

  // ---------------------------------------------------------------- events

  datatype Field = GuestResponse | GuestError | HostResponse | HostError

  datatype Event =
    | Insert(id: int32, state: CallState)
    | Set(id: int32, field: Field, value: Bytes)
    | Finish(id: int32, code: int32)
    | Take(id: int32)

  /** The shared table: the live calls, and per id what its channels were sent. */
  datatype Table = Table(calls: map<int32, CallState>, sends: map<int32, seq<Send>>)

  /** `finish_guest_invocation` unwraps the channel of the entry it removes. */
  predicate Panics(t: Table, e: Event) {
    e.Finish? && e.id in t.calls && t.calls[e.id].channel.None?
  }

  function SendsOf(t: Table, id: int32): seq<Send> {
    if id in t.sends then t.sends[id] else []
  }

  function StatusOf(code: int32, state: CallState): CallStatus {
    if code == 0 then Complete(state) else Error(state)
  }

  function SetField(s: CallState, field: Field, value: Bytes): CallState {
    match field
    case GuestResponse => s.(guestResponse := Some(value))
    case GuestError => s.(guestError := Some(value))
    case HostResponse => s.(hostResponse := Some(value))
    case HostError => s.(hostError := Some(value))
  }

  function Apply(t: Table, e: Event): Table
    requires !Panics(t, e)
  {
    match e
    case Insert(id, state) =>
      t.(calls := t.calls[id := state])
    case Set(id, field, value) =>
      if id in t.calls then t.(calls := t.calls[id := SetField(t.calls[id], field, value)]) else t
    case Finish(id, code) =>
      if id in t.calls then
        var c := t.calls[id];
        var status := StatusOf(code, c.(channel := None));
        Table(t.calls - {id}, t.sends[id := SendsOf(t, id) + [Send(c.channel.value, status)]])
      else t
    case Take(id) =>
      t.(calls := t.calls - {id})
  }

  predicate SafeRun(t: Table, es: seq<Event>)
    decreases |es|
  {
    es == [] || (!Panics(t, es[0]) && SafeRun(Apply(t, es[0]), es[1..]))
  }

  function Run(t: Table, es: seq<Event>): Table
    requires SafeRun(t, es)
    decreases |es|
  {
    if es == [] then t else Run(Apply(t, es[0]), es[1..])
  }

  // ------------------------------------------------- one automaton per call

  /** The automaton of a single id: its entry, and what its channels were sent. */
  datatype Cell = Cell(entry: Option<CallState>, sent: seq<Send>)

  function CellOf(t: Table, id: int32): Cell {
    Cell(Get(t.calls, id), SendsOf(t, id))
  }

  predicate CellPanics(c: Cell, e: Event) {
    e.Finish? && c.entry.Some? && c.entry.value.channel.None?
  }

  function StepCell(c: Cell, e: Event): Cell
    requires !CellPanics(c, e)
  {
    match e
    case Insert(_, state) =>
      c.(entry := Some(state))
    case Set(_, field, value) =>
      if c.entry.Some? then c.(entry := Some(SetField(c.entry.value, field, value))) else c
    case Finish(_, code) =>
      if c.entry.Some? then
        var s := c.entry.value;
        Cell(None, c.sent + [Send(s.channel.value, StatusOf(code, s.(channel := None)))])
      else c
    case Take(_) =>
      c.(entry := None)
  }

  predicate CellSafeRun(c: Cell, es: seq<Event>)
    decreases |es|
  {
    es == [] || (!CellPanics(c, es[0]) && CellSafeRun(StepCell(c, es[0]), es[1..]))
  }

  function RunCell(c: Cell, es: seq<Event>): Cell
    requires CellSafeRun(c, es)
    decreases |es|
  {
    if es == [] then c else RunCell(StepCell(c, es[0]), es[1..])
  }

  /** The events of a run that concern one id, in order. */
  function Project(es: seq<Event>, id: int32): seq<Event> {
    if es == [] then []
    else if es[0].id == id then [es[0]] + Project(es[1..], id)
    else Project(es[1..], id)
  }

  /** An event moves its own id's automaton and leaves every other one alone. */
  lemma EventIsLocal(t: Table, e: Event, id: int32)
    ensures Panics(t, e) <==> CellPanics(CellOf(t, e.id), e)
    ensures !Panics(t, e) ==>
              CellOf(Apply(t, e), id) == if id == e.id then StepCell(CellOf(t, id), e) else CellOf(t, id)
  {
  }

  /** Any run of the shared table, seen from one id, is a run of that id's automaton. */
  lemma {:induction false} RunProjects(t: Table, es: seq<Event>, id: int32)
    requires SafeRun(t, es)
    ensures CellSafeRun(CellOf(t, id), Project(es, id))
    ensures CellOf(Run(t, es), id) == RunCell(CellOf(t, id), Project(es, id))
    decreases |es|
  {
    if es == [] {
    } else {
      EventIsLocal(t, es[0], id);
      RunProjects(Apply(t, es[0]), es[1..], id);
      assert es[0].id == id ==> Project(es, id)[1..] == Project(es[1..], id);
    }
  }

  /** Conversely the table panics nowhere if no single automaton does. */
  lemma {:induction false} CellsSafeImpliesRunSafe(t: Table, es: seq<Event>)
    requires forall id: int32 :: CellSafeRun(CellOf(t, id), Project(es, id))
    ensures SafeRun(t, es)
    decreases |es|
  {
    if es == [] {
    } else {
      var e := es[0];
      assert Project(es, e.id) == [e] + Project(es[1..], e.id);
      assert CellSafeRun(CellOf(t, e.id), Project(es, e.id));
      EventIsLocal(t, e, e.id);
      forall id: int32 ensures CellSafeRun(CellOf(Apply(t, e), id), Project(es[1..], id)) {
        assert CellSafeRun(CellOf(t, id), Project(es, id));
        EventIsLocal(t, e, id);
        assert e.id == id ==> Project(es, id)[1..] == Project(es[1..], id);
      }
      CellsSafeImpliesRunSafe(Apply(t, e), es[1..]);
    }
  }

  /** Tables are determined by their cells, given the ids that have been sent to. */
  lemma TablesEqual(t: Table, u: Table)
    requires forall id: int32 :: CellOf(t, id) == CellOf(u, id)
    requires t.sends.Keys == u.sends.Keys
    ensures t == u
  {
    forall id: int32 ensures id in t.calls <==> id in u.calls
      ensures id in t.calls ==> t.calls[id] == u.calls[id]
      ensures id in t.sends ==> t.sends[id] == u.sends[id]
    {
      assert CellOf(t, id) == CellOf(u, id);
    }
    assert t.calls == u.calls && t.sends == u.sends;
  }

  lemma SentKeys(t: Table, e: Event)
    requires !Panics(t, e)
    ensures Apply(t, e).sends.Keys == t.sends.Keys + (if e.Finish? && e.id in t.calls then {e.id} else {})
  {
  }

  /** Events on different ids commute, and neither can make the other panic. */
  lemma {:induction false} EventsCommute(t: Table, d: Event, e: Event)
    requires d.id != e.id && !Panics(t, d) && !Panics(t, e)
    ensures !Panics(Apply(t, d), e) && !Panics(Apply(t, e), d)
    ensures Apply(Apply(t, d), e) == Apply(Apply(t, e), d)
  {
    var td, te := Apply(t, d), Apply(t, e);
    EventIsLocal(t, d, e.id);
    EventIsLocal(t, e, d.id);
    EventIsLocal(td, e, e.id);
    EventIsLocal(te, d, d.id);
    forall id: int32 ensures CellOf(Apply(td, e), id) == CellOf(Apply(te, d), id) {
      EventIsLocal(t, d, id);
      EventIsLocal(t, e, id);
      EventIsLocal(td, e, id);
      EventIsLocal(te, d, id);
    }
    SentKeys(t, d);
    SentKeys(t, e);
    SentKeys(td, e);
    SentKeys(te, d);
    assert e.id in td.calls <==> CellOf(td, e.id).entry.Some?;
    assert d.id in te.calls <==> CellOf(te, d.id).entry.Some?;
    TablesEqual(Apply(td, e), Apply(te, d));
  }

  /** Two interleavings that agree on every id's own events end in the same table,
      up to ids that never held anything. */
  lemma {:induction false} InterleavingsAgree(t: Table, es: seq<Event>, fs: seq<Event>, id: int32)
    requires SafeRun(t, es)
    requires forall i: int32 :: Project(es, i) == Project(fs, i)
    ensures SafeRun(t, fs)
    ensures CellOf(Run(t, es), id) == CellOf(Run(t, fs), id)
  {
    forall i: int32 ensures CellSafeRun(CellOf(t, i), Project(fs, i)) {
      RunProjects(t, es, i);
    }
    CellsSafeImpliesRunSafe(t, fs);
    RunProjects(t, es, id);
    RunProjects(t, fs, id);
  }

  lemma {:induction false} RunSnoc(t: Table, es: seq<Event>, e: Event)
    requires SafeRun(t, es) && !Panics(Run(t, es), e)
    ensures SafeRun(t, es + [e]) && Run(t, es + [e]) == Apply(Run(t, es), e)
    decreases |es|
  {
    if es == [] {
      assert es + [e] == [e] && [e][1..] == [];
    } else {
      assert (es + [e])[0] == es[0] && (es + [e])[1..] == es[1..] + [e];
      RunSnoc(Apply(t, es[0]), es[1..], e);
    }
  }

  // ------------------------------------------------------------- the class

  /** What a oneshot receiver named `token` finds. */
  function Received(sent: seq<Send>, token: nat): Option<CallStatus> {
    if sent == [] then None
    else if sent[0].token == token then Some(sent[0].status)
    else Received(sent[1..], token)
  }

  const MISSING_CALLBACK := Ascii("Missing host callback function!")

  /** The `ModuleState` handle.  `issued` counts allocations, naming the oneshot
      channels; `sends` is their far end. */
  class ModuleState {
    var calls: map<int32, CallState>
    var callIndex: int32
    var issued: nat
    var sends: map<int32, seq<Send>>

    predicate Valid() reads this {
      callIndex == IdOf(issued)
    }

    function View(): Table reads this {
      Table(calls, sends)
    }

    constructor ()
      ensures Valid() && View() == Table(map[], map[]) && issued == 0 && callIndex == 1
    {
      calls, callIndex, issued, sends := map[], 1, 0, map[];
    }

    /** `call_index.fetch_add(1)`. */
    method Allocate() returns (id: int32, ghost ordinal: nat)
      requires Valid()
      modifies `callIndex, `issued
      ensures Valid() && ordinal == old(issued) && issued == ordinal + 1
      ensures id == IdOf(ordinal) && id == old(callIndex) && callIndex == Wrap(id + 1)
    {
      id, ordinal := callIndex, issued;
      IdSuccessor(issued);
      callIndex, issued := Wrap(callIndex + 1), issued + 1;
    }

    method InitHostCall(id: int32)
      modifies `calls
      ensures View() == Apply(old(View()), Insert(id, EMPTY_STATE))
    {
      calls := calls[id := EMPTY_STATE];
    }

    method NewInvocation(inv: Invocation) returns (id: int32, rx: nat)
      requires Valid()
      modifies this
      ensures Valid() && rx == old(issued) && issued == rx + 1 && id == IdOf(rx)
      ensures View() == Apply(old(View()), Insert(id, NewCall(inv, rx)))
    {
      rx := issued;
      ghost var ordinal;
      id, ordinal := Allocate();
      calls := calls[id := NewCall(inv, rx)];
    }

    method FinishGuestInvocation(id: int32, code: int32)
      requires !Panics(View(), Finish(id, code))
      modifies `calls, `sends
      ensures View() == Apply(old(View()), Finish(id, code))
    {
      if id in calls {
        var c := calls[id];
        calls := calls - {id};
        var tx := c.channel.value;
        c := c.(channel := None);
        var earlier := if id in sends then sends[id] else [];
        if code == 0 {
          sends := sends[id := earlier + [Send(tx, Complete(c))]];
        } else {
          sends := sends[id := earlier + [Send(tx, Error(c))]];
        }
      }
    }

    method TakeState(id: int32) returns (s: Option<CallState>)
      modifies `calls
      ensures s == Get(old(calls), id)
      ensures View() == Apply(old(View()), Take(id))
    {
      s := Get(calls, id);
      calls := calls - {id};
    }

    function GetGuestRequest(id: int32): Option<Invocation> reads `calls {
      if id in calls then calls[id].guestRequest else None
    }

    function GetHostResponse(id: int32): Option<Bytes> reads `calls {
      if id in calls then calls[id].hostResponse else None
    }

    function GetHostError(id: int32): Option<Bytes> reads `calls {
      if id in calls then calls[id].hostError else None
    }

    method SetGuestError(id: int32, error: Bytes)
      modifies `calls
      ensures View() == Apply(old(View()), Set(id, GuestError, error))
    {
      if id in calls {
        calls := calls[id := calls[id].(guestError := Some(error))];
      }
    }

    method SetGuestResponse(id: int32, response: Bytes)
      modifies `calls
      ensures View() == Apply(old(View()), Set(id, GuestResponse, response))
    {
      if id in calls {
        calls := calls[id := calls[id].(guestResponse := Some(response))];
      }
    }

    method SetGuestCallComplete(id: int32, code: int32, response: Bytes)
      requires !Panics(View(), Finish(id, code))
      modifies `calls, `sends
      ensures !Panics(Apply(old(View()), Set(id, GuestResponse, response)), Finish(id, code))
      ensures View() == Apply(Apply(old(View()), Set(id, GuestResponse, response)), Finish(id, code))
    {
      SetGuestResponse(id, response);
      FinishGuestInvocation(id, code);
    }

    /** Storing a host callback's result, as the tail of both host-call methods does. */
    method StoreHostResult(id: int32, result: Outcome) returns (code: int32)
      modifies `calls
      ensures View() == Apply(old(View()), HostResultEvent(id, result))
      ensures code == match result case Ok(_) => id case Err(_) => 0
      ensures calls ==
              if id !in old(calls) then old(calls)
              else match result
                   case Ok(v) => old(calls)[id := old(calls)[id].(hostResponse := Some(v))]
                   case Err(e) => old(calls)[id := old(calls)[id].(hostError := Some(e))]
    {
      match result
      case Ok(v) =>
        if id in calls {
          calls := calls[id := calls[id].(hostResponse := Some(v))];
        }
        code := id;
      case Err(e) =>
        if id in calls {
          calls := calls[id := calls[id].(hostError := Some(e))];
        }
        code := 0;
    }

    /** `do_host_call`: `callback` is `None` when the host registered no callback,
        and otherwise what the callback answered. */
    method DoHostCall(callback: Option<Outcome>) returns (code: int32)
      requires Valid()
      modifies this
      ensures Valid() && issued == old(issued) + 1
      // The new entry holds what the callback gave and nothing else.
      ensures var id := IdOf(old(issued));
              && calls.Keys == old(calls).Keys + {id}
              && match callback
                 case Some(Ok(v)) => code == id && calls[id] == CallState(None, None, Some(v), None, None, None)
                 case Some(Err(e)) => code == 0 && calls[id] == CallState(None, None, None, None, Some(e), None)
                 case None =>
                   && code == 0
                   && calls[id] ==
                      CallState(None, None, None, None, Some(Ascii("Missing host callback function!")), None)
      ensures sends == old(sends)
      ensures forall other: int32 :: other in old(calls) && other != IdOf(old(issued)) ==>
                other in calls && calls[other] == old(calls)[other]
      // Non-positive exactly when the callback failed or the counter has gone past 2^31 - 1.
      ensures code > 0 <==> callback.Some? && callback.value.Ok? && old(issued) % TWO_32 < TWO_31 - 1
    {
      var id, ordinal := Allocate();
      InitHostCall(id);
      match callback {
        case Some(result) => code := StoreHostResult(id, result);
        case None => code := StoreHostResult(id, Err(MISSING_CALLBACK));
      }
      PositiveIds(ordinal);
    }

    /** `do_async_host_call` up to the spawn; the spawned task is `StoreHostResult`
        followed by the provider's callback with `(id, code)`. */
    method DoAsyncHostCall() returns (id: int32)
      requires Valid()
      modifies this
      ensures Valid() && issued == old(issued) + 1 && id == IdOf(old(issued))
      ensures View() == Apply(old(View()), Insert(id, EMPTY_STATE))
    {
      ghost var ordinal;
      id, ordinal := Allocate();
      InitHostCall(id);
    }
  }

  function HostResultEvent(id: int32, result: Outcome): Event {
    match result
    case Ok(v) => Set(id, HostResponse, v)
    case Err(e) => Set(id, HostError, e)
  }

  function HostCode(id: int32, result: Outcome): int32 {
    if result.Ok? then id else 0
  }

  /** The entry of a host call whose callback has answered. */
  function HostDone(result: Outcome): CallState {
    match result
    case Ok(v) => EMPTY_STATE.(hostResponse := Some(v))
    case Err(e) => EMPTY_STATE.(hostError := Some(e))
  }
}
