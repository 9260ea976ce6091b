/**
 The synchronous call from end to end: the host's caller, the wasmtime provider
 with its imports, and the guest's `__guest_call` with its handler registry.
 */
module GuestCalls {
  import opened Basics
  import opened Int32
  import opened CallTable
  import opened CallResults
  import opened LinearMemory

  /** What running a handler can come to. */
  datatype Verdict = Answer(outcome: Outcome) | Traps(text: Bytes)

  type Handler = Bytes -> Verdict

  /** How a guest export comes back to the provider. */
  datatype Exit = Returns(code: int32) | Trapped(text: Bytes)

  const NO_HANDLER := Ascii("No handler registered for function ")

  function Dispatch(registry: map<Bytes, Handler>, op: Bytes, payload: Bytes): Verdict {
    if op in registry then registry[op](payload) else Answer(Err(NO_HANDLER + op))
  }

  // ---------------------------------------------------------- registration

  datatype Registration = Registration(name: Bytes, handler: Handler)

  function Registry(regs: seq<Registration>): map<Bytes, Handler> {
    if regs == [] then map[]
    else Registry(regs[..|regs| - 1])[regs[|regs| - 1].name := regs[|regs| - 1].handler]
  }

  /** The handler found for an operation is the last one registered for it. */
  lemma {:induction false} LastRegistrationWins(regs: seq<Registration>, op: Bytes, i: nat)
    requires i < |regs| && regs[i].name == op
    requires forall j :: i < j < |regs| ==> regs[j].name != op
    ensures op in Registry(regs) && Registry(regs)[op] == regs[i].handler
  {
    if i == |regs| - 1 {
    } else {
      LastRegistrationWins(regs[..|regs| - 1], op, i);
    }
  }

  lemma {:induction false} UnregisteredIsAbsent(regs: seq<Registration>, op: Bytes)
    requires forall j :: 0 <= j < |regs| ==> regs[j].name != op
    ensures op !in Registry(regs)
  {
    if regs == [] {
    } else {
      UnregisteredIsAbsent(regs[..|regs| - 1], op);
    }
  }

  // ------------------------------------------------------------- the guest

  /** Where the guest's allocator puts the two request buffers and the result. */
  datatype Placement = Placement(op: int32, req: int32, out: int32)

  /** The text or bytes a verdict hands back to the host. */
  function Handed(v: Verdict): Bytes {
    match v
    case Answer(Ok(b)) => b
    case Answer(Err(e)) => e
    case Traps(_) => []
  }

  predicate PlacedWell(size: nat, at: Placement, op: Bytes, payload: Bytes, out: Bytes) {
    && size <= TWO_32
    && |op| < TWO_31 && |payload| < TWO_31  // the guest cannot allocate more
    && Fits(size, at.op, op) && Fits(size, at.req, payload) && (at.op + |op| <= at.req || at.req + |payload| <= at.op)
    && Fits(size, at.out, out) && at.out + |out| < TWO_31
  }

  /** A memory with enough room has a place for everything. */
  lemma PlacementExists(size: nat, op: Bytes, payload: Bytes, out: Bytes)
    requires |op| + |payload| + |out| < TWO_31 && |op| + |payload| + |out| <= size <= TWO_32
    ensures PlacedWell(size, Placement(0, |op|, |op| + |payload|), op, payload, out)
  {
  }

  /** One instance: its memory, its registry, and the host table its imports reach. */
  class Instance {
    var registry: map<Bytes, Handler>
    const memory: array<byte>
    const host: ModuleState

    constructor (host: ModuleState, memory: array<byte>)
      ensures this.host == host && this.memory == memory && registry == Registry([])
    {
      this.host, this.memory, registry := host, memory, map[];
    }

    method RegisterFunction(name: Bytes, f: Handler, ghost regs: seq<Registration>)
      requires registry == Registry(regs)
      modifies `registry
      ensures registry == Registry(regs + [Registration(name, f)])
    {
      registry := registry[name := f];
      assert (regs + [Registration(name, f)])[..|regs|] == regs;
    }

    /** The `__guest_request` import. */
    method GuestRequest(id: int32, opPtr: int32, ptr: int32)
      requires host.GetGuestRequest(id).Some? ==>
                 && Fits(memory.Length, ptr, host.GetGuestRequest(id).value.msg)
                 && Fits(memory.Length, opPtr, host.GetGuestRequest(id).value.operation)
      modifies memory
      ensures memory[..] ==
              match host.GetGuestRequest(id)
              case Some(inv) => Written(Written(old(memory[..]), ptr, inv.msg), opPtr, inv.operation)
              case None => old(memory[..])
    {
      var invocation := host.GetGuestRequest(id);
      if invocation.Some? {
        WriteBytes(memory, ptr, invocation.value.msg);
        WriteBytes(memory, opPtr, invocation.value.operation);
      }
    }

    /** How both exports, `__guest_call` and `__async_guest_call`, get their request: two buffers of
        the announced lengths, the import, and `set_len`.  A pending request arrives whole; for
        an absent one the guest reads what its buffers held. */
    method ReadRequest(index: int32, opLen: int32, reqLen: int32, opPtr: int32, ptr: int32)
      returns (opbuf: Bytes, buf: Bytes)
      requires 0 <= opPtr && opPtr + GuestUsize(opLen) <= memory.Length
      requires 0 <= ptr && ptr + GuestUsize(reqLen) <= memory.Length
      requires (opPtr + GuestUsize(opLen) <= ptr || ptr + GuestUsize(reqLen) <= opPtr)
      requires host.GetGuestRequest(index).Some? ==>
                 && GuestUsize(opLen) == |host.GetGuestRequest(index).value.operation|
                 && GuestUsize(reqLen) == |host.GetGuestRequest(index).value.msg|
      modifies memory
      ensures match host.GetGuestRequest(index)
              case Some(inv) => opbuf == inv.operation && buf == inv.msg
              case None => opbuf == old(memory[..])[opPtr..opPtr + GuestUsize(opLen)] &&
                           buf == old(memory[..])[ptr..ptr + GuestUsize(reqLen)]
      ensures memory[..] ==
              match host.GetGuestRequest(index)
              case Some(inv) => Written(Written(old(memory[..]), ptr, inv.msg), opPtr, inv.operation)
              case None => old(memory[..])
    {
      ghost var before := memory[..];
      ghost var request := host.GetGuestRequest(index);
      if request.Some? {
        TwoWrites(before, opPtr, request.value.operation, ptr, request.value.msg, 0, 0);
      }
      GuestRequest(index, opPtr, ptr);
      opbuf := memory[..][opPtr..opPtr + GuestUsize(opLen)];
      buf := memory[..][ptr..ptr + GuestUsize(reqLen)];
    }

    /** `__async_guest_call` up to the spawn: the task's dispatcher is given the request. */
    method AsyncGuestCall(id: int32, opLen: int32, reqLen: int32, opPtr: int32, ptr: int32)
      returns (spawned: Invocation)
      requires 0 <= opPtr && opPtr + GuestUsize(opLen) <= memory.Length
      requires 0 <= ptr && ptr + GuestUsize(reqLen) <= memory.Length
      requires (opPtr + GuestUsize(opLen) <= ptr || ptr + GuestUsize(reqLen) <= opPtr)
      requires host.GetGuestRequest(id).Some? ==>
                 && GuestUsize(opLen) == |host.GetGuestRequest(id).value.operation|
                 && GuestUsize(reqLen) == |host.GetGuestRequest(id).value.msg|
      modifies memory
      ensures host.GetGuestRequest(id).Some? ==> spawned == host.GetGuestRequest(id).value
    {
      var opbuf, buf := ReadRequest(id, opLen, reqLen, opPtr, ptr);
      spawned := Invocation(opbuf, buf);
    }

    /** The `__guest_response` import. */
    method GuestResponse(id: int32, ptr: int32, len: int32)
      requires GetVec(memory[..], ptr, len).Some?
      modifies host`calls
      ensures host.View() == Apply(old(host.View()), Set(id, Field.GuestResponse, GetVec(memory[..], ptr, len).value))
    {
      host.SetGuestResponse(id, GetVec(memory[..], ptr, len).value);
    }

    /** The `__guest_error` import. */
    method GuestError(id: int32, ptr: int32, len: int32)
      requires GetVec(memory[..], ptr, len).Some?
      modifies host`calls
      ensures host.View() == Apply(old(host.View()), Set(id, Field.GuestError, GetVec(memory[..], ptr, len).value))
    {
      host.SetGuestError(id, GetVec(memory[..], ptr, len).value);
    }

    /** `__guest_call` for a pending request whose lengths the host has passed. */
    method GuestCall(index: int32, opLen: int32, reqLen: int32, at: Placement) returns (exit: Exit)
      requires host.GetGuestRequest(index).Some?
      requires var inv := host.GetGuestRequest(index).value;
               && GuestUsize(opLen) == |inv.operation| && GuestUsize(reqLen) == |inv.msg|
               && PlacedWell(memory.Length, at, inv.operation, inv.msg,
                             Handed(Dispatch(registry, inv.operation, inv.msg)))
      modifies memory, host`calls
      ensures var inv := old(host.GetGuestRequest(index)).value;
              match Dispatch(registry, inv.operation, inv.msg)
              case Answer(Ok(b)) =>
                exit == Returns(1) && host.View() == Apply(old(host.View()), Set(index, Field.GuestResponse, b))
              case Answer(Err(e)) =>
                exit == Returns(0) && host.View() == Apply(old(host.View()), Set(index, Field.GuestError, e))
              case Traps(text) =>
                exit == Trapped(text) && host.View() == old(host.View())
    {
      ghost var inv := host.GetGuestRequest(index).value;
      var opbuf, buf := ReadRequest(index, opLen, reqLen, at.op, at.req);
      assert buf == inv.msg && opbuf == inv.operation;
      if opbuf in registry {
        var verdict := registry[opbuf](buf);
        match verdict
        case Answer(Ok(result)) =>
          PutResult(at.out, result);
          GuestResponse(index, at.out, |result|);
          exit := Returns(1);
        case Answer(Err(errmsg)) =>
          PutResult(at.out, errmsg);
          GuestError(index, at.out, |errmsg|);
          exit := Returns(0);
        case Traps(text) =>
          exit := Trapped(text);
      } else {
        var errmsg := NO_HANDLER + opbuf;
        PutResult(at.out, errmsg);
        GuestError(index, at.out, |errmsg|);
        exit := Returns(0);
      }
    }

    /** The guest holds its result in its own memory, where the import finds it. */
    method PutResult(out: int32, bytes: Bytes)
      requires memory.Length <= TWO_32 && Fits(memory.Length, out, bytes) && out + |bytes| < TWO_31
      modifies memory
      ensures GetVec(memory[..], out, |bytes|) == Some(bytes)
    {
      WrittenReadsBack(memory[..], out, bytes, 0, 0);
      WriteBytes(memory, out, bytes);
      GetVecExact(memory[..], out, |bytes|);
    }
  }

  // -------------------------------------------------------------- the host

  /** `WapcCallContext` over a `WasmtimeCallContext`. */
  class CallContext {
    const state: ModuleState
    const guest: Instance

    constructor (guest: Instance)
      ensures this.guest == guest && state == guest.host
    {
      this.guest, state := guest, guest.host;
    }

    /** What the provider does when the sync export has come back. */
    method ReturnSync(id: int32, exit: Exit) returns (code: int32)
      modifies state`calls
      ensures match exit
              case Returns(c) => code == c && state.View() == old(state.View())
              case Trapped(text) => code == 0 && state.View() == Apply(old(state.View()), Set(id, GuestError, text))
    {
      match exit
      case Returns(c) => code := c;
      case Trapped(text) =>
        state.SetGuestError(id, text);
        code := 0;
    }

    /** And when the async export has. */
    method ReturnAsync(id: int32, exit: Option<Bytes>) returns (code: int32)
      requires id in state.calls ==> state.calls[id].channel.Some?
      modifies state`calls, state`sends
      ensures code == 0
      ensures exit.None? ==> state.View() == old(state.View())
      ensures exit.Some? ==>
                && CellSafeRun(CellOf(old(state.View()), id), TrapEvents(id, exit.value))
                && CellOf(state.View(), id) == RunCell(CellOf(old(state.View()), id), TrapEvents(id, exit.value))
      ensures forall other: int32 :: other != id ==> CellOf(state.View(), other) == CellOf(old(state.View()), other)
    {
      if exit.Some? {
        TrapPath(CellOf(state.View(), id), id, exit.value);
        state.SetGuestError(id, exit.value);
        state.SetGuestCallComplete(id, 0, []);
      }
      code := 0;
    }

    /**
     `WapcCallContext::call`.  The caller gets what the registered handler made of its
     own operation and payload, and the table is as if the call had never been.
     */
    method Call(op: Bytes, payload: Bytes, at: Placement) returns (reply: Reply)
      requires state.Valid() && guest.host == state
      requires PlacedWell(guest.memory.Length, at, op, payload, Handed(Dispatch(guest.registry, op, payload)))
      modifies state, guest.memory
      ensures state.Valid() && state.issued == old(state.issued) + 1
      ensures op in guest.registry ==>
                reply == match guest.registry[op](payload)
                         case Answer(Ok(v)) => Reply(v)
                         case Answer(Err(e)) => GuestCallFailure(e)
                         case Traps(text) => GuestCallFailure(text)
      ensures op !in guest.registry ==>
                reply == GuestCallFailure(Ascii("No handler registered for function ") + op)
      ensures state.calls == old(state.calls) - {IdOf(old(state.issued))} && state.sends == old(state.sends)
    {
      var inv := Invocation(op, payload);
      var index, rx := state.NewInvocation(inv);
      LengthRoundTrip(|op|);
      LengthRoundTrip(|payload|);
      var exit := guest.GuestCall(index, Wrap(|op|), Wrap(|payload|), at);
      var callresult := ReturnSync(index, exit);
      var taken := state.TakeState(index);
      var s := taken.value;
      if callresult == 0 {
        match s.guestError
        case Some(text) => reply := GuestCallFailure(text);
        case None => reply := GuestCallFailure(NO_ERROR_MESSAGE);
      } else {
        match s.guestResponse
        case Some(bytes) => reply := Reply(bytes);
        case None =>
          match s.guestError {
            case Some(text) => reply := GuestCallFailure(text);
            case None => reply := GuestCallFailure(NO_MESSAGE_OR_RESPONSE);
          }
      }
    }
  }

  const GUEST_CALL_FAILURE := Ascii("Guest call failure: ")

  /** `WapcHost::call` wraps the context's error once more, by its display text. */
  function AtHost(reply: Reply): Reply {
    match reply
    case Reply(_) => reply
    case GuestCallFailure(text) => GuestCallFailure(GUEST_CALL_FAILURE + text)
  }

  /** Where the last registration under a name is. */
  function LastFor(regs: seq<Registration>, op: Bytes): (r: Option<nat>)
    ensures r.Some? ==> r.value < |regs| && regs[r.value].name == op
    ensures r.Some? ==> forall j :: r.value < j < |regs| ==> regs[j].name != op
    ensures r.None? ==> forall j :: 0 <= j < |regs| ==> regs[j].name != op
  {
    if regs == [] then None
    else if regs[|regs| - 1].name == op then Some(|regs| - 1)
    else LastFor(regs[..|regs| - 1], op)
  }

  /** So the last handler registered for an operation answers it, and an operation
      without a handler is reported by name. */
  lemma {:induction false} HostCallOutcome(regs: seq<Registration>, op: Bytes, payload: Bytes)
    ensures Dispatch(Registry(regs), op, payload) ==
            match LastFor(regs, op)
            case Some(i) => regs[i].handler(payload)
            case None => Answer(Err(Ascii("No handler registered for function ") + op))
  {
    match LastFor(regs, op)
    case Some(i) => LastRegistrationWins(regs, op, i);
    case None => UnregisteredIsAbsent(regs, op);
  }

  /** `WapcHost::call`: a fresh table and a fresh instance, whose start function makes the
      registrations `regs`, for every call. */
  method HostCall(regs: seq<Registration>, memory: array<byte>, op: Bytes, payload: Bytes, at: Placement)
    returns (reply: Reply, ghost found: Option<nat>)
    requires PlacedWell(memory.Length, at, op, payload, Handed(Dispatch(Registry(regs), op, payload)))
    modifies memory
    ensures match found
            case Some(i) =>
              // The last handler registered for the operation answers, on the payload.
              && i < |regs| && regs[i].name == op && (forall j :: i < j < |regs| ==> regs[j].name != op)
              && reply == (match regs[i].handler(payload)
                           case Answer(Ok(v)) => Reply(v)
                           case Answer(Err(e)) => GuestCallFailure(Ascii("Guest call failure: ") + e)
                           case Traps(text) => GuestCallFailure(Ascii("Guest call failure: ") + text))
            case None =>
              // There is none, and the failure names the operation.
              && (forall j :: 0 <= j < |regs| ==> regs[j].name != op)
              && reply == GuestCallFailure(Ascii("Guest call failure: ") +
                                           (Ascii("No handler registered for function ") + op))
  {
    var state := new ModuleState();
    var guest := new Instance(state, memory);
    var i := 0;
    while i < |regs|
      invariant 0 <= i <= |regs|
      invariant state.Valid() && guest.registry == Registry(regs[..i])
    {
      guest.RegisterFunction(regs[i].name, regs[i].handler, regs[..i]);
      assert regs[..i + 1] == regs[..i] + [Registration(regs[i].name, regs[i].handler)];
      i := i + 1;
    }
    assert regs[..i] == regs;
    var context := new CallContext(guest);
    var inner := context.Call(op, payload, at);
    found := LastFor(regs, op);
    match found {
      case Some(i) => LastRegistrationWins(regs, op, i);
      case None => UnregisteredIsAbsent(regs, op);
    }
    reply := AtHost(inner);
  }

  /** The provider's async trap path. */
  function TrapEvents(id: int32, text: Bytes): seq<Event> {
    [Set(id, GuestError, text), Set(id, GuestResponse, []), Finish(id, 0)]
  }

  /** The trap path closes an open entry with the trap's text, whatever the guest had
      stored before; a call that has already ended it leaves alone. */
  lemma TrapPath(c: Cell, id: int32, text: Bytes)
    requires c.entry.Some? ==> c.entry.value.channel.Some?
    ensures CellSafeRun(c, TrapEvents(id, text))
    ensures RunCell(c, TrapEvents(id, text)) ==
            match c.entry
            case Some(s) =>
              Cell(None, c.sent + [Send(s.channel.value,
                Complete(s.(guestError := Some(text), guestResponse := Some([]), channel := None)))])
            case None => c
  {
    var es := TrapEvents(id, text);
    var c1 := StepCell(c, es[0]);
    var c2 := StepCell(c1, es[1]);
    assert es[1..] == [es[1], es[2]] && es[1..][1..] == [es[2]] && es[1..][1..][1..] == [];
    assert CellSafeRun(c2, [es[2]]) && RunCell(c2, [es[2]]) == StepCell(c2, es[2]);
    assert CellSafeRun(c1, [es[1], es[2]]) && RunCell(c1, [es[1], es[2]]) == RunCell(c2, [es[2]]);
  }

  // ------------------------------------------------- sync and async agree

  predicate OnlySets(es: seq<Event>, id: int32) {
    forall e :: e in es ==> e.Set? && e.id == id
  }

  /** Imports that only set fields leave the entry open, and never panic. */
  lemma {:induction false} SetsKeepOpen(c: Cell, es: seq<Event>, id: int32)
    requires OnlySets(es, id) && c.entry.Some?
    ensures CellSafeRun(c, es)
    ensures RunCell(c, es).entry.Some? && RunCell(c, es).entry.value.channel == c.entry.value.channel
    ensures RunCell(c, es).sent == c.sent
    decreases |es|
  {
    if es == [] {
    } else {
      assert es[0] in es;
      SetsKeepOpen(StepCell(c, es[0]), es[1..], id);
    }
  }

  lemma {:induction false} CellRunAppend(c: Cell, es: seq<Event>, more: seq<Event>)
    requires CellSafeRun(c, es)
    ensures CellSafeRun(c, es + more) <==> CellSafeRun(RunCell(c, es), more)
    ensures CellSafeRun(c, es + more) ==> RunCell(c, es + more) == RunCell(RunCell(c, es), more)
    decreases |es|
  {
    if es == [] {
      assert es + more == more;
    } else {
      assert (es + more)[0] == es[0] && (es + more)[1..] == es[1..] + more;
      CellRunAppend(StepCell(c, es[0]), es[1..], more);
    }
  }

  /** What the sync caller makes of a call in which the guest performed `es` and then
      returned or trapped. */
  function SyncEnd(c: Cell, es: seq<Event>, id: int32, exit: Exit): Reply
    requires OnlySets(es, id) && c.entry.Some? && c.entry.value.channel.Some?
  {
    SetsKeepOpen(c, es, id);
    var open := RunCell(c, es);
    match exit
    case Returns(code) => SyncReply(code, open.entry.value)
    case Trapped(text) => SyncReply(0, StepCell(open, Set(id, GuestError, text)).entry.value)
  }

  /** And what the async caller makes of it, through the oneshot. */
  function AsyncEnd(c: Cell, es: seq<Event>, id: int32, exit: Exit): Option<Reply>
    requires OnlySets(es, id) && c.entry.Some? && c.entry.value.channel.Some?
  {
    var tail := match exit case Returns(code) => [Finish(id, code)] case Trapped(text) => TrapEvents(id, text);
    SetsKeepOpen(c, es, id);
    if CellSafeRun(c, es + tail) then
      match Received(RunCell(c, es + tail).sent, c.entry.value.channel.value)
      case Some(status) => Some(AsyncReply(status))
      case None => None
    else None
  }

  /** The same guest steps with the same end give the same reply through `call` and
      through `call_async`. */
  lemma SyncAsyncAgree(inv: Invocation, k: nat, es: seq<Event>, exit: Exit)
    requires forall e :: e in es ==> e.Set? && e.id == IdOf(k)
    ensures var c := Cell(Some(NewCall(inv, k)), []);
            AsyncEnd(c, es, IdOf(k), exit) == Some(SyncEnd(c, es, IdOf(k), exit))
  {
    var id := IdOf(k);
    var c := Cell(Some(NewCall(inv, k)), []);
    SetsKeepOpen(c, es, id);
    match exit
    case Returns(code) =>
      CellRunAppend(c, es, [Finish(id, code)]);
    case Trapped(text) =>
      CellRunAppend(c, es, TrapEvents(id, text));
      TrapPath(RunCell(c, es), id, text);
  }

  /** What the guest last stored in a field. */
  function LastSet(es: seq<Event>, field: Field): Option<Bytes>
    requires forall e :: e in es ==> e.Set?
  {
    if es == [] then None
    else if LastSet(es[1..], field).Some? then LastSet(es[1..], field)
    else if es[0].field == field then Some(es[0].value)
    else None
  }

  /** The value at the last place where the field is set; none if there is no such place. */
  lemma {:induction false} LastSetIs(es: seq<Event>, field: Field)
    requires forall e :: e in es ==> e.Set?
    ensures LastSet(es, field).None? <==> forall j :: 0 <= j < |es| ==> es[j].field != field
    ensures forall i :: 0 <= i < |es| && es[i].field == field && (forall j :: i < j < |es| ==> es[j].field != field) ==>
              LastSet(es, field) == Some(es[i].value)
  {
    if es == [] {
    } else {
      LastSetIs(es[1..], field);
      assert forall j :: 0 < j < |es| ==> es[j] == es[1..][j - 1];
      assert forall j :: 0 <= j < |es[1..]| ==> es[1..][j] == es[j + 1];
    }
  }

  lemma {:induction false} SetsFill(c: Cell, es: seq<Event>, id: int32)
    requires OnlySets(es, id) && c.entry.Some?
    ensures CellSafeRun(c, es) && RunCell(c, es).entry.Some?
    ensures var s, r := c.entry.value, RunCell(c, es).entry.value;
            var response, error := LastSet(es, GuestResponse), LastSet(es, GuestError);
            && r.guestResponse == (if response.Some? then response else s.guestResponse)
            && r.guestError == (if error.Some? then error else s.guestError)
    decreases |es|
  {
    if es == [] {
    } else {
      assert es[0] in es;
      SetsFill(StepCell(c, es[0]), es[1..], id);
    }
  }

  /** The reply in terms of what the guest stored last, in either mode: the trap's text; for code 0
      the error; for any other code the response, else the error; and the stock texts if
      the guest stored nothing to the purpose. */
  lemma RepliesExactly(inv: Invocation, k: nat, es: seq<Event>, exit: Exit)
    requires forall e :: e in es ==> e.Set? && e.id == IdOf(k)
    ensures var c := Cell(Some(NewCall(inv, k)), []);
            var reply := SyncEnd(c, es, IdOf(k), exit);
            var response, error := LastSet(es, GuestResponse), LastSet(es, GuestError);
            && AsyncEnd(c, es, IdOf(k), exit) == Some(reply)
            && match exit
               case Trapped(text) => reply == GuestCallFailure(text)
               case Returns(code) =>
                 if code != 0 && response.Some? then reply == Reply(response.value)
                 else if error.Some? then reply == GuestCallFailure(error.value)
                 else if code == 0 then reply == GuestCallFailure(Ascii("No error message set for call failure"))
                 else reply == GuestCallFailure(Ascii("No error message OR response set for call success"))
  {
    SyncAsyncAgree(inv, k, es, exit);
    SetsFill(Cell(Some(NewCall(inv, k)), []), es, IdOf(k));
  }
}
