/**
 How the guest collects the result of a host call, against a host that files it
 under the guest's own index: the four import functions that measure and copy
 it, and the ends of `host_call` and `async_host_call`.
 */
module HostReplies {
  import opened Basics
  import opened Int32
  import opened CallTable
  import opened LinearMemory
  import opened GuestCalls

  function LengthOf(r: Option<Bytes>): nat {
    match r case Some(b) => |b| case None => 0
  }

  function BytesOf(r: Option<Bytes>): Bytes {
    match r case Some(b) => b case None => []
  }

  /** The guest has allocated a buffer of the announced length at `ptr`. */
  predicate Room(size: nat, ptr: int32, r: Option<Bytes>) {
    && 0 <= ptr <= size
    && (r.Some? ==> |r.value| < TWO_31 && Fits(size, ptr, r.value))
  }

  lemma RoomExists(size: nat, r: Option<Bytes>)
    requires r.Some? ==> |r.value| < TWO_31 && |r.value| <= size
    ensures Room(size, 0, r)
  {
  }

  /** `__host_response_len` and `__host_error_len`: the length, cut to 32 bits. */
  method MeasureReply(r: Option<Bytes>) returns (len: int32)
    ensures len == Wrap(LengthOf(r))
  {
    match r
    case Some(b) => len := Wrap(|b|);
    case None => len := 0;
  }

  /** `__host_response` and `__host_error`. */
  method CopyReply(guest: Instance, ptr: int32, r: Option<Bytes>)
    requires Room(guest.memory.Length, ptr, r)
    modifies guest.memory
    ensures guest.memory[..] == if r.Some? then Written(old(guest.memory[..]), ptr, r.value) else old(guest.memory[..])
  {
    if r.Some? {
      WriteBytes(guest.memory, ptr, r.value);
    }
  }

  /** Measure, allocate, copy, read: the guest ends up with exactly the filed bytes, or
      with none if there are none. */
  method FetchReply(guest: Instance, ptr: int32, r: Option<Bytes>) returns (buf: Bytes)
    requires Room(guest.memory.Length, ptr, r)
    modifies guest.memory
    ensures buf == BytesOf(r)
  {
    var len := MeasureReply(r);
    LengthRoundTrip(LengthOf(r));
    if r.Some? {
      WrittenReadsBack(guest.memory[..], ptr, r.value, 0, 0);
    }
    CopyReply(guest, ptr, r);
    buf := guest.memory[..][ptr..ptr + GuestUsize(len)];
  }

  /** The end of `host_call`: success is the code 1 and nothing else. */
  method HostCallEnd(guest: Instance, index: int32, callresult: int32, ptr: int32) returns (result: Outcome)
    requires Room(guest.memory.Length, ptr, guest.host.GetHostResponse(index))
    requires Room(guest.memory.Length, ptr, guest.host.GetHostError(index))
    modifies guest.memory
    ensures result == if callresult != 1 then Err(BytesOf(guest.host.GetHostError(index)))
                      else Ok(BytesOf(guest.host.GetHostResponse(index)))
    // A host that answers 1 for success and 0 for failure is understood.
    ensures forall v :: Get(guest.host.calls, index) == Some(CallState(None, None, Some(v), None, None, None)) ==>
              (result == Ok(v) <==> callresult == 1)
    ensures forall e :: Get(guest.host.calls, index) == Some(CallState(None, None, None, None, Some(e), None)) ==>
              (result == Err(e) <==> callresult != 1)
  {
    if callresult != 1 {
      var buf := FetchReply(guest, ptr, guest.host.GetHostError(index));
      result := Err(buf);
    } else {
      var buf := FetchReply(guest, ptr, guest.host.GetHostResponse(index));
      result := Ok(buf);
    }
  }

  /** The end of `async_host_call`; `callresult` is what the host returned at once, and the
      oneshot has since delivered some code.  The code is not looked at, and a refused call
      reads the error as its result, so failures come back as successes: the outcome is the
      host's exactly when its callback succeeded, with an empty response if it was refused. */
  method AsyncHostCallEnd(guest: Instance, index: int32, callresult: int32, code: int32, ptr: int32)
    returns (result: Outcome)
    requires Room(guest.memory.Length, ptr, guest.host.GetHostResponse(index))
    requires Room(guest.memory.Length, ptr, guest.host.GetHostError(index))
    modifies guest.memory
    ensures result == Ok(if callresult == 0 then BytesOf(guest.host.GetHostError(index))
                         else BytesOf(guest.host.GetHostResponse(index)))
    ensures forall v :: Get(guest.host.calls, index) == Some(CallState(None, None, Some(v), None, None, None)) ==>
              (result == Ok(v) <==> callresult != 0 || v == [])
    ensures forall e :: Get(guest.host.calls, index) == Some(CallState(None, None, None, None, Some(e), None)) ==>
              result == Ok(if callresult == 0 then e else [])
  {
    if callresult == 0 {
      var buf := FetchReply(guest, ptr, guest.host.GetHostError(index));
      result := Ok(buf);
    } else {
      var buf := FetchReply(guest, ptr, guest.host.GetHostResponse(index));
      result := Ok(buf);
    }
  }
}
