/**
 How a finished call is turned into what the host's caller sees.
 */
module CallResults {
  import opened Basics
  import opened Int32
  import opened CallTable

  datatype Reply = Reply(value: Bytes) | GuestCallFailure(text: Bytes)

  const NO_ERROR_MESSAGE := Ascii("No error message set for call failure")
  const NO_MESSAGE_OR_RESPONSE := Ascii("No error message OR response set for call success")
  const ASYNC_WAIT_FAILED := Ascii("Async wait failed")

  function Failed(state: CallState): Reply {
    match state.guestError
    case Some(s) => GuestCallFailure(s)
    case None => GuestCallFailure(NO_ERROR_MESSAGE)
  }

  function Succeeded(state: CallState): Reply {
    match state.guestResponse
    case Some(e) => Reply(e)
    case None =>
      match state.guestError
      case Some(s) => GuestCallFailure(s)
      case None => GuestCallFailure(NO_MESSAGE_OR_RESPONSE)
  }

  /** `WapcCallContext::call`: the guest's return code and the state taken back. */
  function SyncReply(code: int32, state: CallState): Reply {
    if code == 0 then Failed(state) else Succeeded(state)
  }

  /** `WapcCallContext::call_async`: what the oneshot delivered. */
  function AsyncReply(status: CallStatus): Reply {
    match status
    case Complete(state) => Failed(state)
    case Error(state) => Succeeded(state)
  }

  /** What a caller should see when its handler or dispatcher produced `o`. */
  function ReplyFor(o: Outcome): Reply {
    match o
    case Ok(v) => Reply(v)
    case Err(e) => GuestCallFailure(e)
  }
}
