/** What one drive step of a call reports back to the caller, in the send
    half and in the receive half of the exchange. The error payload is the
    library's own error type, kept abstract as the parameter `E`. */
module States {
  import opened Bounded
  import Responses

  datatype SendState<E> =
    | Error(cause: E)          // unrecoverable; the call is finished
    | SentBody(sent: usize)    // this many body bytes just went out
    | WaitReqBody              // the caller must provide more body
    | Receiving                // the call switched to receiving
    | Done                     // finished, no response body to return
    | Wait                     // nothing yet
  {
    /** After these the call is finished. */
    predicate Terminal()
    {
      Error? || Done?
    }
  }

  datatype RecvState<E> =
    | Error(cause: E)
    | Response(resp: Responses.Response, body: Responses.ResponseBody)
    | ReceivedBody(received: usize)
    | DoneWithBody(bytes: seq<byte>)
    | Sending                  // back to sending: redirect or digest auth
    | Done
    | Wait
  {
    /** After these the call is finished: a response is final only when no
        body follows it. */
    predicate Terminal()
    {
      match this
      case Error(_) => true
      case Done => true
      case DoneWithBody(_) => true
      case Response(_, b) => b.IsEmpty()
      case _ => false
    }
  }

  /** A receive step is final exactly for an error, a completion, or a
      response announced with a zero-length body; a response with a
      streamed or non-empty body is not. */
  lemma RecvTerminalIff<E>(s: RecvState<E>)
    ensures s.Terminal() <==>
      (|| s.Error? || s.Done? || s.DoneWithBody?
       || (s.Response? && s.body == Responses.Sized(0)))
    ensures s.Response? && s.body.Streamed? ==> !s.Terminal()
  {
  }

  /** A send step ends the call only on an error or a completion; the
      progress, wait and phase-switch signals never do. */
  lemma SendTerminalIff<E>(s: SendState<E>)
    ensures s.Terminal() <==> !(s.SentBody? || s.WaitReqBody? || s.Receiving? || s.Wait?)
  {
  }
}
