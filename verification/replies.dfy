/**
 * The controller layer: what a handler writes to the response, or the fault it forwards to the
 * error-handling middleware with `next(error)`.
 */
module Replies {
  import opened Wrappers
  import opened Errors
  import ErrorHandler

  /** A JSON body: either `{ message }` or the payload itself. */
  datatype Body<T> = Msg(message: string) | Json(value: T)

  datatype Reply<T> = Send(status: int, body: Body<T>) | Next(fault: Fault)

  /** How a handler answers a failed call: service errors directly, database faults via `next`. */
  function Fail<T>(f: Fault): (reply: Reply<T>)
    ensures f.Domain? ==> reply == Send(Status(f.error), Msg(Message(f.error)))
    ensures !f.Domain? ==> reply == Next(f)
  {
    match f
    case Domain(e) => Send(Status(e), Msg(Message(e)))
    case _ => Next(f)
  }

  /**
   * The shared shape of the controllers that answer with data: a success is sent as JSON
   * with the handler's success code, a failure as `Fail` says.
   */
  function Respond<T>(r: Result<T, Fault>, okStatus: int): (reply: Reply<T>)
    ensures r.Ok? <==> reply.Send? && reply.body.Json?
    ensures r.Ok? ==> reply.status == okStatus && reply.body.value == r.value
    ensures r.Err? ==> reply == Fail(r.error)
  {
    match r
    case Ok(v) => Send(okStatus, Json(v))
    case Err(f) => Fail(f)
  }

  /** The controllers that answer a success with a fixed `{ message }`. */
  function Acknowledge<T>(r: Result<T, Fault>, okStatus: int, okMessage: string): (reply: Reply<()>)
    ensures r.Ok? ==> reply == Send(okStatus, Msg(okMessage))
    ensures r.Err? ==> reply == Fail(r.error)
  {
    match r
    case Ok(_) => Send(okStatus, Msg(okMessage))
    case Err(f) => Fail(f)
  }

  /** The state after a call: the new one on success, the old one untouched on failure. */
  function After<S>(r: Result<S, Fault>, before: S): (s: S)
    ensures r.Ok? ==> s == r.value
    ensures r.Err? ==> s == before
  {
    match r
    case Ok(v) => v
    case Err(_) => before
  }

  /**
   * The controllers that write to the store and answer with the saved document: on success the
   * new store and the document sent with the handler's success code, on failure the old store.
   */
  function Commit<S, T>(r: Result<(S, T), Fault>, before: S, okStatus: int): (out: (Reply<T>, S))
    ensures r.Ok? ==> out == (Send(okStatus, Json(r.value.1)), r.value.0)
    ensures r.Err? ==> out == (Fail(r.error), before)
  {
    match r
    case Ok((after, v)) => (Send(okStatus, Json(v)), after)
    case Err(f) => (Fail(f), before)
  }

  /** A controller's own early rejection, before any service logic runs. */
  function Reject<T>(e: DomainError): (reply: Reply<T>)
    ensures reply.Send? && reply.status == Status(e) && reply.body == Msg(Message(e))
  {
    Send(Status(e), Msg(Message(e)))
  }

  /** The status the client finally receives, after the middleware for forwarded faults. */
  function FinalStatus<T>(reply: Reply<T>): (status: int)
    ensures reply.Send? ==> status == reply.status
    ensures reply.Next? ==> status >= 400
    ensures reply.Next? && (reply.fault.CastToObjectId? || reply.fault.Validation? || reply.fault.DuplicateKey?) ==>
      status == 400
    ensures reply.Next? && !(reply.fault.CastToObjectId? || reply.fault.Validation? || reply.fault.DuplicateKey?) ==>
      status == 500
  {
    match reply
    case Send(s, _) => s
    case Next(f) =>
      ErrorHandler.ForwardedFaultStatus(f);
      ErrorHandler.Handle(ErrorHandler.AsThrown(f)).status
  }

  /** A failed operation never reaches the client with a success code. */
  lemma FailureIsNeverSuccess<T>(f: Fault)
    ensures FinalStatus(Fail<T>(f)) >= 400
  {
  }
}
