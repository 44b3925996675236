/** The uniform command response (src/models.rs): an `ok` flag and an optional error
    message, wrapped in `Ok` on success and in `Err` on failure. */
module Models {
  import opened Errors

  datatype Option<T> = None | Some(value: T)

  /** `Response { ok, error }`. */
  datatype Response = Response(ok: bool, error: Option<string>)

  /** `CommandResult = Result<Response, Response>`. */
  datatype CommandResult = CommandOk(response: Response) | CommandErr(response: Response)

  /** The payload invariant both constructors keep: `ok` holds exactly when no error
      message is carried. */
  predicate WellFormed(r: Response)
  {
    r.ok <==> r.error.None?
  }

  /** `Response::ok()`. */
  function OkResponse(): (r: CommandResult)
    ensures r.CommandOk? && WellFormed(r.response) && r.response.ok
  {
    CommandOk(Response(true, None))
  }

  /** `Response::err(e)`: the message is the error's `Display` text. */
  function ErrResponse(e: Error): (r: CommandResult)
    ensures r.CommandErr? && WellFormed(r.response) && !r.response.ok
    ensures r.response.error == Some(Message(e))
  {
    CommandErr(Response(false, Some(Message(e))))
  }

  /** An error response determines the error it was made from, and no error response
      looks like the success response. */
  lemma ErrResponseInjective(e1: Error, e2: Error)
    ensures ErrResponse(e1) == ErrResponse(e2) <==> e1 == e2
    ensures ErrResponse(e1) != OkResponse()
  {
    if ErrResponse(e1) == ErrResponse(e2) {
      MessageInjective(e1, e2);
    }
  }
}
