/** How a handler ends: the response it writes, or the exception it throws. */
module Http {
  import opened Wrappers

  /** The ApiResponse body: statusCode, data (absent for the `{}` of an error reply) and message. */
  datatype Envelope<+D> = Envelope(statusCode: nat, data: Option<D>, message: string)

  datatype Outcome<+D> =
    | Respond(status: nat, body: Envelope<D>) // res.status(status).json(body)
    | Raise(status: nat, message: string)     // throw new ApiError(status, message)
    | Crash(reason: Fault)                    // any other exception escaping the handler

  /** The exceptions other than ApiError that can escape a handler. */
  datatype Fault =
    | ReadOfUndefined(property: string)  // TypeError: cannot read `property` of undefined
    | ReadOfNull(property: string)       // TypeError: cannot read `property` of null
    | RequiredPath(path: string)         // Mongoose ValidationError: a required path is undefined
    | DuplicateKey                       // MongoServerError E11000 from a unique index

  /** An error reply written directly by a handler: the same code in the status line and the envelope. */
  function Reply<D>(code: nat, message: string): Outcome<D> {
    Respond(code, Envelope(code, None, message))
  }
}
