/** The values that travel between the models and the database, and the
    errors the application throws (expressError.js is not part of this model;
    only the error kinds and the messages the core passes are). */
module Values {
  import opened Wrappers

  /** A JavaScript value as the database driver binds it to a placeholder. */
  datatype Value = Str(s: string) | Int(i: int) | Bool(b: bool) | Null

  /** BadRequestError, NotFoundError and UnauthorizedError. An UnauthorizedError
      built without an argument carries the class's default message, written
      `None` here. `QueryError` is an error the database raises for a
      statement it refuses; the repositories do not catch it, so it reaches
      the caller unchanged. */
  datatype ExpressError =
    | BadRequest(message: string)
    | NotFound(message: string)
    | Unauthorized(reason: Option<string>)
    | QueryError(message: string)
}
