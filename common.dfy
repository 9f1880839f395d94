/** Values shared by every service of the bookstore backend: the optional
    value, the HTTP status codes the services answer with, and the response
    envelope built by src/utils/response.ts. */
module Common {

  datatype Option<T> = None | Some(value: T) {
    function GetOr(default: T): T {
      match this
      case Some(v) => v
      case None => default
    }
  }

  // The HttpStatus members the services use.
  const OK: int := 200
  const CREATED: int := 201
  const FORBIDDEN: int := 403
  const NOT_FOUND: int := 404
  const CONFLICT: int := 409
  const UNPROCESSABLE_ENTITY: int := 422
  const INTERNAL_SERVER_ERROR: int := 500

  /** `{status, statusCode, message}` with an optional `data` member. */
  datatype Reply<T> = Reply(status: bool, statusCode: int, message: string, data: Option<T>)

  /** The `data` member of a paginated listing. */
  datatype PageData<T> = PageData(page: int, items: seq<T>, perPage: int, totalPages: int, totalItems: int)

  /** A caught exception: the services answer 500 with
      `error.message ?? 'Internal server error.'`. The message is Prisma's or
      the JavaScript runtime's text, which is not modelled; the model uses
      the fallback text in its place. */
  function InternalError<T>(): Reply<T> {
    Reply(false, INTERNAL_SERVER_ERROR, "Internal server error.", None)
  }

  /** The body a service returns when its zod schema rejects the request
      inside its own try/catch (the issue list is zod's and is not modelled). */
  function ValidationFail<T>(): Reply<T> {
    Reply(false, UNPROCESSABLE_ENTITY, "validation fail", None)
  }

  /** An error no handler of the application catches: the framework's own
      500 reply. */
  function UnhandledError<T>(): Reply<T> {
    Reply(false, INTERNAL_SERVER_ERROR, "Internal server error", None)
  }

  /** A thrown `HttpException(message, code)`, as the framework reports it. */
  function HttpError<T>(code: int, message: string): Reply<T> {
    Reply(false, code, message, None)
  }

  /** The body the global ZodExceptionFilter sends when a service without a
      try/catch lets a ZodError escape (see module ZodFilter for its errors map). */
  function FilteredValidationFail<T>(): Reply<T> {
    Reply(false, UNPROCESSABLE_ENTITY, "Validation failed", None)
  }
}
