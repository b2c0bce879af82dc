/** ErrorHandlingMiddleware: runs the next request handler and turns any
    exception it throws into a JSON error response. Which status and message
    the response carries depends only on the exception's type family. */
module ErrorHandling {
  import opened Common

  /** The exception types the classification distinguishes, with the standard
      subtypes that fall into each family; every other type is `OtherException`. */
  datatype ExceptionType =
    | ArgumentException
    | ArgumentNullException         // : ArgumentException
    | ArgumentOutOfRangeException   // : ArgumentException
    | InvalidOperationException
    | ObjectDisposedException       // : InvalidOperationException
    | UnauthorizedAccessException
    | DbException                   // what the database client throws
    | OtherException

  datatype Exception = Exception(kind: ExceptionType, message: string)

  predicate IsArgumentException(kind: ExceptionType) {
    kind == ArgumentException || kind == ArgumentNullException || kind == ArgumentOutOfRangeException
  }

  predicate IsInvalidOperationException(kind: ExceptionType) {
    kind == InvalidOperationException || kind == ObjectDisposedException
  }

  /** `HttpStatusCode` values used by the middleware. */
  const BadRequest: int := 400
  const Unauthorized: int := 401
  const InternalServerError: int := 500

  const UnexpectedErrorMessage: string := "An unexpected error occurred."
  const UnauthorizedMessage: string := "Unauthorized access"
  const JsonContentType: string := "application/json"

  /** The `switch` of `HandleExceptionAsync`: the status code and message it
      assigns, starting from 500 and the generic message. Client errors keep
      their message; unauthorized access and everything else get a fixed text. */
  function Classify(exception: Exception): (r: (int, string))
    ensures r.0 in {BadRequest, Unauthorized, InternalServerError}
    ensures r.0 == BadRequest
            <==> IsArgumentException(exception.kind) || IsInvalidOperationException(exception.kind)
    ensures r.0 == Unauthorized <==> exception.kind == UnauthorizedAccessException
    ensures r.0 == BadRequest ==> r.1 == exception.message
    ensures r.0 == Unauthorized ==> r.1 == UnauthorizedMessage
    ensures r.0 == InternalServerError ==> r.1 == UnexpectedErrorMessage
  {
    if IsArgumentException(exception.kind) then (BadRequest, exception.message)
    else if IsInvalidOperationException(exception.kind) then (BadRequest, exception.message)
    else if exception.kind == UnauthorizedAccessException then (Unauthorized, UnauthorizedMessage)
    else (InternalServerError, UnexpectedErrorMessage)
  }

  /** Only a 400 repeats the exception's text: for 401 and 500 the response is
      the same whatever the exception says. */
  lemma OnlyBadRequestEchoesMessage(exception: Exception, otherMessage: string)
    requires Classify(exception).0 != BadRequest
    ensures Classify(exception) == Classify(exception.(message := otherMessage))
  {
  }

  /** The anonymous object serialised as the response body. */
  datatype ErrorBody = ErrorBody(status: int, message: string, traceId: string)

  datatype ErrorResponse = ErrorResponse(statusCode: int, contentType: string, body: ErrorBody)

  /** `HandleExceptionAsync`: the response it writes. */
  function HandleException(exception: Exception, traceId: string): (r: ErrorResponse)
    ensures r.statusCode == r.body.status
    ensures (r.statusCode, r.body.message) == Classify(exception)
    ensures r.contentType == JsonContentType && r.body.traceId == traceId
  {
    var (statusCode, message) := Classify(exception);
    ErrorResponse(statusCode, JsonContentType, ErrorBody(statusCode, message, traceId))
  }

  /** How the next handler finished: with the response it wrote, or by throwing. */
  datatype NextOutcome<R> = Completed(response: R) | Threw(exception: Exception)

  /** What leaves `InvokeAsync`: there is no exception case, since the
      middleware absorbs whatever the next handler throws. */
  datatype Handled<R> = Passed(response: R) | ErrorWritten(error: ErrorResponse)

  /** `InvokeAsync`. */
  function Invoke<R>(next: NextOutcome<R>, traceId: string): (r: Handled<R>)
    ensures next.Completed? ==> r == Passed(next.response)
    ensures next.Threw? ==> r.ErrorWritten? && r.error == HandleException(next.exception, traceId)
  {
    match next
    case Completed(response) => Passed(response)
    case Threw(exception) => ErrorWritten(HandleException(exception, traceId))
  }

  /** The exception a component failure surfaces as: an ArgumentException keeps
      its message, a store failure is a database exception with the client's text. */
  function AsException(failure: Failure, storeText: string): Exception {
    match failure
    case ArgumentError(message) => Exception(ArgumentException, message)
    case StoreError(_) => Exception(DbException, storeText)
  }

  /** An argument error becomes a 400 carrying its message; a store failure a
      500 that does not reveal the client's text. */
  lemma FailureResponses(failure: Failure, storeText: string, traceId: string)
    ensures var r := HandleException(AsException(failure, storeText), traceId);
            (failure.ArgumentError? ==> r.statusCode == BadRequest && r.body.message == failure.message)
            && (failure.StoreError? ==> r.statusCode == InternalServerError && r.body.message == UnexpectedErrorMessage)
  {
  }
}
