/**
 * The Express error middleware (backend/src/middleware/errorHandler.ts): an
 * ordered mapping from a thrown error to an HTTP status and a JSON body.
 */
module ErrorHandler {
  import opened Results
  import opened Strings

  /**
   * What a route can throw: an `ApiError` carrying its own status code, or any
   * other `Error` with a message and, for Node system errors, an errno `code`.
   */
  datatype Error =
    | ApiError(statusCode: int, message: string)
    | PlainError(message: string, code: Option<string>)

  /** The JSON body `{ success, error }`. */
  datatype Body = Body(success: bool, error: string)

  datatype Response = Response(status: int, body: Body)

  const PathTraversalMarker := "Path traversal"

  /** `new ApiError(statusCode, message)`. */
  function NewApiError(statusCode: int, message: string): (e: Error)
    ensures e.ApiError? && e.statusCode == statusCode && e.message == message
  {
    ApiError(statusCode, message)
  }

  /**
   * `errorHandler`: an ApiError answers with its own status and message; otherwise a
   * message mentioning path traversal answers 403, an ENOENT code 404, anything else 500.
   */
  function HandleError(err: Error): (r: Response)
    ensures r.body.success == false
    ensures err.ApiError? ==> r.status == err.statusCode && r.body.error == err.message
    ensures !err.ApiError? ==> r.status in {403, 404, 500}
    ensures r.status == 403 && !err.ApiError? <==> !err.ApiError? && Contains(err.message, PathTraversalMarker)
  {
    match err
    case ApiError(status, message) => Response(status, Body(false, message))
    case PlainError(message, code) =>
      if Contains(message, PathTraversalMarker) then Response(403, Body(false, "Access denied"))
      else if code == Some("ENOENT") then Response(404, Body(false, "File or directory not found"))
      else Response(500, Body(false, "Internal server error"))
  }

  /** The checks are ordered: a traversal message wins over an ENOENT code. */
  lemma TraversalBeforeNotFound(message: string)
    requires Contains(message, PathTraversalMarker)
    ensures HandleError(PlainError(message, Some("ENOENT"))) == Response(403, Body(false, "Access denied"))
  {
  }

  /** An ENOENT error whose message does not mention traversal answers 404. */
  lemma NotFoundIs404(message: string)
    requires !Contains(message, PathTraversalMarker)
    ensures HandleError(PlainError(message, Some("ENOENT"))).status == 404
  {
  }

  /** An ApiError keeps its own status even when its message mentions path traversal. */
  lemma ApiErrorFirst(status: int)
    ensures HandleError(NewApiError(status, "Path traversal")).status == status
  {
  }

  /** Whatever is not an ApiError, a traversal message or ENOENT answers 500 "Internal server error". */
  lemma FallbackIs500(message: string, code: Option<string>)
    requires !Contains(message, PathTraversalMarker) && code != Some("ENOENT")
    ensures HandleError(PlainError(message, code)) == Response(500, Body(false, "Internal server error"))
  {
  }
}
