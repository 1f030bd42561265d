/**
 * The terminal errors the core reports through ApiResponse::handleErrorsResponse,
 * which throws an ApiException carrying an HTTP status and an error tag.
 */
module ApiErrors {

  datatype ApiError =
    | InvalidBracketLHS
    | InvalidParameters(errors: seq<(string, seq<string>)>)
    | QueryError(caller: string, sql: string, errno: int, message: string)
  {
    /** The HTTP status the exception carries. */
    function Status(): int {
      if QueryError? then 500 else 400
    }

    /** The `type` entry of the error body. */
    function Tag(): string {
      match this
      case InvalidBracketLHS => "InvalidBracketLHS"
      case InvalidParameters(_) => "InvalidParameters"
      case QueryError(_, _, _, _) => "QueryError"
    }
  }
}
