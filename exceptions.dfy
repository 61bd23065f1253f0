/** The exception types the application distinguishes. */
module Exceptions {

  /** SQLite's primary result code for a violated constraint (SQLITE_CONSTRAINT). */
  const SqliteConstraint: int := 19

  datatype Exception =
    | HttpRequestException(message: string)
    | UnauthorizedAccessException(message: string)
    | TimeoutException(message: string)
    | SqliteException(errorCode: int, message: string)
    | NotImplementedException
    | OtherException(typeName: string, message: string)
}
