/** The choice of the message ModalErrorHandler shows: a fixed user-friendly message per
    exception type, or the caller's message verbatim. */
module ErrorHandler {
  import opened Wrappers
  import opened Exceptions

  const NetworkErrorMessage: string := "Network error. Please check your internet connection and try again."
  const InvalidCredentialsMessage: string :=
    "Invalid Canvas credentials. Please check your Canvas URL and API token."
  const TimedOutMessage: string := "Request timed out. Please try again."
  const UnexpectedErrorMessage: string := "An unexpected error occurred. Please try again."

  /** GetUserFriendlyMessage: the switch on the exception's type. */
  function UserFriendlyMessage(ex: Exception): string {
    match ex
    case HttpRequestException(_) => NetworkErrorMessage
    case UnauthorizedAccessException(_) => InvalidCredentialsMessage
    case TimeoutException(_) => TimedOutMessage
    case _ => UnexpectedErrorMessage
  }

  /** Each message is chosen by exactly one kind of exception, so the message shown tells
      which kind occurred; every other exception gets the generic message. */
  lemma UserFriendlyMessageClassifies(ex: Exception)
    ensures UserFriendlyMessage(ex) == NetworkErrorMessage <==> ex.HttpRequestException?
    ensures UserFriendlyMessage(ex) == InvalidCredentialsMessage <==> ex.UnauthorizedAccessException?
    ensures UserFriendlyMessage(ex) == TimedOutMessage <==> ex.TimeoutException?
    ensures UserFriendlyMessage(ex) == UnexpectedErrorMessage <==>
      !(ex.HttpRequestException? || ex.UnauthorizedAccessException? || ex.TimeoutException?)
  {
  }

  /** The message the alert shows: HandleError(ex) picks the user-friendly message,
      HandleError(ex, userMessage) the one it is given. */
  function ShownMessage(ex: Exception, userMessage: Option<string>): string {
    match userMessage
    case None => UserFriendlyMessage(ex)
    case Some(m) => m
  }

  /** A caller's message is shown verbatim, whatever the exception; without one, two
      exceptions of the same kind show the same message. */
  lemma ShownMessageChoice(ex: Exception, other: Exception, userMessage: string)
    ensures ShownMessage(ex, Some(userMessage)) == ShownMessage(other, Some(userMessage)) == userMessage
    ensures ShownMessage(ex, None) == UserFriendlyMessage(ex)
  {
  }
}
