/**
 * What the API routes answer and how the email provider's calls end.
 */
module Http {
  import opened Wrappers

  /** A response with a status and a body, or `redirect(location)`. */
  datatype Response = Reply(status: nat, body: string) | Redirect(location: string)

  /** `redirect` answers with a temporary redirect. */
  const RedirectStatus := 302

  function StatusOf(r: Response): nat {
    match r
    case Reply(status, _) => status
    case Redirect(_) => RedirectStatus
  }

  /** `JSON.stringify({ message })` for a message without quotes, backslashes or control characters. */
  function JsonMessage(message: string): string {
    "{\"message\":\"" + message + "\"}"
  }

  /** How a call to the email provider ends: it returns `{ data, error }`
      (`failed` when `error` is set), or it throws. */
  datatype Call<T> = Returned(data: Option<T>, failed: bool) | Threw

  /** A configuration value from the environment that is set and not empty. */
  predicate IsSet(v: Option<string>) {
    v.Some? && v.value != ""
  }
}
