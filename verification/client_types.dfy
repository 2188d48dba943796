/**
  What the browser code receives from its `fetch` calls. The client talks to
  the `/api/auth` routes and reads `success`, `message` and `user`; it is modelled on its
  own terms and is not connected to the server model.
 */
module ClientTypes {
  import opened Wrappers

  /** The `user` object of a reply. The only field the client code reads is `email`. */
  datatype ClientUser = ClientUser(email: string)

  /** A settled `fetch` followed by `response.json()`, or the exception either
      of them threw. */
  datatype Reply =
    | Reply(status: int, success: bool, message: Option<string>, user: Option<ClientUser>)
    | NetworkFailure

  const NetworkErrorMessage: string := "Network error. Please check your connection and try again."

  /** `message || fallback`: the message when present and non-empty. */
  function OrElse(message: Option<string>, fallback: string): (r: string)
    ensures fallback != "" ==> r != ""
    ensures message.Some? && message.value != "" ==> r == message.value
    ensures (message.None? || message.value == "") ==> r == fallback
  {
    match message
    case Some(m) => if m != "" then m else fallback
    case None => fallback
  }
}
