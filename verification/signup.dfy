/**
  What the signup form shows once its request has settled.

  The request itself, the JSON parsing and the five-second timer are not
  modelled: the decision takes their result as input and returns the
  message text, its kind, whether the form is reset and whether a hide of
  the message is scheduled. The message is made visible on every path. The
  handler never reloads the activity list, so `refreshList` is always false.
 */
module Signup {

  datatype Option<T> = None | Some(value: T)

  /** The fields of the parsed response body that the handler reads. */
  datatype Reply = Reply(ok: bool, message: Option<string>, detail: Option<string>)

  /** Either the request or the body parsing threw, or a parsed reply arrived. */
  datatype Attempt = Threw | Answered(reply: Reply)

  datatype Kind = Success | Error

  datatype Notice = Notice(
    text: string,
    kind: Kind,
    resetForm: bool,
    hideScheduled: bool,
    refreshList: bool)

  const GenericError: string := "An error occurred"

  const TransportError: string := "Failed to sign up. Please try again."

  /**
    JavaScript truthiness of an optional string: present and non-empty, so
    the `||` fallback applies exactly when the field would show as empty text.
   */
  predicate Truthy(s: Option<string>): (b: bool)
    ensures b <==> TextOf(s) != ""
    ensures b ==> s.Some?
  {
    s.Some? && s.value != ""
  }

  /** Setting `textContent` to a missing value shows empty text. */
  function TextOf(s: Option<string>): (t: string)
    ensures s.None? ==> t == ""
    ensures s.Some? ==> t == s.value
  {
    if s.Some? then s.value else ""
  }

  /** The submit handler's reaction to a settled request. */
  function Decide(a: Attempt): (n: Notice)
    ensures n.kind == Success <==> a.Answered? && a.reply.ok
    ensures n.resetForm <==> n.kind == Success
    ensures n.hideScheduled <==> a.Answered?
    ensures !n.refreshList
    ensures n.kind == Error ==> n.text != ""
    ensures a.Answered? && a.reply.ok ==> n.text == TextOf(a.reply.message)
    ensures a.Answered? && !a.reply.ok && Truthy(a.reply.detail) ==> n.text == a.reply.detail.value
    ensures a.Answered? && !a.reply.ok && !Truthy(a.reply.detail) ==> n.text == GenericError
    ensures a.Threw? ==> n.text == TransportError
  {
    match a
    case Threw =>
      Notice(TransportError, Error, false, false, false)
    case Answered(reply) =>
      if reply.ok then
        Notice(TextOf(reply.message), Success, true, true, false)
      else
        var text := if Truthy(reply.detail) then reply.detail.value else GenericError;
        Notice(text, Error, false, true, false)
  }
}
