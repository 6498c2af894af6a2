/** The route guard: on every activation (mount) it reads the stored token once for
    the render and once in the effect; with a truthy token it renders its
    children and navigates nowhere, otherwise it renders null and navigates
    to its redirect target, '/' unless one is given. */
module AuthGuard {
  import opened Wrappers
  import Session

  const DefaultRedirect: string := "/"

  datatype View = Children | Nothing

  /** What one activation renders and where, if anywhere, it redirects. */
  datatype Decision = Decision(view: View, redirect: Option<string>)

  function Guard(token: Option<string>, redirectTo: string): (d: Decision)
    ensures d.view == Children <==> Session.Truthy(token)
    ensures d.redirect == if Session.Truthy(token) then None else Some(redirectTo)
  {
    if Session.Truthy(token) then Decision(Children, None)
    else Decision(Nothing, Some(redirectTo))
  }

  /** The guard without a redirectTo property. */
  function GuardDefault(token: Option<string>): (d: Decision)
    ensures !Session.Truthy(token) ==> d.redirect == Some("/")
  {
    Guard(token, DefaultRedirect)
  }

  /** On each activation (mount) exactly one of the two happens: the
      children render or a redirect is issued, never both and never
      neither. */
  lemma RenderOrRedirect(token: Option<string>, redirectTo: string)
    ensures (Guard(token, redirectTo).view == Children) != Guard(token, redirectTo).redirect.Some?
  {
  }

  /** An empty token counts as no token. */
  lemma EmptyTokenRedirects(redirectTo: string)
    ensures Guard(Some(""), redirectTo) == Guard(None, redirectTo) == Decision(Nothing, Some(redirectTo))
  {
  }

  /** After logout the next activation redirects. */
  lemma GuardAfterLogout(s: Session.SessionSlots, redirectTo: string)
    ensures Guard(Session.AfterLogout(s).token, redirectTo) == Decision(Nothing, Some(redirectTo))
  {
  }

  /** After a token-bearing login or registration the next activation
      renders its children; a refused one changes nothing the guard sees. */
  lemma GuardAfterAuth(s: Session.SessionSlots, responseOk: bool, data: Session.AuthEnvelope, redirectTo: string)
    ensures responseOk && data.success && Session.Truthy(data.token) ==>
      Guard(Session.AfterAuth(s, responseOk, data).token, redirectTo) == Decision(Children, None)
    ensures !responseOk || !data.success ==>
      Guard(Session.AfterAuth(s, responseOk, data).token, redirectTo) == Guard(s.token, redirectTo)
  {
  }
}
