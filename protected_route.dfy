/**
 * The route guard wrapped around the signed-in pages: a spinner while the
 * session loads, then a redirect or the page itself.
 */
module ProtectedRoute {
  import opened Wrappers

  /** The signed-in user as the auth context holds it; only the role matters here. */
  datatype User = User(name: string, email: string, role: string)

  /** The four things the guard can render. */
  datatype GuardOutcome = Spinner | RedirectToLogin | RedirectToDashboard | RenderChildren

  /** `isLibrarian`: there is a user and the role is 'librarian'. */
  predicate IsLibrarian(user: Option<User>) {
    user.Some? && user.value.role == "librarian"
  }

  /**
   * The guard's if-chain: loading first, then the missing user, then the
   * librarian requirement.
   */
  function Guard(loading: bool, user: Option<User>, requireLibrarian: bool): (g: GuardOutcome)
    ensures g == Spinner <==> loading
    ensures g == RedirectToLogin <==> !loading && user.None?
    ensures g == RedirectToDashboard <==> !loading && user.Some? && requireLibrarian && !IsLibrarian(user)
    ensures g == RenderChildren <==> !loading && user.Some? && (!requireLibrarian || IsLibrarian(user))
  {
    if loading then Spinner
    else if user.None? then RedirectToLogin
    else if requireLibrarian && !IsLibrarian(user) then RedirectToDashboard
    else RenderChildren
  }

  /**
   * Dropping the librarian requirement never turns a page away that the
   * stricter guard would show, and only ever changes a redirect to the
   * dashboard into the page.
   */
  lemma RelaxingAdmitsMore(loading: bool, user: Option<User>)
    ensures Guard(loading, user, true) == RenderChildren ==> Guard(loading, user, false) == RenderChildren
    ensures Guard(loading, user, true) != Guard(loading, user, false) ==>
      Guard(loading, user, true) == RedirectToDashboard && Guard(loading, user, false) == RenderChildren
  {
  }
}
