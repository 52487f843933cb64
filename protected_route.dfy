/**
  The route guard (client/src/components/ProtectedRoute/ProtectedRoute.jsx): what a
  protected page shows for the session the auth context reports.
*/
module ProtectedRoute {
  import opened Wrappers

  /** The signed-in user as the auth context holds it; only the admin flag matters here. */
  datatype SessionUser = SessionUser(id: nat, username: string, isAdmin: bool)

  /** What the guard renders. */
  datatype View = LoadingView | Redirect(to: string) | Children

  /** `ProtectedRoute({ children, requireAdmin })` given `{ user, loading }`. */
  function Guard(loading: bool, user: Option<SessionUser>, requireAdmin: bool): View
  {
    if loading then LoadingView
    else if user.None? then Redirect("/login")
    else if requireAdmin && !user.value.isAdmin then Redirect("/")
    else Children
  }

  /** The page is shown exactly when the session has loaded, someone is signed in, and an admin reaches any admin page. */
  lemma GuardSpec(loading: bool, user: Option<SessionUser>, requireAdmin: bool)
    ensures Guard(loading, user, requireAdmin) == Children <==>
      !loading && user.Some? && (!requireAdmin || user.value.isAdmin)
  {
  }

  /** On a page that does not require an admin, the admin flag makes no difference. */
  lemma AdminFlagIrrelevant(loading: bool, user: SessionUser)
    ensures Guard(loading, Some(user), false) == Guard(loading, Some(user.(isAdmin := !user.isAdmin)), false)
  {
  }

  /** Requiring an admin never lets more visitors through: what an admin page shows, a plain page shows too. */
  lemma AdminPageStricter(loading: bool, user: Option<SessionUser>)
    ensures Guard(loading, user, true) == Children ==> Guard(loading, user, false) == Children
    ensures Guard(loading, user, true) != Guard(loading, user, false) ==> Guard(loading, user, true) == Redirect("/")
  {
  }
}
