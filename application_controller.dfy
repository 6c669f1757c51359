/** The base controller: resolving the current user from the session before
    every action, the login gate, and the home page. */
module ApplicationController {
  import opened Records

  /** Who a request is made by. Stale: the session holds a user id that no stored
      user has, so `User.find` raises. */
  datatype Resolution = Anonymous | SignedIn(user: User) | Stale

  /** The session names a user id that is not stored. */
  predicate IsStale(s: State) {
    s.session.Some? && s.session.value !in s.users
  }

  /** The session holds u's id and u is the stored user with that id. */
  predicate SignedInAs(s: State, u: User) {
    s.session == Some(u.id) && u.id in s.users && s.users[u.id] == u
  }

  /** set_current_user: no id in the session gives no user; an id gives the
      stored user with that id, or the lookup fails. */
  function CurrentUser(s: State): (c: Resolution)
    requires s.Valid()
    ensures c.Anonymous? <==> s.session.None?
    ensures c.Stale? <==> IsStale(s)
    ensures c.SignedIn? ==> SignedInAs(s, c.user)
  {
    match s.session
    case None => Anonymous
    case Some(id) => if id in s.users then SignedIn(s.users[id]) else Stale
  }

  /** Where the before_action chain leaves a request: halted with a response, or
      passed on to the action with the current user (if any). */
  datatype Gate = Halt(response: Response) | Proceed(current: Option<User>)

  /** set_current_user, then verify_logged_in when the action requires a login. */
  function BeforeActions(s: State, loginRequired: bool): (g: Gate)
    requires s.Valid()
    ensures g == Halt(NotFound) <==> IsStale(s)
    ensures g == Halt(Redirect(LoginPath)) <==> loginRequired && s.session.None?
    ensures g.Halt? ==> g == Halt(NotFound) || g == Halt(Redirect(LoginPath))
    ensures g.Proceed? ==> (g.current.None? <==> s.session.None?)
    ensures g.Proceed? && g.current.Some? ==> SignedInAs(s, g.current.value)
    ensures g.Proceed? && loginRequired ==> g.current.Some?
  {
    match CurrentUser(s)
    case Stale => Halt(NotFound)
    case Anonymous => if loginRequired then Halt(Redirect(LoginPath)) else Proceed(None)
    case SignedIn(u) => Proceed(Some(u))
  }

  /** home: public, renders the home page. */
  function Home(s: State): (r: Response)
    requires s.Valid()
    ensures r == NotFound <==> IsStale(s)
    ensures r != NotFound ==> r == Render(HomeView)
  {
    match BeforeActions(s, false)
    case Halt(h) => h
    case Proceed(_) => Render(HomeView)
  }
}
