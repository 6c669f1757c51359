/** Users: read-only listing, open to everyone (only the current-user lookup runs). */
module UsersController {
  import opened Records
  import opened ApplicationController

  /** The journals owned by the user with id `owner`: `@user.journals`. */
  function JournalsOf(journals: map<nat, Journal>, owner: nat): (m: map<nat, Journal>)
    ensures forall k :: k in m <==> k in journals && journals[k].owner == owner
    ensures forall k :: k in m ==> m[k] == journals[k]
  {
    map k | k in journals && journals[k].owner == owner :: journals[k]
  }

  /** index: every stored user, unfiltered, whether or not anyone is signed in. */
  function Index(s: State): (r: Response)
    requires s.Valid()
    ensures r == NotFound <==> IsStale(s)
    ensures r != NotFound ==> r.Render? && r.view.UsersIndexView? && r.view.users == s.users
  {
    match BeforeActions(s, false)
    case Halt(h) => h
    case Proceed(_) => Render(UsersIndexView(s.users))
  }

  /** show: the user with the given id, which must exist, and exactly the
      journals that user owns. */
  function Show(s: State, id: nat): (r: Response)
    requires s.Valid()
    ensures IsStale(s) ==> r == NotFound
    ensures !IsStale(s) && id !in s.users ==> r == NotFound
    ensures !IsStale(s) && id in s.users ==>
      r.Render? && r.view.UserShowView? && r.view.user == s.users[id] &&
      (forall k :: k in r.view.journals <==> k in s.journals && s.journals[k].owner == id) &&
      (forall k :: k in r.view.journals ==> r.view.journals[k] == s.journals[k])
  {
    match BeforeActions(s, false)
    case Halt(h) => h
    case Proceed(_) =>
      if id !in s.users then NotFound
      else Render(UserShowView(s.users[id], JournalsOf(s.journals, id)))
  }
}
