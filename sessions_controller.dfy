/** Logging in and out: the only actions that write `session[:user_id]`. */
module SessionsController {
  import opened Records
  import opened ApplicationController

  /** id is the least id among the stored users called `name`: the row
      `User.find_by(name: name)` answers. */
  ghost predicate IsFirstNamed(users: map<nat, User>, name: string, id: nat) {
    id in users && users[id].name == name &&
    forall k :: k in users && users[k].name == name ==> id <= k
  }

  /** Whenever some user is called `name`, one of them has the least id. */
  lemma {:induction false} FirstNamedExists(users: map<nat, User>, name: string, id: nat)
    requires id in users && users[id].name == name
    ensures exists m :: IsFirstNamed(users, name, m)
    decreases id
  {
    if !IsFirstNamed(users, name, id) {
      var k :| k in users && users[k].name == name && k < id;
      FirstNamedExists(users, name, k);
    }
  }

  /** `User.find_by(name:)`: the first stored user with that name, if any. */
  ghost function FindByName(users: map<nat, User>, name: string): (r: Option<User>)
    ensures r.None? <==> forall k :: k in users ==> users[k].name != name
    ensures r.Some? ==> exists id :: IsFirstNamed(users, name, id) && r.value == users[id]
  {
    if exists k :: k in users && users[k].name == name then
      var k :| k in users && users[k].name == name;
      FirstNamedExists(users, name, k);
      var m :| IsFirstNamed(users, name, m);
      Some(users[m])
    else
      None
  }

  /** The lookup as a scan over the users table, keeping the least matching id. */
  method FindUserByName(users: map<nat, User>, name: string) returns (r: Option<User>)
    ensures r == FindByName(users, name)
  {
    var rest := users.Keys;
    var best: Option<nat> := None;
    while rest != {}
      invariant rest <= users.Keys
      invariant best.Some? ==> best.value in users && users[best.value].name == name && best.value !in rest
      invariant best.Some? ==> forall k :: k in users.Keys - rest && users[k].name == name ==> best.value <= k
      invariant best.None? ==> forall k :: k in users.Keys - rest ==> users[k].name != name
      decreases rest
    {
      var k :| k in rest;
      if users[k].name == name && (best.None? || k < best.value) {
        best := Some(k);
      }
      rest := rest - {k};
    }
    if best.Some? {
      assert IsFirstNamed(users, name, best.value);
      r := Some(users[best.value]);
    } else {
      r := None;
    }
  }

  /** The credentials are accepted: a user with that name exists and the
      password authenticates the one `find_by` returns. */
  ghost predicate Accepts(users: map<nat, User>, name: string, password: string, authentic: (User, string) -> bool) {
    var u := FindByName(users, name);
    u.Some? && authentic(u.value, password)
  }

  /** new: the login form, public. */
  function New(s: State): (r: Response)
    requires s.Valid()
    ensures r == NotFound <==> IsStale(s)
    ensures r != NotFound ==> r == Render(LoginView)
  {
    match BeforeActions(s, false)
    case Halt(h) => h
    case Proceed(_) => Render(LoginView)
  }

  /** create (log in). Only the session slot may change. On success it holds the
      id of the user found by name, whatever it held before; on failure nothing
      changes and the client is sent back to /login. */
  ghost function Create(s: State, name: string, password: string, authentic: (User, string) -> bool): (o: Outcome)
    requires s.Valid()
    ensures o.state == s.(session := o.state.session)
    ensures IsStale(s) ==> o == Outcome(s, NotFound)
    ensures !IsStale(s) && !Accepts(s.users, name, password, authentic) ==> o == Outcome(s, Redirect(LoginPath))
    ensures !IsStale(s) && Accepts(s.users, name, password, authentic) ==>
      exists id :: IsFirstNamed(s.users, name, id) && authentic(s.users[id], password) &&
        o == Outcome(s.(session := Some(id)), Redirect(UserPath(id)))
    ensures o.state.session != s.session ==> o.state.session.Some? && o.state.session.value in s.users
  {
    match BeforeActions(s, false)
    case Halt(h) => Outcome(s, h)
    case Proceed(_) =>
      var u := FindByName(s.users, name);
      if u.Some? && authentic(u.value, password) then
        Outcome(s.(session := Some(u.value.id)), Redirect(UserPath(u.value.id)))
      else
        Outcome(s, Redirect(LoginPath))
  }

  /** destroy (log out): the session slot becomes empty and the client goes to "/". */
  function Destroy(s: State): (o: Outcome)
    requires s.Valid()
    ensures IsStale(s) ==> o == Outcome(s, NotFound)
    ensures !IsStale(s) ==> o.state == s.(session := None) && o.response == Redirect(RootPath)
  {
    match BeforeActions(s, false)
    case Halt(h) => Outcome(s, h)
    case Proceed(_) => Outcome(s.(session := None), Redirect(RootPath))
  }

  /** Logging out twice leaves the same state, and gives the same response, as once. */
  lemma LogoutIdempotent(s: State)
    requires s.Valid()
    ensures Destroy(s).state.Valid()
    ensures Destroy(Destroy(s).state) == Destroy(s)
  {
  }
}
