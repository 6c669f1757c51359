/** Every routed action as one request type, the state change a request makes,
    and what holds over any sequence of requests. */
module Requests {
  import opened Records
  import ApplicationController
  import SessionsController
  import JournalsController
  import EntriesController
  import UsersController

  /** One request: the controller action with its path and body parameters. */
  datatype Request =
    | ApplicationHome
    | UsersIndex
    | UsersShow(id: nat)
    | SessionsNew
    | SessionsCreate(name: string, password: string)
    | SessionsDestroy
    | JournalsIndex
    | JournalsNew
    | JournalsCreate(journalForm: Option<Form>)
    | JournalsShow(id: nat)
    | EntriesNew
    | EntriesCreate(journalId: nat, entryForm: Option<Form>)
    | EntriesShow(id: nat)
    | EntriesEdit(id: nat)
    | EntriesUpdate(id: nat, entryForm: Option<Form>)
    | EntriesDestroy(id: nat)

  /** The outcome of one request. The read-only actions leave the state as it is.
      No request adds or changes a user. */
  ghost function Step(s: State, req: Request, authentic: (User, string) -> bool): (o: Outcome)
    requires s.Valid()
    ensures o.state.Valid()
    ensures o.state.users == s.users
  {
    match req
    case ApplicationHome => Outcome(s, ApplicationController.Home(s))
    case UsersIndex => Outcome(s, UsersController.Index(s))
    case UsersShow(id) => Outcome(s, UsersController.Show(s, id))
    case SessionsNew => Outcome(s, SessionsController.New(s))
    case SessionsCreate(name, password) => SessionsController.Create(s, name, password, authentic)
    case SessionsDestroy => SessionsController.Destroy(s)
    case JournalsIndex => Outcome(s, JournalsController.Index(s))
    case JournalsNew => Outcome(s, JournalsController.New(s))
    case JournalsCreate(form) => JournalsController.Create(s, form)
    case JournalsShow(id) => Outcome(s, JournalsController.Show(s, id))
    case EntriesNew => Outcome(s, EntriesController.New(s))
    case EntriesCreate(journalId, form) => EntriesController.Create(s, journalId, form)
    case EntriesShow(id) => Outcome(s, EntriesController.Show(s, id))
    case EntriesEdit(id) => Outcome(s, EntriesController.Edit(s, id))
    case EntriesUpdate(id, form) => EntriesController.Update(s, id, form)
    case EntriesDestroy(id) => EntriesController.Destroy(s, id)
  }

  /** The state after handling the requests one after another. */
  ghost function Run(s: State, reqs: seq<Request>, authentic: (User, string) -> bool): (t: State)
    requires s.Valid()
    ensures t.Valid()
    ensures t.users == s.users
    decreases |reqs|
  {
    if reqs == [] then s else Run(Step(s, reqs[0], authentic).state, reqs[1..], authentic)
  }

  /** A client with no session changes nothing, except that logging in may fill
      the session slot. */
  lemma AnonymousChangesNothing(s: State, req: Request, authentic: (User, string) -> bool)
    requires s.Valid() && s.session.None?
    ensures Step(s, req, authentic).state == s.(session := Step(s, req, authentic).state.session)
    ensures !req.SessionsCreate? ==> Step(s, req, authentic).state == s
  {
  }

  /** The actions behind verify_logged_in: every journals action and every
      entries action but show. */
  predicate NeedsLogin(req: Request) {
    req.JournalsIndex? || req.JournalsNew? || req.JournalsCreate? || req.JournalsShow? ||
    req.EntriesNew? || req.EntriesCreate? || req.EntriesEdit? || req.EntriesUpdate? || req.EntriesDestroy?
  }

  /** The current user is resolved before every action of every controller: a
      session naming no stored user makes every request, logging out included,
      answer NotFound and change nothing. */
  lemma StaleSessionBlocksEverything(s: State, req: Request, authentic: (User, string) -> bool)
    requires s.Valid() && ApplicationController.IsStale(s)
    ensures Step(s, req, authentic) == Outcome(s, NotFound)
  {
  }

  /** Without a session, the actions behind the login gate are sent to /login
      and change nothing; of the others (home, users, the login form, logout,
      showing an entry) only a failed login is sent there. */
  lemma LoginGate(s: State, req: Request, authentic: (User, string) -> bool)
    requires s.Valid() && s.session.None?
    ensures NeedsLogin(req) ==> Step(s, req, authentic) == Outcome(s, Redirect(LoginPath))
    ensures !NeedsLogin(req) && !req.SessionsCreate? ==> Step(s, req, authentic).response != Redirect(LoginPath)
  {
  }

  // ---- Entries keep their owner and journal -------------------------------

  /** From s to t, entries present in both kept owner and journal, and every
      entry that appeared got an id s had not handed out yet. */
  ghost predicate EntriesEvolve(s: State, t: State) {
    s.nextEntryId <= t.nextEntryId &&
    (forall id :: id in s.entries && id in t.entries ==>
       t.entries[id].owner == s.entries[id].owner && t.entries[id].journal == s.entries[id].journal) &&
    (forall id :: id in t.entries && id !in s.entries ==> s.nextEntryId <= id)
  }

  lemma StepEvolves(s: State, req: Request, authentic: (User, string) -> bool)
    requires s.Valid()
    ensures EntriesEvolve(s, Step(s, req, authentic).state)
  {
  }

  lemma EvolveTransitive(s: State, t: State, u: State)
    requires s.Valid()
    requires EntriesEvolve(s, t) && EntriesEvolve(t, u)
    ensures EntriesEvolve(s, u)
  {
  }

  /** Over any sequence of requests, no entry changes owner or journal: an id
      that is stored before and after denotes an entry with the same owner and
      the same journal (ids of destroyed entries are never handed out again). */
  lemma {:induction false} EntryOwnerAndJournalFixed(s: State, reqs: seq<Request>, authentic: (User, string) -> bool)
    requires s.Valid()
    ensures EntriesEvolve(s, Run(s, reqs, authentic))
    decreases |reqs|
  {
    if reqs != [] {
      var t := Step(s, reqs[0], authentic).state;
      StepEvolves(s, reqs[0], authentic);
      EntryOwnerAndJournalFixed(t, reqs[1..], authentic);
      EvolveTransitive(s, t, Run(t, reqs[1..], authentic));
    }
  }

  // ---- Only the owner touches an entry ------------------------------------

  /** The request is a login that succeeds as the user with id `uid`. */
  ghost predicate LogsInAs(users: map<nat, User>, req: Request, uid: nat, authentic: (User, string) -> bool) {
    req.SessionsCreate? &&
    SessionsController.Accepts(users, req.name, req.password, authentic) &&
    SessionsController.FindByName(users, req.name).value.id == uid
  }

  /** Every entry `owner` has in s is in t, unchanged. */
  ghost predicate OwnedKept(s: State, t: State, owner: nat) {
    forall id :: id in s.entries && s.entries[id].owner == owner ==> id in t.entries && t.entries[id] == s.entries[id]
  }

  /** A request made without owner's session, other than a login as owner, does
      not touch owner's entries and does not hand owner's session out. */
  lemma StepKeepsOwned(s: State, req: Request, owner: nat, authentic: (User, string) -> bool)
    requires s.Valid() && s.session != Some(owner)
    requires !LogsInAs(s.users, req, owner, authentic)
    ensures OwnedKept(s, Step(s, req, authentic).state, owner)
    ensures Step(s, req, authentic).state.session != Some(owner)
  {
    if req.SessionsCreate? {
      var o := Step(s, req, authentic);
      if o.state.session != s.session {
        var u := SessionsController.FindByName(s.users, req.name);
        var id :| SessionsController.IsFirstNamed(s.users, req.name, id) && u.value == s.users[id];
        assert o.state.session == Some(id);
      }
    }
  }

  /** Some request of the sequence is a login that succeeds as `uid`. */
  ghost predicate SomeLoginAs(users: map<nat, User>, reqs: seq<Request>, uid: nat, authentic: (User, string) -> bool)
    decreases |reqs|
  {
    reqs != [] && (LogsInAs(users, reqs[0], uid, authentic) || SomeLoginAs(users, reqs[1..], uid, authentic))
  }

  /** Unless the owner logs in somewhere in the sequence, no sequence of requests
      starting from another session changes or removes any of the owner's entries. */
  lemma {:induction false} OnlyOwnerTouchesEntries(s: State, reqs: seq<Request>, owner: nat, authentic: (User, string) -> bool)
    requires s.Valid() && s.session != Some(owner)
    requires !SomeLoginAs(s.users, reqs, owner, authentic)
    ensures OwnedKept(s, Run(s, reqs, authentic), owner)
    decreases |reqs|
  {
    if reqs != [] {
      var t := Step(s, reqs[0], authentic).state;
      StepKeepsOwned(s, reqs[0], owner, authentic);
      OnlyOwnerTouchesEntries(t, reqs[1..], owner, authentic);
    }
  }

  // ---- Sessions stay sound ------------------------------------------------

  /** Starting from a session that names a stored user (or none), no sequence of
      requests makes it stale: only a login writes an id, and it writes a stored one. */
  lemma {:induction false} SessionNeverStale(s: State, reqs: seq<Request>, authentic: (User, string) -> bool)
    requires s.Valid() && !ApplicationController.IsStale(s)
    ensures !ApplicationController.IsStale(Run(s, reqs, authentic))
    decreases |reqs|
  {
    if reqs != [] {
      var t := Step(s, reqs[0], authentic).state;
      SessionNeverStale(t, reqs[1..], authentic);
    }
  }
}
