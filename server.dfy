/** The running application: the tables and the session slot as mutable fields,
    and the actions that write them, each proved to make exactly the change its
    controller's specification describes. */
module Server {
  import opened Records
  import opened ApplicationController
  import SessionsController
  import JournalsController
  import EntriesController
  import UsersController
  import opened Requests

  class App {
    var users: map<nat, User>
    var journals: map<nat, Journal>
    var entries: map<nat, Entry>
    var session: Option<nat>     // session[:user_id]
    var nextJournalId: nat
    var nextEntryId: nat

    /** The fields as one state value. */
    function Snapshot(): State
      reads this
    {
      State(users, journals, entries, session, nextJournalId, nextEntryId)
    }

    ghost predicate Valid()
      reads this
    {
      Snapshot().Valid()
    }

    /** A fresh database holding the seeded users and nothing else, with no one signed in. */
    constructor (seeded: map<nat, User>)
      requires forall k :: k in seeded ==> seeded[k].id == k
      ensures Valid()
      ensures Snapshot() == State(seeded, map[], map[], None, 0, 0)
    {
      users, journals, entries := seeded, map[], map[];
      session := None;
      nextJournalId, nextEntryId := 0, 0;
    }

    /** The before_action chain: set_current_user assigns @current_user from the
        session (failing on an unknown id), then verify_logged_in redirects to
        /login when the action needs a user and there is none. */
    method BeforeActions(loginRequired: bool) returns (g: Gate)
      requires Valid()
      ensures g == ApplicationController.BeforeActions(Snapshot(), loginRequired)
    {
      var current: Option<User> := None;
      if session.Some? {
        if session.value !in users {
          return Halt(NotFound);
        }
        current := Some(users[session.value]);
      }
      if loginRequired && current.None? {
        return Halt(Redirect(LoginPath));
      }
      g := Proceed(current);
    }

    /** sessions#create */
    method LogIn(name: string, password: string, authentic: (User, string) -> bool) returns (r: Response)
      requires Valid()
      modifies this`session
      ensures Valid()
      ensures Outcome(Snapshot(), r) == SessionsController.Create(old(Snapshot()), name, password, authentic)
    {
      var g := BeforeActions(false);
      if g.Halt? {
        return g.response;
      }
      var user := SessionsController.FindUserByName(users, name);
      if user.Some? && authentic(user.value, password) {
        session := Some(user.value.id);
        r := Redirect(UserPath(user.value.id));
      } else {
        r := Redirect(LoginPath);
      }
    }

    /** sessions#destroy */
    method LogOut() returns (r: Response)
      requires Valid()
      modifies this`session
      ensures Valid()
      ensures Outcome(Snapshot(), r) == SessionsController.Destroy(old(Snapshot()))
    {
      var g := BeforeActions(false);
      if g.Halt? {
        return g.response;
      }
      session := None;
      r := Redirect(RootPath);
    }

    /** journals#create */
    method CreateJournal(form: Option<Form>) returns (r: Response)
      requires Valid()
      modifies this`journals, this`nextJournalId
      ensures Valid()
      ensures Outcome(Snapshot(), r) == JournalsController.Create(old(Snapshot()), form)
    {
      var g := BeforeActions(true);
      if g.Halt? {
        return g.response;
      }
      var owner := g.current.value;
      if form.None? {
        return ServerError;
      }
      var id := nextJournalId;
      journals := journals[id := Journal(id, Lookup(form.value, "title"), owner.id)];
      nextJournalId := id + 1;
      r := Redirect(UserPath(owner.id));
    }

    /** entries#create */
    method CreateEntry(journalId: nat, form: Option<Form>) returns (r: Response)
      requires Valid()
      modifies this`entries, this`nextEntryId
      ensures Valid()
      ensures Outcome(Snapshot(), r) == EntriesController.Create(old(Snapshot()), journalId, form)
    {
      var g := BeforeActions(true);
      if g.Halt? {
        return g.response;
      }
      var fields := EntriesController.Permit(form);
      if fields.None? {
        return BadRequest;
      }
      var id := nextEntryId;
      var entry := Entry(id, fields.value.title, fields.value.body, g.current.value.id, journalId);
      entries := entries[id := entry];
      nextEntryId := id + 1;
      r := Redirect(EntryPath(id));
    }

    /** entries#update */
    method UpdateEntry(id: nat, form: Option<Form>) returns (r: Response)
      requires Valid()
      modifies this`entries
      ensures Valid()
      ensures Outcome(Snapshot(), r) == EntriesController.Update(old(Snapshot()), id, form)
    {
      var g := BeforeActions(true);
      if g.Halt? {
        return g.response;
      }
      if id !in entries {
        return NotFound;
      }
      var entry := entries[id];
      if entry.owner != g.current.value.id {
        return Redirect(LoginPath);
      }
      var fields := EntriesController.Permit(form);
      if fields.None? {
        return BadRequest;
      }
      if fields.value.title.Some? {
        entry := entry.(title := fields.value.title);
      }
      if fields.value.body.Some? {
        entry := entry.(body := fields.value.body);
      }
      entries := entries[id := entry];
      r := Redirect(EntryPath(id));
    }

    /** entries#destroy */
    method DestroyEntry(id: nat) returns (r: Response)
      requires Valid()
      modifies this`entries
      ensures Valid()
      ensures Outcome(Snapshot(), r) == EntriesController.Destroy(old(Snapshot()), id)
    {
      var g := BeforeActions(true);
      if g.Halt? {
        return g.response;
      }
      if id !in entries {
        return NotFound;
      }
      var entry := entries[id];
      if entry.owner != g.current.value.id {
        return Redirect(UserPath(g.current.value.id));
      }
      entries := entries - {id};
      if entry.journal in journals {
        r := Redirect(JournalPath(entry.journal));
      } else {
        r := ServerError;
      }
    }

    /** Dispatches one request to its action; the read-only actions are answered
        from the current state. */
    method Handle(req: Request, authentic: (User, string) -> bool) returns (r: Response)
      requires Valid()
      modifies this
      ensures Valid()
      ensures Outcome(Snapshot(), r) == Step(old(Snapshot()), req, authentic)
    {
      match req {
        case ApplicationHome => r := ApplicationController.Home(Snapshot());
        case UsersIndex => r := UsersController.Index(Snapshot());
        case UsersShow(id) => r := UsersController.Show(Snapshot(), id);
        case SessionsNew => r := SessionsController.New(Snapshot());
        case SessionsCreate(name, password) => r := LogIn(name, password, authentic);
        case SessionsDestroy => r := LogOut();
        case JournalsIndex => r := JournalsController.Index(Snapshot());
        case JournalsNew => r := JournalsController.New(Snapshot());
        case JournalsCreate(form) => r := CreateJournal(form);
        case JournalsShow(id) => r := JournalsController.Show(Snapshot(), id);
        case EntriesNew => r := EntriesController.New(Snapshot());
        case EntriesCreate(journalId, form) => r := CreateEntry(journalId, form);
        case EntriesShow(id) => r := EntriesController.Show(Snapshot(), id);
        case EntriesEdit(id) => r := EntriesController.Edit(Snapshot(), id);
        case EntriesUpdate(id, form) => r := UpdateEntry(id, form);
        case EntriesDestroy(id) => r := DestroyEntry(id);
      }
    }
  }
}

