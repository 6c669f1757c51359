/** The records the controllers work on, the responses they give, and the
    whole state of the application between two requests. */
module Records {

  datatype Option<+T> = None | Some(value: T)

  /** A submitted parameter hash such as `params[:entry]`: field name to value. */
  type Form = map<string, string>

  /** The value submitted under `key`, or none when the key is absent (Ruby's nil). */
  function Lookup(form: Form, key: string): (v: Option<string>)
    ensures v.Some? <==> key in form
    ensures v.Some? ==> v.value == form[key]
  {
    if key in form then Some(form[key]) else None
  }

  /** A registered user; the password is only ever kept as its digest. */
  datatype User = User(id: nat, name: string, passwordDigest: string)

  /** A journal; its title may be nil since nothing validates it. */
  datatype Journal = Journal(id: nat, title: Option<string>, owner: nat)

  /** An entry of a journal, owned by the user who created it. */
  datatype Entry = Entry(id: nat, title: Option<string>, body: Option<string>, owner: nat, journal: nat)

  /** The targets the controllers redirect to. */
  datatype Path =
    | RootPath                    // "/"
    | LoginPath                   // "/login"
    | UserPath(userId: nat)       // "/users/<id>"
    | JournalPath(journalId: nat) // "/journals/<id>"
    | EntryPath(entryId: nat)     // "/entries/<id>"

  /** A rendered template together with the records the action exposes to it. */
  datatype View =
    | HomeView
    | LoginView
    | UsersIndexView(users: map<nat, User>)
    | UserShowView(user: User, journals: map<nat, Journal>)
    | JournalsIndexView
    | JournalNewView(owner: nat)          // an unsaved journal owned by the current user
    | JournalShowView(journal: Journal)
    | EntryNewView
    | EntryShowView(entry: Entry)
    | EntryEditView(entry: Entry)

  /** What an action answers. NotFound stands for ActiveRecord::RecordNotFound,
      BadRequest for ActionController::ParameterMissing, ServerError for any other
      exception escaping the action. */
  datatype Response =
    | Redirect(target: Path)
    | Render(view: View)
    | NotFound
    | BadRequest
    | ServerError

  /** The database tables, the session slot `session[:user_id]`, and the next
      ids the journal and entry sequences hand out. */
  datatype State = State(
    users: map<nat, User>,
    journals: map<nat, Journal>,
    entries: map<nat, Entry>,
    session: Option<nat>,
    nextJournalId: nat,
    nextEntryId: nat)
  {
    /** Every record sits under its own id, ids come from the sequences, and every
        journal and entry is owned by a stored user. An entry's journal need not
        exist: nothing checks it. The session may name a user that is not stored. */
    ghost predicate Valid() {
      (forall k :: k in users ==> users[k].id == k) &&
      (forall k :: k in journals ==> journals[k].id == k && k < nextJournalId && journals[k].owner in users) &&
      (forall k :: k in entries ==> entries[k].id == k && k < nextEntryId && entries[k].owner in users)
    }
  }

  /** The state after an action and the response it gives. */
  datatype Outcome = Outcome(state: State, response: Response)
}
