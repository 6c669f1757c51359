/** Entries: public reading, login for everything else, and ownership checks on
    update and destroy. The before_action chain is set_current_user, then
    verify_logged_in (not for show), then set_entry (show, edit, update, destroy). */
module EntriesController {
  import opened Records
  import opened ApplicationController

  /** The fields strong parameters let through; an absent key stays absent. */
  datatype EntryFields = EntryFields(title: Option<string>, body: Option<string>)

  /** entry_params: `params.require(:entry)` fails on a missing or empty hash;
      `permit(:title, :body)` then keeps those two keys and drops every other,
      so the client cannot submit an owner or a journal. */
  function Permit(form: Option<Form>): (f: Option<EntryFields>)
    ensures f.None? <==> form.None? || form.value == map[]
    ensures f.Some? ==> f.value.title == Lookup(form.value, "title") && f.value.body == Lookup(form.value, "body")
  {
    if form.None? || form.value == map[] then None
    else Some(EntryFields(Lookup(form.value, "title"), Lookup(form.value, "body")))
  }

  /** Two non-empty submissions that agree on title and body are permitted alike,
      whatever other keys (user_id, journal_id, ...) they carry. */
  lemma PermitIgnoresOtherKeys(a: Form, b: Form)
    requires a != map[] && b != map[]
    requires Lookup(a, "title") == Lookup(b, "title") && Lookup(a, "body") == Lookup(b, "body")
    ensures Permit(Some(a)) == Permit(Some(b)) != None
  {
  }

  /** `@entry.update(entry_params)`: the submitted fields replace title and body;
      the id, the owner and the journal are kept. */
  function Amend(e: Entry, f: EntryFields): (e': Entry)
    ensures e'.id == e.id && e'.owner == e.owner && e'.journal == e.journal
    ensures e'.title == (if f.title.Some? then f.title else e.title)
    ensures e'.body == (if f.body.Some? then f.body else e.body)
  {
    e.(title := if f.title.Some? then f.title else e.title,
       body := if f.body.Some? then f.body else e.body)
  }

  /** new: a blank form, for signed-in users only. */
  function New(s: State): (r: Response)
    requires s.Valid()
    ensures r == NotFound <==> IsStale(s)
    ensures s.session.None? ==> r == Redirect(LoginPath)
    ensures !IsStale(s) && s.session.Some? ==> r == Render(EntryNewView)
  {
    match BeforeActions(s, true)
    case Halt(h) => h
    case Proceed(_) => Render(EntryNewView)
  }

  /** create: the new entry is owned by the current user and filed under the
      journal id of the path; only title and body come from the submission. The
      journal id is not looked up, and `save!` either stores or raises, so the
      redirect to the journal is never taken. */
  function Create(s: State, journalId: nat, form: Option<Form>): (o: Outcome)
    requires s.Valid()
    ensures o.state.Valid()
    ensures o.state == s.(entries := o.state.entries, nextEntryId := o.state.nextEntryId)
    ensures IsStale(s) ==> o == Outcome(s, NotFound)
    ensures s.session.None? ==> o == Outcome(s, Redirect(LoginPath))
    ensures !IsStale(s) && s.session.Some? && Permit(form).None? ==> o == Outcome(s, BadRequest)
    ensures forall u :: SignedInAs(s, u) && Permit(form).Some? ==>
      var id := s.nextEntryId;
      var f := Permit(form).value;
      id !in s.entries &&
      o.state.entries == s.entries[id := Entry(id, f.title, f.body, u.id, journalId)] &&
      o.response == Redirect(EntryPath(id))
  {
    match BeforeActions(s, true)
    case Halt(h) => Outcome(s, h)
    case Proceed(u) =>
      match Permit(form)
      case None => Outcome(s, BadRequest)
      case Some(f) =>
        var id := s.nextEntryId;
        var e := Entry(id, f.title, f.body, u.value.id, journalId);
        Outcome(s.(entries := s.entries[id := e], nextEntryId := id + 1), Redirect(EntryPath(id)))
  }

  /** A client cannot choose the owner or the journal of a new entry through the
      submitted fields: two submissions that agree on title and body give the
      same outcome. */
  lemma CreateIgnoresSubmittedOwner(s: State, journalId: nat, a: Form, b: Form)
    requires s.Valid()
    requires a != map[] && b != map[]
    requires Lookup(a, "title") == Lookup(b, "title") && Lookup(a, "body") == Lookup(b, "body")
    ensures Create(s, journalId, Some(a)) == Create(s, journalId, Some(b))
  {
    PermitIgnoresOtherKeys(a, b);
  }

  /** show: public; an unknown id is NotFound. */
  function Show(s: State, id: nat): (r: Response)
    requires s.Valid()
    ensures IsStale(s) ==> r == NotFound
    ensures !IsStale(s) ==> r == if id in s.entries then Render(EntryShowView(s.entries[id])) else NotFound
  {
    match BeforeActions(s, false)
    case Halt(h) => h
    case Proceed(_) => if id in s.entries then Render(EntryShowView(s.entries[id])) else NotFound
  }

  /** edit: the edit form of any existing entry, for any signed-in user; the
      ownership check happens only on update. */
  function Edit(s: State, id: nat): (r: Response)
    requires s.Valid()
    ensures IsStale(s) ==> r == NotFound
    ensures s.session.None? ==> r == Redirect(LoginPath)
    ensures !IsStale(s) && s.session.Some? ==>
      r == if id in s.entries then Render(EntryEditView(s.entries[id])) else NotFound
  {
    match BeforeActions(s, true)
    case Halt(h) => h
    case Proceed(_) => if id in s.entries then Render(EntryEditView(s.entries[id])) else NotFound
  }

  /** update: only the owner may change an entry, and only its title and body.
      Everyone else is sent to /login with the store untouched. */
  function Update(s: State, id: nat, form: Option<Form>): (o: Outcome)
    requires s.Valid()
    ensures o.state.Valid()
    ensures o.state == s.(entries := o.state.entries)
    ensures o.state.entries.Keys == s.entries.Keys
    ensures forall k :: k in s.entries && k != id ==> o.state.entries[k] == s.entries[k]
    ensures IsStale(s) ==> o == Outcome(s, NotFound)
    ensures s.session.None? ==> o == Outcome(s, Redirect(LoginPath))
    ensures !IsStale(s) && s.session.Some? && id !in s.entries ==> o == Outcome(s, NotFound)
    ensures forall u :: SignedInAs(s, u) && id in s.entries && s.entries[id].owner != u.id ==>
      o == Outcome(s, Redirect(LoginPath))
    ensures forall u :: SignedInAs(s, u) && id in s.entries && s.entries[id].owner == u.id ==>
      o == match Permit(form)
           case None => Outcome(s, BadRequest)
           case Some(f) => Outcome(s.(entries := s.entries[id := Amend(s.entries[id], f)]), Redirect(EntryPath(id)))
    ensures o.state != s ==> s.session.Some? && id in s.entries && s.session.value == s.entries[id].owner
  {
    match BeforeActions(s, true)
    case Halt(h) => Outcome(s, h)
    case Proceed(u) =>
      if id !in s.entries then Outcome(s, NotFound)
      else
        var e := s.entries[id];
        if e.owner != u.value.id then Outcome(s, Redirect(LoginPath))
        else
          match Permit(form)
          case None => Outcome(s, BadRequest)
          case Some(f) => Outcome(s.(entries := s.entries[id := Amend(e, f)]), Redirect(EntryPath(id)))
  }

  /** destroy: only the owner may delete an entry; it is removed and the client
      sent to its journal. Everyone else is sent to their own user page with the
      store untouched. If the journal is not stored, `redirect_to nil` raises
      after the entry is already gone. */
  function Destroy(s: State, id: nat): (o: Outcome)
    requires s.Valid()
    ensures o.state.Valid()
    ensures o.state == s.(entries := o.state.entries)
    ensures IsStale(s) ==> o == Outcome(s, NotFound)
    ensures s.session.None? ==> o == Outcome(s, Redirect(LoginPath))
    ensures !IsStale(s) && s.session.Some? && id !in s.entries ==> o == Outcome(s, NotFound)
    ensures forall u :: SignedInAs(s, u) && id in s.entries && s.entries[id].owner != u.id ==>
      o == Outcome(s, Redirect(UserPath(u.id)))
    ensures forall u :: SignedInAs(s, u) && id in s.entries && s.entries[id].owner == u.id ==>
      o.state.entries == s.entries - {id} &&
      o.response == (var j := s.entries[id].journal; if j in s.journals then Redirect(JournalPath(j)) else ServerError)
    ensures o.state != s ==> s.session.Some? && id in s.entries && s.session.value == s.entries[id].owner
  {
    match BeforeActions(s, true)
    case Halt(h) => Outcome(s, h)
    case Proceed(u) =>
      if id !in s.entries then Outcome(s, NotFound)
      else
        var e := s.entries[id];
        if e.owner != u.value.id then Outcome(s, Redirect(UserPath(u.value.id)))
        else
          var r := if e.journal in s.journals then Redirect(JournalPath(e.journal)) else ServerError;
          Outcome(s.(entries := s.entries - {id}), r)
  }
}
