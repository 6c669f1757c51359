/** Journals: every action sits behind the login gate. */
module JournalsController {
  import opened Records
  import opened ApplicationController

  /** index: the (empty) list page, for signed-in users only. */
  function Index(s: State): (r: Response)
    requires s.Valid()
    ensures r == NotFound <==> IsStale(s)
    ensures s.session.None? ==> r == Redirect(LoginPath)
    ensures !IsStale(s) && s.session.Some? ==> r == Render(JournalsIndexView)
  {
    match BeforeActions(s, true)
    case Halt(h) => h
    case Proceed(_) => Render(JournalsIndexView)
  }

  /** new: the form for an unsaved journal owned by the current user; nothing is stored. */
  function New(s: State): (r: Response)
    requires s.Valid()
    ensures r == NotFound <==> IsStale(s)
    ensures s.session.None? ==> r == Redirect(LoginPath)
    ensures forall u :: SignedInAs(s, u) ==> r == Render(JournalNewView(u.id))
  {
    match BeforeActions(s, true)
    case Halt(h) => h
    case Proceed(u) => Render(JournalNewView(u.value.id))
  }

  /** show: the journal with the given id, which must exist. */
  function Show(s: State, id: nat): (r: Response)
    requires s.Valid()
    ensures IsStale(s) ==> r == NotFound
    ensures s.session.None? ==> r == Redirect(LoginPath)
    ensures !IsStale(s) && s.session.Some? ==>
      r == if id in s.journals then Render(JournalShowView(s.journals[id])) else NotFound
  {
    match BeforeActions(s, true)
    case Halt(h) => h
    case Proceed(_) => if id in s.journals then Render(JournalShowView(s.journals[id])) else NotFound
  }

  /** create: stores exactly one new journal, titled with whatever was submitted
      (the title is not checked, and may be absent), owned by the current user,
      then redirects to that user's page. Without a `journal` hash the title
      lookup fails on nil. */
  function Create(s: State, form: Option<Form>): (o: Outcome)
    requires s.Valid()
    ensures o.state.Valid()
    ensures o.state == s.(journals := o.state.journals, nextJournalId := o.state.nextJournalId)
    ensures IsStale(s) ==> o == Outcome(s, NotFound)
    ensures s.session.None? ==> o == Outcome(s, Redirect(LoginPath))
    ensures forall u :: SignedInAs(s, u) && form.None? ==> o == Outcome(s, ServerError)
    ensures forall u :: SignedInAs(s, u) && form.Some? ==>
      var id := s.nextJournalId;
      id !in s.journals &&
      o.state.journals == s.journals[id := Journal(id, Lookup(form.value, "title"), u.id)] &&
      |o.state.journals| == |s.journals| + 1 &&
      o.response == Redirect(UserPath(u.id))
  {
    match BeforeActions(s, true)
    case Halt(h) => Outcome(s, h)
    case Proceed(u) =>
      if form.None? then Outcome(s, ServerError)
      else
        var id := s.nextJournalId;
        var j := Journal(id, Lookup(form.value, "title"), u.value.id);
        Outcome(s.(journals := s.journals[id := j], nextJournalId := id + 1), Redirect(UserPath(u.value.id)))
  }
}
