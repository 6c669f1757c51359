# Jumbo journal: access control and ownership, in Dafny

This project models the controllers of a small Rails journaling application:
users sign in and out, create journals, and add, edit and delete entries in
them. All of the application's own logic is access control. It resolves the
current user from `session[:user_id]` before every action, keeps most actions
behind a login gate, and checks ownership before an entry is updated or
destroyed.

The database is a `State` value (`records.dfy`). It holds three maps keyed by
id (users, journals, entries), the session slot, and the next id each
sequence hands out. Ids come from these sequences and are never reused. Each
controller is one module. It specifies every action as a function from the
state (and the request's parameters) to an `Outcome`: the new state and a
`Response`. A response is `Redirect(path)`, `Render(view)`, or `NotFound`
(`ActiveRecord::RecordNotFound`), `BadRequest` (`ParameterMissing` from
strong parameters) or `ServerError` (any other exception). The contracts of
these functions state what each action promises.

`Server.App` is the running application. It is a class whose fields are the
tables and the session slot. Its methods carry out the before-action chain
and the mutating actions step by step, changing only the fields they name in
`modifies`. Each method is proved to give the response and the new state that
its controller's specification function gives. `Requests.Step` dispatches one
request and `Requests.Run` runs a sequence of requests. The lemmas over `Run`
state what holds across any sequence:

- no entry ever changes owner or journal;
- unless the owner logs in, nobody changes or removes the owner's entries;
- a session that starts sound never becomes stale.

`Scenario` replays the seeded data (Garrett, "Neat birds I saw", the bald
eagle entry) as a client of `App`.

Behaviour of the code that the model keeps on purpose:

- `set_current_user` runs before every action of every controller. If the
  session holds the id of a user who is not stored, `User.find` raises. Every
  request then answers NotFound, logging out included, and the session cannot
  be cleared this way.
- In the entries controller, `verify_logged_in` runs before `set_entry`.
  Without a session, an unknown entry id is therefore sent to `/login`, not
  answered NotFound.
- `edit` has no ownership check. Any signed-in user gets the edit form of any
  entry; only `update` checks ownership.
- The two denials differ. `update` sends a non-owner to `/login`; `destroy`
  sends a non-owner to their own user page.
- `entries#create` does not look up the journal id from the path. An entry
  can therefore name a journal that does not exist. Destroying such an entry
  removes it, and then `redirect_to nil` raises. The model answers
  ServerError with the entry already gone.
- `params.require(:entry)` fails on a missing or empty hash. In `update` this
  happens only after the ownership check.

## Model

| member | source | states |
|---|---|---|
| ApplicationController.CurrentUser | app/controllers/application_controller.rb:10-12 | no session id gives no user; an id gives the stored user with that id, or a stale result when none is stored |
| ApplicationController.BeforeActions | app/controllers/application_controller.rb:2-16 | halts with NotFound iff the session is stale, halts with a redirect to /login iff login is required and there is no session, otherwise proceeds with the user the session names (always one when login is required) |
| ApplicationController.Home | app/controllers/application_controller.rb:4-6 | renders home without requiring login; NotFound only for a stale session |
| SessionsController.FirstNamedExists | app/controllers/sessions_controller.rb:8 | whenever some user has the name, one of them has the least id |
| SessionsController.FindByName | app/controllers/sessions_controller.rb:8 | none iff no stored user has the name; otherwise the user with the least id among those who have it |
| SessionsController.FindUserByName | app/controllers/sessions_controller.rb:8 | a scan of the users table returns exactly the user `find_by(name:)` denotes |
| SessionsController.New | app/controllers/sessions_controller.rb:4-5 | the login form, public |
| SessionsController.Create | app/controllers/sessions_controller.rb:7-16 | only the session can change; login succeeds iff the user found by name exists and authenticates with the password; on success the session holds that user's id, replacing any previous one, and the client goes to /users/id; on failure nothing changes and the client goes to /login |
| SessionsController.Destroy | app/controllers/sessions_controller.rb:18-21 | the session becomes empty and the client goes to "/", nothing else changes |
| SessionsController.LogoutIdempotent | app/controllers/sessions_controller.rb:18-21 | two logouts give the same state and response as one |
| JournalsController.Index | app/controllers/journals_controller.rb:2-4 | /login without a session, otherwise the index page |
| JournalsController.New | app/controllers/journals_controller.rb:11-13 | /login without a session, otherwise a form for an unsaved journal owned by the current user; no state change |
| JournalsController.Show | app/controllers/journals_controller.rb:15-17 | /login without a session; NotFound for an unknown journal id; otherwise that journal |
| JournalsController.Create | app/controllers/journals_controller.rb:6-9 | /login without a session; otherwise exactly one journal is added under a fresh id, with the submitted title unchecked and the current user as owner, and the client goes to /users/current-id; only journals and their sequence change |
| EntriesController.Permit | app/controllers/entries_controller.rb:47-50 | fails iff the entry hash is missing or empty; otherwise keeps the submitted title and body and nothing else |
| EntriesController.PermitIgnoresOtherKeys | app/controllers/entries_controller.rb:48-50 | submissions agreeing on title and body are permitted alike, whatever else they carry |
| EntriesController.Amend | app/controllers/entries_controller.rb:30 | an update keeps id, owner and journal, and replaces title and body only where they were submitted |
| EntriesController.New | app/controllers/entries_controller.rb:3-8 | /login without a session, otherwise a blank form |
| EntriesController.Create | app/controllers/entries_controller.rb:10-19 | /login without a session; BadRequest without entry fields; otherwise exactly one entry is added under a fresh id, owned by the current user, filed under the path's journal id without any existence check, and the client goes to that entry |
| EntriesController.CreateIgnoresSubmittedOwner | app/controllers/entries_controller.rb:11-13 | the outcome of create depends on the submitted title and body only, so the client cannot choose owner or journal |
| EntriesController.Show | app/controllers/entries_controller.rb:21-22 | public: any signed-in or anonymous client sees an existing entry; an unknown id is NotFound |
| EntriesController.Edit | app/controllers/entries_controller.rb:24-25 | /login without a session; NotFound for an unknown id; otherwise the edit form, for any signed-in user |
| EntriesController.Update | app/controllers/entries_controller.rb:27-32 | only entries can change and only the one named; /login without a session; NotFound for an unknown id; a non-owner goes to /login with nothing changed; the owner's title and body are replaced and the client goes to the entry |
| EntriesController.Destroy | app/controllers/entries_controller.rb:34-39 | only entries can change; /login without a session; NotFound for an unknown id; a non-owner goes to their user page with nothing changed; for the owner exactly that entry is removed and the client goes to its journal (ServerError if that journal is not stored) |
| UsersController.JournalsOf | app/controllers/users_controller.rb:9 | exactly the journals whose owner is the user |
| UsersController.Index | app/controllers/users_controller.rb:2-5 | every stored user, unfiltered, with or without a session |
| UsersController.Show | app/controllers/users_controller.rb:7-11 | NotFound for an unknown user id; otherwise that user and exactly the journals they own, with or without a session |
| Requests.Step | app/controllers/application_controller.rb:1-2 | any action keeps the state valid and leaves users unchanged |
| Requests.Run | app/controllers/application_controller.rb:1-2 | any sequence of actions keeps the state valid and leaves users unchanged |
| Requests.AnonymousChangesNothing | app/controllers/application_controller.rb:14-16 | without a session a request changes nothing, except that logging in may fill the session |
| Requests.StaleSessionBlocksEverything | app/controllers/application_controller.rb:2 | with a stale session every request answers NotFound and changes nothing |
| Requests.LoginGate | app/controllers/entries_controller.rb:3 | without a session every journals action and every entries action except show goes to /login; no other action does, except a failed login |
| Requests.StepEvolves | app/controllers/entries_controller.rb:10-39 | one request keeps owner and journal of surviving entries and adds entries only under fresh ids |
| Requests.EvolveTransitive | app/controllers/entries_controller.rb:12-13 | that relation composes across requests |
| Requests.EntryOwnerAndJournalFixed | app/controllers/entries_controller.rb:12-13 | over any sequence of requests, an entry stored before and after has the same owner and journal |
| Requests.StepKeepsOwned | app/controllers/entries_controller.rb:27-39 | a request from another session, other than a login as the owner, leaves the owner's entries as they are and does not give out the owner's session |
| Requests.OnlyOwnerTouchesEntries | app/controllers/entries_controller.rb:27-39 | over any sequence of requests from another session without a login as the owner, every entry of the owner stays stored and unchanged |
| Requests.SessionNeverStale | app/controllers/sessions_controller.rb:11 | a session that names a stored user, or none, never becomes stale |
| Server.App.constructor | db/seeds.rb:8 | a database holding only the seeded users, with nobody signed in |
| Server.App.BeforeActions | app/controllers/application_controller.rb:10-16 | the filter chain run on the fields agrees with its specification |
| Server.App.LogIn | app/controllers/sessions_controller.rb:7-16 | writes only the session, exactly as SessionsController.Create says |
| Server.App.LogOut | app/controllers/sessions_controller.rb:18-21 | writes only the session, exactly as SessionsController.Destroy says |
| Server.App.CreateJournal | app/controllers/journals_controller.rb:6-9 | writes only journals and their sequence, exactly as JournalsController.Create says |
| Server.App.CreateEntry | app/controllers/entries_controller.rb:10-19 | writes only entries and their sequence, exactly as EntriesController.Create says |
| Server.App.UpdateEntry | app/controllers/entries_controller.rb:27-32 | writes only entries, exactly as EntriesController.Update says |
| Server.App.DestroyEntry | app/controllers/entries_controller.rb:34-39 | writes only entries, exactly as EntriesController.Destroy says |
| Server.App.Handle | app/controllers/application_controller.rb:1-2 | handling a request changes the fields and answers exactly as Requests.Step says |
| Scenario.SignIn | db/seeds.rb:8 | a wrong password and a journal created without a session change nothing; the right password signs Garrett in |
| Scenario.KeepJournal | db/seeds.rb:10-12 | Garrett's journal and entry are stored under his id, ignoring a submitted user_id |

## Left out

- Password hashing (`has_secure_password` behind `authenticate`) is a parameter `authentic: (User, string) -> bool`. The model says nothing about how it compares digests.
- Registration (`users#new`, `users#create`) is routed but absent from the users controller. Users are fixed when the application is built. `users#new` and `sessions#new` render forms only.
- Rendering, `redirect_to` and the path helpers are left out. Actions return a tagged response value. The routing table is also left out; its journal and entry routes are not in the routing file at all. Path and form parameters are method parameters.
- CSRF protection (`skip_before_action :verify_authenticity_token`) and the encoding of the session cookie are left out. The session is a single slot, as seen by one client.
- Model validations and database constraints are not part of this model. Saves and creates always succeed. So `save!` never raises, and the redirect to the journal in `entries#create` is never taken. `Journal.create` stores the journal whatever the title. Type casting of `params[:journal_id]` from a string to an integer is also left out: ids are natural numbers.
- `find_by(name:)` returns the user with the least id among those with that name. SQL leaves the order unspecified. Names are not assumed unique, since nothing shown enforces it.
- A parameter hash given as a scalar instead of a hash is not modelled. Forms are maps from field names to strings, or absent.
- Concurrent requests and other clients' sessions are left out. Requests are handled one at a time.
