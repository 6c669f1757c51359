/** The seeded data as a client of the application: Garrett signs in, keeps a
    journal of birds and an entry in it; a second user who signs in afterwards
    can neither change nor delete that entry, while anyone may read it. */
module Scenario {
  import opened Records
  import opened Server
  import SessionsController
  import EntriesController

  function Garrett(): User { User(1, "Garrett", "digest-of-asdf") }
  function Alice(): User { User(2, "Alice", "digest-of-qwer") }
  function Seeded(): map<nat, User> { map[1 := Garrett(), 2 := Alice()] }

  /** Garrett's password is "asdf", Alice's "qwer". */
  predicate Authentic(u: User, password: string) {
    (u.name == "Garrett" && password == "asdf") || (u.name == "Alice" && password == "qwer")
  }

  lemma FindsSeeded()
    ensures SessionsController.FindByName(Seeded(), "Garrett") == Some(Garrett())
    ensures SessionsController.FindByName(Seeded(), "Alice") == Some(Alice())
  {
    assert SessionsController.IsFirstNamed(Seeded(), "Garrett", 1);
    assert SessionsController.IsFirstNamed(Seeded(), "Alice", 2);
  }

  method SignIn() returns (app: App)
    ensures fresh(app) && app.Valid() && app.users == Seeded() && app.session == Some(1)
    ensures app.journals == map[] && app.entries == map[] && app.nextJournalId == 0 && app.nextEntryId == 0
  {
    FindsSeeded();
    app := new App(Seeded());
    var r := app.LogIn("Garrett", "wrong", Authentic);
    assert r == Redirect(LoginPath) && app.session.None?;
    r := app.CreateJournal(Some(map["title" := "Neat birds I saw"]));
    assert r == Redirect(LoginPath) && app.journals == map[];
    r := app.LogIn("Garrett", "asdf", Authentic);
    assert r == Redirect(UserPath(1));
  }

  function Eagle(): Entry { Entry(0, Some("Bald eagle, seemed lost"), None, 1, 0) }

  /** Garrett files a journal and an entry; the user_id he slips into the form is dropped. */
  method KeepJournal() returns (app: App)
    ensures fresh(app) && app.Valid() && app.users == Seeded() && app.session == Some(1)
    ensures app.journals == map[0 := Journal(0, Some("Neat birds I saw"), 1)]
    ensures app.entries == map[0 := Eagle()]
  {
    app := SignIn();
    var r := app.CreateJournal(Some(map["title" := "Neat birds I saw"]));
    assert app.journals == map[0 := Journal(0, Some("Neat birds I saw"), 1)];
    r := app.CreateEntry(0, Some(map["title" := "Bald eagle, seemed lost", "user_id" := "2"]));
    assert r == Redirect(EntryPath(0));
  }

  /** Alice is denied both update and destroy; the entry stays readable by anyone. */
  method OthersDenied()
  {
    FindsSeeded();
    var app := KeepJournal();
    var r := app.LogOut();
    r := app.LogIn("Alice", "qwer", Authentic);
    assert app.session == Some(2);
    r := app.UpdateEntry(0, Some(map["title" := "Pigeon"]));
    assert r == Redirect(LoginPath) && app.entries == map[0 := Eagle()];
    r := app.DestroyEntry(0);
    assert r == Redirect(UserPath(2)) && app.entries == map[0 := Eagle()];
    assert EntriesController.Show(app.Snapshot(), 0) == Render(EntryShowView(Eagle()));
  }
}
