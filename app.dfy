/**
 * The school portal's functional core: the account directory (register,
 * authenticate), the document repository (upload, list, delete; metadata in
 * the `documents` table, bytes in the `uploaded_files` directory), and the
 * session that decides which of these a page offers.
 *
 * The file store is a map from path to bytes; the session is the four
 * fields the portal keeps in Streamlit's per-user session state. One call of
 * `Portal.Run` is one rerun of the script after one user interaction.
 */
module App {
  import opened Wrappers
  import opened Schema

  // ---------------------------------------------------------------------
  // Account directory: the two queries on `users`
  // ---------------------------------------------------------------------

  /** SELECT * FROM users WHERE username=?, first row or nothing. */
  function FindUserNamed(users: seq<User>, username: string): (r: Option<User>)
    ensures r.Some? <==> !NameFree(users, username)
    ensures r.Some? ==> r.value in users && r.value.username == username
  {
    if users == [] then None
    else if users[0].username == username then Some(users[0])
    else FindUserNamed(users[1..], username)
  }

  /** A stored user has exactly these credentials. */
  predicate HasCredentials(u: User, username: string, password: string, role: Role)
  {
    u.username == username && u.password == password && u.role == role
  }

  /**
   * authenticate_user: SELECT * FROM users WHERE username=? AND password=?
   * AND role=?, first row or nothing. Comparison is exact string equality.
   */
  function AuthenticateUser(users: seq<User>, username: string, password: string, role: Role): (r: Option<User>)
    ensures r.Some? <==> exists u :: u in users && HasCredentials(u, username, password, role)
    ensures r.Some? ==> r.value in users && HasCredentials(r.value, username, password, role)
  {
    if users == [] then None
    else if HasCredentials(users[0], username, password, role) then Some(users[0])
    else AuthenticateUser(users[1..], username, password, role)
  }

  /** Under the UNIQUE username constraint a username names at most one row. */
  lemma SameNameSameUser(users: seq<User>, u: User, v: User)
    requires DistinctUsernames(users)
    requires u in users && v in users && u.username == v.username
    ensures u == v
  {
    var i :| 0 <= i < |users| && users[i] == u;
    var j :| 0 <= j < |users| && users[j] == v;
    assert i == j;
  }

  /** Logging in with a stored user's own credentials returns that very row. */
  lemma AuthenticateFindsTheUser(users: seq<User>, u: User)
    requires DistinctUsernames(users)
    requires u in users
    ensures AuthenticateUser(users, u.username, u.password, u.role) == Some(u)
  {
    var r := AuthenticateUser(users, u.username, u.password, u.role);
    assert HasCredentials(u, u.username, u.password, u.role);
    SameNameSameUser(users, u, r.value);
  }

  /** A stored username with any other password, or any other role, is refused. */
  lemma AuthenticateRejectsMismatch(users: seq<User>, u: User, password: string, role: Role)
    requires DistinctUsernames(users)
    requires u in users
    requires password != u.password || role != u.role
    ensures AuthenticateUser(users, u.username, password, role) == None
  {
    var r := AuthenticateUser(users, u.username, password, role);
    if r.Some? {
      SameNameSameUser(users, u, r.value);
      assert false;
    }
  }

  datatype RegisterOutcome = Registered | MissingFields | UsernameTaken

  /**
   * The register button's decision: both fields must be filled in, then the
   * username must not be taken.
   */
  function RegisterDecision(users: seq<User>, username: string, password: string): (o: RegisterOutcome)
    ensures o == MissingFields <==> username == [] || password == []
    ensures o == UsernameTaken <==> username != [] && password != [] && !NameFree(users, username)
    ensures o == Registered <==> username != [] && password != [] && NameFree(users, username)
  {
    if username != [] && password != [] then
      if FindUserNamed(users, username).Some? then UsernameTaken else Registered
    else MissingFields
  }

  /** Registrations that the decision lets through keep usernames unique. */
  lemma {:induction false} RegistrationKeepsUsernamesUnique(users: seq<User>, username: string, password: string, role: Role)
    requires UsersTableOk(users)
    requires RegisterDecision(users, username, password) == Registered
    ensures UsersTableOk(AppendUser(users, username, password, role))
    ensures AuthenticateUser(AppendUser(users, username, password, role), username, password, role).Some?
  {
    AppendUserKeepsTableOk(users, username, password, role);
    var ext := AppendUser(users, username, password, role);
    assert HasCredentials(ext[|users|], username, password, role);
  }

  // ---------------------------------------------------------------------
  // Document repository
  // ---------------------------------------------------------------------

  /** A file handed to the upload widget: its client-side name and bytes. */
  datatype UploadedFile = UploadedFile(name: string, bytes: seq<bv8>)

  /** Everything the repository and the directory persist. */
  datatype Store = Store(users: seq<User>, docs: seq<Doc>, files: map<string, seq<bv8>>)

  const UploadDir: string := "uploaded_files"

  /** Where an upload is stored: the upload directory joined with its name. */
  function UploadPath(name: string): (path: string)
    ensures |path| == |UploadDir| + 1 + |name|
    ensures path[..|UploadDir| + 1] == "uploaded_files/"
    ensures path[|UploadDir| + 1..] == name
  {
    UploadDir + "/" + name
  }

  /** Two uploads land on the same path exactly when they have the same name. */
  lemma UploadPathInjective(a: string, b: string)
    ensures UploadPath(a) == UploadPath(b) <==> a == b
  {
    var n := |UploadDir| + 1;
    if UploadPath(a) == UploadPath(b) {
      assert a == UploadPath(a)[n..];
      assert b == UploadPath(b)[n..];
    }
  }

  /**
   * upload_file: write the bytes to the upload path, replacing whatever was
   * there, then insert one metadata row.
   */
  function Uploaded(s: Store, file: UploadedFile, title: string, uploadedBy: string): (t: Store)
    ensures t.users == s.users
    ensures |t.docs| == |s.docs| + 1 && t.docs[..|s.docs|] == s.docs
    ensures var d := t.docs[|s.docs|];
      d.title == title && d.filePath == UploadPath(file.name) && d.uploadedBy == uploadedBy
      && forall x :: x in s.docs ==> x.id < d.id
    ensures UploadPath(file.name) in t.files && t.files[UploadPath(file.name)] == file.bytes
    ensures forall p :: p != UploadPath(file.name) ==> (p in t.files <==> p in s.files)
    ensures forall p :: p != UploadPath(file.name) && p in s.files ==> t.files[p] == s.files[p]
  {
    NextDocIdUnused(s.docs);
    var path := UploadPath(file.name);
    Store(s.users, AppendDoc(s.docs, title, path, uploadedBy), s.files[path := file.bytes])
  }

  /**
   * delete_document: delete the rows with the id, then remove the file at
   * the given path if there is one.
   */
  function Deleted(s: Store, id: int, path: string): (t: Store)
    ensures t.users == s.users
    ensures forall d :: d in t.docs <==> d in s.docs && d.id != id
    ensures path !in t.files
    ensures forall p :: p != path ==> (p in t.files <==> p in s.files)
    ensures forall p :: p != path && p in s.files ==> t.files[p] == s.files[p]
  {
    Store(s.users, WithoutId(s.docs, id), if path in s.files then s.files - {path} else s.files)
  }

  /**
   * After an upload the listing holds a row with the given title and
   * uploader whose file holds exactly the uploaded bytes; every earlier row
   * and every other file is as it was.
   */
  lemma UploadThenList(s: Store, file: UploadedFile, title: string, uploadedBy: string)
    ensures var t := Uploaded(s, file, title, uploadedBy);
      && t.users == s.users
      && t.docs[..|s.docs|] == s.docs
      && (exists d :: d in t.docs && d !in s.docs && d.title == title && d.uploadedBy == uploadedBy
                      && d.filePath in t.files && t.files[d.filePath] == file.bytes)
      && (forall p :: p != UploadPath(file.name) ==> (p in t.files <==> p in s.files))
      && (forall p :: p != UploadPath(file.name) && p in s.files ==> t.files[p] == s.files[p])
  {
    var t := Uploaded(s, file, title, uploadedBy);
    var d := t.docs[|s.docs|];
    NextDocIdUnused(s.docs);
    assert d in t.docs;
  }

  /** Deleting the row an upload just added removes it from the table again. */
  lemma {:induction false} WithoutFreshLast(docs: seq<Doc>, d: Doc)
    requires forall x :: x in docs ==> x.id != d.id
    ensures WithoutId(docs + [d], d.id) == docs
  {
    var e := docs + [d];
    if docs == [] {
      assert e == [d];
    } else {
      var tail := docs[1..];
      assert docs[0] in docs;
      assert e[0] == docs[0] && e[1..] == tail + [d];
      WithoutFreshLast(tail, d);
      calc {
        WithoutId(e, d.id);
        [docs[0]] + WithoutId(tail + [d], d.id);
        [docs[0]] + tail;
        docs;
      }
    }
  }

  /**
   * Upload followed by deleting that document: the documents table is back
   * to what it was, and no file remains at the upload's path.
   */
  lemma UploadThenDelete(s: Store, file: UploadedFile, title: string, uploadedBy: string)
    ensures var t := Uploaded(s, file, title, uploadedBy);
      var d := t.docs[|s.docs|];
      var u := Deleted(t, d.id, d.filePath);
      && u.docs == s.docs
      && d.filePath !in u.files
      && (UploadPath(file.name) !in s.files ==> u.files == s.files)
  {
    var t := Uploaded(s, file, title, uploadedBy);
    var d := t.docs[|s.docs|];
    assert t.docs == s.docs + [d];
    NextDocIdUnused(s.docs);
    WithoutFreshLast(s.docs, d);
    WriteThenRemove(s.files, UploadPath(file.name), file.bytes);
  }

  /** Removing a file just written leaves the store as it was before, less that path. */
  lemma WriteThenRemove(files: map<string, seq<bv8>>, path: string, bytes: seq<bv8>)
    ensures path in files[path := bytes]
    ensures files[path := bytes] - {path} == files - {path}
    ensures path !in files ==> files - {path} == files
  {
  }

  /**
   * Deleting an id no row carries leaves the table unchanged and raises no
   * error; a file at the given path is still removed if present.
   */
  lemma DeleteMissingId(s: Store, id: int, path: string)
    requires forall d :: d in s.docs ==> d.id != id
    ensures Deleted(s, id, path).docs == s.docs
    ensures path !in s.files ==> Deleted(s, id, path) == s
  {
    WithoutAbsentId(s.docs, id);
  }

  /**
   * Two uploads of the same file name share one path: the second overwrites
   * the bytes the first row refers to, and deleting the first row then
   * removes the file the second row still lists.
   */
  lemma SameNameUploadsShareOneFile(s: Store, f1: UploadedFile, t1: string, f2: UploadedFile, t2: string, uploader: string)
    requires f1.name == f2.name
    ensures var s1 := Uploaded(s, f1, t1, uploader);
      var d1 := s1.docs[|s.docs|];
      var s2 := Uploaded(s1, f2, t2, uploader);
      var d2 := s2.docs[|s1.docs|];
      var s3 := Deleted(s2, d1.id, d1.filePath);
      && d1.filePath == d2.filePath
      && s2.files[d1.filePath] == f2.bytes
      && d2 in s3.docs
      && d2.filePath !in s3.files
  {
    var s1 := Uploaded(s, f1, t1, uploader);
    var d1 := s1.docs[|s.docs|];
    var s2 := Uploaded(s1, f2, t2, uploader);
    var d2 := s2.docs[|s1.docs|];
    NextDocIdUnused(s1.docs);
    assert d1 in s1.docs;
    assert d2 in s2.docs;
  }

  /** Every document was uploaded by a registered Admin. */
  predicate HasAccount(users: seq<User>, username: string, role: Role)
  {
    exists u :: u in users && u.username == username && u.role == role
  }

  predicate UploadersAreAdmins(users: seq<User>, docs: seq<Doc>)
  {
    forall d :: d in docs ==> HasAccount(users, d.uploadedBy, Admin)
  }

  /** An upload by a stored Admin keeps every uploader an Admin. */
  lemma UploadKeepsProvenance(s: Store, file: UploadedFile, title: string, uploader: string)
    requires UploadersAreAdmins(s.users, s.docs)
    requires HasAccount(s.users, uploader, Admin)
    ensures UploadersAreAdmins(s.users, Uploaded(s, file, title, uploader).docs)
  {
  }

  /** Deleting rows keeps every remaining uploader an Admin. */
  lemma DeleteKeepsProvenance(s: Store, id: int, path: string)
    requires UploadersAreAdmins(s.users, s.docs)
    ensures UploadersAreAdmins(s.users, Deleted(s, id, path).docs)
  {
  }

  /** Registering a user keeps every uploader an Admin: no account disappears. */
  lemma RegisterKeepsProvenance(users: seq<User>, docs: seq<Doc>, username: string, password: string, role: Role)
    requires UploadersAreAdmins(users, docs)
    ensures UploadersAreAdmins(AppendUser(users, username, password, role), docs)
  {
    var ext := AppendUser(users, username, password, role);
    forall d | d in docs ensures HasAccount(ext, d.uploadedBy, Admin) {
      var u :| u in users && u.username == d.uploadedBy && u.role == Admin;
      assert u in ext;
    }
  }

  // ---------------------------------------------------------------------
  // Session / role gate
  // ---------------------------------------------------------------------

  datatype Page = LoginPage | StudentPage | AdminPage

  /** What a page lets its user do: the forms, menu entries and buttons it renders. */
  datatype Action = LogIn | Register | ViewDocuments | UploadDocument | DeleteDocument | LogOut

  /** The page a successful login lands on. */
  function PageFor(role: Role): (page: Page)
    ensures page == StudentPage <==> role == Student
    ensures page == AdminPage <==> role == Admin
    ensures page != LoginPage
  {
    match role
    case Student => StudentPage
    case Admin => AdminPage
  }

  /**
   * The main dispatch: the student portal on the Student page, the admin
   * portal on the Admin page, the login page otherwise; each portal's menu
   * decides what can be done there.
   */
  function Reachable(page: Page): (actions: set<Action>)
    ensures UploadDocument in actions <==> page == AdminPage
    ensures DeleteDocument in actions <==> page == AdminPage
    ensures LogIn in actions <==> page == LoginPage
    ensures Register in actions <==> page == LoginPage
    ensures ViewDocuments in actions <==> page != LoginPage
    ensures LogOut in actions <==> page != LoginPage
  {
    match page
    case LoginPage => {LogIn, Register}
    case StudentPage => {ViewDocuments, LogOut}
    case AdminPage => {UploadDocument, ViewDocuments, DeleteDocument, LogOut}
  }

  /** The session fields: logged_in, role, username, current_page. */
  datatype SessionState = SessionState(loggedIn: bool, role: Option<Role>, username: Option<string>, currentPage: Page)

  /** The first-run values, which logout restores. */
  const InitialSession: SessionState := SessionState(false, None, None, LoginPage)

  /** The session after a successful login. */
  function LoggedIn(username: string, role: Role): (s: SessionState)
    ensures s.loggedIn && s.currentPage != LoginPage
    ensures s.role == Some(role) && s.username == Some(username)
    ensures s.currentPage == AdminPage <==> role == Admin
  {
    SessionState(true, Some(role), Some(username), PageFor(role))
  }

  /**
   * What every reachable session satisfies: logged out exactly on the login
   * page with no user; logged in with the role's page and a stored account.
   */
  predicate SessionConsistent(s: SessionState, users: seq<User>)
  {
    && (s.loggedIn <==> s.currentPage != LoginPage)
    && (!s.loggedIn ==> s.role == None && s.username == None)
    && (s.loggedIn ==> s.role.Some? && s.username.Some?
                       && s.currentPage == PageFor(s.role.value)
                       && HasAccount(users, s.username.value, s.role.value))
  }

  /** The first-run session, which logout restores, is consistent: logged out, on the login page, with no user. */
  lemma InitialSessionConsistent(users: seq<User>)
    ensures SessionConsistent(InitialSession, users)
    ensures !InitialSession.loggedIn && InitialSession.currentPage == LoginPage
    ensures InitialSession.role == None && InitialSession.username == None
  {
  }

  /** The session a successful login sets is consistent with the stored account. */
  lemma LoginKeepsSessionConsistent(users: seq<User>, username: string, password: string, role: Role)
    ensures AuthenticateUser(users, username, password, role).Some? ==> SessionConsistent(LoggedIn(username, role), users)
  {
    var r := AuthenticateUser(users, username, password, role);
    if r.Some? {
      assert r.value in users && r.value.username == username && r.value.role == role;
    }
  }

  /** On the Admin page the session belongs to a stored Admin. */
  lemma AdminPageIsAdmin(s: SessionState, users: seq<User>)
    requires SessionConsistent(s, users)
    requires s.currentPage == AdminPage
    ensures s.loggedIn && s.role == Some(Admin) && s.username.Some?
    ensures HasAccount(users, s.username.value, Admin)
  {
  }

  /** Adding users keeps a session consistent. */
  lemma SessionConsistentAfterAppend(s: SessionState, users: seq<User>, username: string, password: string, role: Role)
    requires SessionConsistent(s, users)
    ensures SessionConsistent(s, AppendUser(users, username, password, role))
  {
    if s.loggedIn {
      var u :| u in users && u.username == s.username.value && u.role == s.role.value;
      assert u in AppendUser(users, username, password, role);
    }
  }

  /** One user interaction, as the script sees it on the rerun that follows. */
  datatype Event =
    | LoginClicked(username: string, password: string, role: Role)
    | RegisterClicked(username: string, password: string, role: Role)
    | ViewDocumentsChosen
    | UploadClicked(file: Option<UploadedFile>, title: string)
    | DeleteClicked(doc: Doc)
    | LogoutChosen

  function ActionOf(e: Event): Action
  {
    match e
    case LoginClicked(_, _, _) => LogIn
    case RegisterClicked(_, _, _) => Register
    case ViewDocumentsChosen => ViewDocuments
    case UploadClicked(_, _) => UploadDocument
    case DeleteClicked(_) => DeleteDocument
    case LogoutChosen => LogOut
  }

  // ---------------------------------------------------------------------
  // The portal: database, file store and one user's session
  // ---------------------------------------------------------------------

  class Portal {
    const db: Database
    var files: map<string, seq<bv8>>
    /** Whether the session keys exist yet ('logged_in' in the session state). */
    var initialized: bool
    var loggedIn: bool
    var role: Option<Role>
    var username: Option<string>
    var currentPage: Page

    ghost function State(): SessionState
      reads this
    {
      SessionState(loggedIn, role, username, currentPage)
    }

    ghost function Snapshot(): Store
      reads this, db
    {
      Store(db.users, db.docs, files)
    }

    ghost predicate Valid()
      reads this, db
    {
      && db.Valid() && db.tablesExist
      && (initialized ==> SessionConsistent(State(), db.users))
    }

    /** A portal over a database whose tables exist, before any session key is set. */
    constructor (db: Database, files: map<string, seq<bv8>>)
      requires db.Valid() && db.tablesExist
      ensures Valid() && !initialized
      ensures this.db == db && this.files == files
    {
      this.db := db;
      this.files := files;
      initialized := false;
      loggedIn := false;
      role := None;
      username := None;
      currentPage := LoginPage;
    }

    /** The session init at the top of every rerun: set the keys only if absent. */
    method InitSession()
      requires Valid()
      modifies this
      ensures Valid() && initialized && files == old(files)
      ensures State() == if old(initialized) then old(State()) else InitialSession
    {
      if !initialized {
        loggedIn := false;
        role := None;
        username := None;
        currentPage := LoginPage;
        initialized := true;
      }
    }

    /** reset_session: logout from either portal. */
    method ResetSession()
      requires Valid() && initialized
      modifies this
      ensures Valid() && initialized && files == old(files)
      ensures State() == InitialSession
    {
      loggedIn := false;
      role := None;
      username := None;
      currentPage := LoginPage;
    }

    /** create_user; the UNIQUE constraint refuses a taken username. */
    method CreateUser(username: string, password: string, role: Role) returns (ok: bool)
      requires Valid()
      modifies db
      ensures Valid() && db.docs == old(db.docs)
      ensures ok <==> NameFree(old(db.users), username)
      ensures db.users == if ok then AppendUser(old(db.users), username, password, role) else old(db.users)
    {
      if initialized {
        SessionConsistentAfterAppend(State(), db.users, username, password, role);
      }
      ok := db.InsertUser(username, password, role);
    }

    /** get_documents: every row of `documents`, in no promised order. */
    function GetDocuments(): (rows: seq<Doc>)
      reads db
      ensures multiset(rows) == multiset(db.docs)
    {
      db.docs
    }

    /** upload_file: store the bytes under the upload path, then insert the row. */
    method UploadFile(file: UploadedFile, title: string, uploadedBy: string)
      requires Valid()
      modifies this, db
      ensures Valid() && initialized == old(initialized) && State() == old(State())
      ensures Snapshot() == Uploaded(old(Snapshot()), file, title, uploadedBy)
    {
      var path := UploadPath(file.name);
      files := files[path := file.bytes];
      db.InsertDocument(title, path, uploadedBy);
    }

    /** delete_document: delete the rows with the id, then the file if it exists. */
    method DeleteDocument(id: int, path: string)
      requires Valid()
      modifies this, db
      ensures Valid() && initialized == old(initialized) && State() == old(State())
      ensures Snapshot() == Deleted(old(Snapshot()), id, path)
    {
      db.DeleteWhereId(id);
      if path in files {
        files := files - {path};
      }
    }

    /** The login button: on a match, log in and go to the role's portal. */
    method Login(username: string, password: string, role: Role) returns (ok: bool)
      requires Valid() && initialized && currentPage == LoginPage
      modifies this
      ensures Valid() && initialized && files == old(files)
      ensures ok <==> AuthenticateUser(db.users, username, password, role).Some?
      ensures State() == if ok then LoggedIn(username, role) else old(State())
    {
      var user := AuthenticateUser(db.users, username, password, role);
      ok := user.Some?;
      if ok {
        LoginKeepsSessionConsistent(db.users, username, password, role);
        this.loggedIn := true;
        this.role := Some(role);
        this.username := Some(username);
        this.currentPage := if role == Student then StudentPage else AdminPage;
      }
    }

    /** The register button: check the fields, then the username, then insert. */
    method Register(username: string, password: string, role: Role) returns (outcome: RegisterOutcome)
      requires Valid() && initialized && currentPage == LoginPage
      modifies this, db
      ensures Valid() && initialized && files == old(files) && db.docs == old(db.docs)
      ensures outcome == RegisterDecision(old(db.users), username, password)
      ensures db.users == if outcome == Registered then AppendUser(old(db.users), username, password, role) else old(db.users)
      ensures State() == old(State())
    {
      if username != [] && password != [] {
        var existing := FindUserNamed(db.users, username);
        if existing.Some? {
          outcome := UsernameTaken;
        } else {
          var ok := CreateUser(username, password, role);
          assert ok;
          outcome := Registered;
          currentPage := LoginPage;
        }
      } else {
        outcome := MissingFields;
      }
    }

    /** The upload button: needs a file and a non-empty title; the uploader is the session's user. */
    method Upload(file: Option<UploadedFile>, title: string) returns (done: bool)
      requires Valid() && initialized && currentPage == AdminPage
      modifies this, db
      ensures Valid() && initialized && State() == old(State())
      ensures done <==> file.Some? && title != []
      ensures done ==> Snapshot() == Uploaded(old(Snapshot()), file.value, title, old(username).value)
      ensures done ==> HasAccount(db.users, old(username).value, Admin)
      ensures !done ==> Snapshot() == old(Snapshot())
    {
      AdminPageIsAdmin(State(), db.users);
      done := file.Some? && title != [];
      if done {
        UploadFile(file.value, title, username.value);
      }
    }

    /**
     * One rerun: the session init, then the dispatch on the current page;
     * an interaction the page does not offer changes nothing.
     */
    method Run(e: Event)
      requires Valid()
      modifies this, db
      ensures Valid() && initialized
      ensures var page := if old(initialized) then old(currentPage) else LoginPage;
        ActionOf(e) !in Reachable(page) ==>
          Snapshot() == old(Snapshot()) && State() == (if old(initialized) then old(State()) else InitialSession)
      ensures !(old(initialized) && old(currentPage) == AdminPage) ==>
        db.docs == old(db.docs) && files == old(files)
      ensures old(UploadersAreAdmins(db.users, db.docs)) ==> UploadersAreAdmins(db.users, db.docs)
      // What each offered interaction does, from the session after the init:
      ensures var s0 := old(if initialized then State() else InitialSession);
        e.LogoutChosen? && s0.currentPage != LoginPage ==>
          State() == InitialSession && Snapshot() == old(Snapshot())
      ensures var s0 := old(if initialized then State() else InitialSession);
        e.LoginClicked? && s0.currentPage == LoginPage ==>
          && Snapshot() == old(Snapshot())
          && State() == if AuthenticateUser(old(db.users), e.username, e.password, e.role).Some?
                        then LoggedIn(e.username, e.role) else s0
      ensures var s0 := old(if initialized then State() else InitialSession);
        e.RegisterClicked? && s0.currentPage == LoginPage ==>
          && State() == s0 && db.docs == old(db.docs) && files == old(files)
          && db.users == if RegisterDecision(old(db.users), e.username, e.password) == Registered
                         then AppendUser(old(db.users), e.username, e.password, e.role) else old(db.users)
      ensures var s0 := old(if initialized then State() else InitialSession);
        e.UploadClicked? && s0.currentPage == AdminPage ==>
          && State() == s0 && s0.username.Some?
          && Snapshot() == if e.file.Some? && e.title != []
                           then Uploaded(old(Snapshot()), e.file.value, e.title, s0.username.value)
                           else old(Snapshot())
      ensures var s0 := old(if initialized then State() else InitialSession);
        e.DeleteClicked? && s0.currentPage == AdminPage ==>
          && State() == s0
          && Snapshot() == if e.doc in old(db.docs)
                           then Deleted(old(Snapshot()), e.doc.id, e.doc.filePath)
                           else old(Snapshot())
      ensures var s0 := old(if initialized then State() else InitialSession);
        e.ViewDocumentsChosen? ==> State() == s0 && Snapshot() == old(Snapshot())
    {
      InitSession();
      if ActionOf(e) in Reachable(currentPage) {
        match e
        case LoginClicked(name, password, r) =>
          var ok := Login(name, password, r);
        case RegisterClicked(name, password, r) =>
          if UploadersAreAdmins(db.users, db.docs) {
            RegisterKeepsProvenance(db.users, db.docs, name, password, r);
          }
          var outcome := Register(name, password, r);
        case ViewDocumentsChosen =>
        case UploadClicked(file, title) =>
          AdminPageIsAdmin(State(), db.users);
          if UploadersAreAdmins(db.users, db.docs) && file.Some? {
            UploadKeepsProvenance(Snapshot(), file.value, title, username.value);
          }
          var done := Upload(file, title);
        case DeleteClicked(d) =>
          if d in GetDocuments() {
            if UploadersAreAdmins(db.users, db.docs) {
              DeleteKeepsProvenance(Snapshot(), d.id, d.filePath);
            }
            DeleteDocument(d.id, d.filePath);
          }
        case LogoutChosen =>
          ResetSession();
      }
    }
  }
}
