# School portal — a Dafny model of its functional core

The portal is a small document-sharing site: users register and log in as
Student or Admin; Admins upload files with a title and delete them;
Students list and download them. Its state is a SQLite database with two
tables (`users`, `documents`), a directory of uploaded files, and one
user's session (`logged_in`, `role`, `username`, `current_page`).

The model has three files:

- `wrappers.dfy`: module `Wrappers`, the `Option` a query returns.
- `schema.dfy`: module `Schema`. It holds the rows of the two tables and the
  constraints the schema declares: INTEGER PRIMARY KEY ids, a UNIQUE username,
  NOT NULL text columns. It also holds how each SQL statement changes the rows,
  and class `Database` with `CreateTables` (CREATE TABLE IF NOT EXISTS) and the
  INSERT and DELETE statements.
- `app.dfy`: module `App`. It holds the two queries on `users`, the
  registration decision, and the upload and delete effects as functions on a
  `Store` value (users, documents, files). It also holds the session state
  machine (login page, student portal, admin portal) and class `Portal`. The
  `Portal` fields are the database, the file store and the session fields. Its
  methods are `create_user`, `upload_file`, `delete_document`, `reset_session`,
  the session init, the login, register and upload button handlers, and `Run`.
  `Run` is one rerun of the script: the session init followed by the main
  dispatch.

The file store is a map from path to bytes. Row ids follow SQLite's rowid
rule: one more than the largest id in the table (whatever its sign), 1 for
an empty table.
Rows are kept in insertion order, but `GetDocuments` promises only the
same rows (as a multiset), since the query has no ORDER BY. NOT NULL holds
by construction: every column is a `string`, and the only nullable input
(the session's `username`) is shown to be present on the admin page, which
is the only place an upload is made.

Notes on the code's behaviour:
- Registration refuses an empty username or password (`MissingFields`) as
  well as a username that is already taken.
- `delete_document` takes the id and the path. It deletes the rows with that
  id, then removes whatever file is at the given path.
- The listing query has no ORDER BY, so the listing has no defined order.
- A file path is not unique per document. Two uploads with the same file name
  share one path. `SameNameUploadsShareOneFile` states the consequences.

## Model

| member | source | states |
|---|---|---|
| Schema.MaxId | database.py:13 | for a non-empty table the result is one of the ids and bounds every id |
| Schema.NextRowId | database.py:13 | a new row's INTEGER PRIMARY KEY is larger than every stored id; it is 1 in an empty table and otherwise one more than a stored id (the largest) |
| Schema.NextUserIdUnused | database.py:13 | no stored user carries the id the next insert assigns |
| Schema.NextDocIdUnused | database.py:22 | no stored document carries the id the next insert assigns |
| Schema.AppendUser | app.py:14-17 | INSERT INTO users keeps every earlier row in place and adds exactly one row with the given username, password and role and an id above every stored id |
| Schema.AppendDoc | app.py:39-42 | INSERT INTO documents keeps every earlier row in place and adds exactly one row with the given title, path and uploader and an id above every stored id |
| Schema.FreshIdKeepsDistinct | database.py:13 | appending the next row id keeps the ids of a table distinct |
| Schema.AppendUserKeepsTableOk | database.py:12-17 | inserting a user whose username is free keeps ids distinct and usernames unique |
| Schema.AppendDocKeepsTableOk | database.py:21-26 | inserting a document keeps document ids distinct |
| Schema.WithoutId | app.py:57 | DELETE WHERE id=? removes exactly the rows with that id and keeps every other row, as often as it occurred |
| Schema.ConsKeepsTableOk | database.py:22 | a row whose id no other row has can join a table without breaking the primary key |
| Schema.WithoutIdKeepsTableOk | database.py:22 | deleting by id keeps document ids distinct |
| Schema.WithoutAbsentId | app.py:57 | deleting an id that no row has leaves the table unchanged |
| Schema.Database.CreateTables | database.py:7-30 | afterwards both tables exist, and tables that already existed keep all their rows (idempotent) |
| Schema.Database.InsertUser | database.py:14 | the UNIQUE username constraint refuses a taken name and changes nothing; otherwise one row with a fresh id is appended |
| Schema.Database.InsertDocument | app.py:39-42 | appends one row with a fresh id, the given title, path and uploader; `users` unchanged |
| Schema.Database.DeleteWhereId | app.py:57 | the documents table becomes the rows without that id; `users` unchanged; constraints kept |
| App.FindUserNamed | app.py:144-148 | finds a row exactly when some stored user has the username, and the row it returns has that username |
| App.AuthenticateUser | app.py:21-27 | returns a row if and only if a stored user matches username, password and role exactly; the row returned is such a user |
| App.SameNameSameUser | database.py:14 | under the UNIQUE constraint two stored users with the same username are the same row |
| App.AuthenticateFindsTheUser | app.py:21-27 | a stored user's own credentials return exactly that user's row |
| App.AuthenticateRejectsMismatch | app.py:21-27 | a stored username with a different password or a different role is refused |
| App.RegisterDecision | app.py:142-157 | missing fields if the username or password is empty; taken if the name exists; registered exactly when both are filled in and the name is free |
| App.RegistrationKeepsUsernamesUnique | app.py:143-153 | a registration that the guard lets through keeps usernames unique, and the new credentials then authenticate |
| App.UploadPath | app.py:33 | the stored path is the `uploaded_files` directory, a separator, then exactly the file name |
| App.UploadPathInjective | app.py:33 | two uploads get the same path exactly when they have the same file name |
| App.Uploaded | app.py:29-44 | upload_file's effect: users unchanged; earlier document rows kept and one row appended with the title, the upload path, the uploader and a fresh id; the upload path now holds exactly the bytes, overwriting; every other file unchanged |
| App.Deleted | app.py:54-63 | delete_document's effect: users unchanged; the remaining rows are exactly those without the id; no file at the given path afterwards; every other file unchanged |
| App.UploadThenList | app.py:29-52 | after an upload the listing has a new row with the given title and uploader, whose stored file holds exactly the uploaded bytes; earlier rows and other files unchanged |
| App.WithoutFreshLast | app.py:57 | deleting the id of a row just appended with a fresh id gives back the earlier table |
| App.UploadThenDelete | app.py:29-63 | deleting a just-uploaded document restores the documents table and leaves no file at its path; the file store is restored too if the path was new |
| App.WriteThenRemove | app.py:34-35 | removing a file just written leaves the store as before, minus that path |
| App.DeleteMissingId | app.py:54-63 | deleting an id no row has keeps every document row, raises no error, and changes nothing at all if the path has no file |
| App.SameNameUploadsShareOneFile | app.py:29-63 | a second upload with the same name overwrites the bytes of the first row's path; deleting the first row then removes the file the second row still lists |
| App.UploadKeepsProvenance | app.py:197-199 | an upload by a stored Admin keeps every document's uploader a stored Admin |
| App.DeleteKeepsProvenance | app.py:54-59 | deleting rows keeps every remaining uploader a stored Admin |
| App.RegisterKeepsProvenance | app.py:152-153 | registering a user removes no account, so every uploader stays a stored Admin |
| App.Reachable | app.py:223-229 | upload and delete are offered only on the Admin page; login and register only on the login page; listing and logout only in a portal |
| App.PageFor | app.py:132 | a login lands on the Student page exactly for role Student and on the Admin page exactly for role Admin, never on the login page |
| App.LoggedIn | app.py:129-132 | the session after a successful login: logged in, with the given role and username, off the login page, on the Admin page exactly for an Admin |
| App.InitialSessionConsistent | app.py:103-113 | the first-run session, which logout restores, is logged out on the login page with no role and no username, and is consistent |
| App.LoginKeepsSessionConsistent | app.py:126-134 | the session a successful login sets is consistent: logged in off the login page, on the role's page, for a stored account |
| App.AdminPageIsAdmin | app.py:129-132 | a consistent session on the Admin page is logged in with role Admin and a username of a stored Admin |
| App.SessionConsistentAfterAppend | app.py:152-153 | adding users keeps a session consistent |
| App.Portal.InitSession | app.py:102-107 | sets the four session fields to False, None, None, 'Login' only if they are not yet set; otherwise the session is unchanged |
| App.Portal.ResetSession | app.py:109-113 | logout restores exactly the first-run session; tables and files unchanged |
| App.Portal.CreateUser | app.py:11-19 | appends one user with the given fields unless the username is taken, in which case nothing changes; documents unchanged |
| App.Portal.GetDocuments | app.py:46-52 | returns every document row, each as often as stored, in no promised order |
| App.Portal.UploadFile | app.py:29-44 | the store becomes `Uploaded`: bytes written at the upload path, overwriting, and one row appended; session unchanged |
| App.Portal.DeleteDocument | app.py:54-63 | the store becomes `Deleted`: rows with the id removed, the path's file removed only if present; session unchanged |
| App.Portal.Login | app.py:126-134 | succeeds exactly when authentication finds a row; then logged in with the given role and username on the role's page; on failure the session is unchanged; tables and files never change |
| App.Portal.Register | app.py:142-157 | outcome is the registration decision on the old users; exactly one user is appended when registered, none otherwise; page stays 'Login'; documents and files unchanged |
| App.Portal.Upload | app.py:192-202 | uploads exactly when a file and a non-empty title are given, with the session's username, which is a stored Admin; otherwise nothing changes |
| App.Portal.Run | app.py:223-229 | after the session init, logout from either portal restores the first-run session; on the login page, login sets the session as authentication decides and register appends a user exactly when the decision is Registered; on the Admin page, upload stores the file under the session's username exactly when a file and title are given, and delete removes a listed document; viewing changes nothing; an interaction the page does not offer changes nothing; documents and files change only on the Admin page; every uploader stays a stored Admin |

## Left out

- Streamlit presentation is not modelled. This covers the page config, the favicon, the background image and its base64 encoding, and the titles, sidebars, columns, images, success and error messages and download buttons. It is UI from a library the model cannot see.
- SQLite mechanics are not modelled: connections, cursors, commit and close. A statement is one atomic change of the in-memory rows. The row order of a SELECT without ORDER BY is not promised.
- Missing tables: the portal's operations require that the tables exist. Running them without tables is an OperationalError, which is not modelled. The application never calls `create_tables`.
- Row ids are unbounded integers. SQLite's 64-bit rowid limit, and its random choice of id once the limit is reached, are not modelled.
- Schema.Database.InsertUser: an IntegrityError from the UNIQUE constraint is modelled as `ok == false` with nothing changed, not as an exception that ends the rerun. The register guard makes this branch unreachable in a sequential run.
- File system effects are not modelled: `os.makedirs`, the directory itself, and I/O failures such as permissions or a full disk. The file store is a map from path to bytes.
- App.UploadPath is `"uploaded_files/" + name`. `os.path.join` returns an absolute name unchanged, and that case is not modelled.
- Downloading is not modelled. It opens and reads `doc[2]` in the student portal, and an open of a missing file raises. `UploadThenList` states the byte-for-byte content that a download would read.
- The race between the username check and the insert across concurrent sessions is not modelled. The model is sequential.
- Password hashing and other security hardening are not modelled. The code has none: passwords are stored and compared verbatim.
