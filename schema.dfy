/**
 * The relational store of the school portal: the `users` and `documents`
 * tables, the constraints their schema declares (INTEGER PRIMARY KEY ids,
 * a UNIQUE NOT NULL username, NOT NULL text columns) and the statements the
 * application runs against them (CREATE TABLE IF NOT EXISTS, INSERT, DELETE).
 *
 * NOT NULL holds by construction: every text column is a `string`, never
 * absent. A role is one of the two values the portal's forms offer.
 */
module Schema {

  datatype Role = Student | Admin

  /** A row of `users`: id, username, password (stored verbatim), role. */
  datatype User = User(id: int, username: string, password: string, role: Role)

  /** A row of `documents`: id, title, file_path, uploaded_by. */
  datatype Doc = Doc(id: int, title: string, filePath: string, uploadedBy: string)

  // ---------------------------------------------------------------------
  // Row ids
  // ---------------------------------------------------------------------

  function UserIds(users: seq<User>): seq<int>
  {
    seq(|users|, i requires 0 <= i < |users| => users[i].id)
  }

  function DocIds(docs: seq<Doc>): seq<int>
  {
    seq(|docs|, i requires 0 <= i < |docs| => docs[i].id)
  }

  /** The largest id in a non-empty table. */
  function MaxId(ids: seq<int>): (m: int)
    requires ids != []
    ensures forall i :: 0 <= i < |ids| ==> ids[i] <= m
    ensures m in ids
  {
    if |ids| == 1 then ids[0]
    else
      var rest := MaxId(ids[1..]);
      if ids[0] > rest then ids[0] else rest
  }

  /**
   * The id an INTEGER PRIMARY KEY column gives a row inserted without one:
   * one more than the largest id in the table, 1 when the table is empty.
   */
  function NextRowId(ids: seq<int>): (id: int)
    ensures forall i :: 0 <= i < |ids| ==> ids[i] < id
    ensures ids == [] ==> id == 1
    ensures ids != [] ==> id - 1 in ids
  {
    if ids == [] then 1 else MaxId(ids) + 1
  }

  /** No stored document carries the id the next insert will give. */
  lemma NextDocIdUnused(docs: seq<Doc>)
    ensures forall d :: d in docs ==> d.id < NextRowId(DocIds(docs))
  {
    forall d | d in docs ensures d.id < NextRowId(DocIds(docs)) {
      var k :| 0 <= k < |docs| && docs[k] == d;
      assert DocIds(docs)[k] == d.id;
    }
  }

  /** No stored user carries the id the next insert will give. */
  lemma NextUserIdUnused(users: seq<User>)
    ensures forall u :: u in users ==> u.id < NextRowId(UserIds(users))
  {
    forall u | u in users ensures u.id < NextRowId(UserIds(users)) {
      var k :| 0 <= k < |users| && users[k] == u;
      assert UserIds(users)[k] == u.id;
    }
  }

  // ---------------------------------------------------------------------
  // Table constraints
  // ---------------------------------------------------------------------

  /** PRIMARY KEY: no two rows share an id. */
  predicate DistinctIds(ids: seq<int>)
  {
    forall i, j :: 0 <= i < j < |ids| ==> ids[i] != ids[j]
  }

  /** UNIQUE username. */
  predicate DistinctUsernames(users: seq<User>)
  {
    forall i, j :: 0 <= i < j < |users| ==> users[i].username != users[j].username
  }

  predicate UsersTableOk(users: seq<User>)
  {
    DistinctIds(UserIds(users)) && DistinctUsernames(users)
  }

  predicate DocsTableOk(docs: seq<Doc>)
  {
    DistinctIds(DocIds(docs))
  }

  predicate NameFree(users: seq<User>, username: string)
  {
    forall u :: u in users ==> u.username != username
  }

  // ---------------------------------------------------------------------
  // The effect of each statement on a table's rows
  // ---------------------------------------------------------------------

  /** INSERT INTO users (username, password, role) VALUES (?, ?, ?) */
  function AppendUser(users: seq<User>, username: string, password: string, role: Role): (r: seq<User>)
    ensures |r| == |users| + 1 && r[..|users|] == users
    ensures var u := r[|users|];
      u.username == username && u.password == password && u.role == role
      && forall x :: x in users ==> x.id < u.id
  {
    NextUserIdUnused(users);
    users + [User(NextRowId(UserIds(users)), username, password, role)]
  }

  /** INSERT INTO documents (title, file_path, uploaded_by) VALUES (?, ?, ?) */
  function AppendDoc(docs: seq<Doc>, title: string, filePath: string, uploadedBy: string): (r: seq<Doc>)
    ensures |r| == |docs| + 1 && r[..|docs|] == docs
    ensures var d := r[|docs|];
      d.title == title && d.filePath == filePath && d.uploadedBy == uploadedBy
      && forall x :: x in docs ==> x.id < d.id
  {
    NextDocIdUnused(docs);
    docs + [Doc(NextRowId(DocIds(docs)), title, filePath, uploadedBy)]
  }

  /**
   * DELETE FROM documents WHERE id=?: exactly the rows with that id go,
   * every other row stays, as often as it was there.
   */
  function WithoutId(docs: seq<Doc>, id: int): (rest: seq<Doc>)
    ensures forall d :: multiset(rest)[d] == if d.id == id then 0 else multiset(docs)[d]
    ensures forall d :: d in rest <==> d in docs && d.id != id
  {
    if docs == [] then []
    else
      assert docs == [docs[0]] + docs[1..];
      if docs[0].id == id then WithoutId(docs[1..], id)
      else [docs[0]] + WithoutId(docs[1..], id)
  }

  // ---------------------------------------------------------------------
  // The statements keep the constraints
  // ---------------------------------------------------------------------

  /** A fresh id keeps the ids distinct. */
  lemma {:induction false} FreshIdKeepsDistinct(ids: seq<int>)
    requires DistinctIds(ids)
    ensures DistinctIds(ids + [NextRowId(ids)])
  {
    var next := NextRowId(ids);
    var ext := ids + [next];
    forall i, j | 0 <= i < j < |ext| ensures ext[i] != ext[j] {
      if j == |ids| {
        assert ext[i] == ids[i] < next;
      } else {
        assert ext[i] == ids[i] && ext[j] == ids[j];
      }
    }
  }

  /** Inserting a user whose name is free keeps `users` within its schema. */
  lemma {:induction false} AppendUserKeepsTableOk(users: seq<User>, username: string, password: string, role: Role)
    requires UsersTableOk(users)
    requires NameFree(users, username)
    ensures UsersTableOk(AppendUser(users, username, password, role))
  {
    var ext := AppendUser(users, username, password, role);
    FreshIdKeepsDistinct(UserIds(users));
    assert UserIds(ext) == UserIds(users) + [NextRowId(UserIds(users))];
    forall i, j | 0 <= i < j < |ext| ensures ext[i].username != ext[j].username {
      if j == |users| {
        assert ext[i] in users;
      } else {
        assert ext[i] == users[i] && ext[j] == users[j];
      }
    }
  }

  /** Inserting a document keeps `documents` within its schema. */
  lemma {:induction false} AppendDocKeepsTableOk(docs: seq<Doc>, title: string, filePath: string, uploadedBy: string)
    requires DocsTableOk(docs)
    ensures DocsTableOk(AppendDoc(docs, title, filePath, uploadedBy))
  {
    FreshIdKeepsDistinct(DocIds(docs));
    assert DocIds(AppendDoc(docs, title, filePath, uploadedBy)) == DocIds(docs) + [NextRowId(DocIds(docs))];
  }

  /** A row whose id no other row carries can be put in front of a table. */
  lemma {:induction false} ConsKeepsTableOk(x: Doc, rest: seq<Doc>)
    requires DocsTableOk(rest)
    requires forall d :: d in rest ==> d.id != x.id
    ensures DocsTableOk([x] + rest)
  {
    var r := [x] + rest;
    forall i, j | 0 <= i < j < |r| ensures DocIds(r)[i] != DocIds(r)[j] {
      assert r[j] == rest[j - 1];
      if i > 0 {
        assert r[i] == rest[i - 1];
        assert DocIds(rest)[i - 1] != DocIds(rest)[j - 1];
      }
    }
  }

  /** Deleting by id keeps `documents` within its schema. */
  lemma {:induction false} WithoutIdKeepsTableOk(docs: seq<Doc>, id: int)
    requires DocsTableOk(docs)
    ensures DocsTableOk(WithoutId(docs, id))
  {
    if docs != [] {
      var tail := docs[1..];
      assert DocIds(tail) == DocIds(docs)[1..];
      WithoutIdKeepsTableOk(tail, id);
      if docs[0].id != id {
        forall d | d in WithoutId(tail, id) ensures d.id != docs[0].id {
          var k :| 0 <= k < |tail| && tail[k] == d;
          assert DocIds(docs)[0] != DocIds(docs)[k + 1];
        }
        ConsKeepsTableOk(docs[0], WithoutId(tail, id));
      }
    }
  }

  /** Deleting an id no row carries leaves the table as it was. */
  lemma {:induction false} WithoutAbsentId(docs: seq<Doc>, id: int)
    requires forall d :: d in docs ==> d.id != id
    ensures WithoutId(docs, id) == docs
  {
    if docs != [] {
      assert docs[0] in docs;
      assert forall d :: d in docs[1..] ==> d in docs;
      WithoutAbsentId(docs[1..], id);
      assert WithoutId(docs, id) == [docs[0]] + WithoutId(docs[1..], id);
      assert docs == [docs[0]] + docs[1..];
    }
  }

  // ---------------------------------------------------------------------
  // The database file
  // ---------------------------------------------------------------------

  /**
   * The SQLite database: whether the two tables exist, and their rows.
   * Rows are kept in insertion order; callers are promised no order.
   */
  class Database {
    var tablesExist: bool
    var users: seq<User>
    var docs: seq<Doc>

    ghost predicate Valid()
      reads this
    {
      && (!tablesExist ==> users == [] && docs == [])
      && UsersTableOk(users)
      && DocsTableOk(docs)
    }

    /** A database file in which no table has been created yet. */
    constructor ()
      ensures Valid() && !tablesExist
    {
      tablesExist := false;
      users := [];
      docs := [];
    }

    /**
     * create_tables: CREATE TABLE IF NOT EXISTS for both tables. Tables that
     * exist keep every row; absent ones are created empty.
     */
    method CreateTables()
      requires Valid()
      modifies this
      ensures Valid() && tablesExist
      ensures users == old(users) && docs == old(docs)
    {
      if !tablesExist {
        users := [];
        docs := [];
        tablesExist := true;
      }
    }

    /**
     * INSERT INTO users. The UNIQUE constraint refuses a username already
     * present (an IntegrityError; the table is left as it was).
     */
    method InsertUser(username: string, password: string, role: Role) returns (ok: bool)
      requires Valid() && tablesExist
      modifies this
      ensures Valid() && tablesExist && docs == old(docs)
      ensures ok <==> NameFree(old(users), username)
      ensures users == if ok then AppendUser(old(users), username, password, role) else old(users)
    {
      ok := forall i | 0 <= i < |users| :: users[i].username != username;
      if ok {
        AppendUserKeepsTableOk(users, username, password, role);
        users := AppendUser(users, username, password, role);
      }
    }

    /** INSERT INTO documents. */
    method InsertDocument(title: string, filePath: string, uploadedBy: string)
      requires Valid() && tablesExist
      modifies this
      ensures Valid() && tablesExist && users == old(users)
      ensures docs == AppendDoc(old(docs), title, filePath, uploadedBy)
    {
      AppendDocKeepsTableOk(docs, title, filePath, uploadedBy);
      docs := AppendDoc(docs, title, filePath, uploadedBy);
    }

    /** DELETE FROM documents WHERE id=? */
    method DeleteWhereId(id: int)
      requires Valid() && tablesExist
      modifies this
      ensures Valid() && tablesExist && users == old(users)
      ensures docs == WithoutId(old(docs), id)
    {
      WithoutIdKeepsTableOk(docs, id);
      docs := WithoutId(docs, id);
    }
  }
}
