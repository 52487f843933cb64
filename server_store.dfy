/**
  The server's database: the `users` and `documents` tables, the `user_documents`
  pairs, and the prepared queries the routes run against them
  (server/db/index.js). A table is the sequence of its rows in row-id order.
*/
module ServerStore {
  import opened Wrappers
  import opened JsString
  import opened JsArray

  /** A row of `users`; `isAdmin` is the stored integer flag `is_admin`. */
  datatype UserRow = UserRow(id: nat, username: string, passwordHash: string, isAdmin: int)

  /** A row of `documents`. */
  datatype DocumentRow = DocumentRow(id: nat, filename: string, displayName: string, filePath: string, fileType: string)

  /** What `getAllUsers` selects from a row: everything but the password hash. */
  datatype UserSummary = UserSummary(id: nat, username: string, isAdmin: int)

  // ---------------------------------------------------------------- ids in queries

  predicate AllDigits(s: string)
  {
    forall k :: 0 <= k < |s| ==> '0' <= s[k] <= '9'
  }

  /**
    The row id a text parameter (a route's `:id`) selects in `WHERE id = ?`: the
    column's integer affinity turns a text of decimal digits into that integer; any
    other text stays text and equals no id.
  */
  function SqlId(s: string): (r: Option<nat>)
    ensures r.Some? <==> s != [] && AllDigits(s)
  {
    if s != [] && AllDigits(s) then Some(DigitsValue(s, 10)) else None
  }

  /** A text the database reads as an id is read as the same number by `parseInt`. */
  lemma SqlIdParseInt(s: string)
    requires SqlId(s).Some?
    ensures ParseInt(s) == Some(SqlId(s).value as int)
  {
    assert !IsJsSpace(s[0]) && s[0] != '-' && s[0] != '+';
    assert TrimStart(s) == s;
    assert |s| >= 2 ==> s[1] != 'x' && s[1] != 'X';
    assert ParseIntDigits(s) == (s, 10);
    AllDigitsPrefix(s);
    assert s[..|s|] == s;
  }

  /** An id written into a URL in decimal selects that id. */
  lemma SqlIdNatToString(n: nat)
    ensures SqlId(NatToString(n)) == Some(n)
  {
    DigitsValueNatToString(n);
  }

  lemma {:induction false} DigitPrefixAppend(a: string, t: string)
    requires AllDigits(a) && t != [] && DigitValue(t[0], 10).None?
    ensures DigitPrefixLength(a + t, 10) == |a|
    decreases |a|
  {
    if a == [] {
      assert a + t == t;
    } else {
      assert (a + t)[1..] == a[1..] + t;
      DigitPrefixAppend(a[1..], t);
    }
  }

  /**
    `parseInt` stops at the first character that is not a digit, so a digit text
    followed by other text reads as the digits alone, while the database reads the
    whole text as no id. The one exception is `0x`, which switches to base 16.
  */
  lemma ParseIntStopsAtNonDigit(a: string, t: string)
    requires SqlId(a).Some? && t != [] && !('0' <= t[0] <= '9')
    requires !(a == "0" && (t[0] == 'x' || t[0] == 'X'))
    ensures ParseInt(a + t) == ParseInt(a) && SqlId(a + t).None?
  {
    var s := a + t;
    assert s[0] == a[0];
    assert !IsJsSpace(s[0]) && s[0] != '-' && s[0] != '+';
    assert TrimStart(s) == s;
    assert |a| >= 2 ==> s[1] == a[1];
    assert |a| == 1 ==> s[1] == t[0];
    assert ParseIntDigits(s) == (s, 10);
    DigitPrefixAppend(a, t);
    assert s[..|a|] == a;
    SqlIdParseInt(a);
    assert !('0' <= s[|a|] <= '9');
  }

  // ---------------------------------------------------------------- lookups

  /** `getUserById.get(id)` */
  function UserById(users: seq<UserRow>, id: nat): (r: Option<UserRow>)
    ensures r.Some? ==> r.value in users && r.value.id == id
    ensures r.None? ==> forall k :: 0 <= k < |users| ==> users[k].id != id
  {
    match FindIndex(users, (u: UserRow) => u.id == id)
    case Some(k) => Some(users[k])
    case None => None
  }

  /** `getUserByUsername.get(username)`: the first row with that name. */
  function UserByName(users: seq<UserRow>, username: string): (r: Option<UserRow>)
    ensures r.Some? ==> r.value in users && r.value.username == username
    ensures r.None? ==> forall k :: 0 <= k < |users| ==> users[k].username != username
  {
    match FindIndex(users, (u: UserRow) => u.username == username)
    case Some(k) => Some(users[k])
    case None => None
  }

  /** `getDocumentById.get(id)` */
  function DocumentById(documents: seq<DocumentRow>, id: nat): (r: Option<DocumentRow>)
    ensures r.Some? ==> r.value in documents && r.value.id == id
    ensures r.None? ==> forall k :: 0 <= k < |documents| ==> documents[k].id != id
  {
    match FindIndex(documents, (d: DocumentRow) => d.id == id)
    case Some(k) => Some(documents[k])
    case None => None
  }

  /**
    `getUserDocuments.all(userId)`: the documents joined with the user's pairs, so a
    pair naming no document contributes nothing.
  */
  function UserDocuments(documents: seq<DocumentRow>, assignments: set<(nat, nat)>, userId: nat): seq<DocumentRow>
  {
    Filter(documents, (d: DocumentRow) => (userId, d.id) in assignments)
  }

  /** A document is listed for a user exactly when it exists and is assigned to them. */
  lemma UserDocumentsMembers(documents: seq<DocumentRow>, assignments: set<(nat, nat)>, userId: nat, d: DocumentRow)
    ensures d in UserDocuments(documents, assignments, userId) <==> d in documents && (userId, d.id) in assignments
  {
    FilterMembers(documents, (d: DocumentRow) => (userId, d.id) in assignments, d);
  }

  /** `getAllUsers.all()` */
  function Summaries(users: seq<UserRow>): (r: seq<UserSummary>)
    ensures |r| == |users|
    ensures forall k :: 0 <= k < |users| ==>
      r[k].id == users[k].id && r[k].username == users[k].username && r[k].isAdmin == users[k].isAdmin
  {
    seq(|users|, (k: int) requires 0 <= k < |users| => UserSummary(users[k].id, users[k].username, users[k].isAdmin))
  }

  // ---------------------------------------------------------------- updates

  /** `deleteUser.run(id)` */
  function WithoutUser(users: seq<UserRow>, id: nat): seq<UserRow>
  {
    Filter(users, (u: UserRow) => u.id != id)
  }

  /** `deleteDocument.run(id)` */
  function WithoutDocument(documents: seq<DocumentRow>, id: nat): seq<DocumentRow>
  {
    Filter(documents, (d: DocumentRow) => d.id != id)
  }

  /** `updateUserPassword.run(hash, id)` */
  function WithPassword(users: seq<UserRow>, id: nat, hash: string): (r: seq<UserRow>)
    ensures |r| == |users|
  {
    seq(|users|, (k: int) requires 0 <= k < |users| =>
      if users[k].id == id then users[k].(passwordHash := hash) else users[k])
  }

  /** Deleting a user keeps every other row and drops every row with that id. */
  lemma WithoutUserMembers(users: seq<UserRow>, id: nat, u: UserRow)
    ensures u in WithoutUser(users, id) <==> u in users && u.id != id
  {
    FilterMembers(users, (u: UserRow) => u.id != id, u);
  }

  lemma WithoutDocumentMembers(documents: seq<DocumentRow>, id: nat, d: DocumentRow)
    ensures d in WithoutDocument(documents, id) <==> d in documents && d.id != id
  {
    FilterMembers(documents, (d: DocumentRow) => d.id != id, d);
  }

  /** A password update touches only the hash, and only on the row with that id. */
  lemma WithPasswordSpec(users: seq<UserRow>, id: nat, hash: string)
    ensures forall k :: 0 <= k < |users| ==>
      var r := WithPassword(users, id, hash)[k];
      r.id == users[k].id && r.username == users[k].username && r.isAdmin == users[k].isAdmin
      && r.passwordHash == (if users[k].id == id then hash else users[k].passwordHash)
  {
  }

  /** `clearUserDocuments.run(userId)` */
  function ClearedFor(assignments: set<(nat, nat)>, userId: nat): (r: set<(nat, nat)>)
    ensures forall p :: p in r <==> p in assignments && p.0 != userId
  {
    set p | p in assignments && p.0 != userId
  }

  // ---------------------------------------------------------------- row ids

  /** Row ids strictly increase along the table and none exceeds the last one handed out. */
  ghost predicate Keyed<T>(rows: seq<T>, key: T -> nat, last: nat)
  {
    (forall i, j :: 0 <= i < j < |rows| ==> key(rows[i]) < key(rows[j]))
    && forall i :: 0 <= i < |rows| ==> key(rows[i]) <= last
  }

  /** Deleting rows keeps a table's ids in order. */
  lemma {:induction false} FilterKeyed<T>(rows: seq<T>, p: T -> bool, key: T -> nat, last: nat)
    requires Keyed(rows, key, last)
    ensures Keyed(Filter(rows, p), key, last)
    decreases |rows|
  {
    if rows != [] {
      var tail := Filter(rows[1..], p);
      FilterKeyed(rows[1..], p, key, last);
      if p(rows[0]) {
        forall k | 0 <= k < |tail| ensures key(rows[0]) < key(tail[k])
        {
          var m :| 0 <= m < |rows[1..]| && rows[1..][m] == tail[k];
          assert rows[m + 1] == tail[k];
        }
        ConsKeyed(rows[0], tail, key, last);
        assert Filter(rows, p) == [rows[0]] + tail;
      } else {
        assert Filter(rows, p) == tail;
      }
    }
  }

  lemma ConsKeyed<T>(head: T, tail: seq<T>, key: T -> nat, last: nat)
    requires Keyed(tail, key, last) && key(head) <= last
    requires forall k :: 0 <= k < |tail| ==> key(head) < key(tail[k])
    ensures Keyed([head] + tail, key, last)
  {
    var rows := [head] + tail;
    forall i, j | 0 <= i < j < |rows| ensures key(rows[i]) < key(rows[j])
    {
      assert rows[j] == tail[j - 1];
      if i > 0 { assert rows[i] == tail[i - 1]; }
    }
    forall i | 0 <= i < |rows| ensures key(rows[i]) <= last
    {
      if i > 0 { assert rows[i] == tail[i - 1]; }
    }
  }

  /** Appending a row under a fresh, larger id keeps a table's ids in order. */
  lemma AppendKeyed<T>(rows: seq<T>, key: T -> nat, last: nat, row: T)
    requires Keyed(rows, key, last) && key(row) == last + 1
    ensures Keyed(rows + [row], key, last + 1)
  {
  }

  /** A table with no larger id than the last one has no row under the next. */
  lemma NextIdFresh(users: seq<UserRow>, last: nat)
    requires Keyed(users, (u: UserRow) => u.id, last)
    ensures UserById(users, last + 1).None?
  {
  }

  // ---------------------------------------------------------------- the database

  class Database {
    var users: seq<UserRow>
    var documents: seq<DocumentRow>
    /** `user_documents`: (user id, document id) pairs; a pair is stored at most once. */
    var assignments: set<(nat, nat)>
    /** The largest user id handed out so far. */
    var lastUserId: nat
    /** The largest document id handed out so far. */
    var lastDocumentId: nat

    ghost predicate Valid()
      reads this
    {
      Keyed(users, (u: UserRow) => u.id, lastUserId)
      && Keyed(documents, (d: DocumentRow) => d.id, lastDocumentId)
    }

    constructor ()
      ensures Valid()
      ensures users == [] && documents == [] && assignments == {}
      ensures lastUserId == 0 && lastDocumentId == 0
    {
      users := [];
      documents := [];
      assignments := {};
      lastUserId := 0;
      lastDocumentId := 0;
    }

    /** `createUser.run`: a row under a fresh id, which it returns (`lastInsertRowid`). */
    method CreateUser(username: string, passwordHash: string, isAdmin: int) returns (id: nat)
      requires Valid()
      modifies this
      ensures Valid()
      ensures UserById(old(users), id).None?
      ensures users == old(users) + [UserRow(id, username, passwordHash, isAdmin)]
      ensures lastUserId == id
      ensures documents == old(documents) && assignments == old(assignments)
      ensures lastDocumentId == old(lastDocumentId)
    {
      NextIdFresh(users, lastUserId);
      id := lastUserId + 1;
      AppendKeyed(users, (u: UserRow) => u.id, lastUserId, UserRow(id, username, passwordHash, isAdmin));
      users := users + [UserRow(id, username, passwordHash, isAdmin)];
      lastUserId := id;
    }

    /** `deleteUser.run(id)` */
    method DeleteUser(id: nat)
      requires Valid()
      modifies this
      ensures Valid()
      ensures users == WithoutUser(old(users), id)
      ensures documents == old(documents) && assignments == old(assignments)
      ensures lastUserId == old(lastUserId) && lastDocumentId == old(lastDocumentId)
    {
      FilterKeyed(users, (u: UserRow) => u.id != id, (u: UserRow) => u.id, lastUserId);
      users := WithoutUser(users, id);
    }

    /** `updateUserPassword.run(hash, id)` */
    method UpdateUserPassword(hash: string, id: nat)
      requires Valid()
      modifies this
      ensures Valid()
      ensures users == WithPassword(old(users), id, hash)
      ensures documents == old(documents) && assignments == old(assignments)
      ensures lastUserId == old(lastUserId) && lastDocumentId == old(lastDocumentId)
    {
      users := WithPassword(users, id, hash);
    }

    /** `createDocument.run`: a row under a fresh id, which it returns. */
    method CreateDocument(filename: string, displayName: string, filePath: string, fileType: string)
      returns (id: nat)
      requires Valid()
      modifies this
      ensures Valid()
      ensures DocumentById(old(documents), id).None?
      ensures documents == old(documents) + [DocumentRow(id, filename, displayName, filePath, fileType)]
      ensures lastDocumentId == id
      ensures users == old(users) && assignments == old(assignments) && lastUserId == old(lastUserId)
    {
      id := lastDocumentId + 1;
      var row := DocumentRow(id, filename, displayName, filePath, fileType);
      AppendKeyed(documents, (d: DocumentRow) => d.id, lastDocumentId, row);
      documents := documents + [row];
      lastDocumentId := id;
    }

    /** `deleteDocument.run(id)` */
    method DeleteDocument(id: nat)
      requires Valid()
      modifies this
      ensures Valid()
      ensures documents == WithoutDocument(old(documents), id)
      ensures users == old(users) && assignments == old(assignments)
      ensures lastUserId == old(lastUserId) && lastDocumentId == old(lastDocumentId)
    {
      FilterKeyed(documents, (d: DocumentRow) => d.id != id, (d: DocumentRow) => d.id, lastDocumentId);
      documents := WithoutDocument(documents, id);
    }

    /** `clearUserDocuments.run(userId)` */
    method ClearUserDocuments(userId: nat)
      requires Valid()
      modifies this
      ensures Valid()
      ensures assignments == ClearedFor(old(assignments), userId)
      ensures users == old(users) && documents == old(documents)
      ensures lastUserId == old(lastUserId) && lastDocumentId == old(lastDocumentId)
    {
      assignments := ClearedFor(assignments, userId);
    }

    /** `assignDocumentToUser.run(userId, documentId)`: `INSERT OR IGNORE` of the pair. */
    method AssignDocumentToUser(userId: nat, documentId: nat)
      requires Valid()
      modifies this
      ensures Valid()
      ensures assignments == old(assignments) + {(userId, documentId)}
      ensures users == old(users) && documents == old(documents)
      ensures lastUserId == old(lastUserId) && lastDocumentId == old(lastDocumentId)
    {
      assignments := assignments + {(userId, documentId)};
    }

    /** `removeDocumentFromUser.run(userId, documentId)` */
    method RemoveDocumentFromUser(userId: nat, documentId: nat)
      requires Valid()
      modifies this
      ensures Valid()
      ensures assignments == old(assignments) - {(userId, documentId)}
      ensures users == old(users) && documents == old(documents)
      ensures lastUserId == old(lastUserId) && lastDocumentId == old(lastDocumentId)
    {
      assignments := assignments - {(userId, documentId)};
    }
  }
}
