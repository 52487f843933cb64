/**
  The admin routes (server/app/routes/admin.js), reached only through `AdminGate`:
  each handler runs its checks in order, answers the first that fails, and
  otherwise changes the database and answers success.
*/
module AdminRoutes {
  import opened Wrappers
  import opened JsString
  import opened NodePath
  import opened ServerStore
  import opened ServerHttp

  /** No two users share a name. */
  predicate UniqueNames(users: seq<UserRow>)
  {
    forall i, j :: 0 <= i < j < |users| ==> users[i].username != users[j].username
  }

  /** `isAdmin` with its destructuring default: `false` when the body has no such property. */
  function AdminOption(isAdmin: JsValue): JsValue
  {
    if isAdmin == Undefined then Bool(false) else isAdmin
  }

  /** The stored flag, `isAdmin ? 1 : 0`. */
  function AdminFlag(isAdmin: JsValue): (flag: int)
    ensures flag == 1 <==> Truthy(isAdmin)
    ensures flag == 0 || flag == 1
  {
    if Truthy(AdminOption(isAdmin)) then 1 else 0
  }

  /**
    `POST /users`; `hash` is `bcrypt.hash(·, 12)`. A missing name or password is a
    400 before the table is read, a taken name is a 400, and otherwise exactly one
    row is added under a fresh id, an admin exactly when `isAdmin` is truthy.
  */
  method CreateUser(db: Database, username: Option<string>, password: Option<string>, isAdmin: JsValue,
                    hash: string -> string) returns (res: Response)
    requires db.Valid()
    modifies db
    ensures db.Valid()
    ensures UniqueNames(old(db.users)) ==> UniqueNames(db.users)
    ensures !Given(username) || !Given(password) ==>
      res == Response(400, Error("Username and password are required")) && unchanged(db)
    ensures Given(username) && Given(password) && UserByName(old(db.users), username.value).Some? ==>
      res == Response(400, Error("Username already exists")) && unchanged(db)
    ensures Given(username) && Given(password) && UserByName(old(db.users), username.value).None? ==>
      res.status == 201 && res.body.CreatedUser?
      && res.body.username == username.value && res.body.isAdmin == AdminOption(isAdmin)
      && UserById(old(db.users), res.body.id).None?
      && db.users == old(db.users) + [UserRow(res.body.id, username.value, hash(password.value), AdminFlag(isAdmin))]
      && db.documents == old(db.documents) && db.assignments == old(db.assignments)
  {
    if !Given(username) || !Given(password) {
      return Fail(400, "Username and password are required");
    }
    var existingUser := UserByName(db.users, username.value);
    if existingUser.Some? {
      return Fail(400, "Username already exists");
    }
    var passwordHash := hash(password.value);
    var id := db.CreateUser(username.value, passwordHash, if Truthy(AdminOption(isAdmin)) then 1 else 0);
    res := Response(201, CreatedUser(id, username.value, AdminOption(isAdmin)));
  }

  /**
    `DELETE /users/:id`: the caller's own id (as `parseInt` reads it) is a 400 before
    the table is read, an unknown id is a 404, and otherwise that user's row alone
    is removed.
  */
  method DeleteUser(db: Database, id: string, caller: Claims) returns (res: Response)
    requires db.Valid()
    modifies db
    ensures db.Valid()
    ensures ParseInt(id) == Some(caller.id as int) ==>
      res == Response(400, Error("Cannot delete your own account")) && unchanged(db)
    ensures ParseInt(id) != Some(caller.id as int) && (SqlId(id).None? || UserById(old(db.users), SqlId(id).value).None?) ==>
      res == Response(404, Error("User not found")) && unchanged(db)
    ensures ParseInt(id) != Some(caller.id as int) && SqlId(id).Some? && UserById(old(db.users), SqlId(id).value).Some? ==>
      res == Response(200, Done("User deleted successfully"))
      && db.users == WithoutUser(old(db.users), SqlId(id).value)
      && db.documents == old(db.documents) && db.assignments == old(db.assignments)
    ensures forall u :: u in old(db.users) && u.id == caller.id ==> u in db.users
  {
    if ParseInt(id) == Some(caller.id as int) {
      return Fail(400, "Cannot delete your own account");
    }
    var userId := SqlId(id);
    if userId.None? || UserById(db.users, userId.value).None? {
      return Fail(404, "User not found");
    }
    SqlIdParseInt(id);
    forall u | u in db.users && u.id == caller.id ensures u in WithoutUser(db.users, userId.value)
    {
      WithoutUserMembers(db.users, userId.value, u);
    }
    db.DeleteUser(userId.value);
    res := Response(200, Done("User deleted successfully"));
  }

  /**
    `PUT /users/:id/password`: a missing password is a 400 before the table is read,
    an unknown id is a 404, and otherwise only that user's hash changes.
  */
  method UpdatePassword(db: Database, id: string, password: Option<string>, hash: string -> string)
    returns (res: Response)
    requires db.Valid()
    modifies db
    ensures db.Valid()
    ensures !Given(password) ==> res == Response(400, Error("Password is required")) && unchanged(db)
    ensures Given(password) && (SqlId(id).None? || UserById(old(db.users), SqlId(id).value).None?) ==>
      res == Response(404, Error("User not found")) && unchanged(db)
    ensures Given(password) && SqlId(id).Some? && UserById(old(db.users), SqlId(id).value).Some? ==>
      res == Response(200, Done("Password updated successfully"))
      && db.users == WithPassword(old(db.users), SqlId(id).value, hash(password.value))
      && db.documents == old(db.documents) && db.assignments == old(db.assignments)
  {
    if !Given(password) {
      return Fail(400, "Password is required");
    }
    var userId := SqlId(id);
    if userId.None? || UserById(db.users, userId.value).None? {
      return Fail(404, "User not found");
    }
    db.UpdateUserPassword(hash(password.value), userId.value);
    res := Response(200, Done("Password updated successfully"));
  }

  /** `GET /users`: every user, in table order, without password hashes. */
  function ListUsers(users: seq<UserRow>): (r: Response)
    ensures r.status == 200 && r.body.UserList? && |r.body.users| == |users|
    ensures forall k :: 0 <= k < |users| ==>
      r.body.users[k] == UserSummary(users[k].id, users[k].username, users[k].isAdmin)
  {
    Response(200, UserList(Summaries(users)))
  }

  /** `GET /documents`: every document, in table order. */
  function ListDocuments(documents: seq<DocumentRow>): (r: Response)
    ensures r.status == 200 && r.body.DocumentList? && |r.body.documents| == |documents|
    ensures forall k :: 0 <= k < |documents| ==> r.body.documents[k] == documents[k]
  {
    Response(200, DocumentList(documents))
  }

  /**
    The listing agrees with the lookup by id that the other document routes use:
    an id is listed exactly when a document of that id is found, and the row found
    is a listed one.
  */
  lemma ListDocumentsById(documents: seq<DocumentRow>, id: nat)
    ensures var listed := ListDocuments(documents).body.documents;
      (DocumentById(documents, id).Some? <==> exists k :: 0 <= k < |listed| && listed[k].id == id)
      && (DocumentById(documents, id).Some? ==> DocumentById(documents, id).value in listed)
  {
    var listed := ListDocuments(documents).body.documents;
    assert listed == documents;
  }

  // ---------------------------------------------------------------- uploads

  /** The extensions the upload filter lets through. */
  const AllowedTypes: seq<string> := [".html", ".docx"]

  /** The upload filter: the original name's extension, lowercased, is an allowed one. */
  predicate Accepted(originalname: string)
  {
    Lower(ExtName(originalname)) in AllowedTypes
  }

  /** `path.extname(originalname).toLowerCase().slice(1)` */
  function FileType(originalname: string): string
  {
    var ext := Lower(ExtName(originalname));
    if ext == [] then [] else ext[1..]
  }

  /** Every accepted file is recorded as `html` or `docx`. */
  lemma AcceptedFileType(originalname: string)
    requires Accepted(originalname)
    ensures FileType(originalname) == "html" || FileType(originalname) == "docx"
  {
    var ext := Lower(ExtName(originalname));
    if ext == ".html" {
      assert ext[1..] == "html";
    } else {
      assert ext[1..] == "docx";
    }
  }

  /**
    The filter looks only at the last extension and ignores case: `Report.v2.DOCX`
    is accepted and recorded as `docx`.
  */
  lemma AcceptedName(stem: string, suffix: string)
    requires stem != [] && suffix != []
    requires forall k :: 0 <= k < |stem| ==> stem[k] != '/'
    requires forall k :: 0 <= k < |suffix| ==> suffix[k] != '.' && suffix[k] != '/'
    ensures Accepted(stem + "." + suffix) <==> Lower(suffix) == "html" || Lower(suffix) == "docx"
    ensures Accepted(stem + "." + suffix) ==> FileType(stem + "." + suffix) == Lower(suffix)
  {
    ExtNameOf(stem, suffix);
    LowerAppend(".", suffix);
    assert Lower(".") == ".";
    var ext := "." + Lower(suffix);
    assert Lower(ExtName(stem + "." + suffix)) == ext;
    assert ext[1..] == Lower(suffix);
    DottedAllowed(Lower(suffix));
  }

  lemma DottedAllowed(l: string)
    ensures "." + l in AllowedTypes <==> l == "html" || l == "docx"
  {
    assert ".html" == "." + "html" && ".docx" == "." + "docx";
    if "." + l in AllowedTypes {
      assert l == ("." + l)[1..];
    }
  }

  /** A hidden file named like an extension, such as `.docx`, has no extension and is refused. */
  lemma HiddenFileRefused(name: string)
    requires forall k :: 0 <= k < |name| ==> name[k] != '.' && name[k] != '/'
    ensures !Accepted("." + name)
  {
    HiddenFileHasNoExt(name);
  }

  /** The directory uploaded files are served from. */
  const UploadsPath: string := "/uploads/documents/"

  /**
    `POST /documents` with its upload filter. `file` is the uploaded file's original
    name, `uniqueSuffix` the time-and-random prefix the disk storage gives the
    stored file. A refused file never reaches the handler: multer passes the
    filter's error to `next`, and with no error middleware of its own the router
    leaves it to Express's default handler, a 500 with an HTML page; no file is a 400; otherwise one row is added, named after the stored
    file, typed by the extension, titled by `displayName` or the original name.
  */
  method UploadDocument(db: Database, file: Option<string>, displayName: Option<string>, uniqueSuffix: string)
    returns (res: Response)
    requires db.Valid()
    modifies db
    ensures db.Valid()
    ensures file.Some? && !Accepted(file.value) ==>
      res == Response(500, ErrorPage("Only .html and .docx files are allowed")) && unchanged(db)
    ensures file.None? ==> res == Response(400, Error("No file uploaded")) && unchanged(db)
    ensures file.Some? && Accepted(file.value) ==>
      res.status == 201 && res.body.CreatedDocument?
      && db.documents == old(db.documents) + [res.body.document]
      && DocumentById(old(db.documents), res.body.document.id).None?
      && res.body.document.filename == uniqueSuffix + ExtName(file.value)
      && res.body.document.filePath == UploadsPath + res.body.document.filename
      && (res.body.document.fileType == "html" || res.body.document.fileType == "docx")
      && res.body.document.fileType == FileType(file.value)
      && res.body.document.displayName == (if Given(displayName) then displayName.value else file.value)
      && db.users == old(db.users) && db.assignments == old(db.assignments)
  {
    if file.Some? && !Accepted(file.value) {
      return Response(500, ErrorPage("Only .html and .docx files are allowed"));
    }
    if file.None? {
      return Fail(400, "No file uploaded");
    }
    var originalname := file.value;
    var filename := uniqueSuffix + ExtName(originalname);
    var filePath := UploadsPath + filename;
    var fileType := FileType(originalname);
    var title := if Given(displayName) then displayName.value else originalname;
    AcceptedFileType(originalname);
    var id := db.CreateDocument(filename, title, filePath, fileType);
    res := Response(201, CreatedDocument(DocumentRow(id, filename, title, filePath, fileType)));
  }

  /** `DELETE /documents/:id`: an unknown id is a 404; otherwise that document's row alone is removed. */
  method DeleteDocument(db: Database, id: string) returns (res: Response)
    requires db.Valid()
    modifies db
    ensures db.Valid()
    ensures SqlId(id).None? || DocumentById(old(db.documents), SqlId(id).value).None? ==>
      res == Response(404, Error("Document not found")) && unchanged(db)
    ensures SqlId(id).Some? && DocumentById(old(db.documents), SqlId(id).value).Some? ==>
      res == Response(200, Done("Document deleted successfully"))
      && db.documents == WithoutDocument(old(db.documents), SqlId(id).value)
      && db.users == old(db.users) && db.assignments == old(db.assignments)
  {
    var documentId := SqlId(id);
    if documentId.None? || DocumentById(db.documents, documentId.value).None? {
      return Fail(404, "Document not found");
    }
    db.DeleteDocument(documentId.value);
    res := Response(200, Done("Document deleted successfully"));
  }

  // ---------------------------------------------------------------- assignments

  /** `GET /users/:id/documents` */
  function ListUserDocuments(users: seq<UserRow>, documents: seq<DocumentRow>, assignments: set<(nat, nat)>,
                             id: string): Response
  {
    if SqlId(id).None? || UserById(users, SqlId(id).value).None? then Fail(404, "User not found")
    else Response(200, DocumentList(UserDocuments(documents, assignments, SqlId(id).value)))
  }

  /** An existing user's list holds exactly the existing documents assigned to them; anyone else is a 404. */
  lemma ListUserDocumentsSpec(users: seq<UserRow>, documents: seq<DocumentRow>, assignments: set<(nat, nat)>,
                              id: string, d: DocumentRow)
    ensures var r := ListUserDocuments(users, documents, assignments, id);
      (r.status == 200 <==> SqlId(id).Some? && UserById(users, SqlId(id).value).Some?)
      && (r.status != 200 ==> r == Response(404, Error("User not found")))
      && (r.status == 200 ==> (d in r.body.documents <==> d in documents && (SqlId(id).value, d.id) in assignments))
  {
    if SqlId(id).Some? {
      UserDocumentsMembers(documents, assignments, SqlId(id).value, d);
    }
  }

  /**
    `POST /users/:id/documents`: a body whose `documentIds` is not an array
    (`None`) is a 400 before the table is read, an unknown user is a 404, and
    otherwise the user's documents become exactly the listed ids, duplicates
    collapsed, while every other user's pairs stay as they were.
  */
  method AssignDocuments(db: Database, id: string, documentIds: Option<seq<nat>>) returns (res: Response)
    requires db.Valid()
    modifies db
    ensures db.Valid()
    ensures documentIds.None? ==> res == Response(400, Error("documentIds must be an array")) && unchanged(db)
    ensures documentIds.Some? && (SqlId(id).None? || UserById(old(db.users), SqlId(id).value).None?) ==>
      res == Response(404, Error("User not found")) && unchanged(db)
    ensures documentIds.Some? && SqlId(id).Some? && UserById(old(db.users), SqlId(id).value).Some? ==>
      res == Response(200, Done("Documents assigned successfully"))
      && (forall d :: (SqlId(id).value, d) in db.assignments <==> d in documentIds.value)
      && (forall p: (nat, nat) :: p.0 != SqlId(id).value ==> (p in db.assignments <==> p in old(db.assignments)))
      && db.users == old(db.users) && db.documents == old(db.documents)
  {
    if documentIds.None? {
      return Fail(400, "documentIds must be an array");
    }
    var userId := SqlId(id);
    if userId.None? || UserById(db.users, userId.value).None? {
      return Fail(404, "User not found");
    }
    var ids := documentIds.value;
    var n := userId.value;
    db.ClearUserDocuments(n);
    AssignEach(db, n, ids);
    PairsAfterClear(old(db.assignments), n, ids);
    res := Response(200, Done("Documents assigned successfully"));
  }

  /** The `for (const docId of documentIds)` loop of `assignDocumentToUser` calls. */
  method AssignEach(db: Database, n: nat, ids: seq<nat>)
    requires db.Valid()
    modifies db
    ensures db.Valid()
    ensures db.assignments == old(db.assignments) + Pairs(n, ids)
    ensures db.users == old(db.users) && db.documents == old(db.documents)
  {
    var i := 0;
    while i < |ids|
      invariant 0 <= i <= |ids|
      invariant db.Valid()
      invariant db.users == old(db.users) && db.documents == old(db.documents)
      invariant db.assignments == old(db.assignments) + Pairs(n, ids[..i])
      decreases |ids| - i
    {
      PairsSnoc(n, ids[..i], ids[i]);
      db.AssignDocumentToUser(n, ids[i]);
      assert ids[..i + 1] == ids[..i] + [ids[i]];
      i := i + 1;
    }
    assert ids[..i] == ids;
  }

  /** The pairs that give user `n` the documents `ds`. */
  function Pairs(n: nat, ds: seq<nat>): set<(nat, nat)>
  {
    set d | d in ds :: (n, d)
  }

  lemma PairsSnoc(n: nat, ds: seq<nat>, d: nat)
    ensures Pairs(n, ds + [d]) == Pairs(n, ds) + {(n, d)}
  {
    assert forall e :: e in ds + [d] <==> e in ds || e == d;
  }

  /** Clearing a user's pairs and adding the listed ones leaves that user exactly the listed documents. */
  lemma PairsAfterClear(before: set<(nat, nat)>, n: nat, ds: seq<nat>)
    ensures forall d :: (n, d) in ClearedFor(before, n) + Pairs(n, ds) <==> d in ds
    ensures forall p: (nat, nat) :: p.0 != n ==> (p in ClearedFor(before, n) + Pairs(n, ds) <==> p in before)
  {
  }

  /**
    `DELETE /users/:userId/documents/:documentId`: always a success, and the pair,
    if stored, is gone.
  */
  method RemoveAssignment(db: Database, userId: string, documentId: string) returns (res: Response)
    requires db.Valid()
    modifies db
    ensures db.Valid()
    ensures res == Response(200, Done("Document removed from user successfully"))
    ensures SqlId(userId).Some? && SqlId(documentId).Some? ==>
      db.assignments == old(db.assignments) - {(SqlId(userId).value, SqlId(documentId).value)}
    ensures SqlId(userId).None? || SqlId(documentId).None? ==> db.assignments == old(db.assignments)
    ensures db.users == old(db.users) && db.documents == old(db.documents)
  {
    var u := SqlId(userId);
    var d := SqlId(documentId);
    if u.Some? && d.Some? {
      db.RemoveDocumentFromUser(u.value, d.value);
    }
    res := Response(200, Done("Document removed from user successfully"));
  }

  // ---------------------------------------------------------------- generators

  /** `parseInt(req.query.length) || 16`: `NaN` and 0 fall back to 16. */
  function PasswordLength(query: Option<string>): int
  {
    var parsed := if query.Some? then ParseInt(query.value) else None;
    if parsed.None? || parsed.value == 0 then 16 else parsed.value
  }

  /** `GET /generate/username`; `generate` is the string generator. */
  function GenerateUsername(generate: int -> string): Response
  {
    Response(200, Username(generate(16)))
  }

  /** `GET /generate/password?length=…` */
  function GeneratePassword(query: Option<string>, generate: int -> string): Response
  {
    Response(200, Password(generate(PasswordLength(query))))
  }

  /**
    With a generator that makes strings of the length it is asked for, a username
    has 16 characters, and a password has the length the query gives in decimal, or
    16 when the query is missing, not a number, or 0.
  */
  lemma GeneratedLengths(generate: int -> string, query: Option<string>, n: nat)
    requires forall m: nat :: |generate(m)| == m
    ensures |GenerateUsername(generate).body.username| == 16
    ensures query.None? ==> |GeneratePassword(query, generate).body.password| == 16
    ensures query.Some? && ParseInt(query.value).None? ==> |GeneratePassword(query, generate).body.password| == 16
    ensures query == Some(NatToString(n)) ==>
      |GeneratePassword(query, generate).body.password| == if n == 0 then 16 else n
  {
    if query == Some(NatToString(n)) {
      ParseIntNatToString(n);
    }
  }
}
