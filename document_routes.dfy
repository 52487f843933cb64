/**
  The reader's document routes (server/app/routes/documents.js), behind
  `authenticateToken`: the caller's own documents, and one document by id, which is
  answered only when it is assigned to the caller.
*/
module DocumentRoutes {
  import opened Wrappers
  import opened JsString
  import opened JsArray
  import opened ServerStore
  import opened ServerHttp

  /** `GET /user`: the documents assigned to the caller. */
  function ListOwn(documents: seq<DocumentRow>, assignments: set<(nat, nat)>, caller: Claims): Response
  {
    Response(200, DocumentList(UserDocuments(documents, assignments, caller.id)))
  }

  /** The caller is listed exactly the existing documents assigned to them. */
  lemma ListOwnSpec(documents: seq<DocumentRow>, assignments: set<(nat, nat)>, caller: Claims, d: DocumentRow)
    ensures ListOwn(documents, assignments, caller).status == 200
    ensures d in ListOwn(documents, assignments, caller).body.documents <==>
      d in documents && (caller.id, d.id) in assignments
  {
    UserDocumentsMembers(documents, assignments, caller.id, d);
  }

  /** `userDocuments.some((doc) => doc.id === parseInt(id))` */
  predicate HasAccess(documents: seq<DocumentRow>, assignments: set<(nat, nat)>, caller: Claims, id: string)
  {
    FindIndex(UserDocuments(documents, assignments, caller.id), (d: DocumentRow) => ParseInt(id) == Some(d.id as int)).Some?
  }

  /** `GET /:id`: the access check first, then the lookup by the id text. */
  function GetDocument(documents: seq<DocumentRow>, assignments: set<(nat, nat)>, caller: Claims, id: string): Response
  {
    if !HasAccess(documents, assignments, caller, id) then Fail(403, "Access denied")
    else
      match (if SqlId(id).Some? then DocumentById(documents, SqlId(id).value) else None)
      case None => Fail(404, "Document not found")
      case Some(document) => Response(200, OneDocument(document))
  }

  /** Access means some existing document assigned to the caller has the id `parseInt` reads. */
  lemma HasAccessSpec(documents: seq<DocumentRow>, assignments: set<(nat, nat)>, caller: Claims, id: string)
    ensures HasAccess(documents, assignments, caller, id) <==>
      exists d :: d in documents && (caller.id, d.id) in assignments && ParseInt(id) == Some(d.id as int)
  {
    var mine := UserDocuments(documents, assignments, caller.id);
    if HasAccess(documents, assignments, caller, id) {
      var k := FindIndex(mine, (d: DocumentRow) => ParseInt(id) == Some(d.id as int)).value;
      UserDocumentsMembers(documents, assignments, caller.id, mine[k]);
    } else {
      forall d | d in documents && (caller.id, d.id) in assignments
        ensures ParseInt(id) != Some(d.id as int)
      {
        UserDocumentsMembers(documents, assignments, caller.id, d);
        var k :| 0 <= k < |mine| && mine[k] == d;
      }
    }
  }

  /**
    Whatever the documents table holds, an id that is not assigned to the caller is a
    403: the access check comes before the existence check, so a missing document
    is not revealed as missing.
  */
  lemma AccessBeforeExistence(documents: seq<DocumentRow>, assignments: set<(nat, nat)>, caller: Claims, id: string)
    requires forall d :: d in documents && (caller.id, d.id) in assignments ==> ParseInt(id) != Some(d.id as int)
    ensures GetDocument(documents, assignments, caller, id) == Response(403, Error("Access denied"))
  {
    HasAccessSpec(documents, assignments, caller, id);
  }

  /** A document is answered only when it is assigned to the caller, and it is the one the id names. */
  lemma GetDocumentAnswer(documents: seq<DocumentRow>, assignments: set<(nat, nat)>, caller: Claims, id: string)
    ensures var r := GetDocument(documents, assignments, caller, id);
      r.status in {200, 403, 404}
      && (r.status == 200 ==>
        r.body.OneDocument? && r.body.document in documents
        && (caller.id, r.body.document.id) in assignments && SqlId(id) == Some(r.body.document.id))
  {
    var r := GetDocument(documents, assignments, caller, id);
    if r.status == 200 {
      HasAccessSpec(documents, assignments, caller, id);
      var d :| d in documents && (caller.id, d.id) in assignments && ParseInt(id) == Some(d.id as int);
      SqlIdParseInt(id);
    }
  }

  /**
    For an id written as plain digits the 404 cannot happen: the access check reads
    assignments through the join with the documents table, so a document the caller
    may read exists.
  */
  lemma DigitIdNever404(documents: seq<DocumentRow>, assignments: set<(nat, nat)>, caller: Claims, id: string)
    requires SqlId(id).Some?
    ensures GetDocument(documents, assignments, caller, id).status != 404
    ensures GetDocument(documents, assignments, caller, id).status == 200 <==>
      DocumentById(documents, SqlId(id).value).Some? && (caller.id, SqlId(id).value) in assignments
  {
    HasAccessSpec(documents, assignments, caller, id);
    SqlIdParseInt(id);
    var found := DocumentById(documents, SqlId(id).value);
    if HasAccess(documents, assignments, caller, id) {
      var d :| d in documents && (caller.id, d.id) in assignments && ParseInt(id) == Some(d.id as int);
      assert d.id == SqlId(id).value;
      var k :| 0 <= k < |documents| && documents[k] == d;
    }
  }

  /**
    An id with trailing text reaches the 404: `parseInt("5abc")` is 5, which passes
    the access check for an assigned document 5, but the lookup by the text
    `"5abc"` finds no row.
  */
  lemma TrailingTextIs404(document: DocumentRow, caller: Claims)
    requires document.id == 5
    ensures GetDocument([document], {(caller.id, 5)}, caller, "5abc") == Response(404, Error("Document not found"))
  {
    assert "5abc" == "5" + "abc";
    assert SqlId("5") == Some(5) by {
      assert DigitsValue("5", 10) == DigitsValue("", 10) * 10 + 5;
    }
    ParseIntStopsAtNonDigit("5", "abc");
    SqlIdParseInt("5");
    HasAccessSpec([document], {(caller.id, 5)}, caller, "5abc");
  }
}
