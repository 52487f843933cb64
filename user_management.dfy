/**
  The admin's user panel (client/src/components/Admin/UserManagement.jsx): the
  create-user form, and the checklist that assigns documents to one user.
  Each fetch goes straight to the route handler it calls.
*/
module UserManagement {
  import opened Wrappers
  import opened JsString
  import opened ServerStore
  import opened ServerHttp
  import AdminRoutes

  /**
    A document in the checklist; `checked` is its `assigned` flag. A document
    fetched from the server has no flag, which every use of it reads as `false`.
  */
  datatype Entry = Entry(document: DocumentRow, checked: bool)

  /** The create-user form. */
  datatype FormData = FormData(username: string, password: string, isAdmin: bool)

  const EmptyForm: FormData := FormData("", "", false)

  /** `toggleDocument(docId)`: flips the flag of the entries with that id. */
  function Toggle(entries: seq<Entry>, docId: nat): (r: seq<Entry>)
    ensures |r| == |entries|
  {
    seq(|entries|, (k: int) requires 0 <= k < |entries| =>
      if entries[k].document.id == docId then entries[k].(checked := !entries[k].checked) else entries[k])
  }

  /** A toggle flips the flag of the entries with that id and changes nothing else. */
  lemma ToggleSpec(entries: seq<Entry>, docId: nat)
    ensures forall k :: 0 <= k < |entries| ==>
      Toggle(entries, docId)[k].document == entries[k].document
      && (Toggle(entries, docId)[k].checked <==> (entries[k].checked != (entries[k].document.id == docId)))
  {
  }

  /** Ticking a box twice leaves the checklist as it was. */
  lemma ToggleTwice(entries: seq<Entry>, docId: nat)
    ensures Toggle(Toggle(entries, docId), docId) == entries
  {
  }

  /** The ids of the documents in an answer (`data.documents.map((d) => d.id)`). */
  function Ids(documents: seq<DocumentRow>): (r: seq<nat>)
    ensures |r| == |documents| && forall k :: 0 <= k < |documents| ==> r[k] == documents[k].id
  {
    seq(|documents|, (k: int) requires 0 <= k < |documents| => documents[k].id)
  }

  /** Opening the assign modal: each entry is ticked exactly when its id is among the user's. */
  function MarkAssigned(entries: seq<Entry>, assignedIds: seq<nat>): (r: seq<Entry>)
    ensures |r| == |entries|
  {
    seq(|entries|, (k: int) requires 0 <= k < |entries| => entries[k].(checked := entries[k].document.id in assignedIds))
  }

  lemma MarkAssignedSpec(entries: seq<Entry>, assignedIds: seq<nat>)
    ensures forall k :: 0 <= k < |entries| ==>
      MarkAssigned(entries, assignedIds)[k].document == entries[k].document
      && (MarkAssigned(entries, assignedIds)[k].checked <==> entries[k].document.id in assignedIds)
  {
  }

  /** `documents.filter((d) => d.checked).map((d) => d.id)` */
  function CheckedIds(entries: seq<Entry>): seq<nat>
    decreases |entries|
  {
    if entries == [] then []
    else (if entries[0].checked then [entries[0].document.id] else []) + CheckedIds(entries[1..])
  }

  /** The ids sent are exactly those of the ticked entries. */
  lemma {:induction false} CheckedIdsMembers(entries: seq<Entry>, x: nat)
    ensures x in CheckedIds(entries) <==> exists k :: 0 <= k < |entries| && entries[k].checked && entries[k].document.id == x
    decreases |entries|
  {
    if entries != [] {
      CheckedIdsMembers(entries[1..], x);
      if x in CheckedIds(entries[1..]) {
        var k :| 0 <= k < |entries[1..]| && entries[1..][k].checked && entries[1..][k].document.id == x;
        assert entries[k + 1] == entries[1..][k];
      }
      if exists k :: 0 <= k < |entries| && entries[k].checked && entries[k].document.id == x {
        var k :| 0 <= k < |entries| && entries[k].checked && entries[k].document.id == x;
        if k > 0 {
          assert entries[1..][k - 1] == entries[k];
        }
      }
    }
  }

  /** The ids are sent in checklist order: the ticked ids of a prefix come first. */
  lemma {:induction false} CheckedIdsAppend(a: seq<Entry>, b: seq<Entry>)
    ensures CheckedIds(a + b) == CheckedIds(a) + CheckedIds(b)
    decreases |a|
  {
    if a == [] {
      assert a + b == b;
    } else {
      var head := if a[0].checked then [a[0].document.id] else [];
      assert (a + b)[0] == a[0] && (a + b)[1..] == a[1..] + b;
      CheckedIdsAppend(a[1..], b);
      assert CheckedIds(a + b) == head + (CheckedIds(a[1..]) + CheckedIds(b));
    }
  }

  /**
    Opening the modal and saving without a change sends exactly the listed
    documents the user already had.
  */
  lemma UnchangedSave(entries: seq<Entry>, assignedIds: seq<nat>, x: nat)
    ensures x in CheckedIds(MarkAssigned(entries, assignedIds)) <==>
      x in assignedIds && exists k :: 0 <= k < |entries| && entries[k].document.id == x
  {
    var marked := MarkAssigned(entries, assignedIds);
    CheckedIdsMembers(marked, x);
    if exists k :: 0 <= k < |entries| && entries[k].document.id == x && x in assignedIds {
      var k :| 0 <= k < |entries| && entries[k].document.id == x && x in assignedIds;
      assert marked[k].checked && marked[k].document.id == x;
    }
  }

  class UserPanel {
    var users: seq<UserSummary>
    var documents: seq<Entry>
    var formData: FormData
    var showCreateModal: bool
    var showAssignModal: bool
    var selectedUser: Option<UserSummary>
    var error: string

    constructor ()
      ensures users == [] && documents == [] && formData == EmptyForm
      ensures !showCreateModal && !showAssignModal && selectedUser.None? && error == ""
    {
      users := [];
      documents := [];
      formData := EmptyForm;
      showCreateModal := false;
      showAssignModal := false;
      selectedUser := None;
      error := "";
    }

    /** `toggleDocument` */
    method ToggleDocument(docId: nat)
      modifies this
      ensures documents == Toggle(old(documents), docId)
      ensures users == old(users) && formData == old(formData) && selectedUser == old(selectedUser)
      ensures showCreateModal == old(showCreateModal) && showAssignModal == old(showAssignModal)
      ensures error == old(error)
    {
      documents := Toggle(documents, docId);
    }

    /**
      `openAssignModal(user)`, given the answer of `GET /users/:id/documents`
      (`None` when it cannot be read): with an answer the checklist is marked by it
      and the modal opens; without one only the selection changes.
    */
    method OpenAssignModal(user: UserSummary, answer: Option<seq<DocumentRow>>)
      modifies this
      ensures selectedUser == Some(user)
      ensures answer.Some? ==> documents == MarkAssigned(old(documents), Ids(answer.value)) && showAssignModal
      ensures answer.None? ==> documents == old(documents) && showAssignModal == old(showAssignModal)
      ensures users == old(users) && formData == old(formData) && showCreateModal == old(showCreateModal)
      ensures error == old(error)
    {
      selectedUser := Some(user);
      if answer.Some? {
        var assignedIds := Ids(answer.value);
        documents := MarkAssigned(documents, assignedIds);
        showAssignModal := true;
      }
    }

    /**
      `handleAssignDocuments`: sends the ticked ids for the selected user. On success
      the user's stored documents are exactly the ticked ones and the modal closes;
      on failure the panel is left as it was.
    */
    method HandleAssignDocuments(db: Database) returns (res: Option<Response>)
      requires db.Valid()
      modifies this, db
      ensures db.Valid()
      ensures documents == old(documents) && users == old(users) && formData == old(formData)
      ensures showCreateModal == old(showCreateModal) && error == old(error)
      ensures old(selectedUser).None? ==> res.None? && unchanged(db) && unchanged(this)
      ensures res.Some? && res.value.status == 200 ==>
        old(selectedUser).Some?
        && (forall d :: (old(selectedUser).value.id, d) in db.assignments <==>
          exists k :: 0 <= k < |documents| && documents[k].checked && documents[k].document.id == d)
        && !showAssignModal && selectedUser.None?
      ensures res.Some? && res.value.status != 200 ==>
        showAssignModal == old(showAssignModal) && selectedUser == old(selectedUser)
    {
      if selectedUser.None? {
        return None;
      }
      var documentIds := CheckedIds(documents);
      var user := selectedUser.value;
      var r := AdminRoutes.AssignDocuments(db, NatToString(user.id), Some(documentIds));
      res := Some(r);
      if 200 <= r.status < 300 {
        SqlIdNatToString(user.id);
        forall d: nat ensures (user.id, d) in db.assignments <==>
          exists k :: 0 <= k < |documents| && documents[k].checked && documents[k].document.id == d
        {
          CheckedIdsMembers(documents, d);
        }
        showAssignModal := false;
        selectedUser := None;
      }
    }

    /** `generateUsername`, given the generated name: the name field alone changes. */
    method GenerateUsername(username: string)
      modifies this
      ensures formData == old(formData).(username := username)
      ensures users == old(users) && documents == old(documents) && selectedUser == old(selectedUser)
      ensures showCreateModal == old(showCreateModal) && showAssignModal == old(showAssignModal)
      ensures error == old(error)
    {
      formData := formData.(username := username);
    }

    /** `generatePassword`, given the generated password: the password field alone changes. */
    method GeneratePassword(password: string)
      modifies this
      ensures formData == old(formData).(password := password)
      ensures users == old(users) && documents == old(documents) && selectedUser == old(selectedUser)
      ensures showCreateModal == old(showCreateModal) && showAssignModal == old(showAssignModal)
      ensures error == old(error)
    {
      formData := formData.(password := password);
    }

    /**
      `handleCreateUser`: posts the form. On success the modal closes, the form is
      cleared and the user list is reloaded with the new user in it; otherwise the
      server's error is shown and the form is kept for correction.
    */
    method HandleCreateUser(db: Database, hash: string -> string) returns (res: Response)
      requires db.Valid()
      modifies this, db
      ensures db.Valid()
      ensures documents == old(documents) && selectedUser == old(selectedUser)
      ensures showAssignModal == old(showAssignModal)
      ensures 200 <= res.status < 300 ==>
        !showCreateModal && formData == EmptyForm && users == Summaries(db.users) && error == ""
        && res.body.CreatedUser? && db.users == old(db.users) +
          [UserRow(res.body.id, old(formData).username, hash(old(formData).password), if old(formData).isAdmin then 1 else 0)]
      ensures !(200 <= res.status < 300) ==>
        unchanged(db) && formData == old(formData) && showCreateModal == old(showCreateModal)
        && users == old(users) && error == (if res.body.Error? && res.body.error != "" then res.body.error else "Failed to create user")
      ensures old(formData).username == "" || old(formData).password == "" ==> res.status == 400
    {
      error := "";
      res := AdminRoutes.CreateUser(db, Some(formData.username), Some(formData.password), Bool(formData.isAdmin), hash);
      ShowCreated(res, db.users);
    }

    /** What the panel does with the answer to its `POST /users`. */
    method ShowCreated(res: Response, rows: seq<UserRow>)
      modifies this
      ensures documents == old(documents) && selectedUser == old(selectedUser)
      ensures showAssignModal == old(showAssignModal)
      ensures 200 <= res.status < 300 ==>
        !showCreateModal && formData == EmptyForm && users == Summaries(rows) && error == ""
      ensures !(200 <= res.status < 300) ==>
        formData == old(formData) && showCreateModal == old(showCreateModal) && users == old(users)
        && error == (if res.body.Error? && res.body.error != "" then res.body.error else "Failed to create user")
    {
      if 200 <= res.status < 300 {
        showCreateModal := false;
        formData := EmptyForm;
        users := Summaries(rows);
        error := "";
      } else {
        error := if res.body.Error? && res.body.error != "" then res.body.error else "Failed to create user";
      }
    }
  }
}
