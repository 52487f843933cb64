/**
  Loading a converted document (client/src/hooks/useDocumentParser.js): the
  fetch, the removal of the table of contents the converter generated, the
  walk of `DocumentParser`, and the hook's four pieces of state.

  The generated table of contents is the first `UL` of the document whose
  previous element sibling mentions "Contents". The source removes the list
  first and then asks the detached list for its previous sibling, which is
  null, so the second removal throws (`RemoveTocAsWritten`, `TocRemovalThrows`)
  and the hook records the error. `Loader.Load` is the hook as written;
  `Loader.LoadCorrected` is the same hook with the intended removal of both
  nodes (`RemoveToc`).
*/
module DocumentLoader {
  import opened Wrappers
  import opened JsString
  import opened Html
  import opened DocumentParser

  // ---------------------------------------------------------------- positions in a forest

  /** Following `path` (child indices) from the forest `f` reaches an element at every step. */
  predicate ValidPath(f: seq<Node>, path: seq<nat>)
    decreases path
  {
    path == [] || (path[0] < |f| && f[path[0]].Element? && ValidPath(f[path[0]].children, path[1..]))
  }

  /** The child list reached by following `path`. */
  function ListAt(f: seq<Node>, path: seq<nat>): seq<Node>
    requires ValidPath(f, path)
    decreases path
  {
    if path == [] then f else ListAt(f[path[0]].children, path[1..])
  }

  /** `f` with the child list at `path` replaced by `g`. */
  function UpdateList(f: seq<Node>, path: seq<nat>, g: seq<Node>): (r: seq<Node>)
    requires ValidPath(f, path)
    ensures |r| == if path == [] then |g| else |f|
    decreases path
  {
    if path == [] then g
    else
      var n := f[path[0]];
      f[path[0] := n.(children := UpdateList(n.children, path[1..], g))]
  }

  /** After an update, the path still leads to a list, and that list is the new one. */
  lemma {:induction false} ListAtUpdate(f: seq<Node>, path: seq<nat>, g: seq<Node>)
    requires ValidPath(f, path)
    ensures ValidPath(UpdateList(f, path, g), path)
    ensures ListAt(UpdateList(f, path, g), path) == g
    decreases path
  {
    if path != [] {
      var n := f[path[0]];
      ListAtUpdate(n.children, path[1..], g);
    }
  }

  /** Putting the old list back restores the forest: an update changes nothing off its path. */
  lemma {:induction false} UpdateListRestore(f: seq<Node>, path: seq<nat>, g: seq<Node>)
    requires ValidPath(f, path)
    ensures ValidPath(UpdateList(f, path, g), path)
    ensures UpdateList(UpdateList(f, path, g), path, ListAt(f, path)) == f
    decreases path
  {
    ListAtUpdate(f, path, g);
    if path != [] {
      var n := f[path[0]];
      UpdateListRestore(n.children, path[1..], g);
    }
  }

  // ---------------------------------------------------------------- querySelector("ul")

  /**
    The first `UL` at or after position `i` of `f`, in document order (an
    element before its descendants, descendants before later siblings): the
    path to its parent list and its index in that list.
  */
  function FindUlFrom(f: seq<Node>, i: nat): Option<(seq<nat>, nat)>
    decreases f, |f| - i
  {
    if i >= |f| then None
    else if IsTag(f[i], "UL") then Some(([], i))
    else if f[i].Element? && FindUlFrom(f[i].children, 0).Some? then
      var (p, j) := FindUlFrom(f[i].children, 0).value;
      Some(([i] + p, j))
    else FindUlFrom(f, i + 1)
  }

  /** No `UL` anywhere in `f[i..]`. */
  predicate NoUl(f: seq<Node>, i: nat)
    decreases f, |f| - i
  {
    i >= |f| || (!IsTag(f[i], "UL") && (f[i].Element? ==> NoUl(f[i].children, 0)) && NoUl(f, i + 1))
  }

  /** The search finds a `UL` exactly when there is one, and what it finds is a `UL`. */
  lemma {:induction false} FindUlSpec(f: seq<Node>, i: nat)
    ensures FindUlFrom(f, i).None? <==> NoUl(f, i)
    ensures FindUlFrom(f, i).Some? ==>
      var (p, j) := FindUlFrom(f, i).value;
      ValidPath(f, p) && j < |ListAt(f, p)| && IsTag(ListAt(f, p)[j], "UL")
    decreases f, |f| - i
  {
    if i < |f| && !IsTag(f[i], "UL") {
      if f[i].Element? {
        FindUlSpec(f[i].children, 0);
        if FindUlFrom(f[i].children, 0).Some? {
          var (p, j) := FindUlFrom(f[i].children, 0).value;
          assert ([i] + p)[1..] == p;
        } else {
          FindUlSpec(f, i + 1);
        }
      } else {
        FindUlSpec(f, i + 1);
      }
    }
  }

  /** `previousElementSibling` of the node at index `j`: the nearest element before it. */
  function PrevElement(list: seq<Node>, j: nat): (r: Option<nat>)
    requires j <= |list|
    ensures r.Some? ==> r.value < j && list[r.value].Element?
  {
    if j == 0 then None
    else if list[j - 1].Element? then Some(j - 1)
    else PrevElement(list, j - 1)
  }

  /** Only text nodes lie between a node and its previous element sibling. */
  lemma {:induction false} PrevElementSpec(list: seq<Node>, j: nat)
    requires j <= |list|
    ensures var lo := if PrevElement(list, j).Some? then PrevElement(list, j).value + 1 else 0;
      forall t :: lo <= t < j ==> list[t].Text?
  {
    if j > 0 && !list[j - 1].Element? {
      PrevElementSpec(list, j - 1);
    }
  }

  /** Where the generated table of contents is: its parent list, the list's index and the title's index. */
  datatype TocPlace = TocPlace(parent: seq<nat>, list: nat, title: nat)

  /** The test of the source: the first `UL` has a previous element sibling whose text has "Contents". */
  function FindToc(body: seq<Node>): (r: Option<TocPlace>)
    ensures r.Some? ==> (ValidPath(body, r.value.parent)
      && r.value.title < r.value.list < |ListAt(body, r.value.parent)|
      && IsTag(ListAt(body, r.value.parent)[r.value.list], "UL")
      && ListAt(body, r.value.parent)[r.value.title].Element?
      && Contains(TextContent(ListAt(body, r.value.parent)[r.value.title]), "Contents"))
  {
    FindUlSpec(body, 0);
    match FindUlFrom(body, 0)
    case None => None
    case Some((p, j)) =>
      var list := ListAt(body, p);
      match PrevElement(list, j)
      case None => None
      case Some(k) =>
        if Contains(TextContent(list[k]), "Contents") then Some(TocPlace(p, j, k)) else None
  }

  /**
    The removal as written: after `autoToc.remove()` the list has no parent, so
    its `previousElementSibling` is null and calling `remove` on it throws.
  */
  function RemoveTocAsWritten(body: seq<Node>): (r: Result<seq<Node>, string>)
    ensures r.Err? <==> FindToc(body).Some?
    ensures r.Ok? ==> r.value == body
  {
    if FindToc(body).Some? then Err("TypeError: Cannot read properties of null (reading 'remove')")
    else Ok(body)
  }

  /** A document that starts with a "Contents" paragraph and a list fails to load. */
  lemma TocRemovalThrows()
    ensures var body := [Element("P", None, [Text("Contents")]), Element("UL", None, []),
                         Element("H1", None, [Text("Intro")])];
      RemoveTocAsWritten(body).Err?
  {
    var body := [Element("P", None, [Text("Contents")]), Element("UL", None, []),
                 Element("H1", None, [Text("Intro")])];
    assert FindUlFrom(body, 1) == Some(([], 1));
    assert FindUlFrom(body[0].children, 0) == None;
    assert FindUlFrom(body, 0) == Some(([], 1));
    assert TextContent(body[0]) == "Contents";
    ContainsAt("Contents", "Contents", 0);
  }

  /** The list with the nodes at `k` and `j` (`k < j`) taken out. */
  function RemoveTwo(list: seq<Node>, k: nat, j: nat): seq<Node>
    requires k < j < |list|
  {
    list[..k] + list[k + 1..j] + list[j + 1..]
  }

  /** The intended removal: the generated list and its title both leave the document. */
  function RemoveToc(body: seq<Node>): seq<Node>
  {
    match FindToc(body)
    case None => body
    case Some(t) => UpdateList(body, t.parent, RemoveTwo(ListAt(body, t.parent), t.title, t.list))
  }

  /**
    Without a table of contents nothing changes. With one, exactly the title and
    the list leave their parent list (the nodes between them are text), the
    rest of that list keeps its order, and nothing else in the document changes.
  */
  lemma RemoveTocSpec(body: seq<Node>)
    ensures FindToc(body).None? ==> RemoveToc(body) == body
    ensures FindToc(body).Some? ==>
      var t := FindToc(body).value;
      var list := ListAt(body, t.parent);
      ValidPath(RemoveToc(body), t.parent)
      && ListAt(RemoveToc(body), t.parent) == list[..t.title] + list[t.title + 1..t.list] + list[t.list + 1..]
      && (forall x :: t.title < x < t.list ==> list[x].Text?)
      && UpdateList(RemoveToc(body), t.parent, list) == body
  {
    if FindToc(body).Some? {
      var t := FindToc(body).value;
      var list := ListAt(body, t.parent);
      var g := RemoveTwo(list, t.title, t.list);
      ListAtUpdate(body, t.parent, g);
      UpdateListRestore(body, t.parent, g);
      FindUlSpec(body, 0);
      PrevElementSpec(list, t.list);
    }
  }

  // ---------------------------------------------------------------- the hook's state

  /** `doc.body.children`: the element children, without the text nodes. */
  function ElementChildren(f: seq<Node>): (r: seq<Node>)
    ensures forall k :: 0 <= k < |r| ==> r[k].Element?
    ensures |r| <= |f|
  {
    if f == [] then []
    else (if f[0].Element? then [f[0]] else []) + ElementChildren(f[1..])
  }

  /** The outcome of `fetch(url)` followed by `response.text()` and `DOMParser`. */
  datatype FetchOutcome =
    | NetworkError(message: string)
    | Response(status: nat, body: seq<Node>)

  /** `response.ok`: a status in the range 200-299. */
  predicate IsOk(status: nat) { 200 <= status <= 299 }

  class Loader {
    var sectionsData: seq<Section>
    var globalHeadings: seq<Heading>
    var isLoading: bool
    var error: Option<string>

    constructor ()
      ensures sectionsData == [] && globalHeadings == [] && isLoading && error.None?
    {
      sectionsData := [];
      globalHeadings := [];
      isLoading := true;
      error := None;
    }

    /**
      The effect for `url`, as written. Without a url only `isLoading` is cleared.
      A failed fetch, a status outside 200-299, or a document with a table of
      contents (whose removal throws) records an error and keeps the previous
      sections. Any other document replaces sections and headings with the parse
      of its element children, and leaves an earlier error in place (the source
      never clears it).
    */
    method Load(url: string, outcome: FetchOutcome)
      modifies this
      ensures !isLoading
      ensures url == "" ==> (sectionsData == old(sectionsData) && globalHeadings == old(globalHeadings)
        && error == old(error))
      ensures url != "" && outcome.NetworkError? ==>
        (sectionsData == old(sectionsData) && globalHeadings == old(globalHeadings)
        && error == Some(outcome.message))
      ensures url != "" && outcome.Response? && !IsOk(outcome.status) ==>
        (sectionsData == old(sectionsData) && globalHeadings == old(globalHeadings)
        && error == Some("Failed to fetch document: " + NatToString(outcome.status)))
      ensures url != "" && outcome.Response? && IsOk(outcome.status) && FindToc(outcome.body).Some? ==>
        (sectionsData == old(sectionsData) && globalHeadings == old(globalHeadings)
        && error == Some(RemoveTocAsWritten(outcome.body).error))
      ensures url != "" && outcome.Response? && IsOk(outcome.status) && FindToc(outcome.body).None? ==>
        (sectionsData == Parsed(ElementChildren(outcome.body))
        && globalHeadings == HeadingsOf(sectionsData)
        && error == old(error))
    {
      if url == "" {
        isLoading := false;
        return;
      }
      isLoading := true;
      match outcome {
        case NetworkError(message) =>
          error := Some(message);
        case Response(status, body) =>
          if !IsOk(status) {
            error := Some("Failed to fetch document: " + NatToString(status));
          } else {
            match RemoveTocAsWritten(body) {
              case Err(message) =>
                error := Some(message);
              case Ok(cleaned) =>
                var sections, headings := ParseBody(ElementChildren(cleaned));
                sectionsData := sections;
                globalHeadings := headings;
            }
          }
      }
      isLoading := false;
    }

    /**
      The effect with the intended removal: a successful fetch stores the parse
      of the document without its table of contents, whether or not it had one.
    */
    method LoadCorrected(url: string, outcome: FetchOutcome)
      modifies this
      ensures !isLoading
      ensures url == "" ==> (sectionsData == old(sectionsData) && globalHeadings == old(globalHeadings)
        && error == old(error))
      ensures url != "" && outcome.NetworkError? ==>
        (sectionsData == old(sectionsData) && globalHeadings == old(globalHeadings)
        && error == Some(outcome.message))
      ensures url != "" && outcome.Response? && !IsOk(outcome.status) ==>
        (sectionsData == old(sectionsData) && globalHeadings == old(globalHeadings)
        && error == Some("Failed to fetch document: " + NatToString(outcome.status)))
      ensures url != "" && outcome.Response? && IsOk(outcome.status) ==>
        (sectionsData == Parsed(ElementChildren(RemoveToc(outcome.body)))
        && globalHeadings == HeadingsOf(sectionsData)
        && error == old(error))
    {
      if url == "" {
        isLoading := false;
        return;
      }
      isLoading := true;
      match outcome {
        case NetworkError(message) =>
          error := Some(message);
        case Response(status, body) =>
          if !IsOk(status) {
            error := Some("Failed to fetch document: " + NatToString(status));
          } else {
            var cleaned := RemoveToc(body);
            var sections, headings := ParseBody(ElementChildren(cleaned));
            sectionsData := sections;
            globalHeadings := headings;
          }
      }
      isLoading := false;
    }
  }

  /**
    As written, a document opening with a "Contents" title and a list is never
    shown: the load records the error and the viewer keeps its empty sections.
  */
  method TocDocumentAsWritten() returns (failed: bool, sectionCount: nat)
    ensures failed && sectionCount == 0
  {
    var body := [Element("P", None, [Text("Contents")]), Element("UL", None, []),
                 Element("H1", None, [Text("Intro")])];
    TocRemovalThrows();
    var loader := new Loader();
    loader.Load("/doc", Response(200, body));
    failed, sectionCount := loader.error.Some?, |loader.sectionsData|;
  }
}
