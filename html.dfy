/**
  The document model shared by the viewer: an HTML fragment is a forest of
  element and text nodes. Serialising a forest (`outerHTML`, `innerHTML`) and
  parsing it back (`DOMParser`) are identities on this representation.
  Tag names are kept as the DOM reports them (`tagName`, upper case).
*/
module Html {
  import opened Wrappers
  import opened JsString

  datatype Node =
    | Text(content: string)
    | Element(tag: string, id: Option<string>, children: seq<Node>)

  predicate IsTag(n: Node, tag: string) { n.Element? && n.tag == tag }

  /** `textContent` of a node. */
  function TextContent(n: Node): string
    decreases n
  {
    match n
    case Text(s) => s
    case Element(_, _, cs) => ForestText(cs)
  }

  /** The text of a fragment: its text nodes concatenated in document order (`stripHtml`). */
  function ForestText(f: seq<Node>): string
    decreases f
  {
    if f == [] then [] else TextContent(f[0]) + ForestText(f[1..])
  }

  lemma {:induction false} ForestTextAppend(a: seq<Node>, b: seq<Node>)
    ensures ForestText(a + b) == ForestText(a) + ForestText(b)
  {
    if a == [] {
      assert a + b == b;
    } else {
      assert (a + b)[1..] == a[1..] + b;
      ForestTextAppend(a[1..], b);
    }
  }

  /** The text of a contiguous piece of a fragment is a contiguous piece of its text. */
  lemma ForestTextContains(f: seq<Node>, g: seq<Node>)
    requires Contains(f, g)
    ensures Contains(ForestText(f), ForestText(g))
  {
    var i :| 0 <= i <= |f| && OccursAt(f, g, i);
    assert f == f[..i] + g + f[i + |g|..];
    ForestTextAppend(f[..i] + g, f[i + |g|..]);
    ForestTextAppend(f[..i], g);
    ContainsSelf(ForestText(g), 0, |ForestText(g)|);
    assert ForestText(g)[0..|ForestText(g)|] == ForestText(g);
    ContainsRight(ForestText(f[..i]), ForestText(g), ForestText(g));
    ContainsLeft(ForestText(f[..i]) + ForestText(g), ForestText(f[i + |g|..]), ForestText(g));
  }

  /**
    A fragment whose `innerHTML` is the empty string: every element serialises
    to at least its tags, so only empty text nodes can be in it.
  */
  predicate Blank(f: seq<Node>)
  {
    forall k :: 0 <= k < |f| ==> f[k] == Text("")
  }

  /** `setAttribute("id", id)` on an element; a text node has no attributes. */
  function WithId(n: Node, id: string): (r: Node)
    ensures r.Element? <==> n.Element?
    ensures n.Element? ==> r == Element(n.tag, Some(id), n.children)
    ensures n.Text? ==> r == n
  {
    match n
    case Text(_) => n
    case Element(tag, _, cs) => Element(tag, Some(id), cs)
  }

  /** A node with its `id` attribute removed: what `setAttribute("id", …)` cannot change. */
  function EraseId(n: Node): Node
  {
    match n
    case Text(_) => n
    case Element(tag, _, cs) => Element(tag, None, cs)
  }

  function EraseIds(f: seq<Node>): (r: seq<Node>)
    ensures |r| == |f|
    ensures forall k :: 0 <= k < |f| ==> r[k] == EraseId(f[k])
  {
    seq(|f|, k requires 0 <= k < |f| => EraseId(f[k]))
  }

  lemma EraseIdsAppend(a: seq<Node>, b: seq<Node>)
    ensures EraseIds(a + b) == EraseIds(a) + EraseIds(b)
  {
  }

  lemma WithIdKeepsText(n: Node, id: string)
    ensures TextContent(WithId(n, id)) == TextContent(n)
    ensures EraseId(WithId(n, id)) == EraseId(n)
    ensures IsTag(WithId(n, id), "H1") == IsTag(n, "H1") && IsTag(WithId(n, id), "H2") == IsTag(n, "H2")
  {
  }
}
