/**
  Highlighting the query words in the document (client/src/hooks/useSearch.js):
  the regular expression `\b(w1|w2|…)\b` with the flags `g` and `i`, the loop
  that cuts one text node into text and `MARK` nodes, and the walk over the
  parsed document.

  Every query word is a non-empty word of `[a-z0-9]`, so escaping leaves it
  unchanged and the alternation tries exactly the words, in order. Under the
  `i` flag without `u`, a character matches a letter of the pattern only
  through ASCII case folding, which is `Lower`. The walk calls `exec` until it
  returns null, which resets the regular expression's `lastIndex` to 0, so
  every text node is scanned from its start.
*/
module Highlight {
  import opened Wrappers
  import opened JsString
  import opened Html
  import opened SearchText

  // ---------------------------------------------------------------- the pattern

  /** The characters `[.*+?^${}()|[\]\\]` escaped before a word enters the pattern. */
  predicate IsRegexSpecial(c: char)
  {
    c in {'.', '*', '+', '?', '^', '$', '{', '}', '(', ')', '|', '[', ']', '\\'}
  }

  /** `w.replace(/[.*+?^${}()|[\]\\]/g, "\\$&")`. */
  function EscapeRegex(w: string): string
  {
    if w == [] then []
    else (if IsRegexSpecial(w[0]) then ['\\', w[0]] else [w[0]]) + EscapeRegex(w[1..])
  }

  lemma {:induction false} EscapeWord(w: string)
    requires forall k :: 0 <= k < |w| ==> IsLowerAlnum(w[k])
    ensures EscapeRegex(w) == w
  {
    if w != [] {
      EscapeWord(w[1..]);
      assert [w[0]] + w[1..] == w;
    }
  }

  function EscapeAll(words: seq<string>): (r: seq<string>)
    ensures |r| == |words|
  {
    if words == [] then [] else [EscapeRegex(words[0])] + EscapeAll(words[1..])
  }

  /** The source text of the regular expression. */
  function Pattern(words: seq<string>): string
  {
    "\\b(" + Join(EscapeAll(words), "|") + ")\\b"
  }

  lemma {:induction false} EscapeAllWords(words: seq<string>)
    requires forall k :: 0 <= k < |words| ==> IsWord(words[k])
    ensures EscapeAll(words) == words
  {
    if words != [] {
      EscapeWord(words[0]);
      EscapeAllWords(words[1..]);
      assert [words[0]] + words[1..] == words;
    }
  }

  /**
    For query words the group of the pattern is the words joined by `|`, and its
    alternatives, split at `|`, are exactly the words in their order.
  */
  lemma PatternAlternatives(words: seq<string>)
    requires words != [] && forall k :: 0 <= k < |words| ==> IsWord(words[k])
    ensures Pattern(words) == "\\b(" + Join(words, "|") + ")\\b"
    ensures Split(Join(words, "|"), '|') == words
  {
    EscapeAllWords(words);
    forall k | 0 <= k < |words| ensures '|' !in words[k] {
      NoBarInWord(words[k]);
    }
    SplitJoin(words, '|');
  }

  lemma NoBarInWord(w: string)
    requires IsWord(w)
    ensures '|' !in w
  {
    forall j | 0 <= j < |w| ensures w[j] != '|' {
      assert IsLowerAlnum(w[j]);
    }
  }

  // ---------------------------------------------------------------- matching

  /** `\w` at index `i` of `s`; false outside the string. */
  predicate WordCharAt(s: string, i: int)
  {
    0 <= i < |s| && IsRegexWordChar(s[i])
  }

  /** `\b` at position `p`: a word character on exactly one side. */
  predicate BoundaryAt(s: string, p: int)
  {
    WordCharAt(s, p - 1) != WordCharAt(s, p)
  }

  /** The alternative `w` matches at `p`: the word, case-insensitively, between two boundaries. */
  predicate WordAt(s: string, w: string, p: nat)
  {
    p + |w| <= |s| && Lower(s[p..p + |w|]) == w && BoundaryAt(s, p) && BoundaryAt(s, p + |w|)
  }

  /** The first alternative from index `k` on that matches at `p` (`FirstWordAtSpec`). */
  function FirstWordAt(s: string, words: seq<string>, p: nat, k: nat): (r: Option<nat>)
    decreases |words| - k
    ensures r.Some? ==> k <= r.value < |words| && p + |words[r.value]| <= |s|
  {
    if k >= |words| then None
    else if WordAt(s, words[k], p) then Some(k)
    else FirstWordAt(s, words, p, k + 1)
  }

  /** Alternatives are tried left to right: the first one that matches is taken. */
  lemma {:induction false} FirstWordAtSpec(s: string, words: seq<string>, p: nat, k: nat)
    ensures var r := FirstWordAt(s, words, p, k);
      (r.Some? ==> WordAt(s, words[r.value], p) && forall j :: k <= j < r.value ==> !WordAt(s, words[j], p))
      && (r.None? ==> forall j :: k <= j < |words| ==> !WordAt(s, words[j], p))
    decreases |words| - k
  {
    if k < |words| && !WordAt(s, words[k], p) {
      FirstWordAtSpec(s, words, p, k + 1);
    }
  }

  /** What `exec` reports: `match.index` and `match[0]`. */
  datatype Match = Match(index: nat, text: string)

  predicate NonEmptyWords(words: seq<string>)
  {
    forall k :: 0 <= k < |words| ==> words[k] != []
  }

  /** `regex.exec(s)` with `lastIndex` at `last` (`ExecSpec`). */
  function Exec(s: string, words: seq<string>, last: nat): (r: Option<Match>)
    decreases |s| + 1 - last
    ensures r.Some? ==> (last <= r.value.index && r.value.index + |r.value.text| <= |s|
      && r.value.text == s[r.value.index..r.value.index + |r.value.text|])
    ensures r.Some? && NonEmptyWords(words) ==> r.value.text != []
  {
    if last > |s| then None
    else
      match FirstWordAt(s, words, last, 0)
      case Some(k) => Some(Match(last, s[last..last + |words[k]|]))
      case None => Exec(s, words, last + 1)
  }

  /**
    `m` is a match of the pattern: some alternative matches at `m.index`, no
    earlier alternative does, and `m.text` is the matched part of `s`.
  */
  predicate IsMatch(s: string, words: seq<string>, m: Match)
  {
    exists k :: 0 <= k < |words| && WordAt(s, words[k], m.index)
      && (forall j :: 0 <= j < k ==> !WordAt(s, words[j], m.index))
      && m.text == s[m.index..m.index + |words[k]|]
  }

  /** What `exec` reports is a match. */
  lemma {:induction false} ExecFound(s: string, words: seq<string>, last: nat)
    requires Exec(s, words, last).Some?
    ensures IsMatch(s, words, Exec(s, words, last).value)
    decreases |s| + 1 - last
  {
    FirstWordAtSpec(s, words, last, 0);
    match FirstWordAt(s, words, last, 0)
    case Some(k) =>
      assert WordAt(s, words[k], last);
    case None =>
      ExecFound(s, words, last + 1);
  }

  /** No alternative matches between `lastIndex` and the reported match. */
  lemma {:induction false} ExecLeftmost(s: string, words: seq<string>, last: nat)
    requires Exec(s, words, last).Some?
    ensures forall p, k :: last <= p < Exec(s, words, last).value.index && 0 <= k < |words| ==> !WordAt(s, words[k], p)
    decreases |s| + 1 - last
  {
    FirstWordAtSpec(s, words, last, 0);
    if FirstWordAt(s, words, last, 0).None? {
      ExecLeftmost(s, words, last + 1);
    }
  }

  /** `exec` returns null exactly when no alternative matches from `lastIndex` on. */
  lemma {:induction false} ExecNone(s: string, words: seq<string>, last: nat)
    ensures Exec(s, words, last).None? <==> forall p, k :: last <= p && 0 <= k < |words| ==> !WordAt(s, words[k], p)
    decreases |s| + 1 - last
  {
    if last <= |s| {
      FirstWordAtSpec(s, words, last, 0);
      match FirstWordAt(s, words, last, 0)
      case Some(k) =>
        assert WordAt(s, words[k], last);
      case None =>
        ExecNone(s, words, last + 1);
    }
  }

  /** The three facts about `exec` together. */
  lemma ExecSpec(s: string, words: seq<string>, last: nat)
    ensures Exec(s, words, last).Some? ==> IsMatch(s, words, Exec(s, words, last).value)
    ensures Exec(s, words, last).Some? ==>
      forall p, k :: last <= p < Exec(s, words, last).value.index && 0 <= k < |words| ==> !WordAt(s, words[k], p)
    ensures Exec(s, words, last).None? <==> forall p, k :: last <= p && 0 <= k < |words| ==> !WordAt(s, words[k], p)
  {
    ExecNone(s, words, last);
    if Exec(s, words, last).Some? {
      ExecFound(s, words, last);
      ExecLeftmost(s, words, last);
    }
  }

  // ---------------------------------------------------------------- the regular expression as an object

  /** A compiled regular expression: `exec` from a `lastIndex`. */
  type Engine = (string, nat) -> Option<Match>

  /** `new RegExp(Pattern(words), "gi")`. */
  function RegexFor(words: seq<string>): Engine
  {
    (t: string, last: nat) => Exec(t, words, last)
  }

  /** What the loop relies on: a match lies at or after `lastIndex`, inside the text, and is not empty. */
  ghost predicate Advances(exec: Engine)
  {
    forall t: string, last: nat :: exec(t, last).Some? ==>
      last <= exec(t, last).value.index && exec(t, last).value.text != []
      && exec(t, last).value.index + |exec(t, last).value.text| <= |t|
      && exec(t, last).value.text == t[exec(t, last).value.index..exec(t, last).value.index + |exec(t, last).value.text|]
  }

  lemma RegexAdvances(words: seq<string>)
    requires NonEmptyWords(words)
    ensures Advances(RegexFor(words))
  {
  }

  // ---------------------------------------------------------------- one text node

  /** `<mark>` holding the matched text. */
  function Mark(t: string): Node
  {
    Element("MARK", None, [Text(t)])
  }

  /** The text node for `s[i..j]`, or nothing when that is empty. */
  function TextPiece(s: string, i: nat, j: nat): seq<Node>
    requires i <= j <= |s|
  {
    if i < j then [Text(s[i..j])] else []
  }

  /**
    The fragment built from `lastIndex` on: the text before each match, the match
    in a mark, and the text after the last match; empty texts are not added.
  */
  function Fragment(exec: Engine, s: string, last: nat): seq<Node>
    requires Advances(exec) && last <= |s|
    decreases |s| - last
  {
    match exec(s, last)
    case None => TextPiece(s, last, |s|)
    case Some(m) => TextPiece(s, last, m.index) + [Mark(m.text)] + Fragment(exec, s, m.index + |m.text|)
  }

  lemma Regroup<T>(a: seq<T>, b: seq<T>, c: seq<T>, d: seq<T>)
    ensures a + b + c + d == a + (b + c + d)
  {
  }

  /** A reported match lies inside the text, at or after `lastIndex`, and is not empty. */
  lemma Advance(exec: Engine, s: string, last: nat, m: Match)
    requires Advances(exec) && last <= |s| && exec(s, last) == Some(m)
    ensures last <= m.index && m.text != [] && m.index + |m.text| <= |s|
  {
  }

  /** One match: the text before it, its mark, and the fragment after it. */
  lemma FragmentMatch(exec: Engine, s: string, last: nat, m: Match)
    requires Advances(exec) && last <= |s| && exec(s, last) == Some(m)
    ensures last <= m.index && m.text != [] && m.index + |m.text| <= |s|
    ensures Fragment(exec, s, last) == TextPiece(s, last, m.index) + [Mark(m.text)] + Fragment(exec, s, m.index + |m.text|)
  {
  }

  /** A step of the loop: the pieces of one match extend the fragment built so far. */
  lemma FragmentStep(exec: Engine, s: string, done: seq<Node>, last: nat, m: Match)
    requires Advances(exec) && last <= |s| && exec(s, last) == Some(m)
    requires done + Fragment(exec, s, last) == Fragment(exec, s, 0)
    ensures last <= m.index && m.text != [] && m.index + |m.text| <= |s|
    ensures done + TextPiece(s, last, m.index) + [Mark(m.text)] + Fragment(exec, s, m.index + |m.text|)
      == Fragment(exec, s, 0)
  {
    FragmentMatch(exec, s, last, m);
    Regroup(done, TextPiece(s, last, m.index), [Mark(m.text)], Fragment(exec, s, m.index + |m.text|));
  }

  /** The loop over `regex.exec(node.textContent)`. */
  method FragmentOf(exec: Engine, s: string) returns (frag: seq<Node>)
    requires Advances(exec)
    ensures frag == Fragment(exec, s, 0)
  {
    frag := [];
    var lastIndex := 0;
    var found := exec(s, lastIndex);
    while found.Some?
      invariant lastIndex <= |s|
      invariant found == exec(s, lastIndex)
      invariant frag + Fragment(exec, s, lastIndex) == Fragment(exec, s, 0)
      decreases |s| - lastIndex
    {
      frag, lastIndex := AppendMatch(exec, s, frag, lastIndex, found.value);
      found := exec(s, lastIndex);
    }
    FragmentNone(exec, s, lastIndex);
    frag := AppendText(frag, s, lastIndex, |s|);
  }

  /** One turn of the loop: the text before the match and its mark are appended, and `lastIndex` moves past it. */
  method AppendMatch(exec: Engine, s: string, frag: seq<Node>, last: nat, m: Match) returns (next: seq<Node>, nextLast: nat)
    requires Advances(exec) && last <= |s| && exec(s, last) == Some(m)
    requires frag + Fragment(exec, s, last) == Fragment(exec, s, 0)
    ensures last < nextLast <= |s|
    ensures next + Fragment(exec, s, nextLast) == Fragment(exec, s, 0)
  {
    FragmentStep(exec, s, frag, last, m);
    next := AppendText(frag, s, last, m.index);
    next := next + [Mark(m.text)];
    nextLast := m.index + |m.text|;
  }

  /** Without a match the fragment is the rest of the text. */
  lemma FragmentNone(exec: Engine, s: string, last: nat)
    requires Advances(exec) && last <= |s| && exec(s, last).None?
    ensures Fragment(exec, s, last) == TextPiece(s, last, |s|)
  {
  }

  /** `if (text) fragment.appendChild(document.createTextNode(text))` for `text = s.slice(i, j)`. */
  method AppendText(frag: seq<Node>, s: string, i: nat, j: nat) returns (r: seq<Node>)
    requires i <= j <= |s|
    ensures r == frag + TextPiece(s, i, j)
  {
    var text := s[i..j];
    if text != [] {
      r := frag + [Text(text)];
    } else {
      r := frag;
    }
  }

  /** What replaces a text node: the fragment, unless it is empty. */
  function HighlightText(exec: Engine, s: string): seq<Node>
    requires Advances(exec)
  {
    var frag := Fragment(exec, s, 0);
    if frag == [] then [Text(s)] else frag
  }

  // ---------------------------------------------------------------- the walk

  /** What the walk leaves in place of `n`. */
  function HighlightNode(exec: Engine, n: Node): seq<Node>
    requires Advances(exec)
    decreases n
  {
    match n
    case Text(s) => HighlightText(exec, s)
    case Element(tag, id, cs) => [Element(tag, id, HighlightForest(exec, cs))]
  }

  function HighlightForest(exec: Engine, f: seq<Node>): seq<Node>
    requires Advances(exec)
    decreases f
  {
    if f == [] then [] else HighlightNode(exec, f[0]) + HighlightForest(exec, f[1..])
  }

  lemma {:induction false} HighlightForestAppend(exec: Engine, a: seq<Node>, b: seq<Node>)
    requires Advances(exec)
    ensures HighlightForest(exec, a + b) == HighlightForest(exec, a) + HighlightForest(exec, b)
  {
    if a == [] {
      assert a + b == b;
    } else {
      assert (a + b)[1..] == a[1..] + b;
      HighlightForestAppend(exec, a[1..], b);
    }
  }

  /** `walk(node)`: a text node is replaced by its fragment, an element's children are walked. */
  method WalkNode(exec: Engine, n: Node) returns (r: seq<Node>)
    requires Advances(exec)
    ensures r == HighlightNode(exec, n)
    decreases n
  {
    match n {
      case Text(s) =>
        var frag := FragmentOf(exec, s);
        if |frag| > 0 {
          r := frag;
        } else {
          r := [n];
        }
      case Element(tag, id, cs) =>
        var children := WalkForest(exec, cs);
        r := [Element(tag, id, children)];
    }
  }

  /** `[...nodes].forEach(walk)`: the walk over a copy of the child list. */
  method WalkForest(exec: Engine, f: seq<Node>) returns (r: seq<Node>)
    requires Advances(exec)
    ensures r == HighlightForest(exec, f)
    decreases f
  {
    r := [];
    for i := 0 to |f|
      invariant r == HighlightForest(exec, f[..i])
    {
      var piece := WalkNode(exec, f[i]);
      assert f[..i + 1] == f[..i] + [f[i]];
      HighlightForestAppend(exec, f[..i], [f[i]]);
      assert HighlightForest(exec, [f[i]]) == HighlightNode(exec, f[i]) + HighlightForest(exec, []);
      r := r + piece;
    }
    assert f[..|f|] == f;
  }

  // ---------------------------------------------------------------- marks are transparent

  /** The document read as a stream: characters, element starts (tag and id) and ends. */
  datatype Token = Char(c: char) | Open(tag: string, id: Option<string>) | Close

  function CharTokens(s: string): (r: seq<Token>)
    ensures |r| == |s|
  {
    seq(|s|, i requires 0 <= i < |s| => Char(s[i]))
  }

  lemma CharTokensAppend(a: string, b: string)
    ensures CharTokens(a + b) == CharTokens(a) + CharTokens(b)
  {
  }

  /** The stream of a node, with `MARK` elements transparent and text-node boundaries invisible. */
  function Tokens(n: Node): seq<Token>
    decreases n
  {
    match n
    case Text(s) => CharTokens(s)
    case Element(tag, id, cs) =>
      if tag == "MARK" then ForestTokens(cs) else [Open(tag, id)] + ForestTokens(cs) + [Close]
  }

  function ForestTokens(f: seq<Node>): seq<Token>
    decreases f
  {
    if f == [] then [] else Tokens(f[0]) + ForestTokens(f[1..])
  }

  lemma {:induction false} ForestTokensAppend(a: seq<Node>, b: seq<Node>)
    ensures ForestTokens(a + b) == ForestTokens(a) + ForestTokens(b)
  {
    if a == [] {
      assert a + b == b;
    } else {
      assert (a + b)[1..] == a[1..] + b;
      ForestTokensAppend(a[1..], b);
    }
  }

  lemma SingleTokens(n: Node)
    ensures ForestTokens([n]) == Tokens(n)
  {
    assert [n][1..] == [];
  }

  lemma TextPieceTokens(s: string, i: nat, j: nat)
    requires i <= j <= |s|
    ensures ForestTokens(TextPiece(s, i, j)) == CharTokens(s[i..j])
  {
    if i < j {
      SingleTokens(Text(s[i..j]));
    }
  }

  /** The fragment of a text node reads as the rest of the text from `last`. */
  lemma {:induction false} FragmentTokens(exec: Engine, s: string, last: nat)
    requires Advances(exec) && last <= |s|
    ensures ForestTokens(Fragment(exec, s, last)) == CharTokens(s[last..])
    decreases |s| - last
  {
    match exec(s, last)
    case None =>
      TextPieceTokens(s, last, |s|);
      assert s[last..|s|] == s[last..];
    case Some(m) =>
      Advance(exec, s, last, m);
      var next := m.index + |m.text|;
      var before := TextPiece(s, last, m.index);
      FragmentTokens(exec, s, next);
      TextPieceTokens(s, last, m.index);
      ForestTokensAppend(before + [Mark(m.text)], Fragment(exec, s, next));
      ForestTokensAppend(before, [Mark(m.text)]);
      SingleTokens(Mark(m.text));
      SingleTokens(Text(m.text));
      assert s[last..] == s[last..m.index] + m.text + s[next..];
      CharTokensAppend(s[last..m.index] + m.text, s[next..]);
      CharTokensAppend(s[last..m.index], m.text);
  }

  lemma HighlightTextTokens(exec: Engine, s: string)
    requires Advances(exec)
    ensures ForestTokens(HighlightText(exec, s)) == CharTokens(s)
  {
    FragmentTokens(exec, s, 0);
    assert s[0..] == s;
    SingleTokens(Text(s));
  }

  /**
    Highlighting changes nothing but the marks: read with `MARK` transparent,
    the highlighted document is the document, with the same elements, ids and
    text in the same order.
  */
  lemma {:induction false} HighlightNodeTokens(exec: Engine, n: Node)
    requires Advances(exec)
    ensures ForestTokens(HighlightNode(exec, n)) == Tokens(n)
    decreases n
  {
    match n
    case Text(s) => HighlightTextTokens(exec, s);
    case Element(tag, id, cs) =>
      HighlightForestTokens(exec, cs);
      SingleTokens(Element(tag, id, HighlightForest(exec, cs)));
  }

  lemma {:induction false} HighlightForestTokens(exec: Engine, f: seq<Node>)
    requires Advances(exec)
    ensures ForestTokens(HighlightForest(exec, f)) == ForestTokens(f)
    decreases f
  {
    if f != [] {
      HighlightNodeTokens(exec, f[0]);
      HighlightForestTokens(exec, f[1..]);
      ForestTokensAppend(HighlightNode(exec, f[0]), HighlightForest(exec, f[1..]));
    }
  }

  /** The characters of a stream. */
  function TokenText(ts: seq<Token>): string
  {
    if ts == [] then [] else (if ts[0].Char? then [ts[0].c] else []) + TokenText(ts[1..])
  }

  lemma {:induction false} TokenTextAppend(a: seq<Token>, b: seq<Token>)
    ensures TokenText(a + b) == TokenText(a) + TokenText(b)
  {
    if a == [] {
      assert a + b == b;
    } else {
      var head := if a[0].Char? then [a[0].c] else [];
      assert (a + b)[0] == a[0] && (a + b)[1..] == a[1..] + b;
      TokenTextAppend(a[1..], b);
      assert TokenText(a + b) == head + (TokenText(a[1..]) + TokenText(b));
    }
  }

  lemma {:induction false} CharTokensText(s: string)
    ensures TokenText(CharTokens(s)) == s
  {
    if s != [] {
      CharTokensText(s[1..]);
      assert CharTokens(s)[1..] == CharTokens(s[1..]);
      assert [s[0]] + s[1..] == s;
    }
  }

  /** The text of a node is the text of its stream. */
  lemma {:induction false} NodeTokensText(n: Node)
    ensures TokenText(Tokens(n)) == TextContent(n)
    decreases n
  {
    match n
    case Text(s) => CharTokensText(s);
    case Element(tag, id, cs) =>
      ForestTokensText(cs);
      if tag != "MARK" {
        TokenTextAppend([Open(tag, id)] + ForestTokens(cs), [Close]);
        TokenTextAppend([Open(tag, id)], ForestTokens(cs));
        assert TokenText([Open(tag, id)]) == [] + TokenText([]);
        assert TokenText([Close]) == [] + TokenText([]);
      }
  }

  lemma {:induction false} ForestTokensText(f: seq<Node>)
    ensures TokenText(ForestTokens(f)) == ForestText(f)
    decreases f
  {
    if f != [] {
      NodeTokensText(f[0]);
      ForestTokensText(f[1..]);
      TokenTextAppend(Tokens(f[0]), ForestTokens(f[1..]));
    }
  }

  /** Highlighting keeps the text of the document. */
  lemma HighlightKeepsText(exec: Engine, f: seq<Node>)
    requires Advances(exec)
    ensures ForestText(HighlightForest(exec, f)) == ForestText(f)
  {
    HighlightForestTokens(exec, f);
    ForestTokensText(f);
    ForestTokensText(HighlightForest(exec, f));
  }

  // ---------------------------------------------------------------- the marks are the matches

  predicate HasMark(f: seq<Node>)
  {
    exists i :: 0 <= i < |f| && IsTag(f[i], "MARK")
  }

  /** A text node gets a mark exactly when `exec` finds a match in it; otherwise it stays. */
  lemma HighlightTextMarksBy(exec: Engine, s: string)
    requires Advances(exec)
    ensures HasMark(HighlightText(exec, s)) <==> exec(s, 0).Some?
    ensures exec(s, 0).None? ==> HighlightText(exec, s) == [Text(s)]
  {
    match exec(s, 0)
    case None =>
      assert s[0..|s|] == s;
      assert !IsTag(Text(s), "MARK");
    case Some(m) =>
      FragmentMatch(exec, s, 0, m);
      var before := TextPiece(s, 0, m.index);
      var frag := Fragment(exec, s, 0);
      assert frag[|before|] == Mark(m.text);
  }

  /**
    A text node gets a mark exactly when some query word occurs in it as a whole
    word, and a text node without one is left as it is.
  */
  lemma HighlightTextMarks(words: seq<string>, s: string)
    requires NonEmptyWords(words)
    ensures Advances(RegexFor(words))
    ensures HasMark(HighlightText(RegexFor(words), s)) <==>
      exists p: nat, k :: 0 <= k < |words| && WordAt(s, words[k], p)
    ensures (forall p: nat, k :: 0 <= k < |words| ==> !WordAt(s, words[k], p)) ==>
      HighlightText(RegexFor(words), s) == [Text(s)]
  {
    RegexAdvances(words);
    HighlightTextMarksBy(RegexFor(words), s);
    ExecNone(s, words, 0);
    assert RegexFor(words)(s, 0) == Exec(s, words, 0);
  }

  /** The nodes of a fragment: non-empty text, or a mark whose text is a query word up to case. */
  ghost predicate Piece(words: seq<string>, n: Node)
  {
    (n.Text? && n.content != [])
    || exists t, k :: 0 <= k < |words| && n == Mark(t) && Lower(t) == words[k]
  }

  /** Every match `exec` reports is one of `words`, up to case. */
  ghost predicate FindsWords(exec: Engine, words: seq<string>)
  {
    forall t: string, last: nat :: exec(t, last).Some? ==>
      exists k :: 0 <= k < |words| && Lower(exec(t, last).value.text) == words[k]
  }

  lemma RegexFindsWords(words: seq<string>)
    ensures FindsWords(RegexFor(words), words)
  {
    forall t: string, last: nat | RegexFor(words)(t, last).Some?
      ensures exists k :: 0 <= k < |words| && Lower(RegexFor(words)(t, last).value.text) == words[k]
    {
      assert RegexFor(words)(t, last) == Exec(t, words, last);
      ExecFound(t, words, last);
    }
  }

  ghost predicate AllPieces(words: seq<string>, f: seq<Node>)
  {
    forall i :: 0 <= i < |f| ==> Piece(words, f[i])
  }

  lemma AllPiecesAppend(words: seq<string>, a: seq<Node>, b: seq<Node>)
    requires AllPieces(words, a) && AllPieces(words, b)
    ensures AllPieces(words, a + b)
  {
    forall i | 0 <= i < |a + b| ensures Piece(words, (a + b)[i]) {
      if i >= |a| {
        assert (a + b)[i] == b[i - |a|];
      }
    }
  }

  lemma {:induction false} FragmentPieces(exec: Engine, words: seq<string>, s: string, last: nat)
    requires Advances(exec) && FindsWords(exec, words) && last <= |s|
    ensures AllPieces(words, Fragment(exec, s, last))
    decreases |s| - last
  {
    if exec(s, last).None? {
      FragmentNone(exec, s, last);
      TextPiecePieces(words, s, last, |s|);
    } else {
      var m := exec(s, last).value;
      Advance(exec, s, last, m);
      FragmentPieces(exec, words, s, m.index + |m.text|);
      PiecesStep(exec, words, s, last, m);
    }
  }

  /** The pieces of one match, followed by pieces, are pieces. */
  lemma PiecesStep(exec: Engine, words: seq<string>, s: string, last: nat, m: Match)
    requires Advances(exec) && FindsWords(exec, words) && last <= |s| && exec(s, last) == Some(m)
    requires m.index + |m.text| <= |s| && AllPieces(words, Fragment(exec, s, m.index + |m.text|))
    ensures AllPieces(words, Fragment(exec, s, last))
  {
    FragmentMatch(exec, s, last, m);
    var k := FoundWord(exec, words, s, last);
    PiecesAround(words, s, last, m.index, m.text, k, Fragment(exec, s, m.index + |m.text|));
  }

  /** The query word a reported match is, up to case. */
  lemma FoundWord(exec: Engine, words: seq<string>, s: string, last: nat) returns (k: nat)
    requires FindsWords(exec, words) && exec(s, last).Some?
    ensures k < |words| && Lower(exec(s, last).value.text) == words[k]
  {
    k :| 0 <= k < |words| && Lower(exec(s, last).value.text) == words[k];
  }

  lemma TextPiecePieces(words: seq<string>, s: string, i: nat, j: nat)
    requires i <= j <= |s|
    ensures AllPieces(words, TextPiece(s, i, j))
  {
    if i < j {
      assert Piece(words, Text(s[i..j]));
    }
  }

  lemma PiecesAround(words: seq<string>, s: string, i: nat, j: nat, t: string, k: nat, after: seq<Node>)
    requires i <= j <= |s|
    requires k < |words| && Lower(t) == words[k]
    requires AllPieces(words, after)
    ensures AllPieces(words, TextPiece(s, i, j) + [Mark(t)] + after)
  {
    assert Piece(words, Mark(t));
    assert AllPieces(words, [Mark(t)]);
    TextPiecePieces(words, s, i, j);
    AllPiecesAppend(words, TextPiece(s, i, j), [Mark(t)]);
    AllPiecesAppend(words, TextPiece(s, i, j) + [Mark(t)], after);
  }

  /** The marks of the highlighted text are query words, up to case; its texts are not empty. */
  lemma HighlightPieces(words: seq<string>, s: string)
    requires NonEmptyWords(words)
    ensures Advances(RegexFor(words))
    ensures AllPieces(words, Fragment(RegexFor(words), s, 0))
  {
    RegexAdvances(words);
    RegexFindsWords(words);
    FragmentPieces(RegexFor(words), words, s, 0);
  }

  /** The matches the loop consumes, in the order `exec` reports them. */
  function Matches(exec: Engine, s: string, last: nat): seq<Match>
    requires Advances(exec) && last <= |s|
    decreases |s| - last
  {
    match exec(s, last)
    case None => []
    case Some(m) => [m] + Matches(exec, s, m.index + |m.text|)
  }

  /** The texts of the marks of a fragment, in order. */
  function MarkTexts(f: seq<Node>): seq<string>
  {
    if f == [] then []
    else (if IsTag(f[0], "MARK") then [TextContent(f[0])] else []) + MarkTexts(f[1..])
  }

  lemma {:induction false} MarkTextsAppend(a: seq<Node>, b: seq<Node>)
    ensures MarkTexts(a + b) == MarkTexts(a) + MarkTexts(b)
  {
    if a == [] {
      assert a + b == b;
    } else {
      assert (a + b)[1..] == a[1..] + b;
      MarkTextsAppend(a[1..], b);
    }
  }

  function MatchTexts(ms: seq<Match>): (r: seq<string>)
    ensures |r| == |ms|
    ensures forall i :: 0 <= i < |ms| ==> r[i] == ms[i].text
  {
    seq(|ms|, i requires 0 <= i < |ms| => ms[i].text)
  }

  lemma MarkText(t: string)
    ensures MarkTexts([Mark(t)]) == [t]
  {
    assert [Text(t)][1..] == [];
    assert ForestText([Text(t)]) == t + ForestText([]);
    assert TextContent(Mark(t)) == t;
    assert [Mark(t)][1..] == [];
  }

  lemma TextPieceMarks(s: string, i: nat, j: nat)
    requires i <= j <= |s|
    ensures MarkTexts(TextPiece(s, i, j)) == []
  {
    if i < j {
      assert MarkTexts([Text(s[i..j])]) == [] + MarkTexts([]);
    }
  }

  /** One mark per match, in order, each holding the matched text. */
  lemma {:induction false} FragmentMarks(exec: Engine, s: string, last: nat)
    requires Advances(exec) && last <= |s|
    ensures MarkTexts(Fragment(exec, s, last)) == MatchTexts(Matches(exec, s, last))
    decreases |s| - last
  {
    match exec(s, last)
    case None =>
      TextPieceMarks(s, last, |s|);
    case Some(m) =>
      Advance(exec, s, last, m);
      var next := m.index + |m.text|;
      FragmentMarks(exec, s, next);
      FragmentMatch(exec, s, last, m);
      MatchesMatch(exec, s, last, m);
      TextPieceMarks(s, last, m.index);
      MarksOfPieces(TextPiece(s, last, m.index), m.text, Fragment(exec, s, next), Matches(exec, s, next));
      MatchTextsCons(m, Matches(exec, s, next));
  }

  /** One match: it is the first of the matches, and the rest start where it ends. */
  lemma MatchesMatch(exec: Engine, s: string, last: nat, m: Match)
    requires Advances(exec) && last <= |s| && exec(s, last) == Some(m)
    ensures m.index + |m.text| <= |s|
    ensures Matches(exec, s, last) == [m] + Matches(exec, s, m.index + |m.text|)
  {
  }

  lemma MarksOfPieces(before: seq<Node>, t: string, after: seq<Node>, ms: seq<Match>)
    requires MarkTexts(before) == [] && MarkTexts(after) == MatchTexts(ms)
    ensures MarkTexts(before + [Mark(t)] + after) == [t] + MatchTexts(ms)
  {
    MarkTextsAppend(before + [Mark(t)], after);
    MarkTextsAppend(before, [Mark(t)]);
    MarkText(t);
  }

  lemma MatchTextsCons(m: Match, ms: seq<Match>)
    ensures MatchTexts([m] + ms) == [m.text] + MatchTexts(ms)
  {
    assert forall i :: 0 < i < |ms| + 1 ==> ([m] + ms)[i] == ms[i - 1];
  }

  /** The matches lie left to right from `lastIndex`, inside the text, and do not overlap. */
  lemma {:induction false} MatchesOrdered(exec: Engine, s: string, last: nat)
    requires Advances(exec) && last <= |s|
    ensures forall i :: 0 <= i < |Matches(exec, s, last)| ==>
      last <= Matches(exec, s, last)[i].index
      && Matches(exec, s, last)[i].index + |Matches(exec, s, last)[i].text| <= |s|
    ensures forall i :: 0 <= i < |Matches(exec, s, last)| - 1 ==>
      Matches(exec, s, last)[i].index + |Matches(exec, s, last)[i].text| <= Matches(exec, s, last)[i + 1].index
    decreases |s| - last
  {
    match exec(s, last)
    case None =>
    case Some(m) =>
      Advance(exec, s, last, m);
      var next := m.index + |m.text|;
      assert last <= m.index && next <= |s|;
      MatchesOrdered(exec, s, next);
      var ms := Matches(exec, s, last);
      var rest := Matches(exec, s, next);
      assert ms == [m] + rest;
      assert forall j :: 0 <= j < |rest| ==> next <= rest[j].index && rest[j].index + |rest[j].text| <= |s|;
      assert forall j :: 0 <= j < |rest| - 1 ==> rest[j].index + |rest[j].text| <= rest[j + 1].index;
      forall i | 0 < i < |ms| ensures ms[i] == rest[i - 1] {
      }
      if |rest| > 0 {
        assert ms[1] == rest[0];
      }
  }

  /** Each reported match has the property `p` when every answer of `exec` on `s` has it. */
  lemma {:induction false} MatchesSatisfy(exec: Engine, s: string, last: nat, p: Match -> bool)
    requires Advances(exec) && last <= |s|
    requires forall q: nat :: exec(s, q).Some? ==> p(exec(s, q).value)
    ensures forall i :: 0 <= i < |Matches(exec, s, last)| ==> p(Matches(exec, s, last)[i])
    decreases |s| - last
  {
    match exec(s, last)
    case None =>
    case Some(m) =>
      Advance(exec, s, last, m);
      var next := m.index + |m.text|;
      MatchesSatisfy(exec, s, next, p);
      var ms := Matches(exec, s, last);
      var rest := Matches(exec, s, next);
      assert ms == [m] + rest;
      forall i | 0 < i < |ms| ensures ms[i] == rest[i - 1] {
      }
  }

  /** `exec` reports only matches of the pattern. */
  ghost predicate ReportsMatches(exec: Engine, words: seq<string>)
  {
    forall t: string, last: nat :: exec(t, last).Some? ==> IsMatch(t, words, exec(t, last).value)
  }

  lemma RegexReportsMatches(words: seq<string>)
    ensures ReportsMatches(RegexFor(words), words)
  {
    forall t: string, last: nat | RegexFor(words)(t, last).Some?
      ensures IsMatch(t, words, RegexFor(words)(t, last).value)
    {
      assert RegexFor(words)(t, last) == Exec(t, words, last);
      ExecFound(t, words, last);
    }
  }

  /**
    The marks of a highlighted text node hold, in order, whole-word case-insensitive
    occurrences of query words in that text, left to right and not overlapping.
  */
  lemma HighlightMarks(words: seq<string>, s: string)
    requires NonEmptyWords(words)
    ensures Advances(RegexFor(words))
    ensures var ms := Matches(RegexFor(words), s, 0);
      MarkTexts(Fragment(RegexFor(words), s, 0)) == MatchTexts(ms)
      && (forall i :: 0 <= i < |ms| ==> IsMatch(s, words, ms[i]))
      && (forall i :: 0 <= i < |ms| - 1 ==> ms[i].index + |ms[i].text| <= ms[i + 1].index)
  {
    var exec := RegexFor(words);
    RegexAdvances(words);
    RegexReportsMatches(words);
    FragmentMarks(exec, s, 0);
    MatchesOrdered(exec, s, 0);
    MatchesSatisfy(exec, s, 0, m => IsMatch(s, words, m));
  }

  lemma LowerLights()
    ensures Lower("Lights") == "lights"
  {
    var r := Lower("Lights");
    assert r[0] == LowerChar('L') == 'l';
  }

  /** "light" does not occur in "Lights" as a whole word. */
  lemma LightNotWordOfLights(p: nat)
    ensures !WordAt("Lights", "light", p)
  {
    var s := "Lights";
    LowerLights();
    if p == 1 {
      assert Lower(s[1..6])[0] == Lower(s)[1];
    } else if p == 0 {
      assert WordCharAt(s, 4) && WordCharAt(s, 5);
    }
  }

  /**
    Whole words only: a word that occurs inside a longer word is found by the
    search but not highlighted ("light" in "Lights").
  */
  lemma SubwordNotHighlighted()
    ensures Contains(Normalize("Lights"), "light")
    ensures Advances(RegexFor(["light"]))
    ensures HighlightText(RegexFor(["light"]), "Lights") == [Text("Lights")]
  {
    LightsContainsLight();
    LightsUnmarked();
  }

  lemma LightsContainsLight()
    ensures Contains(Normalize("Lights"), "light")
  {
    LowerLights();
    LightInLights();
    LightIsWord();
    ContainsNormalize("Lights", "light");
  }

  lemma LightInLights()
    ensures Contains("lights", "light")
  {
    assert "lights"[0..5] == "light";
    ContainsAt("lights", "light", 0);
  }

  lemma LightIsWord()
    ensures IsWord("light")
  {
  }

  lemma LightsUnmarked()
    ensures Advances(RegexFor(["light"]))
    ensures HighlightText(RegexFor(["light"]), "Lights") == [Text("Lights")]
  {
    var s, words := "Lights", ["light"];
    forall p: nat, k | 0 <= k < |words| ensures !WordAt(s, words[k], p) {
      LightNotWordOfLights(p);
    }
    HighlightTextMarks(words, s);
  }

  // ---------------------------------------------------------------- empty output

  /** A fragment holds no empty text node, and it is empty only when nothing is left to scan. */
  lemma {:induction false} FragmentNonBlank(exec: Engine, s: string, last: nat)
    requires Advances(exec) && last <= |s|
    ensures forall k :: 0 <= k < |Fragment(exec, s, last)| ==> Fragment(exec, s, last)[k] != Text("")
    ensures Fragment(exec, s, last) == [] <==> last == |s|
    decreases |s| - last
  {
    match exec(s, last)
    case None =>
    case Some(m) =>
      Advance(exec, s, last, m);
      var next := m.index + |m.text|;
      FragmentNonBlank(exec, s, next);
      var before := TextPiece(s, last, m.index);
      var rest := Fragment(exec, s, next);
      var f := before + [Mark(m.text)] + rest;
      assert Fragment(exec, s, last) == f;
      forall k | 0 <= k < |f| ensures f[k] != Text("") {
        if k < |before| {
          assert f[k] == before[k];
        } else if k == |before| {
          assert f[k] == Mark(m.text);
        } else {
          assert f[k] == rest[k - |before| - 1];
        }
      }
      assert f[|before|] == Mark(m.text);
  }

  /** A highlighted text node serialises to nothing exactly when it was empty, and then it is kept. */
  lemma HighlightTextBlank(exec: Engine, s: string)
    requires Advances(exec)
    ensures Blank(HighlightText(exec, s)) <==> s == ""
    ensures s == "" ==> HighlightText(exec, s) == [Text(s)]
  {
    FragmentNonBlank(exec, s, 0);
    var frag := Fragment(exec, s, 0);
    if frag != [] {
      assert frag[0] != Text("");
    }
  }

  lemma BlankAppend(a: seq<Node>, b: seq<Node>)
    ensures Blank(a + b) <==> Blank(a) && Blank(b)
  {
    if Blank(a) && Blank(b) {
      forall k | 0 <= k < |a + b| ensures (a + b)[k] == Text("") {
        if k >= |a| {
          assert (a + b)[k] == b[k - |a|];
        }
      }
    }
    if Blank(a + b) {
      forall k | 0 <= k < |a| ensures a[k] == Text("") {
        assert (a + b)[k] == a[k];
      }
      forall k | 0 <= k < |b| ensures b[k] == Text("") {
        assert (a + b)[|a| + k] == b[k];
      }
    }
  }

  /**
    The walk yields an empty `innerHTML` exactly when the document had one, and
    then it leaves the document as it was.
  */
  lemma {:induction false} HighlightForestBlank(exec: Engine, f: seq<Node>)
    requires Advances(exec)
    ensures Blank(HighlightForest(exec, f)) <==> Blank(f)
    ensures Blank(f) ==> HighlightForest(exec, f) == f
    decreases f
  {
    if f != [] {
      HighlightForestBlank(exec, f[1..]);
      var head := HighlightNode(exec, f[0]);
      assert HighlightForest(exec, f) == head + HighlightForest(exec, f[1..]);
      BlankAppend(head, HighlightForest(exec, f[1..]));
      BlankAppend([f[0]], f[1..]);
      assert f == [f[0]] + f[1..];
      match f[0]
      case Text(s) =>
        HighlightTextBlank(exec, s);
      case Element(tag, id, cs) =>
        assert head[0] != Text("");
    }
  }
}
