/**
  The search results (client/src/hooks/useSearch.js): sections and
  subsections whose text contains every query word, in document order, each
  matching section followed by its matching subsections.
*/
module SearchResults {
  import opened JsString
  import opened Html
  import opened DocumentParser
  import opened SearchText

  /** `{...section, level: 1}` and `{...sub, level: 2, parent: section}`. */
  datatype SearchResult =
    | SectionResult(section: Section)
    | SubsectionResult(sub: Subsection, parent: Section)
  {
    function Level(): nat { if SectionResult? then 1 else 2 }
  }

  predicate SectionMatches(words: seq<string>, s: Section)
  {
    MatchesQuery(words, EntryText(s.text, s.html))
  }

  predicate SubsectionMatches(words: seq<string>, sub: Subsection)
  {
    MatchesQuery(words, EntryText(sub.text, sub.html))
  }

  /** The two tests of the results, as values: which sections and which subsections are found. */
  datatype Tests = Tests(section: Section -> bool, sub: Subsection -> bool)

  function QueryTests(words: seq<string>): Tests
  {
    Tests(s => SectionMatches(words, s), sub => SubsectionMatches(words, sub))
  }

  /** The found subsections of `parent` among `subs`, in order. */
  function SubsectionResults(t: Tests, parent: Section, subs: seq<Subsection>): seq<SearchResult>
  {
    if subs == [] then []
    else
      (if t.sub(subs[0]) then [SubsectionResult(subs[0], parent)] else [])
      + SubsectionResults(t, parent, subs[1..])
  }

  /** What one section contributes: itself if it is found, then its found subsections. */
  function SectionResults(t: Tests, s: Section): seq<SearchResult>
  {
    (if t.section(s) then [SectionResult(s)] else []) + SubsectionResults(t, s, s.subsections)
  }

  function ResultsBy(t: Tests, sections: seq<Section>): seq<SearchResult>
  {
    if sections == [] then [] else SectionResults(t, sections[0]) + ResultsBy(t, sections[1..])
  }

  /** The results for the query words `words`. */
  function Results(words: seq<string>, sections: seq<Section>): seq<SearchResult>
  {
    ResultsBy(QueryTests(words), sections)
  }

  lemma {:induction false} SubsectionResultsSnoc(t: Tests, parent: Section, subs: seq<Subsection>, sub: Subsection)
    ensures SubsectionResults(t, parent, subs + [sub]) ==
      SubsectionResults(t, parent, subs) + if t.sub(sub) then [SubsectionResult(sub, parent)] else []
  {
    if subs == [] {
      assert subs + [sub] == [sub];
    } else {
      assert (subs + [sub])[1..] == subs[1..] + [sub];
      SubsectionResultsSnoc(t, parent, subs[1..], sub);
    }
  }

  lemma {:induction false} ResultsSnoc(t: Tests, sections: seq<Section>, s: Section)
    ensures ResultsBy(t, sections + [s]) == ResultsBy(t, sections) + SectionResults(t, s)
  {
    if sections == [] {
      assert sections + [s] == [s];
    } else {
      assert (sections + [s])[1..] == sections[1..] + [s];
      ResultsSnoc(t, sections[1..], s);
    }
  }

  /** The nested `forEach` that pushes the results, with the tests `t` (`matchesQuery`). */
  method CollectResults(t: Tests, sections: seq<Section>) returns (results: seq<SearchResult>)
    ensures results == ResultsBy(t, sections)
  {
    results := [];
    for i := 0 to |sections|
      invariant results == ResultsBy(t, sections[..i])
    {
      var section := sections[i];
      if t.section(section) {
        results := results + [SectionResult(section)];
      }
      results := CollectSubsections(t, section, results);
      assert sections[..i + 1] == sections[..i] + [section];
      ResultsSnoc(t, sections[..i], section);
    }
    assert sections[..|sections|] == sections;
  }

  /** The inner `forEach` over the subsections of one section. */
  method CollectSubsections(t: Tests, section: Section, head: seq<SearchResult>) returns (results: seq<SearchResult>)
    ensures results == head + SubsectionResults(t, section, section.subsections)
  {
    results := head;
    for m := 0 to |section.subsections|
      invariant results == head + SubsectionResults(t, section, section.subsections[..m])
    {
      var sub := section.subsections[m];
      assert section.subsections[..m + 1] == section.subsections[..m] + [sub];
      SubsectionResultsSnoc(t, section, section.subsections[..m], sub);
      if t.sub(sub) {
        results := results + [SubsectionResult(sub, section)];
      }
    }
    assert section.subsections[..|section.subsections|] == section.subsections;
  }

  // ---------------------------------------------------------------- what the results are

  lemma {:induction false} SubsectionResultsMembers(t: Tests, parent: Section, subs: seq<Subsection>, r: SearchResult)
    ensures r in SubsectionResults(t, parent, subs) <==>
      r.SubsectionResult? && r.parent == parent && r.sub in subs && t.sub(r.sub)
  {
    if subs != [] {
      SubsectionResultsMembers(t, parent, subs[1..], r);
      assert subs == [subs[0]] + subs[1..];
    }
  }

  lemma {:induction false} ResultsByMembers(t: Tests, sections: seq<Section>, r: SearchResult)
    ensures r.SectionResult? ==> (r in ResultsBy(t, sections) <==> r.section in sections && t.section(r.section))
    ensures r.SubsectionResult? ==> (r in ResultsBy(t, sections) <==>
      r.parent in sections && r.sub in r.parent.subsections && t.sub(r.sub))
  {
    if sections != [] {
      var s := sections[0];
      ResultsByMembers(t, sections[1..], r);
      SubsectionResultsMembers(t, s, s.subsections, r);
      assert sections == [s] + sections[1..];
    }
  }

  /**
    Exactly the matching sections and the matching subsections (paired with
    their section) are reported.
  */
  lemma ResultsMembers(words: seq<string>, sections: seq<Section>, r: SearchResult)
    ensures r.SectionResult? ==> (r in Results(words, sections) <==>
      r.section in sections && SectionMatches(words, r.section))
    ensures r.SubsectionResult? ==> (r in Results(words, sections) <==>
      r.parent in sections && r.sub in r.parent.subsections && SubsectionMatches(words, r.sub))
  {
    ResultsByMembers(QueryTests(words), sections, r);
  }

  // ---------------------------------------------------------------- a subsection's section comes first

  /**
    The shape the parser gives a section: it contains each subsection's markup,
    and each subsection's heading text is part of that markup's text.
  */
  predicate Nested(s: Section)
  {
    forall m :: 0 <= m < |s.subsections| ==>
      Contains(s.html, s.subsections[m].html)
      && Contains(ForestText(s.subsections[m].html), s.subsections[m].text)
  }

  lemma ParsedNested(children: seq<Node>, k: nat)
    requires k < |Parsed(children)|
    ensures Nested(Parsed(children)[k])
  {
    var s := Parsed(children)[k];
    var run := SectionRuns(children)[k];
    assert s == MakeSection(k, run);
    var runs := SubRuns(run);
    forall m | 0 <= m < |s.subsections|
      ensures Contains(s.html, s.subsections[m].html)
      ensures Contains(ForestText(s.subsections[m].html), s.subsections[m].text)
    {
      SectionHoldsSubsections(children, k, m);
      var sub := s.subsections[m];
      var h := runs[m].head;
      var id := SubsectionId(s.id, m);
      assert sub == MakeSubsection(id, runs[m]);
      WithIdKeepsText(h, id);
      ForestTextAppend([WithId(h, id)], runs[m].rest);
      assert ForestText([WithId(h, id)]) == TextContent(h) + ForestText([]);
      var t := TextContent(h);
      var i, j :| 0 <= i <= j <= |t| && Trim(t) == t[i..j];
      ContainsSelf(t, i, j);
      ContainsLeft(t, ForestText(runs[m].rest), Trim(t));
    }
  }

  /** The words of an entry: they occur in its heading text or its body text. */
  lemma EntryWord(text: string, html: seq<Node>, w: string)
    requires IsWord(w) && Contains(Normalize(EntryText(text, html)), w)
    ensures Contains(Lower(text), w) || Contains(Lower(ForestText(html)), w)
  {
    var body := ForestText(html);
    NormalizeIdempotent(text + " " + body);
    ContainsNormalize(text + " " + body, w);
    LowerEntry(text, body);
    NoSpaceInWord(w);
    ContainsAcross(Lower(text), ' ', Lower(body), w);
  }

  lemma LowerEntry(text: string, body: string)
    ensures Lower(text + " " + body) == Lower(text) + [' '] + Lower(body)
  {
    LowerAppend(text + " ", body);
    LowerAppend(text, " ");
    assert Lower(" ") == [' '];
  }

  lemma NoSpaceInWord(w: string)
    requires IsWord(w)
    ensures forall k :: 0 <= k < |w| ==> w[k] != ' '
  {
    forall k | 0 <= k < |w| ensures w[k] != ' ' {
      assert IsLowerAlnum(w[k]);
    }
  }

  /** A word of the body text of an entry makes it found for that word. */
  lemma BodyWordFound(text: string, html: seq<Node>, w: string)
    requires IsWord(w) && Contains(Lower(ForestText(html)), w)
    ensures Contains(Normalize(EntryText(text, html)), w)
  {
    NormalizeIdempotent(text + " " + ForestText(html));
    ContainsNormalize(text + " " + ForestText(html), w);
    LowerAppend(text + " ", ForestText(html));
    ContainsRight(Lower(text + " "), Lower(ForestText(html)), w);
  }

  /** Whenever a subsection of a parsed section matches, so does the section. */
  lemma SubsectionMatchParent(words: seq<string>, s: Section, m: nat)
    requires forall k :: 0 <= k < |words| ==> IsWord(words[k])
    requires Nested(s) && m < |s.subsections| && SubsectionMatches(words, s.subsections[m])
    ensures SectionMatches(words, s)
  {
    var sub := s.subsections[m];
    var x := ForestText(sub.html);
    ForestTextContains(s.html, sub.html);
    ContainsLower(ForestText(s.html), x);
    ContainsLower(x, sub.text);
    forall k | 0 <= k < |words| ensures Contains(Normalize(EntryText(s.text, s.html)), words[k]) {
      var w := words[k];
      EntryWord(sub.text, sub.html, w);
      if Contains(Lower(sub.text), w) {
        ContainsTrans(Lower(x), Lower(sub.text), w);
      }
      ContainsTrans(Lower(ForestText(s.html)), Lower(x), w);
      BodyWordFound(s.text, s.html, w);
    }
  }

  lemma {:induction false} SubsectionResultsAt(t: Tests, parent: Section, subs: seq<Subsection>, i: nat)
    requires i < |SubsectionResults(t, parent, subs)|
    ensures var r := SubsectionResults(t, parent, subs)[i];
      r.SubsectionResult? && r.parent == parent && r.sub in subs && t.sub(r.sub)
  {
    SubsectionResultsMembers(t, parent, subs, SubsectionResults(t, parent, subs)[i]);
  }

  /** Whenever a subsection of one of `sections` is found, so is the section. */
  predicate ParentFound(t: Tests, sections: seq<Section>)
  {
    forall k, m :: 0 <= k < |sections| && 0 <= m < |sections[k].subsections| && t.sub(sections[k].subsections[m])
      ==> t.section(sections[k])
  }

  lemma {:induction false} ParentFirstBy(t: Tests, sections: seq<Section>, i: nat)
    requires ParentFound(t, sections)
    requires i < |ResultsBy(t, sections)| && ResultsBy(t, sections)[i].SubsectionResult?
    ensures exists j :: 0 <= j < i && ResultsBy(t, sections)[j] == SectionResult(ResultsBy(t, sections)[i].parent)
  {
    var s := sections[0];
    var part := SectionResults(t, s);
    var rest := ResultsBy(t, sections[1..]);
    var all := ResultsBy(t, sections);
    assert all == part + rest;
    if i < |part| {
      var subsPart := SubsectionResults(t, s, s.subsections);
      if t.section(s) {
        assert part == [SectionResult(s)] + subsPart;
        assert i > 0;
        SubsectionResultsAt(t, s, s.subsections, i - 1);
        assert all[0] == SectionResult(s);
      } else {
        assert part == subsPart;
        SubsectionResultsAt(t, s, s.subsections, i);
        assert false;
      }
    } else {
      forall k, m | 0 <= k < |sections[1..]| && 0 <= m < |sections[1..][k].subsections|
          && t.sub(sections[1..][k].subsections[m])
        ensures t.section(sections[1..][k])
      {
        assert sections[1..][k] == sections[k + 1];
      }
      assert all[i] == rest[i - |part|];
      ParentFirstBy(t, sections[1..], i - |part|);
      var j :| 0 <= j < i - |part| && rest[j] == SectionResult(rest[i - |part|].parent);
      assert all[|part| + j] == rest[j];
    }
  }

  /**
    Over parsed sections, every subsection result comes after the result of its
    own section: a subsection's words are words of its section.
  */
  lemma ParentFirst(words: seq<string>, sections: seq<Section>, i: nat)
    requires forall k :: 0 <= k < |words| ==> IsWord(words[k])
    requires forall k :: 0 <= k < |sections| ==> Nested(sections[k])
    requires i < |Results(words, sections)| && Results(words, sections)[i].SubsectionResult?
    ensures exists j :: 0 <= j < i && Results(words, sections)[j] == SectionResult(Results(words, sections)[i].parent)
  {
    var t := QueryTests(words);
    forall k, m | 0 <= k < |sections| && 0 <= m < |sections[k].subsections| && t.sub(sections[k].subsections[m])
      ensures t.section(sections[k])
    {
      SubsectionMatchParent(words, sections[k], m);
    }
    ParentFirstBy(t, sections, i);
  }
}
