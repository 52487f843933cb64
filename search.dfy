/**
  The search hook: its state (the query, the results, the highlighted HTML), the
  effect that recomputes the results and the highlighting whenever the query or
  the sections change, and the HTML it hands to the viewer.
*/
module Search {
  import opened JsString
  import opened Html
  import opened DocumentParser
  import opened SearchText
  import opened SearchResults
  import opened Highlight

  /** What one run of the effect stores: the results and the highlighted document. */
  datatype Outcome = Outcome(results: seq<SearchResult>, html: seq<Node>)

  predicate AllWords(words: seq<string>)
  {
    forall k :: 0 <= k < |words| ==> IsWord(words[k])
  }

  /**
    No words clear the results and show the plain document; otherwise the matching
    sections and subsections are listed and the words are marked.
  */
  function OutcomeFor(words: seq<string>, sections: seq<Section>): Outcome
    requires AllWords(words)
  {
    if words == [] then Outcome([], AllHtml(sections))
    else
      RegexAdvances(words);
      Outcome(Results(words, sections), HighlightForest(RegexFor(words), AllHtml(sections)))
  }

  /** The effect for the query `q`: it depends on the words of the query only. */
  function Effect(q: string, sections: seq<Section>): Outcome
  {
    QueryWordsAreWords(q);
    OutcomeFor(QueryWords(q), sections)
  }

  /** `highlightedHtml || baseHtml`: an empty highlighted HTML falls back to the document. */
  function Shown(highlighted: seq<Node>, base: seq<Node>): seq<Node>
  {
    if Blank(highlighted) then base else highlighted
  }

  /** The results are exactly the matching sections and subsections, and none for an empty query. */
  lemma EffectResultsMembers(q: string, sections: seq<Section>, r: SearchResult)
    ensures r.SectionResult? ==> (r in Effect(q, sections).results <==>
      QueryWords(q) != [] && r.section in sections && SectionMatches(QueryWords(q), r.section))
    ensures r.SubsectionResult? ==> (r in Effect(q, sections).results <==>
      QueryWords(q) != [] && r.parent in sections && r.sub in r.parent.subsections
      && SubsectionMatches(QueryWords(q), r.sub))
  {
    if QueryWords(q) != [] {
      ResultsMembers(QueryWords(q), sections, r);
    }
  }

  /** Highlighting changes the markup, never the text the reader sees. */
  lemma EffectKeepsText(q: string, sections: seq<Section>)
    ensures ForestText(Effect(q, sections).html) == ForestText(AllHtml(sections))
  {
    if QueryWords(q) != [] {
      RegexAdvances(QueryWords(q));
      HighlightKeepsText(RegexFor(QueryWords(q)), AllHtml(sections));
    }
  }

  /** After the effect the fallback to the plain document never changes what is shown. */
  lemma EffectShown(q: string, sections: seq<Section>)
    ensures Shown(Effect(q, sections).html, AllHtml(sections)) == Effect(q, sections).html
  {
    if QueryWords(q) != [] {
      RegexAdvances(QueryWords(q));
      HighlightForestBlank(RegexFor(QueryWords(q)), AllHtml(sections));
    }
  }

  /** Case, punctuation and spacing in the query do not matter. */
  lemma EffectNormalizedQuery(q: string, sections: seq<Section>)
    ensures QueryWords(Normalize(q)) == QueryWords(q)
    ensures Effect(Normalize(q), sections) == Effect(q, sections)
  {
    NormalizeIdempotent(q);
    QueryWordsAreWords(q);
    assert QueryWords(Normalize(q)) == QueryWords(q);
  }

  /** On a parsed document, a subsection is listed after the section that holds it. */
  lemma EffectParentFirst(q: string, children: seq<Node>, i: nat)
    requires i < |Effect(q, Parsed(children)).results|
    requires Effect(q, Parsed(children)).results[i].SubsectionResult?
    ensures exists j :: (0 <= j < i
      && Effect(q, Parsed(children)).results[j] == SectionResult(Effect(q, Parsed(children)).results[i].parent))
  {
    var sections := Parsed(children);
    forall k | 0 <= k < |sections| ensures Nested(sections[k]) {
      ParsedNested(children, k);
    }
    QueryWordsAreWords(q);
    ParentFirst(QueryWords(q), sections, i);
  }

  /** The body of the effect: the loop over the sections and the walk over the document. */
  method RunEffect(searchQuery: string, sectionsData: seq<Section>) returns (outcome: Outcome)
    ensures outcome == Effect(searchQuery, sectionsData)
  {
    var query := Normalize(searchQuery);
    var queryWords := NonEmpty(Split(query, ' '));
    var baseHtml := AllHtml(sectionsData);
    QueryWordsAreWords(searchQuery);
    assert queryWords == QueryWords(searchQuery);
    if queryWords == [] {
      return Outcome([], baseHtml);
    }
    var results := CollectResults(QueryTests(queryWords), sectionsData);
    RegexAdvances(queryWords);
    var html := WalkForest(RegexFor(queryWords), baseHtml);
    outcome := Outcome(results, html);
  }

  /** The hook's state. */
  class SearchState {
    var searchQuery: string
    var searchResults: seq<SearchResult>
    var highlightedHtml: seq<Node>

    /** Before the first effect nothing is highlighted, so the plain document is shown. */
    constructor ()
      ensures searchQuery == "" && searchResults == [] && highlightedHtml == []
      ensures forall sections :: HighlightedHtml(sections) == AllHtml(sections)
    {
      searchQuery := "";
      searchResults := [];
      highlightedHtml := [];
    }

    /** `setSearchQuery`: the results wait for the next run of the effect. */
    method SetSearchQuery(q: string)
      modifies this
      ensures searchQuery == q
      ensures searchResults == old(searchResults) && highlightedHtml == old(highlightedHtml)
    {
      searchQuery := q;
    }

    /** The HTML the hook returns. */
    function HighlightedHtml(sections: seq<Section>): seq<Node>
      reads this
    {
      Shown(highlightedHtml, AllHtml(sections))
    }

    /** Stores one run's outcome. */
    method Store(o: Outcome)
      modifies this
      ensures searchQuery == old(searchQuery)
      ensures searchResults == o.results && highlightedHtml == o.html
    {
      searchResults := o.results;
      highlightedHtml := o.html;
    }

    /** The effect, run after a render in which the query or the sections changed. */
    method Refresh(sectionsData: seq<Section>)
      modifies this
      ensures searchQuery == old(searchQuery)
      ensures searchResults == Effect(searchQuery, sectionsData).results
      ensures highlightedHtml == Effect(searchQuery, sectionsData).html
    {
      var o := RunEffect(searchQuery, sectionsData);
      Store(o);
    }
  }
}
