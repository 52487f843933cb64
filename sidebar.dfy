/**
  The sidebar's decisions: which sections it lists, what a click on a row does, and
  which rows are marked active and expanded.
*/
module Sidebar {
  import opened Wrappers
  import opened JsArray
  import opened Html
  import opened DocumentParser
  import opened SearchText
  import opened SearchResults
  import opened Search

  /** The sections of the level-1 results, in order (`filter(item => item.level === 1)`). */
  function LevelOne(results: seq<SearchResult>): seq<Section>
  {
    if results == [] then []
    else (if results[0].Level() == 1 then [results[0].section] else []) + LevelOne(results[1..])
  }

  /** `sidebarItems`: the level-1 results while there is a query, all sections otherwise. */
  function SidebarItems(searchQuery: string, sections: seq<Section>, results: seq<SearchResult>): seq<Section>
  {
    if searchQuery != "" then LevelOne(results) else sections
  }

  lemma {:induction false} LevelOneAppend(a: seq<SearchResult>, b: seq<SearchResult>)
    ensures LevelOne(a + b) == LevelOne(a) + LevelOne(b)
  {
    if a == [] {
      assert a + b == b;
    } else {
      var head := if a[0].Level() == 1 then [a[0].section] else [];
      assert (a + b)[0] == a[0] && (a + b)[1..] == a[1..] + b;
      LevelOneAppend(a[1..], b);
      assert LevelOne(a + b) == head + LevelOne(a[1..] + b);
    }
  }

  lemma {:induction false} LevelOneSubsections(t: Tests, parent: Section, subs: seq<Subsection>)
    ensures LevelOne(SubsectionResults(t, parent, subs)) == []
    decreases |subs|
  {
    if subs != [] {
      var head := if t.sub(subs[0]) then [SubsectionResult(subs[0], parent)] else [];
      LevelOneSubsections(t, parent, subs[1..]);
      LevelOneAppend(head, SubsectionResults(t, parent, subs[1..]));
      if t.sub(subs[0]) {
        assert LevelOne(head) == [] + LevelOne([]);
      }
    }
  }

  /** The level-1 results are the found sections, in document order. */
  lemma {:induction false} LevelOneResults(t: Tests, sections: seq<Section>)
    ensures LevelOne(ResultsBy(t, sections)) == Filter(sections, t.section)
    decreases |sections|
  {
    if sections != [] {
      var s := sections[0];
      var head := if t.section(s) then [SectionResult(s)] else [];
      LevelOneResults(t, sections[1..]);
      LevelOneSubsections(t, s, s.subsections);
      LevelOneAppend(head, SubsectionResults(t, s, s.subsections));
      LevelOneAppend(SectionResults(t, s), ResultsBy(t, sections[1..]));
      if t.section(s) {
        assert LevelOne(head) == [s] + LevelOne([]);
      }
    }
  }

  /**
    While searching, the sidebar lists exactly the sections that match, in document
    order, each with all of its subsections; a query that is not empty but has no
    words lists nothing.
  */
  lemma SearchItems(q: string, sections: seq<Section>)
    requires q != ""
    ensures SidebarItems(q, sections, Effect(q, sections).results)
      == if QueryWords(q) == [] then [] else Filter(sections, (s: Section) => SectionMatches(QueryWords(q), s))
  {
    if QueryWords(q) != [] {
      LevelOneResults(QueryTests(QueryWords(q)), sections);
    }
  }

  /** A click asks to navigate to an id or to set a section's expansion flag. */
  datatype Action = Navigate(id: string) | ExpandSection(id: string, expand: bool)

  /** `expandedSections[id]`, with an absent key read as collapsed. */
  function IsExpanded(expanded: map<string, bool>, id: string): bool
  {
    id in expanded && expanded[id]
  }

  /** `handleSectionClick` */
  function SectionClick(section: Section, expanded: map<string, bool>): Action
  {
    if |section.subsections| == 0 then Navigate(section.id)
    else if !IsExpanded(expanded, section.id) then ExpandSection(section.id, true)
    else Navigate(section.id)
  }

  /** A click on a subsection row. */
  function SubsectionClick(sub: Subsection): Action
  {
    Navigate(sub.id)
  }

  /**
    A click on a section navigates to it unless it has subsections and is collapsed;
    then it opens the section. A click never collapses a section.
  */
  lemma SectionClickSpec(section: Section, expanded: map<string, bool>)
    ensures SectionClick(section, expanded).id == section.id
    ensures SectionClick(section, expanded).Navigate? <==>
      |section.subsections| == 0 || IsExpanded(expanded, section.id)
    ensures SectionClick(section, expanded).ExpandSection? ==> SectionClick(section, expanded).expand
  {
  }

  /** The flag a click on a section leaves in the expansion map. */
  function AfterClick(expanded: map<string, bool>, a: Action): map<string, bool>
  {
    match a
    case Navigate(_) => expanded
    case ExpandSection(id, v) => expanded[id := v]
  }

  /** Clicking a section a second time navigates to it, and clicking never closes a section. */
  lemma SecondClickNavigates(section: Section, expanded: map<string, bool>)
    ensures var after := AfterClick(expanded, SectionClick(section, expanded));
      SectionClick(section, after) == Navigate(section.id)
      && forall id :: IsExpanded(expanded, id) ==> IsExpanded(after, id)
  {
  }

  /** A rendered subsection row. */
  datatype SubRow = SubRow(id: string, text: string, active: bool)

  /** A rendered section row: `toggle` is the arrow shown for a section with subsections. */
  datatype Row = Row(id: string, text: string, active: bool, toggle: bool, expanded: bool, subs: seq<SubRow>)

  function RenderSubRow(sub: Subsection, activeId: Option<string>): SubRow
  {
    SubRow(sub.id, sub.text, activeId == Some(sub.id))
  }

  function RenderRow(section: Section, activeId: Option<string>, expanded: map<string, bool>): Row
  {
    var hasSubsections := |section.subsections| > 0;
    Row(section.id, section.text, activeId == Some(section.id), hasSubsections,
      IsExpanded(expanded, section.id),
      if hasSubsections then seq(|section.subsections|, (m: int) requires 0 <= m < |section.subsections| =>
        RenderSubRow(section.subsections[m], activeId))
      else [])
  }

  /**
    On a parsed document a reader who is in subsection `m` of section `k` sees exactly
    that subsection row marked active, and the section row not.
  */
  lemma ActiveRow(children: seq<Node>, k: nat, m: nat, expanded: map<string, bool>)
    requires k < |Parsed(children)| && m < |Parsed(children)[k].subsections|
    ensures var sections := Parsed(children);
      var r := RenderRow(sections[k], Some(sections[k].subsections[m].id), expanded);
      !r.active && |r.subs| == |sections[k].subsections|
      && forall n :: 0 <= n < |r.subs| ==> (r.subs[n].active <==> n == m)
  {
    var sections := Parsed(children);
    ParsedIds(children, k);
    SectionIdNotSubsectionId(k, k, m);
    forall n | 0 <= n < |sections[k].subsections| && n != m
      ensures sections[k].subsections[n].id != sections[k].subsections[m].id
    {
      if SubsectionId(SectionId(k), n) == SubsectionId(SectionId(k), m) {
        SubsectionIdInjective(k, n, k, m);
      }
    }
  }
}
