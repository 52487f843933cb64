/**
  Splitting a converted document into sections and subsections
  (client/src/hooks/useDocumentParser.js).

  The body's element children are walked once: every top-level `H1` opens a
  section, every `H2` after it opens a subsection of the current section, and
  any other element is appended to the current section (and to the current
  subsection, if one is open). Elements before the first `H1` belong to no
  section.

  `Parsed` is a reference definition of the result that does not follow the
  walk: it cuts the children into runs that start at an `H1`, and cuts each
  run's body into runs that start at an `H2`. `ParseBody`, the loop of the
  source, is proved to compute exactly `Parsed`.
*/
module DocumentParser {
  import opened Wrappers
  import opened JsString
  import opened Html

  datatype Subsection = Subsection(id: string, text: string, html: seq<Node>)
  datatype Section = Section(id: string, text: string, html: seq<Node>, subsections: seq<Subsection>)
  datatype Heading = Heading(id: string, text: string, level: nat)

  function SectionId(k: nat): string { "section-" + NatToString(k) }

  function SubsectionId(sectionId: string, m: nat): string { sectionId + "-sub-" + NatToString(m) }

  /** The heading's `textContent.trim()`. */
  function HeadingText(n: Node): string { Trim(TextContent(n)) }

  // ---------------------------------------------------------------- cutting into runs

  /** The index of the first node with `tag`, or `|cs|` when there is none (`FirstWithTagSpec`). */
  function FirstWithTag(cs: seq<Node>, tag: string): (k: nat)
    ensures k <= |cs|
  {
    if cs == [] || IsTag(cs[0], tag) then 0 else 1 + FirstWithTag(cs[1..], tag)
  }

  lemma {:induction false} FirstWithTagSpec(cs: seq<Node>, tag: string)
    ensures forall j :: 0 <= j < FirstWithTag(cs, tag) ==> !IsTag(cs[j], tag)
    ensures FirstWithTag(cs, tag) < |cs| ==> IsTag(cs[FirstWithTag(cs, tag)], tag)
  {
    if cs != [] && !IsTag(cs[0], tag) {
      FirstWithTagSpec(cs[1..], tag);
      forall j | 1 <= j < FirstWithTag(cs, tag) ensures !IsTag(cs[j], tag) {
        assert cs[j] == cs[1..][j - 1];
      }
    }
  }

  lemma {:induction false} FirstWithTagSnoc(cs: seq<Node>, c: Node, tag: string)
    ensures FirstWithTag(cs + [c], tag) ==
      if FirstWithTag(cs, tag) < |cs| then FirstWithTag(cs, tag)
      else if IsTag(c, tag) then |cs| else |cs| + 1
  {
    if cs == [] {
      assert cs + [c] == [c];
      assert [c][1..] == [];
    } else if !IsTag(cs[0], tag) {
      assert (cs + [c])[0] == cs[0];
      assert (cs + [c])[1..] == cs[1..] + [c];
      FirstWithTagSnoc(cs[1..], c, tag);
    } else {
      assert (cs + [c])[0] == cs[0];
    }
  }

  /** The number of nodes with `tag`. */
  function CountTag(cs: seq<Node>, tag: string): nat
  {
    if cs == [] then 0 else (if IsTag(cs[0], tag) then 1 else 0) + CountTag(cs[1..], tag)
  }

  lemma {:induction false} CountTagAppend(a: seq<Node>, b: seq<Node>, tag: string)
    ensures CountTag(a + b, tag) == CountTag(a, tag) + CountTag(b, tag)
  {
    if a == [] {
      assert a + b == b;
    } else {
      assert (a + b)[1..] == a[1..] + b;
      CountTagAppend(a[1..], b, tag);
    }
  }

  lemma {:induction false} CountTagNone(cs: seq<Node>, tag: string)
    requires forall j :: 0 <= j < |cs| ==> !IsTag(cs[j], tag)
    ensures CountTag(cs, tag) == 0
  {
    if cs != [] {
      CountTagNone(cs[1..], tag);
    }
  }

  /** A node and the nodes that follow it up to the next node with a given tag. */
  datatype Run = Run(head: Node, rest: seq<Node>)

  function RunsNodes(rs: seq<Run>): seq<Node>
  {
    if rs == [] then [] else [rs[0].head] + rs[0].rest + RunsNodes(rs[1..])
  }

  /** The run grown by one more node. */
  function Grow(r: Run, c: Node): Run { Run(r.head, r.rest + [c]) }

  /** The runs with the last one grown by `c`. */
  function GrowLast(rs: seq<Run>, c: Node): (r: seq<Run>)
    ensures |r| == |rs|
  {
    seq(|rs|, i requires 0 <= i < |rs| => if i == |rs| - 1 then Grow(rs[i], c) else rs[i])
  }

  /** Where the first run of a non-empty `cs` ends. */
  function RunEnd(cs: seq<Node>, tag: string): (n: nat)
    requires cs != []
    ensures 1 <= n <= |cs|
  {
    1 + FirstWithTag(cs[1..], tag)
  }

  lemma RunEndSnoc(cs: seq<Node>, c: Node, tag: string)
    requires cs != []
    ensures RunEnd(cs + [c], tag) ==
      if RunEnd(cs, tag) < |cs| || IsTag(c, tag) then RunEnd(cs, tag) else |cs| + 1
  {
    assert (cs + [c])[1..] == cs[1..] + [c];
    FirstWithTagSnoc(cs[1..], c, tag);
  }

  /**
    `cs` cut before every `tag` node after the first node: each run is a node
    and the nodes up to the next `tag` node (`RunsShape`).
  */
  function Runs(cs: seq<Node>, tag: string): seq<Run>
    decreases |cs|
  {
    if cs == [] then []
    else
      var n := RunEnd(cs, tag);
      [Run(cs[0], cs[1..n])] + Runs(cs[n..], tag)
  }

  /** The runs put back together give the nodes. */
  lemma {:induction false} RunsNodesRuns(cs: seq<Node>, tag: string)
    ensures RunsNodes(Runs(cs, tag)) == cs
    decreases |cs|
  {
    if cs != [] {
      var n := RunEnd(cs, tag);
      var rest := Runs(cs[n..], tag);
      RunsNodesRuns(cs[n..], tag);
      assert Runs(cs, tag) == [Run(cs[0], cs[1..n])] + rest;
      assert ([Run(cs[0], cs[1..n])] + rest)[1..] == rest;
      assert [cs[0]] + cs[1..n] + cs[n..] == cs;
    }
  }

  /** No run holds a `tag` node after its head, and every run but the first starts with one. */
  lemma {:induction false} RunsShape(cs: seq<Node>, tag: string, k: nat)
    requires k < |Runs(cs, tag)|
    ensures forall j :: 0 <= j < |Runs(cs, tag)[k].rest| ==> !IsTag(Runs(cs, tag)[k].rest[j], tag)
    ensures k > 0 ==> IsTag(Runs(cs, tag)[k].head, tag)
    decreases |cs|
  {
    var n := RunEnd(cs, tag);
    var rest := Runs(cs[n..], tag);
    FirstWithTagSpec(cs[1..], tag);
    assert Runs(cs, tag) == [Run(cs[0], cs[1..n])] + rest;
    if k == 0 {
      forall j | 0 <= j < n - 1 ensures !IsTag(cs[1..n][j], tag) {
        assert cs[1..n][j] == cs[1..][j];
      }
    } else {
      assert Runs(cs, tag)[k] == rest[k - 1];
      RunsShape(cs[n..], tag, k - 1);
      if k == 1 {
        assert rest[0].head == cs[n..][0] == cs[1..][n - 1];
      }
    }
  }

  lemma {:induction false} RunsCount(cs: seq<Node>, tag: string)
    requires cs == [] || IsTag(cs[0], tag)
    ensures |Runs(cs, tag)| == CountTag(cs, tag)
    decreases |cs|
  {
    if cs != [] {
      var n := RunEnd(cs, tag);
      FirstWithTagSpec(cs[1..], tag);
      assert n < |cs| ==> cs[n..][0] == cs[1..][n - 1];
      RunsCount(cs[n..], tag);
      assert cs == [cs[0]] + cs[1..n] + cs[n..];
      CountTagAppend([cs[0]] + cs[1..n], cs[n..], tag);
      CountTagAppend([cs[0]], cs[1..n], tag);
      forall j | 0 <= j < |cs[1..n]| ensures !IsTag(cs[1..n][j], tag) {
        assert cs[1..n][j] == cs[1..][j];
      }
      CountTagNone(cs[1..n], tag);
    }
  }

  lemma RunsSingle(c: Node, tag: string)
    ensures Runs([c], tag) == [Run(c, [])]
  {
    assert [c][1..] == [];
    assert RunEnd([c], tag) == 1;
    assert [c][1..1] == [];
    assert Runs([c], tag) == [Run(c, [])] + Runs([], tag);
  }

  /** A `tag` node at the end opens a run of its own. */
  lemma {:induction false} RunsSnocTag(cs: seq<Node>, c: Node, tag: string)
    requires IsTag(c, tag)
    ensures Runs(cs + [c], tag) == Runs(cs, tag) + [Run(c, [])]
    decreases |cs|
  {
    if cs == [] {
      assert cs + [c] == [c];
      RunsSingle(c, tag);
    } else {
      var n := RunEnd(cs, tag);
      var r0 := Run(cs[0], cs[1..n]);
      var rest := Runs(cs[n..], tag);
      RunEndSnoc(cs, c, tag);
      assert (cs + [c])[1..n] == cs[1..n];
      assert (cs + [c])[n..] == cs[n..] + [c];
      RunsSnocTag(cs[n..], c, tag);
      assert Runs(cs + [c], tag) == [r0] + (rest + [Run(c, [])]);
      assert [r0] + (rest + [Run(c, [])]) == ([r0] + rest) + [Run(c, [])];
    }
  }

  lemma GrowLastCons(r0: Run, rs: seq<Run>, c: Node)
    requires rs != []
    ensures GrowLast([r0] + rs, c) == [r0] + GrowLast(rs, c)
  {
  }

  /** Any other node at the end joins the last run. */
  lemma {:induction false} RunsSnocOther(cs: seq<Node>, c: Node, tag: string)
    requires cs != [] && !IsTag(c, tag)
    ensures Runs(cs + [c], tag) == GrowLast(Runs(cs, tag), c)
    decreases |cs|
  {
    var n := RunEnd(cs, tag);
    var r0 := Run(cs[0], cs[1..n]);
    var rest := Runs(cs[n..], tag);
    assert Runs(cs, tag) == [r0] + rest;
    RunEndSnoc(cs, c, tag);
    if n < |cs| {
      assert (cs + [c])[1..n] == cs[1..n];
      assert (cs + [c])[n..] == cs[n..] + [c];
      RunsSnocOther(cs[n..], c, tag);
      assert Runs(cs + [c], tag) == [r0] + GrowLast(rest, c);
      GrowLastCons(r0, rest, c);
    } else {
      assert cs[n..] == [];
      assert rest == [];
      assert (cs + [c])[1..n + 1] == cs[1..n] + [c];
      assert (cs + [c])[n + 1..] == [];
      assert Runs(cs + [c], tag) == [Grow(r0, c)] + Runs([], tag);
    }
  }

  lemma GrowLastSnoc(a: seq<Run>, x: Run, c: Node)
    ensures GrowLast(a + [x], c) == a + [Grow(x, c)]
  {
  }

  // ---------------------------------------------------------------- reference definition

  /** The nodes of a section's run between its `H1` and its first `H2`. */
  function Pre(run: Run): seq<Node>
  {
    run.rest[..FirstWithTag(run.rest, "H2")]
  }

  /** The `H2` runs of a section's run. */
  function SubRuns(run: Run): seq<Run>
  {
    Runs(run.rest[FirstWithTag(run.rest, "H2")..], "H2")
  }

  lemma PreSnoc(run: Run, c: Node)
    ensures Pre(Grow(run, c)) ==
      if SubRuns(run) != [] || IsTag(c, "H2") then Pre(run) else Pre(run) + [c]
  {
    var body := run.rest;
    FirstWithTagSnoc(body, c, "H2");
    var f := FirstWithTag(body, "H2");
    if f < |body| || IsTag(c, "H2") {
      assert (body + [c])[..f] == body[..f];
    } else {
      assert body[f..] == [];
      assert (body + [c])[..f + 1] == body[..f] + [c];
    }
  }

  lemma SubRunsSnocTag(run: Run, c: Node)
    requires IsTag(c, "H2")
    ensures SubRuns(Grow(run, c)) == SubRuns(run) + [Run(c, [])]
  {
    var body := run.rest;
    FirstWithTagSnoc(body, c, "H2");
    var f := FirstWithTag(body, "H2");
    assert (body + [c])[f..] == body[f..] + [c];
    RunsSnocTag(body[f..], c, "H2");
  }

  lemma SubRunsSnocOther(run: Run, c: Node)
    requires !IsTag(c, "H2")
    ensures SubRuns(Grow(run, c)) == GrowLast(SubRuns(run), c)
  {
    var body := run.rest;
    FirstWithTagSnoc(body, c, "H2");
    var f := FirstWithTag(body, "H2");
    if f < |body| {
      assert (body + [c])[f..] == body[f..] + [c];
      RunsSnocOther(body[f..], c, "H2");
    } else {
      assert body[f..] == [];
      assert (body + [c])[f + 1..] == [];
    }
  }

  function MakeSubsection(id: string, run: Run): Subsection
  {
    Subsection(id, HeadingText(run.head), [WithId(run.head, id)] + run.rest)
  }

  /** Subsection `m` of the section `sectionId` is built from the `m`-th `H2` run. */
  function SubsectionsOf(sectionId: string, runs: seq<Run>): (r: seq<Subsection>)
    ensures |r| == |runs|
  {
    seq(|runs|, m requires 0 <= m < |runs| => MakeSubsection(SubsectionId(sectionId, m), runs[m]))
  }

  lemma SubsectionsOfSnoc(id: string, a: seq<Run>, x: Run)
    ensures SubsectionsOf(id, a + [x]) == SubsectionsOf(id, a) + [MakeSubsection(SubsectionId(id, |a|), x)]
  {
    var l := SubsectionsOf(id, a + [x]);
    var r := SubsectionsOf(id, a) + [MakeSubsection(SubsectionId(id, |a|), x)];
    forall i | 0 <= i < |l| ensures l[i] == r[i] {
      if i < |a| {
        assert (a + [x])[i] == a[i];
      } else {
        assert (a + [x])[i] == x;
      }
    }
  }

  /** The subsections' markup, one after the other. */
  function SubsectionsHtml(subs: seq<Subsection>): seq<Node>
  {
    if subs == [] then [] else subs[0].html + SubsectionsHtml(subs[1..])
  }

  lemma {:induction false} SubsectionsHtmlSnoc(subs: seq<Subsection>, s: Subsection)
    ensures SubsectionsHtml(subs + [s]) == SubsectionsHtml(subs) + s.html
  {
    if subs == [] {
      assert subs + [s] == [s];
    } else {
      assert (subs + [s])[1..] == subs[1..] + [s];
      SubsectionsHtmlSnoc(subs[1..], s);
    }
  }

  /** The current subsection (the last one) also receives `c`. */
  function ExtendLastSubsection(subs: seq<Subsection>, c: Node): (r: seq<Subsection>)
    ensures |r| == |subs|
  {
    seq(|subs|, i requires 0 <= i < |subs| =>
      if i == |subs| - 1 then subs[i].(html := subs[i].html + [c]) else subs[i])
  }

  lemma {:induction false} SubsectionsHtmlExtendLast(subs: seq<Subsection>, c: Node)
    requires subs != []
    ensures SubsectionsHtml(ExtendLastSubsection(subs, c)) == SubsectionsHtml(subs) + [c]
  {
    var e := ExtendLastSubsection(subs, c);
    if |subs| == 1 {
      assert e == [subs[0].(html := subs[0].html + [c])];
      assert SubsectionsHtml(e) == subs[0].html + [c] + SubsectionsHtml([]);
      assert SubsectionsHtml(subs) == subs[0].html + SubsectionsHtml([]);
    } else {
      assert e[1..] == ExtendLastSubsection(subs[1..], c);
      SubsectionsHtmlExtendLast(subs[1..], c);
      assert SubsectionsHtml(e) == subs[0].html + (SubsectionsHtml(subs[1..]) + [c]);
    }
  }

  lemma SubsectionsOfGrowLast(id: string, runs: seq<Run>, c: Node)
    ensures SubsectionsOf(id, GrowLast(runs, c)) == ExtendLastSubsection(SubsectionsOf(id, runs), c)
  {
    var g := GrowLast(runs, c);
    var subs := SubsectionsOf(id, runs);
    var l := SubsectionsOf(id, g);
    var r := ExtendLastSubsection(subs, c);
    forall m | 0 <= m < |runs| ensures l[m] == r[m] {
      assert l[m] == MakeSubsection(SubsectionId(id, m), g[m]);
      assert subs[m] == MakeSubsection(SubsectionId(id, m), runs[m]);
      if m == |runs| - 1 {
        assert g[m] == Grow(runs[m], c);
        assert r[m] == subs[m].(html := subs[m].html + [c]);
      } else {
        assert g[m] == runs[m];
        assert r[m] == subs[m];
      }
    }
  }

  /**
    Section `k` built from the `k`-th `H1` run: its html is the `H1` (with the
    section's id), the nodes before the first `H2`, then every subsection's html.
  */
  function MakeSection(k: nat, run: Run): Section
  {
    var id := SectionId(k);
    var subs := SubsectionsOf(id, SubRuns(run));
    Section(id, HeadingText(run.head), [WithId(run.head, id)] + Pre(run) + SubsectionsHtml(subs), subs)
  }

  /** The `H1` runs of the body: from the first `H1` on, cut before every `H1`. */
  function SectionRuns(children: seq<Node>): seq<Run>
  {
    Runs(children[FirstWithTag(children, "H1")..], "H1")
  }

  lemma SectionRunsSnocTag(p: seq<Node>, c: Node)
    requires IsTag(c, "H1")
    ensures SectionRuns(p + [c]) == SectionRuns(p) + [Run(c, [])]
  {
    var start := FirstWithTag(p, "H1");
    FirstWithTagSnoc(p, c, "H1");
    assert (p + [c])[start..] == p[start..] + [c];
    RunsSnocTag(p[start..], c, "H1");
  }

  lemma SectionRunsSnocOther(p: seq<Node>, c: Node)
    requires !IsTag(c, "H1")
    ensures SectionRuns(p + [c]) == GrowLast(SectionRuns(p), c)
  {
    var start := FirstWithTag(p, "H1");
    FirstWithTagSnoc(p, c, "H1");
    if start < |p| {
      assert (p + [c])[start..] == p[start..] + [c];
      RunsSnocOther(p[start..], c, "H1");
    } else {
      assert p[start..] == [];
      assert (p + [c])[start + 1..] == [];
    }
  }

  function SectionsOf(runs: seq<Run>): (r: seq<Section>)
    ensures |r| == |runs|
  {
    seq(|runs|, k requires 0 <= k < |runs| => MakeSection(k, runs[k]))
  }

  lemma SectionsOfSnoc(a: seq<Run>, x: Run)
    ensures SectionsOf(a + [x]) == SectionsOf(a) + [MakeSection(|a|, x)]
  {
  }

  /** The sections of a body whose element children are `children`. */
  function Parsed(children: seq<Node>): seq<Section>
  {
    SectionsOf(SectionRuns(children))
  }

  /** The table of contents: every section heading followed by its subsection headings. */
  function SectionHeadings(s: Section): seq<Heading>
  {
    [Heading(s.id, s.text, 1)]
      + seq(|s.subsections|, m requires 0 <= m < |s.subsections| =>
          Heading(s.subsections[m].id, s.subsections[m].text, 2))
  }

  function HeadingsOf(sections: seq<Section>): seq<Heading>
  {
    if sections == [] then [] else SectionHeadings(sections[0]) + HeadingsOf(sections[1..])
  }

  lemma {:induction false} HeadingsOfSnoc(sections: seq<Section>, s: Section)
    ensures HeadingsOf(sections + [s]) == HeadingsOf(sections) + SectionHeadings(s)
  {
    if sections == [] {
      assert sections + [s] == [s];
    } else {
      assert (sections + [s])[1..] == sections[1..] + [s];
      HeadingsOfSnoc(sections[1..], s);
    }
  }

  lemma HeadingsReplaceLast(closed: seq<Section>, s: Section, s': Section, extra: seq<Heading>)
    requires SectionHeadings(s') == SectionHeadings(s) + extra
    ensures HeadingsOf(closed + [s']) == HeadingsOf(closed + [s]) + extra
  {
    HeadingsOfSnoc(closed, s);
    HeadingsOfSnoc(closed, s');
  }

  // ---------------------------------------------------------------- one step of the walk

  /** What the walk does to the current section for an element that is not an `H1`. */
  function ExtendSection(s: Section, c: Node): Section
  {
    if IsTag(c, "H2") then
      var subId := SubsectionId(s.id, |s.subsections|);
      var h := WithId(c, subId);
      s.(html := s.html + [h], subsections := s.subsections + [Subsection(subId, HeadingText(c), [h])])
    else
      s.(html := s.html + [c], subsections := ExtendLastSubsection(s.subsections, c))
  }

  lemma MakeSectionSnocTag(k: nat, run: Run, c: Node)
    requires IsTag(c, "H2")
    ensures MakeSection(k, Grow(run, c)) == ExtendSection(MakeSection(k, run), c)
  {
    var id := SectionId(k);
    PreSnoc(run, c);
    SubRunsSnocTag(run, c);
    var runs := SubRuns(run);
    var subs := SubsectionsOf(id, runs);
    SubsectionsOfSnoc(id, runs, Run(c, []));
    var sub := MakeSubsection(SubsectionId(id, |runs|), Run(c, []));
    assert sub == Subsection(SubsectionId(id, |runs|), HeadingText(c), [WithId(c, SubsectionId(id, |runs|))]);
    SubsectionsHtmlSnoc(subs, sub);
    var h := WithId(run.head, id);
    assert [h] + Pre(run) + (SubsectionsHtml(subs) + sub.html)
        == ([h] + Pre(run) + SubsectionsHtml(subs)) + sub.html;
  }

  lemma MakeSectionSnocOther(k: nat, run: Run, c: Node)
    requires !IsTag(c, "H2")
    ensures MakeSection(k, Grow(run, c)) == ExtendSection(MakeSection(k, run), c)
  {
    var id := SectionId(k);
    var runs := SubRuns(run);
    var subs := SubsectionsOf(id, runs);
    PreSnoc(run, c);
    SubRunsSnocOther(run, c);
    SubsectionsOfGrowLast(id, runs, c);
    var h := WithId(run.head, id);
    if runs == [] {
      assert [h] + (Pre(run) + [c]) + SubsectionsHtml([]) == ([h] + Pre(run) + SubsectionsHtml([])) + [c];
    } else {
      SubsectionsHtmlExtendLast(subs, c);
      assert [h] + Pre(run) + (SubsectionsHtml(subs) + [c]) == ([h] + Pre(run) + SubsectionsHtml(subs)) + [c];
    }
  }

  /** A section that has only its heading so far. */
  function NewSection(k: nat, c: Node): Section
  {
    Section(SectionId(k), HeadingText(c), [WithId(c, SectionId(k))], [])
  }

  lemma MakeSectionFresh(k: nat, c: Node)
    ensures MakeSection(k, Run(c, [])) == NewSection(k, c)
  {
    assert FirstWithTag([], "H2") == 0;
    assert SubRuns(Run(c, [])) == [];
    assert Pre(Run(c, [])) == [];
    assert SubsectionsOf(SectionId(k), []) == [];
    assert SubsectionsHtml([]) == [];
  }

  lemma ParsedSnocTag(p: seq<Node>, c: Node)
    requires IsTag(c, "H1")
    ensures Parsed(p + [c]) == Parsed(p) + [NewSection(|Parsed(p)|, c)]
  {
    SectionRunsSnocTag(p, c);
    var runs := SectionRuns(p);
    SectionsOfSnoc(runs, Run(c, []));
    MakeSectionFresh(|runs|, c);
  }

  lemma ParsedSnocNone(p: seq<Node>, c: Node)
    requires !IsTag(c, "H1") && Parsed(p) == []
    ensures Parsed(p + [c]) == []
  {
    SectionRunsSnocOther(p, c);
  }

  lemma SectionsOfGrowLast(runs: seq<Run>, c: Node, a: seq<Section>, s: Section)
    requires !IsTag(c, "H1") && SectionsOf(runs) == a + [s]
    ensures SectionsOf(GrowLast(runs, c)) == a + [ExtendSection(s, c)]
  {
    var L := |runs|;
    var g := GrowLast(runs, c);
    var l := SectionsOf(g);
    var r := a + [ExtendSection(s, c)];
    forall k | 0 <= k < L ensures l[k] == r[k] {
      assert l[k] == MakeSection(k, g[k]);
      assert SectionsOf(runs)[k] == MakeSection(k, runs[k]);
      if k == L - 1 {
        assert g[k] == Grow(runs[k], c);
        assert (a + [s])[k] == s;
        if IsTag(c, "H2") {
          MakeSectionSnocTag(k, runs[k], c);
        } else {
          MakeSectionSnocOther(k, runs[k], c);
        }
      } else {
        assert g[k] == runs[k];
        assert (a + [s])[k] == a[k];
      }
    }
  }

  lemma ParsedSnocOther(p: seq<Node>, c: Node, a: seq<Section>, s: Section)
    requires !IsTag(c, "H1") && Parsed(p) == a + [s]
    ensures Parsed(p + [c]) == a + [ExtendSection(s, c)]
  {
    SectionRunsSnocOther(p, c);
    SectionsOfGrowLast(SectionRuns(p), c, a, s);
  }

  // ---------------------------------------------------------------- the walk

  lemma SplitLast<T>(s: seq<T>)
    requires s != []
    ensures s == s[..|s| - 1] + [s[|s| - 1]]
  {
  }

  /**
    The branches of the forEach for an element that is not an `H1` while a
    section is open: an `H2` opens a subsection (and returns its heading), any
    other element is appended to the open subsection, if any, and to the section.
  */
  method AddToSection(section: Section, child: Node, inSubsection: bool) returns (r: Section, heading: Option<Heading>)
    requires inSubsection == (section.subsections != [])
    ensures r == ExtendSection(section, child)
    ensures SectionHeadings(r) == SectionHeadings(section) + if heading.Some? then [heading.value] else []
    ensures heading.Some? <==> IsTag(child, "H2")
  {
    if IsTag(child, "H2") {
      var text := HeadingText(child);
      var subId := SubsectionId(section.id, |section.subsections|);
      var h := WithId(child, subId);
      r := section.(subsections := section.subsections + [Subsection(subId, text, [h])]);
      r := r.(html := r.html + [h]);
      heading := Some(Heading(subId, text, 2));
    } else {
      r := section;
      if inSubsection {
        var M := |r.subsections|;
        var sub := r.subsections[M - 1];
        r := r.(subsections := r.subsections[..M - 1] + [sub.(html := sub.html + [child])]);
      }
      r := r.(html := r.html + [child]);
      heading := None;
    }
  }

  /** What one element does to the sections built so far. */
  function Step(sections: seq<Section>, c: Node): seq<Section>
  {
    if IsTag(c, "H1") then sections + [NewSection(|sections|, c)]
    else if sections == [] then []
    else sections[..|sections| - 1] + [ExtendSection(sections[|sections| - 1], c)]
  }

  lemma StepOther(closed: seq<Section>, current: Section, c: Node)
    requires !IsTag(c, "H1")
    ensures Step(closed + [current], c) == closed + [ExtendSection(current, c)]
  {
    var s := closed + [current];
    assert s[..|s| - 1] == closed;
  }

  /** The reference definition is the walk: adding an element to the body is one step. */
  lemma ParsedSnoc(p: seq<Node>, c: Node)
    ensures Parsed(p + [c]) == Step(Parsed(p), c)
  {
    var r := Parsed(p);
    if IsTag(c, "H1") {
      ParsedSnocTag(p, c);
    } else if r == [] {
      ParsedSnocNone(p, c);
    } else {
      SplitLast(r);
      ParsedSnocOther(p, c, r[..|r| - 1], r[|r| - 1]);
      StepOther(r[..|r| - 1], r[|r| - 1], c);
    }
  }

  /** Whether the source's `currentSubsection` is set: the current section has a subsection. */
  predicate InSubsection(sections: seq<Section>)
  {
    sections != [] && sections[|sections| - 1].subsections != []
  }

  /** The forEach callback: one element of the body. */
  method Visit(sections: seq<Section>, headings: seq<Heading>, inSubsection: bool, child: Node)
    returns (sections': seq<Section>, headings': seq<Heading>, inSubsection': bool)
    requires headings == HeadingsOf(sections)
    requires inSubsection == InSubsection(sections)
    ensures sections' == Step(sections, child)
    ensures headings' == HeadingsOf(sections')
    ensures inSubsection' == InSubsection(sections')
  {
    if IsTag(child, "H1") {
      sections', headings' := OpenSection(sections, headings, child);
      inSubsection' := false;
    } else if sections != [] {
      sections', headings', inSubsection' := ExtendLast(sections, headings, inSubsection, child);
    } else {
      sections', headings', inSubsection' := sections, headings, inSubsection;
    }
  }

  /** An `H1` closes the current section and opens a new one, with no subsection. */
  method OpenSection(sections: seq<Section>, headings: seq<Heading>, child: Node)
    returns (sections': seq<Section>, headings': seq<Heading>)
    requires IsTag(child, "H1") && headings == HeadingsOf(sections)
    ensures sections' == Step(sections, child)
    ensures headings' == HeadingsOf(sections')
    ensures !InSubsection(sections')
  {
    var text := HeadingText(child);
    var id := SectionId(|sections|);
    var section := Section(id, text, [WithId(child, id)], []);
    HeadingsOfSnoc(sections, section);
    assert SectionHeadings(section) == [Heading(id, text, 1)];
    sections' := sections + [section];
    headings' := headings + [Heading(id, text, 1)];
  }

  /** Any other element goes to the section that is open. */
  method ExtendLast(sections: seq<Section>, headings: seq<Heading>, inSubsection: bool, child: Node)
    returns (sections': seq<Section>, headings': seq<Heading>, inSubsection': bool)
    requires !IsTag(child, "H1") && sections != []
    requires headings == HeadingsOf(sections)
    requires inSubsection == InSubsection(sections)
    ensures sections' == Step(sections, child)
    ensures headings' == HeadingsOf(sections')
    ensures inSubsection' == InSubsection(sections')
  {
    var closed, current := sections[..|sections| - 1], sections[|sections| - 1];
    SplitLast(sections);
    StepOther(closed, current, child);
    var section, heading := AddToSection(current, child, inSubsection);
    HeadingsReplaceLast(closed, current, section, if heading.Some? then [heading.value] else []);
    sections' := closed + [section];
    headings' := headings;
    inSubsection' := inSubsection;
    if heading.Some? {
      headings' := headings + [heading.value];
      inSubsection' := true;
    }
  }

  /**
    The forEach over `doc.body.children`: it produces exactly the sections of
    the reference definition, and the headings list is their table of contents.
    The source's `currentSection` is always the last section pushed, and its
    `currentSubsection` is the last subsection of that section, if it has one.
  */
  method ParseBody(children: seq<Node>) returns (sections: seq<Section>, headings: seq<Heading>)
    ensures sections == Parsed(children)
    ensures headings == HeadingsOf(sections)
  {
    sections := [];
    headings := [];
    var inSubsection := false;
    for i := 0 to |children|
      invariant Parsed(children[..i]) == sections
      invariant headings == HeadingsOf(sections)
      invariant inSubsection == InSubsection(sections)
    {
      assert children[..i + 1] == children[..i] + [children[i]];
      ParsedSnoc(children[..i], children[i]);
      sections, headings, inSubsection := Visit(sections, headings, inSubsection, children[i]);
    }
    assert children[..|children|] == children;
  }
  // ---------------------------------------------------------------- properties of the result

  /** The markup of every section, in order: the viewer's `baseHtml`. */
  function AllHtml(sections: seq<Section>): seq<Node>
  {
    if sections == [] then [] else sections[0].html + AllHtml(sections[1..])
  }

  /** There is one section per `H1` child. */
  lemma SectionCount(children: seq<Node>)
    ensures |Parsed(children)| == CountTag(children, "H1")
  {
    var start := FirstWithTag(children, "H1");
    FirstWithTagSpec(children, "H1");
    assert children == children[..start] + children[start..];
    CountTagAppend(children[..start], children[start..], "H1");
    forall j | 0 <= j < start ensures !IsTag(children[..start][j], "H1") {
      assert children[..start][j] == children[j];
    }
    CountTagNone(children[..start], "H1");
    assert start < |children| ==> children[start..][0] == children[start];
    RunsCount(children[start..], "H1");
  }

  function RunNodes(r: Run): seq<Node> { [r.head] + r.rest }

  lemma {:induction false} SubsectionsCover(subs: seq<Subsection>, runs: seq<Run>)
    requires |subs| == |runs|
    requires forall m :: 0 <= m < |subs| ==> EraseIds(subs[m].html) == EraseIds(RunNodes(runs[m]))
    ensures EraseIds(SubsectionsHtml(subs)) == EraseIds(RunsNodes(runs))
  {
    if subs != [] {
      SubsectionsCover(subs[1..], runs[1..]);
      EraseIdsAppend(subs[0].html, SubsectionsHtml(subs[1..]));
      EraseIdsAppend(RunNodes(runs[0]), RunsNodes(runs[1..]));
    }
  }

  /** Setting a heading's id is invisible once ids are erased. */
  lemma EraseHeading(h: Node, id: string, pre: seq<Node>, tail: seq<Node>, tail': seq<Node>)
    requires EraseIds(tail) == EraseIds(tail')
    ensures EraseIds([WithId(h, id)] + pre + tail) == EraseIds([h] + (pre + tail'))
  {
    WithIdKeepsText(h, id);
    EraseIdsAppend([WithId(h, id)] + pre, tail);
    EraseIdsAppend([WithId(h, id)], pre);
    EraseIdsAppend([h], pre + tail');
    EraseIdsAppend(pre, tail');
  }

  lemma MakeSubsectionCover(id: string, run: Run)
    ensures EraseIds(MakeSubsection(id, run).html) == EraseIds(RunNodes(run))
  {
    EraseHeading(run.head, id, [], run.rest, run.rest);
    assert [WithId(run.head, id)] + [] + run.rest == [WithId(run.head, id)] + run.rest;
    assert [] + run.rest == run.rest;
  }

  /** Once ids are erased, a section's markup is its `H1` and the elements up to the next `H1`. */
  lemma MakeSectionCover(k: nat, run: Run)
    ensures EraseIds(MakeSection(k, run).html) == EraseIds(RunNodes(run))
  {
    var id := SectionId(k);
    var f := FirstWithTag(run.rest, "H2");
    var runs := SubRuns(run);
    var subs := SubsectionsOf(id, runs);
    forall m | 0 <= m < |subs| ensures EraseIds(subs[m].html) == EraseIds(RunNodes(runs[m])) {
      MakeSubsectionCover(SubsectionId(id, m), runs[m]);
    }
    SubsectionsCover(subs, runs);
    RunsNodesRuns(run.rest[f..], "H2");
    assert Pre(run) + RunsNodes(runs) == run.rest;
    EraseHeading(run.head, id, Pre(run), SubsectionsHtml(subs), RunsNodes(runs));
  }

  lemma {:induction false} SectionsCover(sections: seq<Section>, runs: seq<Run>)
    requires |sections| == |runs|
    requires forall k :: 0 <= k < |sections| ==> EraseIds(sections[k].html) == EraseIds(RunNodes(runs[k]))
    ensures EraseIds(AllHtml(sections)) == EraseIds(RunsNodes(runs))
  {
    if sections != [] {
      SectionsCover(sections[1..], runs[1..]);
      EraseIdsAppend(sections[0].html, AllHtml(sections[1..]));
      EraseIdsAppend(RunNodes(runs[0]), RunsNodes(runs[1..]));
    }
  }

  /**
    Every element from the first `H1` on lands in exactly one section, in
    order, and nothing else does: the sections' markup put together is that
    part of the body, up to the ids the walk sets on headings.
  */
  lemma ParsedCoversBody(children: seq<Node>)
    ensures EraseIds(AllHtml(Parsed(children))) == EraseIds(children[FirstWithTag(children, "H1")..])
    ensures forall j :: 0 <= j < FirstWithTag(children, "H1") ==> !IsTag(children[j], "H1")
  {
    var runs := SectionRuns(children);
    var sections := Parsed(children);
    forall k | 0 <= k < |sections| ensures EraseIds(sections[k].html) == EraseIds(RunNodes(runs[k])) {
      MakeSectionCover(k, runs[k]);
    }
    SectionsCover(sections, runs);
    RunsNodesRuns(children[FirstWithTag(children, "H1")..], "H1");
    FirstWithTagSpec(children, "H1");
  }

  /** The subsections' markup holds subsection `m`'s markup as one contiguous piece. */
  lemma {:induction false} SubsectionsHtmlHolds(subs: seq<Subsection>, m: nat)
    requires m < |subs|
    ensures Contains(SubsectionsHtml(subs), subs[m].html)
  {
    var h := subs[0].html;
    assert SubsectionsHtml(subs) == h + SubsectionsHtml(subs[1..]);
    if m == 0 {
      assert h[0..|h|] == h;
      ContainsAt(h, h, 0);
      ContainsLeft(h, SubsectionsHtml(subs[1..]), h);
    } else {
      SubsectionsHtmlHolds(subs[1..], m - 1);
      ContainsRight(h, SubsectionsHtml(subs[1..]), subs[m].html);
    }
  }

  lemma MakeSectionHolds(k: nat, run: Run, m: nat)
    requires m < |MakeSection(k, run).subsections|
    ensures Contains(MakeSection(k, run).html, MakeSection(k, run).subsections[m].html)
  {
    var s := MakeSection(k, run);
    SubsectionsHtmlHolds(s.subsections, m);
    ContainsRight([WithId(run.head, s.id)] + Pre(run), SubsectionsHtml(s.subsections), s.subsections[m].html);
  }

  /** A section's markup contains each of its subsections' markup as one contiguous piece. */
  lemma SectionHoldsSubsections(children: seq<Node>, k: nat, m: nat)
    requires k < |Parsed(children)| && m < |Parsed(children)[k].subsections|
    ensures Contains(Parsed(children)[k].html, Parsed(children)[k].subsections[m].html)
  {
    MakeSectionHolds(k, SectionRuns(children)[k], m);
  }

  /** The ids the walk assigns: `section-<k>` and `section-<k>-sub-<m>`, by position. */
  lemma ParsedIds(children: seq<Node>, k: nat)
    requires k < |Parsed(children)|
    ensures Parsed(children)[k].id == SectionId(k)
    ensures forall m :: 0 <= m < |Parsed(children)[k].subsections| ==>
      Parsed(children)[k].subsections[m].id == SubsectionId(SectionId(k), m)
  {
  }

  predicate AllDigits(s: string) { forall j :: 0 <= j < |s| ==> '0' <= s[j] <= '9' }

  /** A digit string followed by a separator starting with `-` is cut at that `-`. */
  lemma DigitsThenDash(d: string, x: string, e: string, y: string)
    requires AllDigits(d) && AllDigits(e) && x != [] && y != [] && x[0] == '-' && y[0] == '-'
    requires d + x == e + y
    ensures d == e && x == y
  {
    var k := if |d| < |e| then |d| else |e|;
    assert (d + x)[k] == (e + y)[k];
    if |d| < |e| {
      assert false;
    } else if |e| < |d| {
      assert false;
    }
    assert d == (d + x)[..|d|] && e == (e + y)[..|e|];
    assert x == (d + x)[|d|..] && y == (e + y)[|e|..];
  }

  /** Different sections get different ids. */
  lemma SectionIdInjective(a: nat, b: nat)
    requires SectionId(a) == SectionId(b)
    ensures a == b
  {
    var p := "section-";
    assert NatToString(a) == SectionId(a)[|p|..] && NatToString(b) == SectionId(b)[|p|..];
    NatToStringInjective(a, b);
  }

  /** Different subsections get different ids, also across sections. */
  lemma SubsectionIdInjective(a: nat, m: nat, b: nat, n: nat)
    requires SubsectionId(SectionId(a), m) == SubsectionId(SectionId(b), n)
    ensures a == b && m == n
  {
    var q := "-sub-";
    SubsectionIdShape(a, m);
    SubsectionIdShape(b, n);
    CancelPrefix("section-", NatToString(a) + (q + NatToString(m)), NatToString(b) + (q + NatToString(n)));
    DigitsThenDash(NatToString(a), q + NatToString(m), NatToString(b), q + NatToString(n));
    NatToStringInjective(a, b);
    CancelPrefix(q, NatToString(m), NatToString(n));
    NatToStringInjective(m, n);
  }

  lemma SubsectionIdShape(a: nat, m: nat)
    ensures SubsectionId(SectionId(a), m) == "section-" + (NatToString(a) + ("-sub-" + NatToString(m)))
  {
  }

  lemma CancelPrefix<T>(p: seq<T>, l: seq<T>, r: seq<T>)
    requires p + l == p + r
    ensures l == r
  {
    assert l == (p + l)[|p|..] && r == (p + r)[|p|..];
  }

  /** No section id is also a subsection id. */
  lemma SectionIdNotSubsectionId(a: nat, b: nat, n: nat)
    ensures SectionId(a) != SubsectionId(SectionId(b), n)
  {
    var p := "section-";
    var sub := SubsectionId(SectionId(b), n);
    var j := |p| + |NatToString(b)|;
    assert sub == p + NatToString(b) + ("-sub-" + NatToString(n));
    assert sub[j] == '-';
    if j < |SectionId(a)| {
      assert SectionId(a)[j] == NatToString(a)[j - |p|];
    }
  }
}
