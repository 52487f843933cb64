# Document viewer: a Dafny model of its core

The system is a web application that serves technical manuals to signed-in users.
An administrator uploads HTML or DOCX documents and assigns them to users. A reader
opens one document at a time: the client splits it into sections and subsections at
its `H1` and `H2` headings, lists them in a sidebar, follows the heading in view as
the reader scrolls, and searches the text, marking the words it finds.

This project models the parts of that system that decide things, one Dafny module per
source file, and proves what each part promises:

- the client's document pipeline: loading and splitting a document
  (`DocumentLoader`, `DocumentParser`, over the markup tree of `Html`), normalising and
  matching a query (`SearchText`, `SearchResults`, `Search`), marking whole-word hits
  (`Highlight`), following the scroll position (`ScrollSync`), and the sidebar's
  expansion map and click rules (`SidebarExpansion`, `Sidebar`);
- the admin panel's checklist and create-user form (`UserManagement`) and the route
  guard (`ProtectedRoute`);
- the post-processing of a DOCX conversion: alert, table, row and cell classes, the
  PNG signature test and the image attributes (`DocxToHtml`);
- the script that collects the environment variables the server reads and writes the
  list of them (`EnvGenerate`);
- the server: the SQL queries as a database class (`ServerStore`), the request and
  response values (`ServerHttp`), the session-token middleware (`AuthMiddleware`),
  and the login, admin and document routes (`AuthRoutes`, `AdminRoutes`,
  `DocumentRoutes`).

The JavaScript built-ins the code relies on are modelled in `JsString` (ASCII
`toLowerCase`, `trim`, `split`, `includes`, `parseInt`), `JsArray` (`findIndex`,
`filter`) and `NodePath` (`path.extname`); `Wrappers` holds `Option`.

Imperative code keeps its form: the parser's `forEach` and the search's `exec` loop are
methods with loop invariants proved against reference functions, and the hooks' and
components' state (`SearchState`, `ScrollState`, `Expansion`, `UserPanel`) and the
database (`Database`) are classes whose methods state their whole new state. Browser
events (a fetch answer, a scroll event with the headings' positions, a timer firing)
are method parameters or methods of their own. bcrypt and JSON Web Tokens are function
parameters, so the proofs hold for any hash, comparison, signer and verifier; the
lemmas that need the verifier to undo the signer say so in their preconditions.

## Model

| member | source | states |
|---|---|---|
| DocumentLoader.ListAtUpdate | client/src/hooks/useDocumentParser.js:34-35 | replacing the child list at a path of the document tree leaves that path valid and the list there is exactly the new one |
| DocumentLoader.UpdateListRestore | client/src/hooks/useDocumentParser.js:34-35 | a removal touches only the list it removes from: putting the old list back gives the original document |
| DocumentLoader.FindUlSpec | client/src/hooks/useDocumentParser.js:29 | `querySelector("ul")` in document order finds nothing exactly when the document has no `UL` anywhere, and what it finds is a `UL` |
| DocumentLoader.PrevElement | client/src/hooks/useDocumentParser.js:32 | `previousElementSibling` is an element that comes before the node |
| DocumentLoader.PrevElementSpec | client/src/hooks/useDocumentParser.js:32 | only text nodes lie between a node and its previous element sibling (it is the nearest element) |
| DocumentLoader.FindToc | client/src/hooks/useDocumentParser.js:29-33 | a table of contents is found only as a first `UL` whose previous element sibling's text includes "Contents" |
| DocumentLoader.RemoveTocAsWritten | client/src/hooks/useDocumentParser.js:34-35 | as written, the second `remove` runs on the detached list's null sibling: loading fails exactly when a table of contents is found, and otherwise the document is unchanged |
| DocumentLoader.TocRemovalThrows | client/src/hooks/useDocumentParser.js:29-36 | a document made of a "Contents" paragraph, a list and an `H1` fails to load |
| DocumentLoader.RemoveTocSpec | client/src/hooks/useDocumentParser.js:29-36 | intended removal: without a table of contents nothing changes; with one, exactly the title and the list leave their parent list, the rest of it keeps its order, only text lay between them, and nothing else in the document changes |
| DocumentLoader.ElementChildren | client/src/hooks/useDocumentParser.js:40 | `body.children` holds only elements and no more nodes than the body |
| DocumentLoader.Loader.constructor | client/src/hooks/useDocumentParser.js:4-7 | the hook starts with no sections, no headings, loading, and no error |
| DocumentLoader.Loader.Load | client/src/hooks/useDocumentParser.js:9-89 | as written: without a url only loading ends; a network error, a status outside 200-299 ("Failed to fetch document: <status>") or a document with a table of contents (whose removal throws) records the error and keeps the previous sections and headings; any other document stores the parse of its element children and the matching headings; loading always ends |
| DocumentLoader.Loader.LoadCorrected | client/src/hooks/useDocumentParser.js:9-89 | corrected: the same effect, except that every successful fetch stores the parse of the document after the intended table-of-contents removal |
| DocumentLoader.TocDocumentAsWritten | client/src/hooks/useDocumentParser.js:29-36 | as written, loading a "Contents" paragraph, a list and an `H1` records an error and leaves the viewer with no sections |
| DocumentParser.FirstWithTagSpec | client/src/hooks/useDocumentParser.js:45-70 | the elements before the first `H1` are not `H1`s, which is why the walk drops them (no section is open yet) |
| DocumentParser.RunsNodesRuns | client/src/hooks/useDocumentParser.js:44-76 | cutting the body before every heading and putting the pieces back together gives the body again |
| DocumentParser.RunsShape | client/src/hooks/useDocumentParser.js:44-76 | no piece holds a heading after its first node, and every piece but the first starts with a heading |
| DocumentParser.RunsCount | client/src/hooks/useDocumentParser.js:44-76 | a body that starts with a heading is cut into one piece per heading |
| DocumentParser.RunsSnocTag | client/src/hooks/useDocumentParser.js:45-57 | a heading at the end opens a piece of its own |
| DocumentParser.RunsSnocOther | client/src/hooks/useDocumentParser.js:70-75 | any other node at the end joins the last piece |
| DocumentParser.SubsectionsOfSnoc | client/src/hooks/useDocumentParser.js:60 | a new `H2` run becomes subsection number the number of subsections so far of its section |
| DocumentParser.SubsectionsHtmlExtendLast | client/src/hooks/useDocumentParser.js:71-73 | appending an element to the current subsection appends it to the subsections' markup |
| DocumentParser.HeadingsOfSnoc | client/src/hooks/useDocumentParser.js:56-68 | the headings list is each section's heading followed by its subsections' headings, in order |
| DocumentParser.ParsedSnocTag | client/src/hooks/useDocumentParser.js:45-57 | an `H1` appended to the body adds a new section with index the number of sections so far holding only that heading |
| DocumentParser.ParsedSnocNone | client/src/hooks/useDocumentParser.js:58-70 | elements before the first `H1` are dropped |
| DocumentParser.ParsedSnocOther | client/src/hooks/useDocumentParser.js:58-75 | any other element extends the last section and nothing else |
| DocumentParser.AddToSection | client/src/hooks/useDocumentParser.js:58-75 | an `H2` opens a subsection and yields exactly one new heading; any other element goes to the section and, when one is open, to the current subsection, and yields no heading |
| DocumentParser.ParsedSnoc | client/src/hooks/useDocumentParser.js:44-76 | the declarative parse (sections cut at `H1`s, subsections cut at `H2`s) agrees with one step of the walk for every appended element |
| DocumentParser.Visit | client/src/hooks/useDocumentParser.js:44-76 | one callback of `forEach` performs one step of the parse and keeps the headings and the current subsection in step with the sections |
| DocumentParser.OpenSection | client/src/hooks/useDocumentParser.js:45-57 | an `H1` opens a new section and clears the current subsection |
| DocumentParser.ExtendLast | client/src/hooks/useDocumentParser.js:58-75 | any other element goes to the open section, keeping headings and current subsection consistent |
| DocumentParser.ParseBody | client/src/hooks/useDocumentParser.js:38-80 | the loop computes exactly the declarative parse of the body and its headings |
| DocumentParser.SectionCount | client/src/hooks/useDocumentParser.js:45-57 | there is one section per `H1` of the body |
| DocumentParser.MakeSectionCover | client/src/hooks/useDocumentParser.js:52-74 | once ids are ignored, a section's markup is its `H1` and every element up to the next `H1` |
| DocumentParser.ParsedCoversBody | client/src/hooks/useDocumentParser.js:44-76 | once ids are ignored, the sections' markup, one after the other, is the whole body from its first `H1` on; nothing before that is an `H1` |
| DocumentParser.SectionHoldsSubsections | client/src/hooks/useDocumentParser.js:69-74 | a section's markup contains each of its subsections' markup as one contiguous piece |
| DocumentParser.ParsedIds | client/src/hooks/useDocumentParser.js:47-60 | section `k` has the id `section-k` and its subsection `m` the id `section-k-sub-m` |
| DocumentParser.SectionIdInjective | client/src/hooks/useDocumentParser.js:47 | different sections get different ids |
| DocumentParser.SubsectionIdInjective | client/src/hooks/useDocumentParser.js:60 | different subsections get different ids, also across sections |
| DocumentParser.SectionIdNotSubsectionId | client/src/hooks/useDocumentParser.js:47-60 | no section id is also a subsection id |
| SearchText.NormalizeIsNormalized | client/src/hooks/useSearch.js:9-13 | `normalize` yields words of `[a-z0-9]` separated by single spaces, no space at either end |
| SearchText.NormalizeIdempotent | client/src/hooks/useSearch.js:9-35 | normalising twice changes nothing, so `matchesQuery` re-normalising an entry's text is harmless |
| SearchText.ContainsSquash | client/src/hooks/useSearch.js:12 | replacing every run outside `[a-z0-9]` by one space neither creates nor loses an occurrence of a word |
| SearchText.ContainsNormalize | client/src/hooks/useSearch.js:9-13 | a word occurs in the normalised text exactly when it occurs in the lower-cased text |
| SearchText.NonEmptyKeeps | client/src/hooks/useSearch.js:26 | `filter(Boolean)` keeps a list that has no empty string |
| SearchText.QueryWordsAreWords | client/src/hooks/useSearch.js:25-26 | every query word is a non-empty string over `[a-z0-9]` |
| SearchText.QueryWordsJoin | client/src/hooks/useSearch.js:25-28 | the query has no words exactly when it normalises to the empty string, and otherwise its words joined by spaces are the normalised query |
| SearchText.MatchesEntryLower | client/src/hooks/useSearch.js:34-51 | an entry matches exactly when every query word occurs in its lower-cased heading, a space and its body text |
| SearchResults.CollectResults | client/src/hooks/useSearch.js:39-56 | the nested `forEach` pushes exactly the reference list: each found section, then its found subsections, in document order |
| SearchResults.CollectSubsections | client/src/hooks/useSearch.js:50-55 | the inner `forEach` appends exactly the found subsections of one section, in order |
| SearchResults.ResultsByMembers | client/src/hooks/useSearch.js:39-56 | a section is listed exactly when it passes its test, a subsection exactly when it belongs to a listed-from section and passes its test |
| SearchResults.ResultsMembers | client/src/hooks/useSearch.js:34-56 | the results are exactly the matching sections and the matching subsections paired with their section |
| SearchResults.ParsedNested | client/src/hooks/useDocumentParser.js:45-75 | a parsed section's markup contains each subsection's markup and each subsection's markup contains its heading text |
| SearchResults.EntryWord | client/src/hooks/useSearch.js:42-44 | a word of an entry's searchable text occurs in its heading or in its body text |
| SearchResults.BodyWordFound | client/src/hooks/useSearch.js:42-44 | a word of the body text always makes the entry's searchable text contain it |
| SearchResults.SubsectionMatchParent | client/src/hooks/useSearch.js:42-54 | on a parsed section, whenever a subsection matches the query, so does its section |
| SearchResults.ParentFirst | client/src/hooks/useSearch.js:41-56 | on parsed sections, every subsection result is preceded by the result of its own section |
| Search.EffectResultsMembers | client/src/hooks/useSearch.js:24-58 | after the effect the results are exactly the matching sections and subsections, and there are none for a query without words |
| Search.EffectKeepsText | client/src/hooks/useSearch.js:60-101 | the highlighted document has exactly the text of the plain document |
| Search.EffectShown | client/src/hooks/useSearch.js:28-108 | falling back to `baseHtml` when `highlightedHtml` is empty never changes what the effect computed: an empty highlight happens only for an empty document |
| Search.EffectNormalizedQuery | client/src/hooks/useSearch.js:25-26 | case, punctuation and spacing in the query change neither its words nor the effect |
| Search.EffectParentFirst | client/src/hooks/useSearch.js:41-56 | on a parsed document a subsection is listed after the section holding it |
| Search.RunEffect | client/src/hooks/useSearch.js:24-101 | the effect body computes the outcome of the reference definition: no words give no results and the plain document, otherwise the matches and the highlighted document |
| Search.SearchState.constructor | client/src/hooks/useSearch.js:16-18 | the hook starts with an empty query and no results, and then shows the plain document |
| Search.SearchState.SetSearchQuery | client/src/hooks/useSearch.js:16 | setting the query changes only the query; results and highlight wait for the effect |
| Search.SearchState.Store | client/src/hooks/useSearch.js:29-101 | the state setters store one outcome and keep the query |
| Search.SearchState.Refresh | client/src/hooks/useSearch.js:24-102 | a run of the effect leaves the query and stores exactly the results and highlight the reference definition gives for it |
| Highlight.EscapeAllWords | client/src/hooks/useSearch.js:65 | escaping leaves query words unchanged (they hold no special characters) |
| Highlight.PatternAlternatives | client/src/hooks/useSearch.js:63-68 | the pattern is the words joined as alternatives between two word boundaries, and its alternatives are exactly the query words in order |
| Highlight.FirstWordAtSpec | client/src/hooks/useSearch.js:63-68 | alternatives are tried left to right: the first one matching at a position is taken |
| Highlight.ExecFound | client/src/hooks/useSearch.js:76 | what `exec` reports is a whole-word case-insensitive match of an alternative, with no earlier alternative matching there |
| Highlight.ExecLeftmost | client/src/hooks/useSearch.js:76 | no alternative matches between `lastIndex` and the reported match |
| Highlight.ExecNone | client/src/hooks/useSearch.js:76 | `exec` returns null exactly when no alternative matches from `lastIndex` on |
| Highlight.ExecSpec | client/src/hooks/useSearch.js:63-76 | the three facts about `exec` together |
| Highlight.RegexAdvances | client/src/hooks/useSearch.js:76-86 | with non-empty words every match lies at or after `lastIndex` and is non-empty, so the loop ends |
| Highlight.FragmentMatch | client/src/hooks/useSearch.js:76-87 | one match contributes the text before it, its mark, and then the fragment after it |
| Highlight.FragmentOf | client/src/hooks/useSearch.js:72-90 | the `exec` loop builds exactly the reference fragment of the text node |
| Highlight.AppendMatch | client/src/hooks/useSearch.js:77-86 | one turn of the loop keeps its invariant, the fragment so far followed by the reference fragment from `lastIndex` being the whole fragment, and moves `lastIndex` strictly forward within the text |
| Highlight.AppendText | client/src/hooks/useSearch.js:89-90 | a slice of the text is appended as a text node exactly when it is non-empty |
| Highlight.HighlightForestAppend | client/src/hooks/useSearch.js:96-100 | walking a list of nodes is walking each node, in order |
| Highlight.WalkNode | client/src/hooks/useSearch.js:70-98 | `walk` replaces a text node by its fragment when it is non-empty and walks an element's children |
| Highlight.WalkForest | client/src/hooks/useSearch.js:96-100 | the walk over a copy of a child list gives the reference highlight of that list |
| Highlight.FragmentTokens | client/src/hooks/useSearch.js:72-90 | read as a character stream, a text node's fragment is the rest of its text |
| Highlight.HighlightForestTokens | client/src/hooks/useSearch.js:70-100 | with `MARK` transparent the highlighted document is the document: same elements, ids and text, in order |
| Highlight.HighlightKeepsText | client/src/hooks/useSearch.js:70-100 | highlighting keeps the text of the document |
| Highlight.HighlightTextMarksBy | client/src/hooks/useSearch.js:76-94 | a text node gets a mark exactly when `exec` finds a match in it; otherwise it stays as it is |
| Highlight.HighlightTextMarks | client/src/hooks/useSearch.js:63-94 | a text node gets a mark exactly when some query word occurs in it as a whole word, and one without any is left as it is |
| Highlight.RegexFindsWords | client/src/hooks/useSearch.js:63-68 | every match the regular expression reports is a query word up to case |
| Highlight.FragmentPieces | client/src/hooks/useSearch.js:72-90 | a fragment is made of non-empty text nodes and marks whose text is a query word up to case |
| Highlight.HighlightPieces | client/src/hooks/useSearch.js:72-90 | with the query's pattern, every mark of a text node's fragment is a query word up to case, and no text node is empty |
| Highlight.FragmentMarks | client/src/hooks/useSearch.js:76-87 | one mark per match, in the order `exec` reports them, each holding the matched text |
| Highlight.MatchesOrdered | client/src/hooks/useSearch.js:76-87 | the matches lie left to right from `lastIndex`, inside the text, and do not overlap |
| Highlight.MatchesSatisfy | client/src/hooks/useSearch.js:76-87 | a property of every `exec` answer holds of every match the loop consumes |
| Highlight.HighlightMarks | client/src/hooks/useSearch.js:63-90 | the marks of a highlighted text node hold, in order, whole-word case-insensitive occurrences of query words, left to right and not overlapping |
| Highlight.SubwordNotHighlighted | client/src/hooks/useSearch.js:34-68 | a word inside a longer word is found by the search but not highlighted: "light" in "Lights" |
| Highlight.FragmentNonBlank | client/src/hooks/useSearch.js:80-90 | a fragment holds no empty text node, and it is empty only when nothing is left to scan |
| Highlight.HighlightTextBlank | client/src/hooks/useSearch.js:92-94 | a text node is replaced by nothing serialisable exactly when it was empty, and then it is kept |
| Highlight.HighlightForestBlank | client/src/hooks/useSearch.js:100-108 | the walk yields an empty `innerHTML` exactly when the document had one, and then the document is unchanged |
| Html.ForestTextAppend | client/src/hooks/useSearch.js:3-7 | the text of consecutive markup is the concatenation of their texts |
| Html.ForestTextContains | client/src/hooks/useSearch.js:3-7 | the text of a contiguous piece of markup is a contiguous piece of its text |
| Html.WithIdKeepsText | client/src/hooks/useDocumentParser.js:48 | setting an id keeps the node's text, its tag and everything but the id |
| ScrollSync.ClosestSpec | client/src/hooks/useScrollSync.js:36-50 | minimising the distance to the 150-pixel line over headers at or above it picks the lowest of them, the first on a tie; there is none exactly when every header is below the line |
| ScrollSync.ClosestUnique | client/src/hooks/useScrollSync.js:42-50 | at most one header is the closest |
| ScrollSync.ClosestHeader | client/src/hooks/useScrollSync.js:39-50 | the `forEach` loop, with an infinite starting distance, chooses exactly the reference header |
| ScrollSync.ActiveAfterScrollSpec | client/src/hooks/useScrollSync.js:33-55 | the handler leaves `activeId` alone without content, while navigating, or when no header is at or above the line; otherwise the active id is that of the closest header |
| ScrollSync.ActiveAfterScrollIdempotent | client/src/hooks/useScrollSync.js:57-58 | running the handler again on the same layout, as its registration does, changes nothing |
| ScrollSync.ScrollState.constructor | client/src/hooks/useScrollSync.js:4-5 | nothing is active, no navigation is in progress and no timer is pending |
| ScrollSync.ScrollState.ScrollToHeadingAsWritten | client/src/hooks/useScrollSync.js:7-30 | as written the navigating flag is set even when the element is missing, and then no scroll, hash change or timer follows |
| ScrollSync.ScrollState.ScrollToHeading | client/src/hooks/useScrollSync.js:7-30 | corrected: an existing target is scrolled to 120 pixels above its position, the hash becomes `#id` and a timer of 800 (smooth) or 100 milliseconds will clear the flag; a missing target changes nothing; a pending timer always exists while the flag is set |
| ScrollSync.ScrollState.HandleScroll | client/src/hooks/useScrollSync.js:33-55 | a scroll event changes only `activeId`, as the reference handler says |
| ScrollSync.ScrollState.HighlightedHtmlChanged | client/src/hooks/useScrollSync.js:63-68 | a fragment in the URL schedules a scroll to it after 100 milliseconds; nothing else changes |
| ScrollSync.ScrollState.FireTimer | client/src/hooks/useScrollSync.js:7-67 | as written: a clearing timer ends the navigation; a restoring timer sets the flag, scrolls instantly to the fragment when it names an element and then leaves a clearing timer, and otherwise leaves the flag set with nothing pending; the fired timer is no longer pending |
| ScrollSync.ScrollState.FireTimerCorrected | client/src/hooks/useScrollSync.js:7-67 | corrected: a restoring timer whose fragment names no element changes nothing, so a pending timer always exists while the flag is set |
| ScrollSync.StaleFragmentAsWritten | client/src/hooks/useScrollSync.js:62-67 | as written, a URL fragment naming no heading leaves the flag set after the restoring timer fires, so the next scroll selects nothing |
| ScrollSync.MissingTargetAsWritten | client/src/hooks/useScrollSync.js:8-11 | as written, scrolling to a missing id leaves the flag set with no timer to clear it, so the next scroll does not select a heading |
| ScrollSync.MissingTargetCorrected | client/src/hooks/useScrollSync.js:8-11 | with the corrected `scrollToHeading` the same scrolling selects the heading |
| SidebarExpansion.ExpandForSpec | client/src/hooks/useSidebarExpansion.js:13-34 | no active id, or an empty one, leaves the map alone; a section id opens that section; otherwise a subsection id opens the first section owning it; an id that names nothing leaves the map alone |
| SidebarExpansion.ExpandForOnlyOpens | client/src/hooks/useSidebarExpansion.js:13-34 | the effect only opens: no flag that was set is cleared, and at most one key is added or changed, always to true |
| SidebarExpansion.OpenedBy | client/src/hooks/useSidebarExpansion.js:14-33 | for every expansion map, the effect is setting one section id, the one the active id determines, to true, or nothing |
| SidebarExpansion.OpenOnly | client/src/hooks/useSidebarExpansion.js:18-21 | setting one flag to true adds at most that key and clears nothing |
| SidebarExpansion.OwningSection | client/src/hooks/useSidebarExpansion.js:23-32 | the `for … break` loop stops at the first section owning a subsection with the id, or finds none |
| SidebarExpansion.Expansion.constructor | client/src/hooks/useSidebarExpansion.js:4 | no section starts expanded |
| SidebarExpansion.Expansion.HandleExpandSection | client/src/hooks/useSidebarExpansion.js:6-11 | exactly the entry of the section becomes the given flag; every other entry is kept |
| SidebarExpansion.Expansion.ActiveIdChanged | client/src/hooks/useSidebarExpansion.js:13-34 | the effect leaves the map the reference definition gives for the active id |
| Sidebar.LevelOneResults | client/src/components/Sidebar/Sidebar.jsx:47-49 | the level-1 results are the found sections, in document order |
| Sidebar.SearchItems | client/src/components/Sidebar/Sidebar.jsx:47-49 | while searching the sidebar lists exactly the sections that match, in document order, each with all its subsections; a query with no words lists nothing |
| Sidebar.SectionClickSpec | client/src/components/Sidebar/Sidebar.jsx:51-66 | a click on a section navigates to it unless it has subsections and is collapsed, when it opens it; a click never collapses a section |
| Sidebar.SecondClickNavigates | client/src/components/Sidebar/Sidebar.jsx:51-66 | clicking a section a second time navigates to it, and clicking never closes a section |
| Sidebar.ActiveRow | client/src/components/Sidebar/Sidebar.jsx:126-175 | on a parsed document a reader in subsection m of section k sees exactly that subsection row marked active, and the section row not |
| DocxToHtml.FirstRule | docx-to-html.js:90-98 | the class chosen by an `if … else if` chain is that of a rule whose keyword occurs, with no earlier keyword occurring; none is chosen exactly when no keyword occurs |
| DocxToHtml.FirstRuleFound | docx-to-html.js:90-98 | a chain gives at most one class, and gives one exactly when some keyword occurs |
| DocxToHtml.AlertClassFirstRule | docx-to-html.js:87-99 | an alert label gets the colour of the first of red, amber, blue and notification (gray) found in its lower-cased text |
| DocxToHtml.RequiredIsRed | docx-to-html.js:88-91 | a label whose text merely contains "red", such as "Required", is coloured red |
| DocxToHtml.ClassifyAlerts | docx-to-html.js:87-99 | the `each` loop over the labels gives, label by label and in order, the class of the first matching keyword |
| DocxToHtml.ClassifyTable | docx-to-html.js:101-152 | every table gets `color-table` and every row, in order, the classes the per-row rules give, with the CAS test read from the first row |
| DocxToHtml.ClassifyRow | docx-to-html.js:111-151 | one row receives its stripe, its criticality in a CAS table, and its first cell's colour |
| DocxToHtml.ClassifyRowClasses | docx-to-html.js:115-150 | the classes a row receives are its stripe and, in a CAS table, the first criticality found in its second cell |
| DocxToHtml.ClassifyColor | docx-to-html.js:117-137 | the first cell gets `color-cell <colour>` exactly when its trimmed, lower-cased paragraph text is a colour name |
| DocxToHtml.ClassifyCrit | docx-to-html.js:140-149 | the criticality if-chain picks the first of warning, caution, advisory and notification found |
| DocxToHtml.RowStripe | docx-to-html.js:115 | every row, the header row included, is striped by the parity of its position, whether or not the table is a CAS table |
| DocxToHtml.CritOnlyInCasTable | docx-to-html.js:107-150 | a row gets a criticality class only in a CAS table, and there exactly when its second cell names one of the four levels; at most one is added; the header row is classified like any other |
| DocxToHtml.WarningWins | docx-to-html.js:141-149 | a second cell that mentions a warning makes the row a warning, whatever else it mentions |
| DocxToHtml.CritClassFirstRule | docx-to-html.js:140-149 | the criticality is that of the first keyword, in the order warning, caution, advisory, notification |
| DocxToHtml.ColorClassSpec | docx-to-html.js:124-137 | a first cell is coloured exactly when its text is one of the eight colour names, and then with that name |
| DocxToHtml.Hex | docx-to-html.js:42-45 | the upper-case hex rendering has two characters per byte |
| DocxToHtml.HexInjective | docx-to-html.js:42-45 | different byte strings have different hex renderings |
| DocxToHtml.PngSignatureHex | docx-to-html.js:41 | the signature text is the hex of the eight PNG signature bytes of section 3.1 of RFC 2083 |
| DocxToHtml.IsPngSpec | docx-to-html.js:41-47 | an image counts as PNG exactly when it starts with the PNG signature; a shorter buffer never does |
| DocxToHtml.ConvertImageAttributes | docx-to-html.js:36-79 | whatever the bytes and whatever the conversion does, the element points at the PNG name made from the clock and has the class `zoomable-image`; the image is saved as PNG directly exactly when it starts with the signature |
| EnvGenerate.CloseIndex | server/scripts/env/generate.js:14 | the lazy repetition stops at the first comment closer: there is no closer before it, and none at all when it finds none |
| EnvGenerate.StripBlockKeeps | server/scripts/env/generate.js:14 | text in which nothing opens a block comment passes the first pass unchanged |
| EnvGenerate.BlockCommentGone | server/scripts/env/generate.js:14 | a closed block comment with no earlier closer inside disappears, and what follows is cleaned on its own |
| EnvGenerate.LineEnd | server/scripts/env/generate.js:16 | a line comment runs to the first line terminator, or to the end of the text |
| EnvGenerate.StripLineKeeps | server/scripts/env/generate.js:16 | text in which nothing opens a line comment passes the second pass unchanged |
| EnvGenerate.LineCommentGone | server/scripts/env/generate.js:16 | a line comment is removed up to its line terminator, which stays |
| EnvGenerate.NoLineCommentLeft | server/scripts/env/generate.js:16 | what the second pass leaves contains no two slashes in a row |
| EnvGenerate.LiteralEnd | server/scripts/env/generate.js:18 | a quoted literal ends with its own quote character |
| EnvGenerate.StripStringsKeeps | server/scripts/env/generate.js:18 | text without quotes passes the third pass unchanged |
| EnvGenerate.LiteralThrough | server/scripts/env/generate.js:18 | a literal body of plain characters ends at the first matching quote |
| EnvGenerate.StringLiteralGone | server/scripts/env/generate.js:18 | a closed literal with a plain body disappears, and what follows is cleaned on its own |
| EnvGenerate.NameRun | server/scripts/env/generate.js:20 | the captured name is the longest run of `[A-Z0-9_]` after the prefix |
| EnvGenerate.MatchesFrom | server/scripts/env/generate.js:20-21 | every reported name is a non-empty string over `[A-Z0-9_]` |
| EnvGenerate.NoOverlap | server/scripts/env/generate.js:20 | two matches never overlap: nothing inside a match starts another |
| EnvGenerate.MatchesSpec | server/scripts/env/generate.js:20-21 | the names found from a position on are exactly the captures of the matches starting there: none is skipped and nothing else is reported |
| EnvGenerate.FindEnvVars | server/scripts/env/generate.js:11-22 | every name a file reports is a name over `[A-Z0-9_]` |
| EnvGenerate.BlockCommentIgnored | server/scripts/env/generate.js:14-21 | deleting a block comment does not change what is reported, when no slash before it opens another comment and nothing inside closes it early |
| EnvGenerate.LineCommentIgnored | server/scripts/env/generate.js:16-21 | deleting a line comment, up to its line terminator, does not change what is reported |
| EnvGenerate.StringLiteralIgnored | server/scripts/env/generate.js:18-21 | deleting a closed literal with a plain body does not change what is reported |
| EnvGenerate.SlashesInLiteralEndTheLine | server/scripts/env/generate.js:16-18 | line comments are stripped before literals, so `//` inside a literal removes the rest of that line, the closing quote and any name after it included |
| EnvGenerate.LessIrreflexive | server/scripts/env/generate.js:48 | the default string order is irreflexive |
| EnvGenerate.LessTransitive | server/scripts/env/generate.js:48 | the default string order is transitive |
| EnvGenerate.LessTotal | server/scripts/env/generate.js:48 | any two different strings are ordered one way or the other |
| EnvGenerate.Insert | server/scripts/env/generate.js:48 | one insertion keeps the list strictly ascending and adds exactly the one name |
| EnvGenerate.Sort | server/scripts/env/generate.js:48 | sorting distinct names gives a strictly ascending permutation of them |
| EnvGenerate.SortedUnique | server/scripts/env/generate.js:48 | a strictly ascending list is determined by its elements, so the output depends only on the set of names |
| EnvGenerate.Lines | server/scripts/env/generate.js:51 | each name gives the line `  "NAME",` |
| EnvGenerate.RenderEmpty | server/scripts/env/generate.js:50-52 | with no names the file is the fixed opening followed by the fixed closing, leaving one blank line inside the brackets |
| EnvGenerate.MiddleOfRender | server/scripts/env/generate.js:50-52 | between the fixed opening and closing the file holds the lines joined by newlines |
| EnvGenerate.RenderLines | server/scripts/env/generate.js:50-52 | each name gets a line of its own, in the order given |
| EnvGenerate.RenderInjective | server/scripts/env/generate.js:50-52 | different name lists give different files, so the file can be read back |
| EnvGenerate.AddAll | server/scripts/env/generate.js:42 | adding to the set keeps it free of repetitions and in insertion order, and its members are the old ones and the new names |
| EnvGenerate.CollectEnvVars | server/scripts/env/generate.js:37-46 | the names collected are exactly those some readable file reports, each once; an unreadable file is skipped |
| EnvGenerate.GenerateRequiredEnvVars | server/scripts/env/generate.js:24-56 | the names are strictly ascending, exactly those some readable file reports, and the text written is their rendering |
| ServerStore.SqlId | server/db/index.js:20 | a text parameter selects a row id exactly when it is a non-empty string of decimal digits |
| ServerStore.SqlIdParseInt | server/db/index.js:20 | a text the database reads as an id is read as the same number by `parseInt` |
| ServerStore.SqlIdNatToString | server/db/index.js:20 | an id written into a URL in decimal selects that id |
| ServerStore.ParseIntStopsAtNonDigit | server/db/index.js:20 | a digit text followed by other text reads as the digits for `parseInt` but as no id for the database (the `0x` prefix aside) |
| ServerStore.UserById | server/db/index.js:20 | the row found has that id; none is found exactly when no row has it |
| ServerStore.UserByName | server/db/index.js:19 | the row found has that name; none is found exactly when no row has it |
| ServerStore.DocumentById | server/db/index.js:32 | the document found has that id; none is found exactly when no document has it |
| ServerStore.UserDocumentsMembers | server/db/index.js:37-39 | a document is listed for a user exactly when it exists and is assigned to them |
| ServerStore.Summaries | server/db/index.js:21-23 | the user list has one summary per row, in order, with id, name and admin flag and without the password hash |
| ServerStore.WithoutUserMembers | server/db/index.js:27 | deleting a user keeps every other row and drops every row with that id |
| ServerStore.WithoutDocumentMembers | server/db/index.js:36 | deleting a document keeps every other document and drops the one with that id |
| ServerStore.WithPasswordSpec | server/db/index.js:28-30 | a password update touches only the hash, and only on the row with that id |
| ServerStore.ClearedFor | server/db/index.js:49-51 | clearing a user's documents drops exactly that user's pairs |
| ServerStore.FilterKeyed | server/db/index.js:27-36 | deleting rows keeps a table's ids strictly increasing |
| ServerStore.AppendKeyed | server/db/index.js:24-35 | appending a row under the next id keeps a table's ids strictly increasing |
| ServerStore.NextIdFresh | server/db/index.js:24-26 | no user has the next id yet |
| ServerStore.Database.constructor | server/db/index.js:11-16 | the database starts empty, with its id invariant |
| ServerStore.Database.CreateUser | server/db/index.js:24-26 | a new row under a fresh id, which is returned; nothing else changes |
| ServerStore.Database.DeleteUser | server/db/index.js:27 | exactly the rows with that id leave the users; nothing else changes |
| ServerStore.Database.UpdateUserPassword | server/db/index.js:28-30 | only that user's hash changes |
| ServerStore.Database.CreateDocument | server/db/index.js:33-35 | a new document under a fresh id, which is returned; nothing else changes |
| ServerStore.Database.DeleteDocument | server/db/index.js:36 | exactly the document with that id leaves; nothing else changes |
| ServerStore.Database.ClearUserDocuments | server/db/index.js:49-51 | exactly that user's pairs leave; nothing else changes |
| ServerStore.Database.AssignDocumentToUser | server/db/index.js:40-42 | the pair is present afterwards, stored once however often it is inserted; nothing else changes |
| ServerStore.Database.RemoveDocumentFromUser | server/db/index.js:43-45 | exactly that pair leaves; nothing else changes |
| AuthMiddleware.AuthenticateTokenSpec | server/app/middleware/auth.js:5-19 | a missing or empty `auth_token` cookie is a 401, a token that fails to verify is a 403, and the request goes on exactly when the token verifies, with `req.user` the decoded identity |
| AuthMiddleware.OtherCookiesIgnored | server/app/middleware/auth.js:6 | only the `auth_token` cookie decides; setting any other cookie changes nothing |
| AuthMiddleware.RequireAdminSpec | server/app/middleware/auth.js:21-26 | the request goes on, with the same identity, exactly when there is one and it is an admin; otherwise the 403 "Admin access required" |
| AuthMiddleware.AdminGateSpec | server/app/routes/admin.js:15 | an admin route is reached exactly when the token verifies as an admin, and a failed authentication answers before the admin check |
| AuthMiddleware.TokenForSpec | server/app/middleware/auth.js:28-38 | the token carries the user's id and name, an admin flag that holds exactly when `is_admin` is 1, and expires in 24h |
| AuthMiddleware.IssuedTokenAuthenticates | server/app/middleware/auth.js:5-38 | a token issued for a user and sent back in the session cookie authenticates as that user |
| AuthRoutes.LoginValidatesFirst | server/app/routes/auth.js:20-24 | a missing or empty name or password is the 400, and the users table makes no difference |
| AuthRoutes.LoginRefusal | server/app/routes/auth.js:26-38 | a login is refused with 401 exactly when no user has the name or the password does not match, and both refusals are the same reply |
| AuthRoutes.LoginSuccess | server/app/routes/auth.js:40-58 | a good login answers the user's id, name and `is_admin === 1`, and sets an http-only, strict same-site cookie holding the signed token for one day, secure exactly in production |
| AuthRoutes.Logout | server/app/routes/auth.js:65-68 | logging out always succeeds and clears the `auth_token` cookie |
| AuthRoutes.CheckSpec | server/app/routes/auth.js:70-79 | `/check` answers 200 exactly for a verified token, echoing its identity, and otherwise the middleware's 401 or 403 |
| AuthRoutes.LoginCookieIgnored | server/app/routes/auth.js:42 | as written, a login does not change whether the browser is authenticated, since its cookie is not the one the middleware reads |
| AuthRoutes.LogoutKeepsLoginCookie | server/app/routes/auth.js:66 | as written, logging out after a login leaves the login's token in the browser |
| AuthRoutes.LoginAuthenticates | server/app/routes/auth.js:18-63 | with the session cookie's name, a successful login authenticates the browser as that user, and `/check` reports them |
| AuthRoutes.LogoutEndsSession | server/app/routes/auth.js:65-68 | with the session cookie's name, logging out after a login leaves the browser unauthenticated (401) |
| AdminRoutes.AdminFlag | server/app/routes/admin.js:57 | the stored flag is 1 exactly when `isAdmin` is truthy, and 0 otherwise |
| AdminRoutes.CreateUser | server/app/routes/admin.js:55-92 | a missing name or password and a taken name are 400s that change nothing; otherwise 201 and exactly one row added under a fresh id with the hash and flag; unique names stay unique |
| AdminRoutes.DeleteUser | server/app/routes/admin.js:94-115 | the caller's own id as `parseInt` reads it is a 400, an unknown id a 404, both changing nothing; otherwise exactly that user's row goes; the caller's own row always survives |
| AdminRoutes.UpdatePassword | server/app/routes/admin.js:117-141 | a missing password is a 400 and an unknown id a 404, both changing nothing; otherwise only that user's hash changes |
| AdminRoutes.ListUsers | server/app/routes/admin.js:45-53 | 200 with one summary per user, in table order, without the password hash |
| AdminRoutes.ListDocuments | server/app/routes/admin.js:143-151 | 200 with every document row, in table order |
| AdminRoutes.ListDocumentsById | server/app/routes/admin.js:143-151 | an id is listed exactly when the lookup by id finds a document, and the row found is a listed one |
| AdminRoutes.AcceptedFileType | server/app/routes/admin.js:31-43 | every file the upload filter accepts is recorded as `html` or `docx` |
| AdminRoutes.AcceptedName | server/app/routes/admin.js:34-43 | the filter looks only at the last extension, ignoring case: `name.suffix` is accepted exactly when the lowercased suffix is `html` or `docx`, and then that is its type |
| AdminRoutes.DottedAllowed | server/app/routes/admin.js:35 | a dot followed by a text is an allowed extension exactly when the text is `html` or `docx` |
| AdminRoutes.HiddenFileRefused | server/app/routes/admin.js:34-43 | a hidden file such as `.docx` has no extension and is refused |
| AdminRoutes.UploadDocument | server/app/routes/admin.js:31-189 | a refused file is a 500 rendered by Express's default error handler as an HTML page, not a JSON body, and no file is a 400, both changing nothing; otherwise 201 and one row under a fresh id: stored name the unique suffix plus the extension, its path under `/uploads/documents/`, its type, and the display name or else the original name |
| AdminRoutes.DeleteDocument | server/app/routes/admin.js:191-213 | an unknown id is a 404 that changes nothing; otherwise exactly that document's row goes |
| AdminRoutes.ListUserDocumentsSpec | server/app/routes/admin.js:215-230 | an existing user gets 200 with exactly the existing documents assigned to them; any other id is the 404 |
| AdminRoutes.AssignDocuments | server/app/routes/admin.js:232-264 | a non-array `documentIds` is a 400 and an unknown user a 404, both changing nothing; otherwise the user's documents become exactly the listed ids and every other user's pairs stay |
| AdminRoutes.AssignEach | server/app/routes/admin.js:248-250 | the loop adds exactly one pair per listed id, and nothing else changes |
| AdminRoutes.PairsSnoc | server/app/routes/admin.js:248-250 | one more id adds exactly its pair |
| AdminRoutes.PairsAfterClear | server/app/routes/admin.js:246-250 | clearing a user's pairs and then adding the listed ones leaves that user exactly the listed documents and every other user as before |
| AdminRoutes.RemoveAssignment | server/app/routes/admin.js:266-280 | the answer is always success; the pair is gone when both ids are digit texts, and nothing else changes |
| AdminRoutes.GeneratedLengths | server/app/routes/admin.js:282-301 | with a generator true to the length asked, a username has 16 characters and a password the decimal `length` query, or 16 when that is missing, not a number or 0 |
| DocumentRoutes.ListOwnSpec | server/app/routes/documents.js:10-24 | the caller is listed exactly the existing documents assigned to them |
| DocumentRoutes.HasAccessSpec | server/app/routes/documents.js:31-32 | access means some existing document assigned to the caller has the id `parseInt` reads from the path |
| DocumentRoutes.AccessBeforeExistence | server/app/routes/documents.js:34-45 | an id that names none of the caller's documents is the 403, whether or not such a document exists |
| DocumentRoutes.GetDocumentAnswer | server/app/routes/documents.js:26-56 | the answer is 200, 403 or 404, and a 200 document is one assigned to the caller and named by the id |
| DocumentRoutes.DigitIdNever404 | server/app/routes/documents.js:31-45 | for an id of plain digits the 404 cannot happen, and 200 comes exactly when the document exists and is assigned to the caller |
| DocumentRoutes.TrailingTextIs404 | server/app/routes/documents.js:32-44 | `5abc` passes the access check for document 5 but finds no row, so it is a 404 |
| NodePath.ExtName | server/app/routes/admin.js:36 | an extension is empty or a dot followed by text with no dot or slash |
| NodePath.ExtNameOf | server/app/routes/admin.js:27 | a name made of a stem, a dot and a dot-free suffix has that dot and suffix as extension |
| NodePath.HiddenFileHasNoExt | server/app/routes/admin.js:36 | a dot followed by dot-free text has no extension |
| ProtectedRoute.GuardSpec | client/src/components/ProtectedRoute/ProtectedRoute.jsx:4-33 | the page is shown exactly when the session has loaded, someone is signed in, and the user is an admin wherever one is required |
| ProtectedRoute.AdminFlagIrrelevant | client/src/components/ProtectedRoute/ProtectedRoute.jsx:28-32 | on a page that does not require an admin, the admin flag makes no difference |
| ProtectedRoute.AdminPageStricter | client/src/components/ProtectedRoute/ProtectedRoute.jsx:24-32 | an admin page lets through only visitors a plain page lets through, and differs from it only by the redirect to `/` |
| UserManagement.ToggleSpec | client/src/components/Admin/UserManagement.jsx:170-176 | a toggle flips the flag of exactly the entries with that id and keeps every document as it was |
| UserManagement.ToggleTwice | client/src/components/Admin/UserManagement.jsx:170-176 | ticking the same box twice leaves the checklist as it was |
| UserManagement.Ids | client/src/components/Admin/UserManagement.jsx:133 | the id list has one id per answered document, in order |
| UserManagement.MarkAssignedSpec | client/src/components/Admin/UserManagement.jsx:133-136 | opening the modal ticks each entry exactly when its id is among the user's, and keeps the documents |
| UserManagement.CheckedIdsMembers | client/src/components/Admin/UserManagement.jsx:145 | the ids sent are exactly those of the ticked entries |
| UserManagement.CheckedIdsAppend | client/src/components/Admin/UserManagement.jsx:145 | the ids are sent in checklist order |
| UserManagement.UnchangedSave | client/src/components/Admin/UserManagement.jsx:133-145 | opening the modal and saving without a change sends exactly the user's ids that are in the checklist |
| UserManagement.UserPanel.constructor | client/src/components/Admin/UserManagement.jsx:7-19 | the panel starts with no users or documents, the empty form, both modals closed, nobody selected and no error |
| UserManagement.UserPanel.ToggleDocument | client/src/components/Admin/UserManagement.jsx:170-176 | a toggle changes the checklist and nothing else of the panel |
| UserManagement.UserPanel.OpenAssignModal | client/src/components/Admin/UserManagement.jsx:124-142 | the user is selected; with an answer the checklist is marked by the user's ids and the modal opens, and without one nothing else changes |
| UserManagement.UserPanel.HandleAssignDocuments | client/src/components/Admin/UserManagement.jsx:144-168 | on success the selected user's stored documents are exactly the ticked ones and the modal closes with nobody selected; on failure the modal stays |
| UserManagement.UserPanel.GenerateUsername | client/src/components/Admin/UserManagement.jsx:52-62 | the generated name replaces the name field and nothing else |
| UserManagement.UserPanel.GeneratePassword | client/src/components/Admin/UserManagement.jsx:64-74 | the generated password replaces the password field and nothing else |
| UserManagement.UserPanel.HandleCreateUser | client/src/components/Admin/UserManagement.jsx:76-101 | on success the modal closes, the form is cleared and the reloaded list ends with the new user; otherwise the database and the form are kept and the server's error, or "Failed to create user", is shown; an empty field is always refused |
| UserManagement.UserPanel.ShowCreated | client/src/components/Admin/UserManagement.jsx:90-96 | a success closes the modal, clears the form and reloads the list; a failure shows the error and keeps everything else |

## Left out

- Markup is a tree of element and text nodes. `DOMParser`, `outerHTML`, `innerHTML` and `textContent` are identities on it, so nothing about HTML syntax, entities or serialisation is modelled.
- The element identity of the DOM is not modelled: `setAttribute` and `replaceWith` produce new values rather than changing shared nodes.
- `toLowerCase` changes only ASCII letters, and `\s` and `\b` are read over ASCII. Unicode case mapping and spaces are left out.
- Strings are sequences of characters, and sorting orders by character code. UTF-16 code units and surrogate pairs are not distinguished.
- The regular-expression engine is modelled only for the patterns the code builds: the alternation of escaped query words between `\b`, and the `process.env` pattern and comment and string passes of the environment script.
- Fetches, timers, scrolling and the history API are events of the model. Overlapping fetches, cancelled requests and the order in which React runs effects are not modelled.
- Heading positions are integers. Pixel values are floats in the browser.
- The sidebar's scroll-into-view effect (client/src/components/Sidebar/Sidebar.jsx:19-45) is layout arithmetic on floats. The sidebar's title, its open and close toggles and its overlay only render.
- Nested tables in a DOCX conversion are not modelled: a table's rows are its own rows.
- mammoth, sharp, `soffice` and every file write of the DOCX conversion are I/O. The image converter's outcome is a parameter.
- The environment script's `glob` call and file reads are I/O: each file's content is given, or `None` when it cannot be read.
- bcrypt and `jsonwebtoken` are function parameters. Token expiry is in the verifier and is not modelled.
- Randomness in the generators is a function parameter.
- The whole `AdminRoutes` model assumes that the import at server/app/routes/admin.js:9 resolves. server/utils/generators.js exports `generatePassword` and `generateUsername` but no `generateString`. admin.js is an ES module, so as written that named import is a link-time error, admin.js never evaluates, and no admin route is ever mounted. The model describes the routes as they would run with the import resolved. `generateString` is an abstract generator of the requested length.
- `GeneratedLengths`: a negative `length` query reaches the generator as a negative number, and what the generator then does is not modelled.
- Logging is left out everywhere.
- The login rate limiter (server/app/routes/auth.js:10-16) is middleware whose state is a clock, so it is not modelled.
- Thrown exceptions and the 500 answers of the `catch` blocks are not modelled. The exception is the upload filter's error, which answers before the handler runs. Neither server/app/routes/admin.js nor server/app/index.js installs error middleware, and server/app/app.js, which mounts the routers, is not part of this model. That error is therefore taken to reach Express's default handler, whose HTML page is the `ErrorPage` body.
- The upload size limit (server/app/routes/admin.js:33) and the storage directory setup are multer configuration. The unlink of a deleted document's file is a filesystem effect.
- An uploaded file's original name is taken to hold no `/`.
- Production mode (the cookie's `secure` flag) is a parameter.
- server/db/schema.sql is not part of this model. Timestamp columns are not modelled: the `created_at` that `getAllUsers` selects (server/db/index.js:21-23) is absent from `UserSummary`, because it is filled by the database clock. Ids are taken to come from an `AUTOINCREMENT` counter. `user_documents` is taken to declare no foreign keys, so the `foreign_keys = ON` pragma (server/db/index.js:13) has no effect: no delete cascades to the pairs and no insert or delete is refused. The members named on the next lines depend on this. The uniqueness of user names is an invariant the routes keep, not a database constraint.
- ServerStore.Database.DeleteUser: keeps every pair of the deleted user. An `ON DELETE CASCADE` would drop them, and a plain foreign key would refuse the delete.
- ServerStore.Database.DeleteDocument: keeps every pair of the deleted document, for the same reason.
- ServerStore.Database.AssignDocumentToUser: adds the pair for any two ids, including ids with no row.
- AdminRoutes.DeleteUser: answers 200 with the user's pairs kept, where a foreign key would cascade or turn the delete into a 500.
- AdminRoutes.DeleteDocument: answers 200 with the document's pairs kept, for the same reason.
- AdminRoutes.AssignDocuments: stores every listed id. A foreign key would make an unknown document id throw after `clearUserDocuments` had already run, which answers 500 and leaves the user with only the pairs added before it.
- AdminRoutes.AssignEach: adds one pair per id, and no insertion is refused.
- `getDocumentUsers` (server/db/index.js:46-48) is not used by any route, so it is not modelled.
- A route's `:id` reaches SQLite as text. `SqlId` reads only texts of plain digits as ids. SQLite's other conversions of text to integers are not modelled.
- Request bodies are modelled only as far as the routes read them: text fields are absent or strings, and `documentIds` is absent (not an array) or a list of natural numbers.
- `EnvGenerate.RenderEmpty` states only the text written for an empty list.
- The admin panel's fetches are direct calls of the route handlers. The panel's own authentication is not modelled.
- `handleDeleteUser`, the confirm dialog and the table rendering of the admin panel only call a route and render.
- The `formData` closure of `generateUsername` and `generatePassword` is the current form: a second click before the first answer arrives is not modelled.
- The login, document selector, header and image zoom components only render. So do the page shells and the server's boot files.

## Findings

| source | as written | input that shows it | evidently intended | confidence | as-written member | corrected member |
|---|---|---|---|---|---|---|
| client/src/hooks/useDocumentParser.js:34-35 | the list is detached first, and then its previous sibling is read, which is now null | a document whose body has a paragraph "Contents" followed by a `ul` | remove the "Contents" heading and the list, then parse the rest | not executed | DocumentLoader.RemoveTocAsWritten (shown by DocumentLoader.TocRemovalThrows, used by DocumentLoader.Loader.Load, whose effect DocumentLoader.TocDocumentAsWritten runs) | DocumentLoader.RemoveToc (proved by DocumentLoader.RemoveTocSpec, used by DocumentLoader.Loader.LoadCorrected) |
| client/src/hooks/useScrollSync.js:8-11 | the navigating flag is set before the element is looked up, and only an existing element schedules the timer that clears it | `scrollToHeading("nowhere")` with no element of that id, then a scroll event | a missing target leaves the flag clear, so scrolling keeps following the headings | not executed | ScrollSync.ScrollState.ScrollToHeadingAsWritten (shown by ScrollSync.MissingTargetAsWritten, used by ScrollSync.ScrollState.FireTimer, whose stale-fragment run is ScrollSync.StaleFragmentAsWritten) | ScrollSync.ScrollState.ScrollToHeading (shown by ScrollSync.MissingTargetCorrected, used by ScrollSync.ScrollState.FireTimerCorrected) |
| server/app/routes/auth.js:42 | login sets a cookie named `auth-token`, but the middleware reads `auth_token` (server/app/middleware/auth.js:6) and logout clears `auth_token` (server/app/routes/auth.js:66) | a good login followed by `GET /check` | the session cookie is `auth_token` everywhere | not executed | AuthRoutes.LoginAsWritten (shown by AuthRoutes.LoginCookieIgnored and AuthRoutes.LogoutKeepsLoginCookie) | AuthRoutes.Login (proved by AuthRoutes.LoginAuthenticates and AuthRoutes.LogoutEndsSession) |
