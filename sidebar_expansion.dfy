/**
  Which sections the sidebar shows expanded: a map from section ids to flags, changed
  by the reader's clicks and opened automatically for the heading being read.
  A key that is absent reads as collapsed.
*/
module SidebarExpansion {
  import opened Wrappers
  import opened JsArray
  import opened DocumentParser

  /** Section `sec` has a subsection with the id `id` (`sec.subsections?.find`). */
  predicate Owns(sec: Section, id: string)
  {
    exists m :: 0 <= m < |sec.subsections| && sec.subsections[m].id == id
  }

  /** Section `k` is the first to own a subsection with the id `id`. */
  predicate FirstOwner(sections: seq<Section>, id: string, k: int)
  {
    0 <= k < |sections| && Owns(sections[k], id) && forall j :: 0 <= j < k ==> !Owns(sections[j], id)
  }

  /** The section whose id is `id`, if any (`sectionsData.find`). */
  function TopLevel(sections: seq<Section>, id: string): Option<nat>
  {
    FindIndex(sections, (sec: Section) => sec.id == id)
  }

  /** The first section owning a subsection with the id `id`. */
  function Owner(sections: seq<Section>, id: string): Option<nat>
  {
    FindIndex(sections, (sec: Section) => Owns(sec, id))
  }

  /** The map after the effect for `activeId`. */
  function ExpandFor(expanded: map<string, bool>, activeId: Option<string>, sections: seq<Section>): map<string, bool>
  {
    if activeId.None? || activeId.value == "" then expanded
    else
      match TopLevel(sections, activeId.value)
      case Some(k) => expanded[sections[k].id := true]
      case None =>
        match Owner(sections, activeId.value)
        case Some(k) => expanded[sections[k].id := true]
        case None => expanded
  }

  /**
    No active id, or one that names nothing, leaves the map alone; a section id opens
    that section; a subsection id opens the first section that owns it.
  */
  lemma ExpandForSpec(expanded: map<string, bool>, activeId: Option<string>, sections: seq<Section>)
    ensures activeId.None? || activeId == Some("") ==> ExpandFor(expanded, activeId, sections) == expanded
    ensures activeId.Some? && activeId.value != ""
      && (exists k :: 0 <= k < |sections| && sections[k].id == activeId.value)
      ==> ExpandFor(expanded, activeId, sections) == expanded[activeId.value := true]
    ensures activeId.Some? && activeId.value != ""
      && (forall k :: 0 <= k < |sections| ==> sections[k].id != activeId.value)
      ==> forall k :: FirstOwner(sections, activeId.value, k) ==> (
        ExpandFor(expanded, activeId, sections) == expanded[sections[k].id := true])
    ensures activeId.Some?
      && (forall k :: 0 <= k < |sections| ==> sections[k].id != activeId.value && !Owns(sections[k], activeId.value))
      ==> ExpandFor(expanded, activeId, sections) == expanded
  {
    if activeId.Some? && activeId.value != "" {
      var top := TopLevel(sections, activeId.value);
      var owner := Owner(sections, activeId.value);
      if top.None? && owner.Some? {
        forall k | FirstOwner(sections, activeId.value, k) ensures k == owner.value
        {
        }
      }
    }
  }

  /** `after` differs from `before` at most in one key, and only by a flag set to true. */
  predicate OnlyOpens(before: map<string, bool>, after: map<string, bool>)
  {
    before.Keys <= after.Keys && |after.Keys - before.Keys| <= 1
    && forall key :: key in after && (key !in before || after[key] != before[key]) ==> after[key]
  }

  /** The effect only ever opens sections: no flag that was set is cleared, and at most one key changes. */
  lemma ExpandForOnlyOpens(expanded: map<string, bool>, activeId: Option<string>, sections: seq<Section>)
    ensures OnlyOpens(expanded, ExpandFor(expanded, activeId, sections))
  {
    var r := ExpandFor(expanded, activeId, sections);
    var key := OpenedBy(activeId, sections);
    if key.Some? {
      assert r == expanded[key.value := true];
      OpenOnly(expanded, key.value);
    } else {
      assert r == expanded;
      assert expanded.Keys - expanded.Keys == {};
    }
  }

  /** The section id the effect opens, if any. */
  function OpenedBy(activeId: Option<string>, sections: seq<Section>): (r: Option<string>)
    ensures forall expanded: map<string, bool> ::
        ExpandFor(expanded, activeId, sections) == if r.Some? then expanded[r.value := true] else expanded
  {
    if activeId.None? || activeId.value == "" then None
    else
      match TopLevel(sections, activeId.value)
      case Some(k) => Some(sections[k].id)
      case None =>
        match Owner(sections, activeId.value)
        case Some(k) => Some(sections[k].id)
        case None => None
  }

  /** Setting one flag to true adds at most that key and clears nothing. */
  lemma OpenOnly(expanded: map<string, bool>, id: string)
    ensures OnlyOpens(expanded, expanded[id := true])
  {
    var r := expanded[id := true];
    assert r.Keys - expanded.Keys <= {id};
  }

  /** The `for … break` loop over the sections looking for the one owning the subsection. */
  method OwningSection(sectionsData: seq<Section>, id: string) returns (r: Option<nat>)
    ensures r == Owner(sectionsData, id)
  {
    r := None;
    var i := 0;
    while i < |sectionsData|
      invariant 0 <= i <= |sectionsData|
      invariant forall j :: 0 <= j < i ==> !Owns(sectionsData[j], id)
      decreases |sectionsData| - i
    {
      var sec := sectionsData[i];
      var sub := FindIndex(sec.subsections, (s: Subsection) => s.id == id);
      if sub.Some? {
        r := Some(i);
        break;
      }
      i := i + 1;
    }
  }

  class Expansion {
    /** `expandedSections` */
    var expanded: map<string, bool>

    constructor ()
      ensures expanded == map[]
    {
      expanded := map[];
    }

    /** `handleExpandSection`: exactly the entry `sectionId` becomes `expand`. */
    method HandleExpandSection(sectionId: string, expand: bool)
      modifies this
      ensures expanded == old(expanded)[sectionId := expand]
    {
      expanded := expanded[sectionId := expand];
    }

    /** The effect run when `activeId` or the sections change. */
    method ActiveIdChanged(activeId: Option<string>, sectionsData: seq<Section>)
      modifies this
      ensures expanded == ExpandFor(old(expanded), activeId, sectionsData)
    {
      if activeId.None? || activeId.value == "" {
        return;
      }
      var topLevel := FindIndex(sectionsData, (sec: Section) => sec.id == activeId.value);
      if topLevel.Some? {
        expanded := expanded[sectionsData[topLevel.value].id := true];
      } else {
        var owner := OwningSection(sectionsData, activeId.value);
        if owner.Some? {
          expanded := expanded[sectionsData[owner.value].id := true];
        }
      }
    }
  }
}
