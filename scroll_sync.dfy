/**
  The scroll synchroniser: it scrolls to a heading on request, keeps `activeId` on the
  heading nearest above a detection line while the reader scrolls, and restores a
  fragment deep link after the document is (re)rendered. The browser is replaced by
  explicit inputs and events: the element positions the page reports, the timers that
  are pending, and the calls made to `window.scrollTo`.
*/
module ScrollSync {
  import opened Wrappers

  /** Headings at or above this viewport position count as read. */
  const DetectionLine: int := 150
  /** The space kept above a heading scrolled to. */
  const ScrollOffset: int := 120
  const SmoothDelay: nat := 800
  const InstantDelay: nat := 100
  /** The delay before a fragment from the URL is scrolled to. */
  const RestoreDelay: nat := 100

  /** An `h1` or `h2` of the content with the top of its bounding box, in whole pixels. */
  datatype Header = Header(id: string, top: int)

  function Abs(x: int): nat { if x < 0 then -x else x }

  /**
    The header the scroll handler's loop has chosen after the headers `hs`: a header
    at or above the line replaces the choice only when it is strictly closer.
  */
  function ClosestIn(hs: seq<Header>): (r: Option<nat>)
    ensures r.Some? ==> r.value < |hs| && hs[r.value].top <= DetectionLine
    decreases |hs|
  {
    if hs == [] then None
    else
      var prev := ClosestIn(hs[..|hs| - 1]);
      var h := hs[|hs| - 1];
      if h.top <= DetectionLine
        && (prev.None? || Abs(h.top - DetectionLine) < Abs(hs[prev.value].top - DetectionLine))
      then Some(|hs| - 1)
      else prev
  }

  /**
    Header `i` is the lowest header at or above the line, and the first of those
    at that height.
  */
  predicate IsClosest(hs: seq<Header>, i: nat)
  {
    i < |hs| && hs[i].top <= DetectionLine
    && (forall j :: 0 <= j < |hs| && hs[j].top <= DetectionLine ==> hs[j].top <= hs[i].top)
    && (forall j :: 0 <= j < i && hs[j].top <= DetectionLine ==> hs[j].top < hs[i].top)
  }

  /** Minimising the distance to the line picks the lowest header above it, the first on a tie. */
  lemma {:induction false} ClosestSpec(hs: seq<Header>)
    ensures ClosestIn(hs).None? <==> forall j :: 0 <= j < |hs| ==> hs[j].top > DetectionLine
    ensures ClosestIn(hs).Some? ==> IsClosest(hs, ClosestIn(hs).value)
    decreases |hs|
  {
    if hs != [] {
      var init := hs[..|hs| - 1];
      ClosestSpec(init);
      assert forall j :: 0 <= j < |init| ==> init[j] == hs[j];
    }
  }

  /** At most one header is the closest. */
  lemma ClosestUnique(hs: seq<Header>, i: nat, j: nat)
    requires IsClosest(hs, i) && IsClosest(hs, j)
    ensures i == j
  {
  }

  /** The loop of `handleScroll`; `closestDistance` is `None` while it is infinite. */
  method ClosestHeader(headers: seq<Header>) returns (closest: Option<nat>)
    ensures closest == ClosestIn(headers)
  {
    closest := None;
    var closestDistance: Option<nat> := None;
    for i := 0 to |headers|
      invariant closest == ClosestIn(headers[..i])
      invariant closest.None? <==> closestDistance.None?
      invariant closest.Some? ==> closestDistance.value == Abs(headers[closest.value].top - DetectionLine)
    {
      var header := headers[i];
      var distance := Abs(header.top - DetectionLine);
      assert headers[..i + 1][..i] == headers[..i];
      if header.top <= DetectionLine && (closestDistance.None? || distance < closestDistance.value) {
        closestDistance := Some(distance);
        closest := Some(i);
      }
    }
    assert headers[..|headers|] == headers;
  }

  /** `activeId` after the scroll handler has run. */
  function ActiveAfterScroll(activeId: Option<string>, navigating: bool, contentPresent: bool, headers: seq<Header>)
    : Option<string>
  {
    if !contentPresent || navigating then activeId
    else
      match ClosestIn(headers)
      case None => activeId
      case Some(i) => if Some(headers[i].id) != activeId then Some(headers[i].id) else activeId
  }

  /**
    The handler leaves `activeId` alone without content, while navigating, or when no
    header is at or above the line; otherwise it selects the closest header.
  */
  lemma ActiveAfterScrollSpec(activeId: Option<string>, navigating: bool, contentPresent: bool, headers: seq<Header>)
    ensures !contentPresent || navigating || (forall j :: 0 <= j < |headers| ==> headers[j].top > DetectionLine)
      ==> ActiveAfterScroll(activeId, navigating, contentPresent, headers) == activeId
    ensures contentPresent && !navigating && (exists j :: 0 <= j < |headers| && headers[j].top <= DetectionLine)
      ==> exists i: nat :: IsClosest(headers, i) && ActiveAfterScroll(activeId, navigating, contentPresent, headers) == Some(headers[i].id)
  {
    ClosestSpec(headers);
  }

  /** Running the handler again on the same layout, as its registration does, changes nothing. */
  lemma ActiveAfterScrollIdempotent(activeId: Option<string>, navigating: bool, contentPresent: bool, headers: seq<Header>)
    ensures var once := ActiveAfterScroll(activeId, navigating, contentPresent, headers);
      ActiveAfterScroll(once, navigating, contentPresent, headers) == once
  {
  }

  /** A request to `window.scrollTo`. */
  datatype Scroll = Scroll(top: int, smooth: bool)

  /** A pending `setTimeout` callback. */
  datatype Timer =
    | ClearNavigating(delay: nat)
    | RestoreFragment(id: string, delay: nat)

  /** The fragment of the URL without its `#`. */
  function Fragment(hash: string): string
  {
    if |hash| > 0 then hash[1..] else ""
  }

  class ScrollState {
    var activeId: Option<string>
    /** `isNavigatingRef.current` */
    var navigating: bool
    /** `window.location.hash` */
    var hash: string
    var scrolls: seq<Scroll>
    var timers: seq<Timer>

    constructor (hash0: string)
      ensures activeId == None && !navigating && hash == hash0 && scrolls == [] && timers == []
      ensures Live()
    {
      activeId := None;
      navigating := false;
      hash := hash0;
      scrolls := [];
      timers := [];
    }

    /** While the flag is set a timer is pending that will clear it. */
    predicate Live()
      reads this
    {
      navigating ==> exists k :: 0 <= k < |timers| && timers[k].ClearNavigating?
    }

    /** `scrollToHeading` as written: the flag is set before the element is looked up. */
    method ScrollToHeadingAsWritten(id: string, smooth: bool, positions: map<string, int>)
      modifies this
      ensures navigating && activeId == old(activeId)
      ensures id in positions ==> (scrolls == old(scrolls) + [Scroll(positions[id] - ScrollOffset, smooth)]
        && hash == "#" + id && timers == old(timers) + [ClearNavigating(if smooth then SmoothDelay else InstantDelay)])
      ensures id !in positions ==> scrolls == old(scrolls) && hash == old(hash) && timers == old(timers)
    {
      navigating := true;
      if id in positions {
        var elementPosition := positions[id];
        scrolls := scrolls + [Scroll(elementPosition - ScrollOffset, smooth)];
        hash := "#" + id;
        timers := timers + [ClearNavigating(if smooth then SmoothDelay else InstantDelay)];
      }
    }

    /**
      `scrollToHeading` with the flag set only once a scroll is started, so that a
      timer to clear it is always pending.
    */
    method ScrollToHeading(id: string, smooth: bool, positions: map<string, int>)
      modifies this
      ensures navigating == (old(navigating) || id in positions) && activeId == old(activeId)
      ensures id in positions ==> (scrolls == old(scrolls) + [Scroll(positions[id] - ScrollOffset, smooth)]
        && hash == "#" + id && timers == old(timers) + [ClearNavigating(if smooth then SmoothDelay else InstantDelay)])
      ensures id !in positions ==> scrolls == old(scrolls) && hash == old(hash) && timers == old(timers)
      ensures old(Live()) ==> Live()
    {
      if id in positions {
        navigating := true;
        var elementPosition := positions[id];
        scrolls := scrolls + [Scroll(elementPosition - ScrollOffset, smooth)];
        hash := "#" + id;
        timers := timers + [ClearNavigating(if smooth then SmoothDelay else InstantDelay)];
        assert timers[|timers| - 1].ClearNavigating?;
      }
    }

    /** `handleScroll`, on a scroll event or when it is registered. */
    method HandleScroll(contentPresent: bool, headers: seq<Header>)
      modifies this
      ensures activeId == ActiveAfterScroll(old(activeId), old(navigating), contentPresent, headers)
      ensures navigating == old(navigating) && hash == old(hash) && scrolls == old(scrolls) && timers == old(timers)
    {
      if !contentPresent || navigating {
        return;
      }
      var closest := ClosestHeader(headers);
      if closest.Some? && Some(headers[closest.value].id) != activeId {
        activeId := Some(headers[closest.value].id);
      }
    }

    /** The effect run when the highlighted HTML changes: a fragment in the URL is scrolled to later. */
    method HighlightedHtmlChanged()
      modifies this
      ensures Fragment(hash) != "" ==> timers == old(timers) + [RestoreFragment(Fragment(hash), RestoreDelay)]
      ensures Fragment(hash) == "" ==> timers == old(timers)
      ensures activeId == old(activeId) && navigating == old(navigating) && hash == old(hash) && scrolls == old(scrolls)
      ensures old(Live()) ==> Live()
    {
      var fragment := Fragment(hash);
      if fragment != "" {
        ghost var before := timers;
        timers := timers + [RestoreFragment(fragment, RestoreDelay)];
        assert forall j :: 0 <= j < |before| ==> timers[j] == before[j];
      }
    }

    /**
      Timer `k` fires and is no longer pending. A restoring timer runs
      `scrollToHeading(id, false)` as written, so it sets the flag even when the
      fragment names no element, and only a found element leaves a timer that
      will clear it.
    */
    method FireTimer(k: nat, positions: map<string, int>)
      requires k < |timers|
      modifies this
      ensures old(timers[k]).ClearNavigating? ==> (var rest := old(timers[..k] + timers[k + 1..]);
        !navigating && timers == rest && activeId == old(activeId) && hash == old(hash) && scrolls == old(scrolls))
      ensures old(timers[k]).RestoreFragment? ==> (var id := old(timers[k]).id; var rest := old(timers[..k] + timers[k + 1..]);
        navigating && activeId == old(activeId)
        && (id in positions ==> (scrolls == old(scrolls) + [Scroll(positions[id] - ScrollOffset, false)]
          && hash == "#" + id && timers == rest + [ClearNavigating(InstantDelay)]))
        && (id !in positions ==> scrolls == old(scrolls) && hash == old(hash) && timers == rest))
      ensures old(timers[k]).RestoreFragment? && old(timers[k]).id in positions ==> Live()
      ensures old(timers[k]).ClearNavigating? ==> Live()
    {
      var timer := timers[k];
      timers := timers[..k] + timers[k + 1..];
      match timer
      case ClearNavigating(_) =>
        navigating := false;
      case RestoreFragment(id, _) =>
        ScrollToHeadingAsWritten(id, false, positions);
        if id in positions {
          assert timers[|timers| - 1].ClearNavigating?;
        }
    }

    /** Timer `k` fires with the corrected `scrollToHeading`: a pending timer always exists while the flag is set. */
    method FireTimerCorrected(k: nat, positions: map<string, int>)
      requires k < |timers|
      modifies this
      ensures old(timers[k]).ClearNavigating? ==> (var rest := old(timers[..k] + timers[k + 1..]);
        !navigating && timers == rest && activeId == old(activeId) && hash == old(hash) && scrolls == old(scrolls))
      ensures old(timers[k]).RestoreFragment? ==> (var id := old(timers[k]).id; var rest := old(timers[..k] + timers[k + 1..]);
        navigating == (old(navigating) || id in positions) && activeId == old(activeId)
        && (id in positions ==> (scrolls == old(scrolls) + [Scroll(positions[id] - ScrollOffset, false)]
          && hash == "#" + id && timers == rest + [ClearNavigating(InstantDelay)]))
        && (id !in positions ==> scrolls == old(scrolls) && hash == old(hash) && timers == rest))
      ensures old(Live()) ==> Live()
    {
      var timer := timers[k];
      ghost var before := timers;
      timers := timers[..k] + timers[k + 1..];
      if timer.RestoreFragment? {
        assert forall j :: 0 <= j < |before| && j != k ==>
          before[j] == timers[if j < k then j else j - 1];
      }
      match timer
      case ClearNavigating(_) =>
        navigating := false;
      case RestoreFragment(id, _) =>
        ScrollToHeading(id, false, positions);
    }
  }

  // ---------------------------------------------------------------- a target that is not there

  /**
    As written, scrolling to an id that is not in the page leaves the flag set with
    no timer to clear it, and the scroll handler then ignores the reader's scrolling.
  */
  method MissingTargetAsWritten() returns (navigating: bool, live: bool, activeId: Option<string>)
    ensures navigating && !live && activeId == None
  {
    var state := new ScrollState("");
    state.ScrollToHeadingAsWritten("missing", true, map[]);
    state.HandleScroll(true, [Header("section-0", 100)]);
    navigating, live, activeId := state.navigating, state.Live(), state.activeId;
  }

  /** With the corrected `scrollToHeading` the same scrolling selects the heading. */
  method MissingTargetCorrected() returns (navigating: bool, live: bool, activeId: Option<string>)
    ensures !navigating && live && activeId == Some("section-0")
  {
    var state := new ScrollState("");
    state.ScrollToHeading("missing", true, map[]);
    state.HandleScroll(true, [Header("section-0", 100)]);
    assert ClosestIn([Header("section-0", 100)]) == Some(0) by {
      assert [Header("section-0", 100)][..0] == [];
    }
    navigating, live, activeId := state.navigating, state.Live(), state.activeId;
  }

  /**
    As written, opening the page with a fragment that names no heading (a stale
    bookmark) sets the flag when the restoring timer fires, and the scroll handler
    then ignores the reader's scrolling.
  */
  method StaleFragmentAsWritten() returns (navigating: bool, live: bool, activeId: Option<string>)
    ensures navigating && !live && activeId == None
  {
    var state := new ScrollState("#stale");
    assert Fragment(state.hash) == "stale";
    state.HighlightedHtmlChanged();
    state.FireTimer(0, map[]);
    state.HandleScroll(true, [Header("section-0", 100)]);
    navigating, live, activeId := state.navigating, state.Live(), state.activeId;
  }
}
