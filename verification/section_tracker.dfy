/** The landing page header (`HeaderBar`): which section is active, whether
    the page has scrolled past the threshold that turns the header opaque,
    and where a menu selection scrolls to. Browser reads (scroll offset,
    location hash, an element's bounding box) arrive as parameters. */
module SectionTracker {
  import opened Maybe
  import opened Sections
  import opened JsText
  import opened AnimatedMenuBar

  /** Scroll offsets above this many pixels count as scrolled. Offsets and
      element positions are CSS pixels, which may be fractional. */
  const ScrollThreshold: real := 10.0

  /** The height left clear above a section scrolled into view, in pixels. */
  const HeaderOffset: real := 96.0

  datatype HeaderState = HeaderState(active: Section, scrolled: bool)

  /** `setFromHash`: drop the first `#` of the fragment, then "about" and
      "contact" name their sections and anything else, "home" and the empty
      fragment included, falls back to home. */
  function FromHash(hash: string): (r: Section)
    ensures r == Parse(RemoveFirst(hash, '#')).GetOr(Home)
    ensures r != Home ==> Name(r) == RemoveFirst(hash, '#')
  {
    var name := RemoveFirst(hash, '#');
    if name == "about" then About
    else if name == "contact" then Contact
    else Home
  }

  /** A fragment written as `#` followed by a section's name selects that
      section. */
  lemma HashRoundTrip(s: Section)
    ensures FromHash("#" + Name(s)) == s
  {
  }

  /** So does the bare name, which holds no `#`. */
  lemma BareNameSelects(s: Section)
    ensures FromHash(Name(s)) == s
  {
  }

  /** Only the first `#` is dropped, so a doubled one is not a section. */
  lemma OnlyFirstHashStripped()
    ensures FromHash("##about") == Home
    ensures FromHash("") == Home
  {
  }

  /** The first render: `handleScroll` then `setFromHash` run on mount. */
  function Mount(scrollY: real, hash: string): (r: HeaderState)
    ensures r.scrolled <==> scrollY > ScrollThreshold
    ensures r.active == FromHash(hash)
  {
    HeaderState(FromHash(hash), scrollY > ScrollThreshold)
  }

  /** `handleScroll`: only the scrolled flag follows the offset. */
  function OnScroll(h: HeaderState, scrollY: real): (r: HeaderState)
    ensures r.active == h.active
    ensures r.scrolled <==> scrollY > ScrollThreshold
  {
    h.(scrolled := scrollY > ScrollThreshold)
  }

  /** A fraction of a pixel past the threshold already counts: 10.5 px is
      scrolled, exactly 10 px is not. */
  lemma FractionalScrollCounts(h: HeaderState)
    ensures OnScroll(h, 10.5).scrolled
    ensures !OnScroll(h, 10.0).scrolled
  {
  }

  /** `hashchange`: the active section follows the new fragment. */
  function OnHashChange(h: HeaderState, hash: string): (r: HeaderState)
    ensures r.scrolled == h.scrolled
    ensures r.active == FromHash(hash)
  {
    h.(active := FromHash(hash))
  }

  /** Whether a `nav-select` event's `detail` passes the `if (detail)` test:
      present and not the empty string. */
  predicate Truthy(detail: Option<string>) {
    detail.Some? && detail.value != ""
  }

  /** `handleNavSelect`: a truthy detail becomes the active section; an
      absent one changes nothing. The detail is cast without a check, so
      dispatchers must send a section name. */
  function OnNavSelect(h: HeaderState, detail: Option<string>): (r: HeaderState)
    requires Truthy(detail) ==> Parse(detail.value).Some?
    ensures Truthy(detail) ==> Name(r.active) == detail.value && r.scrolled == h.scrolled
    ensures !Truthy(detail) ==> r == h
  {
    if Truthy(detail) then h.(active := Parse(detail.value).value) else h
  }

  /** A selection event carrying a section's name sets exactly that section,
      whatever was active before. */
  lemma NavSelectSetsSection(h: HeaderState, s: Section)
    ensures OnNavSelect(h, Some(Name(s))).active == s
  {
  }

  /** What `handleSelect` does: the new header state and the offset
      `window.scrollTo` is called with, if it is called. */
  datatype SelectOutcome = SelectOutcome(state: HeaderState, scrollTo: Option<real>)

  /** `handleSelect(item)`: activate the item; home scrolls to the top, any
      other section scrolls so that its element ends up `HeaderOffset` pixels
      below the viewport top, provided the element exists. `elementTop` is
      the element's viewport-relative top, absent when there is no element
      with that id. */
  function Select(h: HeaderState, item: Section, elementTop: Option<real>, scrollY: real): (r: SelectOutcome)
    ensures r.state.active == item && r.state.scrolled == h.scrolled
    ensures item == Home ==> r.scrollTo == Some(0.0)
    ensures item != Home ==> (r.scrollTo.Some? <==> elementTop.Some?)
    ensures item != Home && elementTop.Some? ==>
              elementTop.value + scrollY - r.scrollTo.value == HeaderOffset
  {
    if item == Home then
      SelectOutcome(h.(active := item), Some(0.0))
    else
      match elementTop
      case Some(top) => SelectOutcome(h.(active := item), Some(top + scrollY - HeaderOffset))
      case None => SelectOutcome(h.(active := item), None)
  }

  /** The header's menu wiring: pressing button `i` of the bar rendered for
      the current state hands its key to `handleSelect`, and the bar then
      rendered has that button, and only that one, active. */
  lemma PressedButtonBecomesActive(h: HeaderState, i: nat, s: Item, viewportWidth: int, now: nat,
                                   elementTop: Option<real>, scrollY: real)
    requires i < |All|
    ensures var p := PressButton(Bar(Some(h.active)), i, s, viewportWidth, now, true);
            && p.selected == Some(All[i])
            && var next := Select(h, p.selected.value, elementTop, scrollY).state;
               forall j :: 0 <= j < |All| ==> (Bar(Some(next.active))[j].active <==> j == i)
  {
  }
}
