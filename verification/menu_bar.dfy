/** The animated menu bar: one `IconButton` per section, whose label slides
    out while it is hovered or active, and which on narrow viewports shows a
    tooltip for a moment after a tap. */
module AnimatedMenuBar {
  import opened Maybe
  import opened Sections
  import opened Timers
  import opened JsText

  /** Pixel constants of the button: the icon box, the horizontal padding,
      the width allowed per label character and the floor of the expanded
      width. */
  const IconWidth: int := 44
  const LabelPadding: int := 32
  const CharWidth: int := 9
  const MinExpandedWidth: int := 120

  /** Viewports narrower than this get the tap tooltip. */
  const MobileBreakpoint: int := 640

  /** How long the tap tooltip stays up, in ms. */
  const TooltipDelay: nat := 1200

  /** The width of the expanded button: room for the icon, the padding and
      nine pixels per label character, but never less than the floor. The
      label is measured in UTF-16 code units, as `label.length` counts. */
  function ExpandedWidth(text: JsString): (w: int)
    ensures w >= MinExpandedWidth
    ensures w >= IconWidth + LabelPadding + CharWidth * |text|
    ensures w == MinExpandedWidth || w == IconWidth + LabelPadding + CharWidth * |text|
  {
    var natural := IconWidth + |text| * CharWidth + LabelPadding;
    if natural > MinExpandedWidth then natural else MinExpandedWidth
  }

  /** A longer label never gets a narrower button. */
  lemma ExpandedWidthMonotone(a: JsString, b: JsString)
    requires |a| <= |b|
    ensures ExpandedWidth(a) <= ExpandedWidth(b)
  {
  }

  /** The label shows while the pointer is over the button or the button is
      the active one. */
  function IsExpanded(hovered: bool, active: bool): bool {
    hovered || active
  }

  /** The width of the revealed label: what is left of the expanded width
      after the icon and the padding, or nothing while collapsed. */
  function LabelWidth(text: JsString, expanded: bool): (w: int)
    ensures expanded ==> w == ExpandedWidth(text) - IconWidth - LabelPadding
    ensures expanded ==> w >= MinExpandedWidth - IconWidth - LabelPadding
    ensures expanded ==> w >= CharWidth * |text|
    ensures !expanded ==> w == 0
    ensures w == 0 <==> !expanded
  {
    if expanded then ExpandedWidth(text) - IconWidth - LabelPadding else 0
  }

  /** The state one `IconButton` keeps: the hover flag, the tooltip flag,
      the handle in its `tooltipTimeout` ref (kept after the timer fires, as
      the ref is never reset), and its live timers. */
  datatype Item = Item(hovered: bool, showTooltip: bool, handle: Option<nat>, timers: Queue)

  /** The state right after mounting. */
  const Mounted: Item := Item(false, false, None, NoTimers)

  /** At most one tooltip hide is pending, and it is the one the ref holds;
      the ref only ever holds a handle the timer table handed out. */
  predicate Valid(s: Item) {
    && Timers.Valid(s.timers)
    && (forall id :: id in s.timers.live ==> s.handle == Some(id))
    && (s.handle.Some? ==> 0 < s.handle.value < s.timers.nextId)
  }

  function MouseEnter(s: Item): (r: Item)
    ensures r.hovered && r == s.(hovered := true)
  {
    s.(hovered := true)
  }

  function MouseLeave(s: Item): (r: Item)
    ensures !r.hovered && r == s.(hovered := false)
  {
    s.(hovered := false)
  }

  /** What a tap produces: the new button state, whether the click's default
      action was prevented, and whether the `onClick` prop was called. */
  datatype TapOutcome = TapOutcome(item: Item, prevented: bool, clicked: bool)

  /** `handleMobileTooltip`: on a narrow viewport, show the tooltip, clear
      the hide the ref holds and schedule a new one; in every case call
      `onClick` when it is given. */
  function Tap(s: Item, viewportWidth: int, now: nat, hasOnClick: bool): (r: TapOutcome)
    ensures r.clicked == hasOnClick
    ensures r.prevented <==> viewportWidth < MobileBreakpoint
    ensures viewportWidth >= MobileBreakpoint ==> r.item == s
    ensures viewportWidth < MobileBreakpoint ==>
              && r.item.showTooltip
              && r.item.hovered == s.hovered
              && r.item.handle.Some?
    ensures viewportWidth < MobileBreakpoint && Valid(s) ==>
              && r.item.timers.live == map[r.item.handle.value := now + TooltipDelay]
              && r.item.handle != s.handle
    ensures Valid(s) ==> Valid(r.item)
  {
    if viewportWidth < MobileBreakpoint then
      var cleared := if s.handle.Some? then Cancel(s.timers, s.handle.value) else s.timers;
      var (q, id) := Schedule(cleared, now, TooltipDelay);
      assert Valid(s) ==> cleared.live == map[];
      TapOutcome(Item(s.hovered, true, Some(id), q), true, hasOnClick)
    else
      TapOutcome(s, false, hasOnClick)
  }

  /** The clock reaches `now`: a due hide fires and lowers the tooltip; the
      ref keeps its (now stale) handle. */
  function Tick(s: Item, now: nat): (r: Item)
    ensures r.showTooltip <==> s.showTooltip && Due(s.timers, now) == {}
    ensures r.hovered == s.hovered && r.handle == s.handle
    ensures forall id :: id in r.timers.live <==> id in s.timers.live && s.timers.live[id] > now
    ensures forall id :: id in r.timers.live ==> r.timers.live[id] == s.timers.live[id]
    ensures Valid(s) ==> Valid(r)
  {
    Item(s.hovered, s.showTooltip && Due(s.timers, now) == {}, s.handle, Expire(s.timers, now))
  }

  /** The unmount cleanup: clear the hide the ref holds. The result is the
      set of timers that outlive the button. */
  function Unmount(s: Item): (r: Queue)
    ensures Valid(s) ==> r.live == map[]
    ensures forall id :: id in r.live ==> id in s.timers.live
  {
    if s.handle.Some? then Cancel(s.timers, s.handle.value) else s.timers
  }

  /** Nothing the button scheduled fires after it is unmounted. */
  lemma NoHideAfterUnmount(s: Item, later: nat)
    requires Valid(s)
    ensures Due(Unmount(s), later) == {}
  {
  }

  /** A narrow-viewport tap keeps the tooltip up for a full delay from that
      tap and takes it down when the delay is over, whatever hide an earlier
      tap left pending: the earlier hide can no longer cut it short. */
  lemma TapRestartsHideDelay(s: Item, viewportWidth: int, now: nat, hasOnClick: bool, t: nat)
    requires Valid(s) && viewportWidth < MobileBreakpoint
    ensures Tick(Tap(s, viewportWidth, now, hasOnClick).item, t).showTooltip <==> t < now + TooltipDelay
  {
  }

  /** The events one button reacts to while mounted. */
  datatype ItemEvent =
    | Enter
    | Leave
    | Press(viewportWidth: int, now: nat, hasOnClick: bool)
    | Clock(now: nat)

  function Step(s: Item, e: ItemEvent): (r: Item)
    ensures Valid(s) ==> Valid(r)
    ensures e.Enter? || e.Leave? ==> r == s.(hovered := e.Enter?)
    ensures !e.Enter? && !e.Leave? ==> r.hovered == s.hovered
  {
    match e
    case Enter => MouseEnter(s)
    case Leave => MouseLeave(s)
    case Press(w, now, c) => Tap(s, w, now, c).item
    case Clock(now) => Tick(s, now)
  }

  /** The state after a run of events from mounting. */
  function Run(s: Item, events: seq<ItemEvent>): (r: Item)
    ensures Valid(s) ==> Valid(r)
    decreases |events|
  {
    if events == [] then s else Run(Step(s, events[0]), events[1..])
  }

  /** However the button was used, at most one hide is pending when it is
      unmounted, and the cleanup leaves no timer behind. */
  lemma {:induction false} AtMostOneHidePending(events: seq<ItemEvent>, later: nat)
    ensures |Run(Mounted, events).timers.live| <= 1
    ensures Due(Unmount(Run(Mounted, events)), later) == {}
  {
    var s := Run(Mounted, events);
    assert Valid(s);
    if s.handle.Some? && s.handle.value in s.timers.live {
      assert s.timers.live.Keys == {s.handle.value};
    } else {
      assert s.timers.live.Keys == {};
    }
  }

  /** One rendered button of the bar. */
  datatype Button = Button(key: Section, caption: JsString, active: bool)

  /** `MenuBar`: the three buttons in menu order; a button is active when its
      key is the `active` prop, which defaults to home. */
  function Bar(active: Option<Section>): (r: seq<Button>)
    ensures |r| == |All|
    ensures forall i :: 0 <= i < |r| ==> r[i].key == All[i] && r[i].caption == Units(Label(All[i]))
    ensures forall i :: 0 <= i < |r| ==> (r[i].active <==> r[i].key == active.GetOr(Home))
  {
    var current := active.GetOr(Home);
    seq(|All|, i requires 0 <= i < |All| => Button(All[i], Units(Label(All[i])), All[i] == current))
  }

  /** Exactly one button is active, and it is the one for the `active` prop
      (home when the prop is absent). */
  lemma ExactlyOneActive(active: Option<Section>)
    ensures exists i :: 0 <= i < |Bar(active)| && Bar(active)[i].active
    ensures forall i, j ::
              (0 <= i < |Bar(active)| && 0 <= j < |Bar(active)|
               && Bar(active)[i].active && Bar(active)[j].active) ==> i == j
    ensures forall i :: 0 <= i < |Bar(active)| && Bar(active)[i].active ==>
                        Bar(active)[i].key == active.GetOr(Home)
  {
    var b := Bar(active);
    var k := active.GetOr(Home);
    var i := if k == Home then 0 else if k == About then 1 else 2;
    assert b[i].active;
  }

  /** How hovering reveals a button's label: while the pointer is over a
      button of the bar its label is out, at least the floor's 44 px wide;
      once the pointer leaves, the label folds away exactly when the button
      is not the active one; and the active button shows its label whether
      hovered or not. */
  lemma HoverRevealsLabel(active: Option<Section>, i: nat, s: Item)
    requires i < |Bar(active)|
    ensures var b := Bar(active)[i];
            && LabelWidth(b.caption, IsExpanded(MouseEnter(s).hovered, b.active))
                 >= MinExpandedWidth - IconWidth - LabelPadding
            && (LabelWidth(b.caption, IsExpanded(MouseLeave(s).hovered, b.active)) == 0 <==> !b.active)
            && (b.key == active.GetOr(Home) ==>
                  LabelWidth(b.caption, IsExpanded(s.hovered, b.active))
                    == ExpandedWidth(b.caption) - IconWidth - LabelPadding)
  {
  }

  /** The revealed label widths of the bar's three buttons: "Home" is short
      enough to get the 120 px floor, the other two are sized by their
      length. */
  lemma MenuLabelWidths(active: Option<Section>)
    ensures LabelWidth(Bar(active)[0].caption, true) == 44
    ensures LabelWidth(Bar(active)[1].caption, true) == 45
    ensures LabelWidth(Bar(active)[2].caption, true) == 63
  {
  }

  /** What pressing a button of the bar produces: the button's new state and
      the key passed to `onSelect`, if that prop is given. */
  datatype PressOutcome = PressOutcome(item: Item, selected: Option<Section>)

  /** Pressing button `i`: its `onClick` is always the bar's
      `() => onSelect?.(key)`, so `onSelect` receives the button's key
      whatever the viewport width. */
  function PressButton(bar: seq<Button>, i: nat, s: Item, viewportWidth: int, now: nat,
                       hasOnSelect: bool): (r: PressOutcome)
    requires i < |bar|
    ensures hasOnSelect ==> r.selected == Some(bar[i].key)
    ensures !hasOnSelect ==> r.selected == None
    ensures r.item.showTooltip <==> s.showTooltip || viewportWidth < MobileBreakpoint
  {
    var t := Tap(s, viewportWidth, now, true);
    PressOutcome(t.item, if t.clicked && hasOnSelect then Some(bar[i].key) else None)
  }
}
