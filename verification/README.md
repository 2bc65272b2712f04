# Portfolio page interaction logic, in Dafny

A single-page portfolio built from React components. Almost all of it is
markup; this project models the small pieces of behaviour hidden inside
three of those components.

- **Section tracker** (`HeaderBar` in `components/personal-landing.tsx`):
  - the active section, which is one of `home`, `about` or `contact`;
  - how the URL fragment maps onto the active section;
  - the `nav-select` event;
  - the "scrolled" flag;
  - the scroll target of a menu selection.
- **Contact form** (`ConnectSection`, same file):
  - the ordered three-rule message validator;
  - the submit and edit transitions of `(message, error, showToast)`;
  - when the Send button is enabled.
- **Adaptive menu item and menu bar** (`components/animated-menu-bar.tsx`):
  - the expanded-width formula and its floor;
  - the `hovered || active` expansion rule;
  - the revealed label width;
  - the tap tooltip and its single cancellable hide timer, including the unmount cleanup;
  - the rule that exactly one button is active.
- **Profile card** (`components/profile-card.tsx`):
  - the `H:MM AM|PM` clock text;
  - the "Email Copied!" flag.

Browser inputs arrive as parameters: the scroll offset, the location hash,
the element's top from `getBoundingClientRect`, the viewport width, the
clock reading, and whether the clipboard write succeeded. Timers are
modelled by the `Timers` module: a table from handle to deadline on a
logical millisecond clock, where advancing the clock fires every due
callback. Message text is a sequence of UTF-16 code units (`JsText.JsString`),
so lengths count what JavaScript's `length` counts. Trimming strips exactly the
ECMAScript white-space and line-terminator set.

Files, one module each:
- `maybe.dfy` (`Maybe`): the optional-value type.
- `jstext.dfy` (`JsText`): `trim`, and `replace` with a string pattern.
- `timers.dfy` (`Timers`): `setTimeout` and `clearTimeout`. It also defines the `Flash` flag, which shows and is hidden again by uncancelled timers.
- `sections.dfy` (`Sections`): the section type.
- `section_tracker.dfy` (`SectionTracker`): the header.
- `contact_form.dfy` (`ContactForm`): the contact form.
- `menu_bar.dfy` (`AnimatedMenuBar`): the menu item and the menu bar.
- `profile_card.dfy` (`ProfileCard`): the clock text and the copied flag.

Of the three deferred hides in these components, only the tooltip hide is
ever cleared: the tap handler clears the handle its ref holds before
scheduling a new one (animated-menu-bar.tsx:38-39), and the unmount cleanup
clears it again (animated-menu-bar.tsx:45). The success toast hide
(personal-landing.tsx:335) and the "copied" reset (profile-card.tsx:57) are
scheduled on every success and never cleared. So a hide left over from an
earlier show, still pending when the flag is shown again, lowers it before the
new show's delay is over. `Timers.StaleHideCutsShowShort` and
`ContactForm.SecondToastCutShort` prove this; `ContactForm.SpacedSendsGetFullToast`
proves that sends at least 2000 ms apart are unaffected, and
`AnimatedMenuBar.TapRestartsHideDelay` that the tooltip, which does clear its
hide, never has the problem.

## Model

| member | source | states |
|---|---|---|
| JsText.Trim | components/personal-landing.tsx:318-319 | `trim()` is empty exactly when the text is white space only; otherwise it starts and ends with a non-white-space unit and is no longer than the input |
| JsText.TrimIsInfix | components/personal-landing.tsx:318-319 | the trimmed text is an infix of the message with only white space before and after it |
| JsText.TrimIgnoresTrailingWhitespace | components/personal-landing.tsx:318-320 | appending white space leaves `trim()` unchanged, so it changes only the raw length |
| JsText.TrimIdempotent | components/personal-landing.tsx:318-319 | trimming an already trimmed message changes nothing |
| JsText.RemoveFirst | components/personal-landing.tsx:25 | `replace("#", "")` removes only the first `#`: the text is unchanged when there is none, and otherwise putting `#` back at its first position restores the input |
| JsText.RemoveFirstLeading | components/personal-landing.tsx:25 | a fragment `#` + t becomes exactly t, even when t holds further `#`s |
| Timers.Schedule | components/animated-menu-bar.tsx:39 | `setTimeout` adds one timer under a fresh, non-zero (truthy) handle and keeps every other timer |
| Timers.Cancel | components/animated-menu-bar.tsx:38 | `clearTimeout` removes exactly that handle; clearing a handle that already fired is harmless |
| Timers.Expire | components/animated-menu-bar.tsx:39 | advancing the clock fires exactly the due timers and keeps the rest unchanged |
| Timers.Show | components/personal-landing.tsx:331-335 | a show raises the flag and adds a hide at `now + delay`; hides already due by `now` have run, and every later hide from an earlier show stays pending, since none is cancelled |
| Timers.Tick | components/personal-landing.tsx:335 | the flag drops exactly when some hide is due; the deadlines that survive are exactly the later ones; handles stay valid |
| Timers.ShowLastsItsDelay | components/profile-card.tsx:56-57 | unless an earlier hide falls strictly inside the interval, a shown flag is up exactly until `now + delay` |
| Timers.StaleHideCutsShowShort | components/personal-landing.tsx:331-335 | a pending hide from an earlier show lowers the flag before a new show's delay has elapsed |
| Sections.Parse | components/personal-landing.tsx:13-14 | only the three section names parse, and each parses to the section of that name |
| Sections.NameRoundTrip | components/personal-landing.tsx:13-14 | every section's name parses back to it, and the menu order lists each section once |
| SectionTracker.FromHash | components/personal-landing.tsx:24-29 | the fragment, with its first `#` removed, names the active section; "home", "" and every unknown string give home |
| SectionTracker.HashRoundTrip | components/personal-landing.tsx:24-29 | `#` + a section's name selects that section |
| SectionTracker.BareNameSelects | components/personal-landing.tsx:24-29 | a bare section name selects that section |
| SectionTracker.OnlyFirstHashStripped | components/personal-landing.tsx:25-28 | `##about` and the empty fragment both fall back to home |
| SectionTracker.Mount | components/personal-landing.tsx:30-31 | the first state takes the scrolled flag from the offset and the section from the fragment |
| SectionTracker.OnScroll | components/personal-landing.tsx:21-23 | a scroll changes only the flag, which is true exactly above 10 px |
| SectionTracker.FractionalScrollCounts | components/personal-landing.tsx:21-23 | a fractional offset of 10.5 px counts as scrolled, exactly 10 px does not |
| SectionTracker.OnHashChange | components/personal-landing.tsx:33 | a hash change resets the active section from the fragment and leaves the flag unchanged |
| SectionTracker.OnNavSelect | components/personal-landing.tsx:34-37 | a truthy detail becomes the active section; an absent or empty one changes nothing |
| SectionTracker.NavSelectSetsSection | components/personal-landing.tsx:34-37 | a selection event naming section s makes s active, whatever was active before |
| SectionTracker.Select | components/personal-landing.tsx:46-58 | the item becomes active in every case; home scrolls to 0; another section scrolls only if its element exists, and then lands exactly 96 px below the viewport top |
| SectionTracker.PressedButtonBecomesActive | components/personal-landing.tsx:80 | pressing button i of the header's menu selects section i, and the re-rendered bar has exactly button i active |
| ContactForm.ValidateMessage | components/personal-landing.tsx:317-322 | the rules apply in order: white space only gives the empty error; trimmed length 1-2 gives the short error; raw length over 200 gives the long error; the result is `""` exactly when trimmed length ≥ 3 and raw length ≤ 200 |
| ContactForm.TrailingSpaceCountsAgainstLimit | components/personal-landing.tsx:318-320 | padding an accepted message with white space past 200 units leaves the trimmed text unchanged, but the message is then rejected as too long |
| ContactForm.InitialState | components/personal-landing.tsx:311-313 | the form starts with an empty input, no error and no toast or pending hide; that state is consistent and Send is disabled |
| ContactForm.Submit | components/personal-landing.tsx:324-336 | a rejected message only sets the error, and the message and toast stay as they were; an accepted one clears the message and the error and shows the toast; the pending hides are then exactly the new one at `now + 2000` and the earlier ones not yet due, since none is cancelled |
| ContactForm.Edit | components/personal-landing.tsx:338-341 | after an input change the message is the new text, the error is `""` and the toast is untouched |
| ContactForm.Tick | components/personal-landing.tsx:335 | the toast drops when its hide is due; the message and error are untouched; the pending hides are exactly the earlier ones not yet due, so a later one still fires |
| ContactForm.SendEnabled | components/personal-landing.tsx:376 | the Send button is enabled exactly when the message is not white space only |
| ContactForm.SendEnabledIffNotEmptyError | components/personal-landing.tsx:318 | the button is disabled exactly when submitting would report "Message cannot be empty." |
| ContactForm.ConsistentPreserved | components/personal-landing.tsx:324-341 | submit, edit and the toast timer all keep the shown error either `""` or the verdict on the shown message |
| ContactForm.RejectedSubmitIdempotent | components/personal-landing.tsx:326-329 | resubmitting a rejected message changes nothing further |
| ContactForm.AcceptedSendDisablesButton | components/personal-landing.tsx:331-333 | after an accepted send the input is empty, so the button is disabled |
| ContactForm.SecondToastCutShort | components/personal-landing.tsx:335 | a second accepted send within 2000 ms of the first shows the toast, but the first send's hide takes it down early |
| ContactForm.SpacedSendsGetFullToast | components/personal-landing.tsx:331-335 | when the second accepted send comes at least 2000 ms after the first, its toast is up exactly until 2000 ms after it |
| ContactForm.EmptyAndShortExamples | components/personal-landing.tsx:318-319 | `""` gives the empty error and `"hi"` gives the short error |
| ContactForm.OverlongExample | components/personal-landing.tsx:320 | 201 letters give the long error |
| ContactForm.AcceptedExample | components/personal-landing.tsx:324-333 | "Hello there" passes, and sending it clears the input and shows the toast |
| AnimatedMenuBar.ExpandedWidth | components/animated-menu-bar.tsx:28 | the expanded width is at least 120 and at least 76 + 9·length, and equals one of the two |
| AnimatedMenuBar.ExpandedWidthMonotone | components/animated-menu-bar.tsx:28 | a longer label never gets a narrower button |
| AnimatedMenuBar.LabelWidth | components/animated-menu-bar.tsx:90 | an expanded label is exactly the expanded width less the 44 px icon and 32 px padding, so at least 44 px and at least 9 px per code unit; a collapsed one gets 0, and only a collapsed one |
| AnimatedMenuBar.HoverRevealsLabel | components/animated-menu-bar.tsx:31-90 | for any button of the bar: after pointer enter its label is out and at least 44 px wide; after pointer leave the label is 0 px exactly when the button is not active; the active button's label is out at full width whether hovered or not |
| AnimatedMenuBar.MenuLabelWidths | components/animated-menu-bar.tsx:102-105 | the revealed labels of Home, About and Contact are 44, 45 and 63 px wide |
| AnimatedMenuBar.MouseEnter | components/animated-menu-bar.tsx:70 | pointer enter sets the hover flag and changes nothing else |
| AnimatedMenuBar.MouseLeave | components/animated-menu-bar.tsx:71 | pointer leave clears the hover flag and changes nothing else |
| AnimatedMenuBar.Tap | components/animated-menu-bar.tsx:34-42 | `onClick` fires on every tap. Below 640 px a tap prevents the default and shows the tooltip. It clears the pending hide and leaves exactly one hide, at `now + 1200`, held by a new handle. At 640 px or more the state is untouched. The at-most-one-hide invariant is preserved |
| AnimatedMenuBar.Tick | components/animated-menu-bar.tsx:39 | a due hide lowers the tooltip; the hover flag and the ref's handle are kept; the hides not yet due stay pending with their deadlines unchanged; the invariant is preserved |
| AnimatedMenuBar.Unmount | components/animated-menu-bar.tsx:44-46 | the unmount cleanup leaves no timer alive |
| AnimatedMenuBar.NoHideAfterUnmount | components/animated-menu-bar.tsx:44-46 | no hide fires at any later time after unmount |
| AnimatedMenuBar.TapRestartsHideDelay | components/animated-menu-bar.tsx:35-39 | after a narrow tap the tooltip is up exactly until 1200 ms after that tap, whatever hide an earlier tap left pending |
| AnimatedMenuBar.Step | components/animated-menu-bar.tsx:34-71 | each event keeps the at-most-one-hide invariant; enter and leave set the hover flag and leave the tooltip, the ref's handle and the timers exactly as they were; the other events leave the hover flag alone |
| AnimatedMenuBar.Run | components/animated-menu-bar.tsx:25 | any sequence of events keeps the invariant |
| AnimatedMenuBar.AtMostOneHidePending | components/animated-menu-bar.tsx:25-46 | from mount, whatever events arrive, at most one hide is pending, and unmounting leaves none |
| AnimatedMenuBar.Bar | components/animated-menu-bar.tsx:99-105 | the bar shows Home, About and Contact in order; a button is active exactly when its key equals `active` (default home) |
| AnimatedMenuBar.ExactlyOneActive | components/animated-menu-bar.tsx:99-105 | exactly one button is active, and its key is the `active` prop |
| AnimatedMenuBar.PressButton | components/animated-menu-bar.tsx:102-105 | pressing button k passes k to `onSelect` at any viewport width; nothing is passed when the prop is absent |
| ProfileCard.Hour12 | components/profile-card.tsx:48 | `((h + 11) % 12) + 1` is the unique value in 1..12 congruent to h modulo 12 |
| ProfileCard.Meridiem | components/profile-card.tsx:49 | the suffix is "PM" exactly when h ≥ 12, and "AM" otherwise |
| ProfileCard.Hour12Cases | components/profile-card.tsx:48-49 | 0 gives 12 AM, 12 gives 12 PM, 1..12 read as themselves and 13..23 drop twelve |
| ProfileCard.ClockRoundTrip | components/profile-card.tsx:48-49 | the hour and suffix determine the 24-hour hour, and every hour/suffix pair arises from one |
| ProfileCard.Decimal | components/profile-card.tsx:47 | `toString()` writes at least one digit, with no leading zero |
| ProfileCard.DecimalRoundTrip | components/profile-card.tsx:47 | reading back the digits gives the number |
| ProfileCard.PadTwo | components/profile-card.tsx:47 | `padStart(2, "0")` leaves a text of two or more characters unchanged and otherwise prefixes zeros up to exactly two characters, keeping the text as the suffix |
| ProfileCard.MinuteText | components/profile-card.tsx:47 | minutes are exactly two digits, zero-padded, and read back as the minute |
| ProfileCard.TimeText | components/profile-card.tsx:44-51 | the text has the shape `H:MM AM` or `H:MM PM` (7 or 8 characters), H has no leading zero, and the suffix matches the hour |
| ProfileCard.TimeTextRoundTrip | components/profile-card.tsx:44-51 | parsing the displayed text gives back the hour and minute it came from |
| ProfileCard.HandleCopy | components/profile-card.tsx:53-59 | a rejected write changes nothing; a successful one raises `copied`; the pending resets are then exactly the new one at `now + 2000` and the earlier ones not yet due, since none is cancelled |
| ProfileCard.CopiedOnlyAfterSuccess | components/profile-card.tsx:53-58 | `copied` rises exactly when the write succeeded |
| ProfileCard.CopiedResetsAfterDelay | components/profile-card.tsx:57 | with no earlier reset pending, `copied` stays up for exactly 2000 ms |

## Left out

- All JSX, Tailwind classes, inline styles, CSS keyframes, framer-motion animations, images and static copy. They are presentation and have no behavioural contract.
- Registering and removing the `scroll`, `hashchange` and `nav-select` listeners (personal-landing.tsx:32-43). The model applies the handlers directly.
- `components/footer-glow.tsx`. It dispatches a `nav-scroll` event (lines 29, 67, 79, 91), but nothing in these files listens for it; the header listens for `nav-select`. So the footer links never change the active section.
- `SectionTracker.OnNavSelect`: requires that a truthy detail be a section name. The source casts the detail without checking it, so any other string would leave the active section outside the three sections.
- `SectionTracker.Select`: the scroll offset and the element top are exact reals, whereas the browser computes `top + scrollY - 96` in doubles; rounding is not modelled. The browser's clamping of `scrollTo` to the scrollable range is not modelled, and neither is the smooth-scroll animation.
- The input's `maxLength={201}` cap (personal-landing.tsx:368) is not modelled. `ContactForm.Edit` accepts text of any length, which makes the model more permissive than the browser.
- Blurring the input after a send (personal-landing.tsx:334) is not modelled. It affects focus only.
- `timeText` is computed once per mount (`useMemo` with no dependencies). The model formats a given hour and minute and does not model when the text is refreshed.
- The profile card's `hoveredButton` state, and the props that only feed markup.
- The clipboard write is asynchronous. `ProfileCard.HandleCopy` models the handler once the write has settled, with its outcome as a parameter.
- Clock readings are not required to be increasing. Each lemma about timers names the times it speaks about.
- Numbers: the scroll offset `window.scrollY` and the element top may be fractional, so `SectionTracker.Mount`, `SectionTracker.OnScroll` and `SectionTracker.Select` take them as reals. The viewport width (`window.innerWidth`), the button widths, clock readings and timer delays are whole numbers and are plain integers. Nothing in the model wraps or rounds.
