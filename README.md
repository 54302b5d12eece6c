# Creative Vision page script, modelled in Dafny

The page's single script, `assets/js/main.js`, wires up the behaviour of a
marketing landing page. This project models the parts that decide
something, as Dafny code in the script's own terms, and proves what the
page promises about them:

- **Contact form** (`contact_form.dfy`, `strings.dfy`, `email.dfy`). On
  submit, the handler trims the five fields with `String.prototype.trim`. It
  then runs five guards in order: name length, phone length, the e-mail
  regular expression `^[^\s@]+@[^\s@]+\.[^\s@]+$`, service present,
  message length. The first guard that fails decides the error toast. When
  all pass, the handler shows the success toast and resets the form.
  - `Validate` is the chain of guards. `FirstFailureDecides` states it rule
    by rule, with the e-mail rule given by the regular expression's meaning
    (`MatchesEmailRegex`, an existential split of the string). `IsEmail` is
    the direct check `Validate` runs, and `IsEmailIffRegex` proves the two
    agree.
  - `JsLength` counts UTF-16 code units, as `.length` does. `Trim` removes
    ECMAScript white space and line terminators, the same set that `\s`
    matches.
- **Toast** (`toast.dfy`). `showToast` keeps the handle of its one hide timer
  in `showToast._t`. It cancels that timer before starting a new one due
  3800 ms later. The `Toast` class holds the element's text and class, the
  saved handle, and the window's pending timers. Its invariant is that at
  most one hide timer is pending, the one the handle names.
- **Accordion** (`accordion.dfy`). A click on one item closes every other
  item (`aria-expanded="false"`, panel closed, icon `+`). It then toggles the
  clicked one (icon `–`). `Click` updates the array of items in place and is
  proved equal to the value-level `AfterClick`. The lemmas show that at most
  one item is expanded afterwards.
- **Scrollspy** (`scrollspy.dfy`). The intersection callback keeps the
  intersecting entries and sorts them by ratio, highest first, then takes
  the first. `Pick` is specified as the first entry of maximal ratio, the
  result JavaScript's stable sort gives. `SetActive` restyles the link array
  in place. `SingleActiveLink` shows that exactly one link is active when the
  `href`s are distinct and one of them names the section.
- **Mobile navigation** (`mobile_nav.dfy`). The toggle's click listener,
  `closeNav`, the link listeners, the document's outside-click listener and
  its Escape listener. These are the `Nav` class's methods. `Nav.Dispatch`
  is tied to the value-level `Step`, and the lemmas over `Run` show that
  `aria-expanded` stays in sync with the `is-open` class.
- **Reveal on scroll** (`reveal.dfy`). The observer adds `is-visible` to
  every intersecting target and unobserves it. `OneShot` shows that, over any
  sequence of batches the observer can deliver, an element revealed once is
  never reported again.

Time is a parameter (`now`), and the window's timers are a map from handle
to due time. Intersection entries and user events are inputs.

Two consequences of the code that the model keeps:
- The script activates a link only when its `href` is `#` + the section's
  `id`. If no link names the picked section, no link is active. So "exactly
  one active link" needs such a link, and `SingleActiveLink` assumes it.
- The description `short` in `ExampleShortMessage` has five characters. It is
  refused because 5 < 10.

## Model

| member | source | states |
|---|---|---|
| JsStrings.TrimStart | assets/js/main.js:170-174 | the result is a suffix of the input; everything dropped is white space; the result does not start with white space |
| JsStrings.TrimEnd | assets/js/main.js:170-174 | the result is a prefix of the input; everything dropped is white space; the result does not end with white space |
| JsStrings.Trim | assets/js/main.js:170-174 | `trim` never lengthens a string, and a non-empty result has no white space at either end |
| JsStrings.TrimIsInfix | assets/js/main.js:170-174 | `trim(s)` is the infix of `s` left after removing only white space from the start and the end |
| JsStrings.TrimEmpty | assets/js/main.js:180 | a trimmed field is empty exactly when it was all white space, which is the only way `!service` is true |
| JsStrings.TrimOfTrimmed | assets/js/main.js:170-174 | a string with no white space at either end is unchanged by `trim` |
| JsStrings.TrimIdempotent | assets/js/main.js:170-174 | trimming twice gives the same as trimming once |
| JsStrings.TrimPadded | assets/js/main.js:170-174 | one blank on each side of a word is removed |
| JsStrings.JsLength | assets/js/main.js:177-181 | `.length` is between the number of characters and twice that, and equals it exactly when no character lies outside the Basic Multilingual Plane |
| Email.MatchesEmailRegex | assets/js/main.js:179 | what `/^[^\s@]+@[^\s@]+\.[^\s@]+$/.test(s)` decides: some `@` and some later `.` split `s` into three non-empty runs of characters that are neither white space nor `@` |
| Email.IsEmail | assets/js/main.js:179 | the direct check: no white space, exactly one `@`, text before it, and a `.` in the domain with text on both sides |
| Email.AtIndex | assets/js/main.js:179 | the result is the index of the first `@`, or the length when there is none |
| Email.IsEmailMatches | assets/js/main.js:179 | the direct check accepts only strings the regular expression matches |
| Email.MatchesIsEmail | assets/js/main.js:179 | every string the regular expression matches passes the direct check: no white space, exactly one `@`, a non-empty local part, a dot with text on both sides in the domain |
| Email.IsEmailIffRegex | assets/js/main.js:179 | the direct check and the regular expression agree on every string |
| Email.ExampleAddress | assets/js/main.js:179 | `a@b.com` matches |
| Email.ExampleNotAnAddress | assets/js/main.js:179 | `bad` does not match |
| Toast.Toast.constructor | assets/js/main.js:155 | the toast starts with its markup text, hidden, no timer saved and none pending |
| Toast.Toast.Show | assets/js/main.js:156-164 | text and kind are set; the previously saved timer is no longer pending; exactly one timer is pending, due 3800 ms after `now`, and its handle is saved in `_t`; the single-timer invariant is kept |
| Toast.Toast.Expire | assets/js/main.js:161-163 | when the pending timer falls due, the toast is hidden and no timer is pending; text and saved handle unchanged |
| ContactForm.Validate | assets/js/main.js:170-181 | the handler's guard chain on the trimmed fields, first failure wins; its meaning is stated by `FirstFailureDecides` |
| ContactForm.FirstFailureDecides | assets/js/main.js:170-181 | each error is reported exactly when its rule fails and all earlier rules hold; a submission is accepted exactly when all five rules hold, with the e-mail rule given by the regular expression |
| ContactForm.ShortNameRefused | assets/js/main.js:177 | a trimmed name of fewer than two code units is refused for the name, whatever the other fields hold |
| ContactForm.RefusalIsFirstFailure | assets/js/main.js:177-181 | the reported rule fails and every rule checked before it holds |
| ContactForm.LaterFieldsIgnored | assets/js/main.js:177-181 | fields after the failing rule are never consulted: changing them does not change the verdict |
| ContactForm.OnlyTrimmedValuesMatter | assets/js/main.js:170-181 | two submissions with the same trimmed fields get the same verdict |
| ContactForm.PaddedNameExample | assets/js/main.js:170 | ` Ali ` trims to `Ali` |
| ContactForm.ExampleShortName | assets/js/main.js:177 | name `A` is refused for the name |
| ContactForm.ExampleShortPhone | assets/js/main.js:178 | name `Ali`, phone `12345` is refused for the phone |
| ContactForm.ExampleBadEmail | assets/js/main.js:179 | name `Ali`, phone `0123456`, e-mail `bad` is refused for the e-mail |
| ContactForm.ExampleNoService | assets/js/main.js:180 | valid name, phone and e-mail with an empty service are refused for the service |
| ContactForm.ExampleShortMessage | assets/js/main.js:181 | with the other fields valid, description `short` is refused as too short |
| ContactForm.ExampleAccepted | assets/js/main.js:170-184 | a complete submission with blanks around the name is accepted |
| ContactForm.NoticeOf | assets/js/main.js:177-184 | the success message exactly for an accepted submission, otherwise the error message of the failing rule |
| ContactForm.KindOf | assets/js/main.js:177-184 | the `success` toast class exactly for an accepted submission, `error` otherwise |
| ContactForm.Form.constructor | assets/js/main.js:154-155 | the form holds the given fields and the page's toast, or none |
| ContactForm.Form.Submit | assets/js/main.js:166-185 | the verdict is the validation of the submitted fields; the toast shows its notice and kind with a fresh 3800 ms timer; the fields are reset only on success |
| Accordion.Collapsed | assets/js/main.js:134-140 | another item after the click: not expanded, panel closed and icon `+` where it has them, and it keeps exactly the panel and icon it had |
| Accordion.Toggled | assets/js/main.js:144-148 | the clicked item: expanded state flipped, panel and icon following the new state, and it keeps exactly the panel and icon it had |
| Accordion.AfterClick | assets/js/main.js:127-150 | a click keeps the number of items |
| Accordion.ClickEffect | assets/js/main.js:133-148 | every other item is closed, with its panel not open and its icon `+` where it has one; the clicked item flips; every item has a panel and an icon after the click exactly when it had them before; every item's panel and icon agree with its state |
| Accordion.AtMostOneExpanded | assets/js/main.js:127-150 | after a click at most one item is expanded, and exactly one when the clicked item was closed |
| Accordion.ClickTwice | assets/js/main.js:127-150 | clicking the same item twice restores its state; the group then has one expanded item if that item was open before, and none otherwise |
| Accordion.Click | assets/js/main.js:128-149 | the in-place loop over the items leaves the array equal to `AfterClick` of its old contents |
| Scrollspy.Pick | assets/js/main.js:71 | no pick exactly when no entry intersects; otherwise the picked entry intersects, has the highest ratio of all intersecting entries, and every earlier intersecting entry has a strictly lower one |
| Scrollspy.SetActive | assets/js/main.js:60-67 | hrefs are unchanged, and exactly the links whose href is `#` + id are active |
| Scrollspy.SingleActiveLink | assets/js/main.js:60-66 | with distinct hrefs, after `setActive(id)` exactly one link is active when one targets `#id`, otherwise none |
| Scrollspy.OnIntersect | assets/js/main.js:70-73 | with no intersecting entry, or a picked target without an id, the links are unchanged; otherwise exactly the picked section's links are active |
| MobileNav.BoolText | assets/js/main.js:37 | `String(b)`: `"true"` exactly for true, `"false"` exactly for false |
| MobileNav.Step | assets/js/main.js:35-51 | one user action through every listener it reaches: the state is unchanged or left in sync; Escape, a link click or an outside click closes the menu; a click inside the menu or another key changes nothing |
| MobileNav.Run | assets/js/main.js:35-51 | the state after a sequence of actions, one `Step` each; its properties are `RunKeepsSynced`, `RunKeepsLast` and `ClosingActions` |
| MobileNav.Toggled | assets/js/main.js:35-38 | the toggle flips `is-open` and sets `aria-expanded` to its new value |
| MobileNav.Closed | assets/js/main.js:30-33 | `closeNav` leaves the menu closed with `aria-expanded="false"` |
| MobileNav.CloseIdempotent | assets/js/main.js:30-33 | closing twice is closing once |
| MobileNav.ToggleTwice | assets/js/main.js:35-38 | two toggle clicks give back the menu's state, with the attribute in sync |
| MobileNav.StepSyncs | assets/js/main.js:30-51 | every action that changes the menu leaves the attribute in sync, and none breaks an existing sync |
| MobileNav.RunKeepsSynced | assets/js/main.js:30-51 | once in sync, the attribute stays in sync over any sequence of actions |
| MobileNav.RunKeepsLast | assets/js/main.js:30-51 | a sequence of actions is its prefix followed by its last action |
| MobileNav.ClosingActions | assets/js/main.js:41-51 | a sequence ending in Escape, a link click or an outside click leaves the menu closed with `aria-expanded="false"` |
| MobileNav.Nav.constructor | assets/js/main.js:27-28 | the menu starts with the markup's class and attribute |
| MobileNav.Nav.CloseNav | assets/js/main.js:30-33 | `is-open` removed, `aria-expanded` is `"false"` |
| MobileNav.Nav.OnToggleClick | assets/js/main.js:35-38 | `is-open` flipped and mirrored in `aria-expanded` |
| MobileNav.Nav.OnDocumentClick | assets/js/main.js:44-46 | a click outside menu and toggle closes the menu; any other click changes nothing |
| MobileNav.Nav.OnKeyDown | assets/js/main.js:49-51 | Escape closes the menu; any other key changes nothing |
| MobileNav.Nav.Dispatch | assets/js/main.js:35-51 | one user action through all the listeners it reaches leaves the state `Step` gives |
| Reveal.Hits | assets/js/main.js:82-83 | exactly the targets of the intersecting entries |
| Reveal.RevealObserver.constructor | assets/js/main.js:90 | every `.reveal` element observed, none revealed |
| Reveal.RevealObserver.OnEntries | assets/js/main.js:81-88 | the intersecting targets become visible and are unobserved; nothing else changes; revealed and observed stay disjoint |
| Reveal.Delivered | assets/js/main.js:81-88 | a sequence of batches the observer can deliver: each reports only elements still observed after `OnEntries` ran on the batches before it |
| Reveal.HitsWithin | assets/js/main.js:82-85 | every batch of a delivery reveals only elements observed when the delivery began |
| Reveal.OneShot | assets/js/main.js:85 | no two batches of a delivery reveal the same element, so a revealed element never triggers the callback again |

## Left out

- The counters (`assets/js/main.js:93-121`): floating-point easing driven by `requestAnimationFrame` and `performance.now`.
- The tilt effect (`assets/js/main.js:193-210`): floating-point geometry, `matchMedia` and style strings.
- The footer year and the back-to-top button (`assets/js/main.js:16-24`): a clock read and a scroll call, with no logic to prove.
- DOM queries and `FormData`. Fields arrive already as `String(fd.get(f) || "")`, so a missing control is the empty string.
- The list of spied sections (`assets/js/main.js:55-57`) and the filter keeping only `#` links (`assets/js/main.js:58`). The model receives the filtered links and the entries as inputs.
- How the browser delivers intersection entries: thresholds, batching, timing. `Reportable` and `Delivered` only state that an unobserved element is not reported.
- Lone surrogates: a JavaScript string may hold an unpaired UTF-16 surrogate, a Dafny `string` of Unicode scalar values cannot. No verdict depends on it: such a unit counts 1 towards `.length`, is not white space and is admitted by `[^\s@]`, like any other letter of the Basic Multilingual Plane.
- The real clock and the event loop. Time is the parameter `now`. Running a due timer is the explicit `Toast.Toast.Expire` call.
- The Arabic toast texts are represented by the `Notice` values `Sent` and `Refused(reason)`. The classes `toast show success|error` are represented by `Kind`.
- Scrollspy styles: the three style properties set by `setActive` are one `active` flag per link.
- Accordion: `nextElementSibling` and the icon lookup are modelled as optional fields of the item itself. Two buttons sharing a panel, which the markup does not do, is not modelled. An `aria-expanded` other than `"true"` reads as closed, as in the code.
- MobileNav.Step: the toggle button is assumed not to be inside `#navList`, as in the markup. A click is classified by where it lands rather than by `contains`.
- ContactForm.Form.Submit: `form.reset()` is modelled as every field becoming empty, the markup's defaults.
- ContactForm.Validate has no `ensures` of its own. What it decides is stated by `ContactForm.FirstFailureDecides`.
