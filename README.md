# Discover Ghana page behaviour, modelled in Dafny

The site's script `js/main.js` wires five independent behaviours at page
load, plus the contact form's submit handler. The model replaces DOM nodes
with explicit state (booleans, strings, sequences and arrays) and keeps each
handler's branches and constants. The exceptions a handler throws when an
element it needs is missing are not modelled; "## Left out" lists them:

- `navigation.dfy` (module `Navigation`): the mobile menu's two "active"
  classes under toggle, nav-link, in-menu and outside clicks. Each click runs
  the clicked element's listener and then the document's listener. The navbar's
  "scrolled" class follows the rule `scrollY > 50`. Both sets of listeners are
  installed only when their elements exist; the scroll listener also needs a
  navbar that does not start out "scrolled".
- `scroll_effects.dfy` (module `ScrollEffects`): a click on an `a[href^="#"]`
  anchor. A bare `#` or a selector that finds nothing leaves the browser default.
  Otherwise the page scrolls smoothly to `offsetTop - navHeight - 20`.
- `animations.dfy` (module `Animations`): the entrance-animation elements.
  They become "visible" on their first intersecting observer entry and are then
  unobserved. Without IntersectionObserver they are all marked visible at load.
- `gallery.dfy` (module `Gallery`): a filter button click. Only the clicked
  button stays active. The gallery items (or, if there are none, the
  destination cards) are shown or hidden by exact category match.
  `filterGallery(token)` clicks the first button with that token.
- `lightbox.dfy` (module `Lightbox`): the CLOSED/OPEN viewer. It holds the
  copied image `src`/`alt`, the caption (title, location) and the body's
  `overflow` override.
- `email.dfy` (module `Email`) and `contact_form.dfy` (module `ContactForm`):
  `handleFormSubmit`. It collects the `data` object, checks the five required
  fields and then the address against `/^[^\s@]+@[^\s@]+\.[^\s@]+$/`, swaps
  the form for the success message, and resets on a separate timer step.
- `dom.dfy` (module `Dom`): `Option` (what `getAttribute` returns) and the
  inline `display` value (`Unset`, `Block`, `Hidden`).

The email regex has two models. `Email.MatchesPattern` is the language read
off the pattern: three non-empty `[^\s@]` runs joined by `@` and `.`.
`Email.TestEmail` is the executable test: it splits at the first `@` and
looks for an inner `.`. `\s` is JavaScript's class, listed code point by code
point.

Three places where the code may behave other than a reader expects; the model follows the code:
- A gallery overlay that lacks its `h4` or `span` throws at js/main.js:170-171.
  Such an item is not representable: an item has either a complete overlay or none.
- The deferred form reset cannot be cancelled. Two quick submissions schedule two
  resets, so `Form.pendingResets` is a counter.
- The active button after a click is the one clicked. Another button with the
  same token stays inactive.

## Model

| member | source | states |
|---|---|---|
| `Email.IndexOf` | js/main.js:226-227 | the position found holds the character and nothing before it does; none found means the character does not occur |
| `Email.TestEmail` | js/main.js:226-227 | the `emailRegex.test` call; characterised by `TestEmailIsPattern` and `TestEmailSplitsOnce` |
| `Email.TestEmailIsPattern` | js/main.js:226-227 | the executable test accepts a string iff it is `l + "@" + d1 + "." + d2` with three non-empty runs free of whitespace and `@` |
| `Email.TestEmailSplitsOnce` | js/main.js:226-227 | accepted iff the string splits at an `@` into a non-empty local part and a domain with an inner `.`; an accepted address holds exactly one `@` |
| `Email.RejectsBadEmail` | js/main.js:226-227 | "bad-email" is not in the pattern's language |
| `Email.AcceptsPlainAddress` | js/main.js:226-227 | "ama@example.com" is in the pattern's language |
| `Email.AcceptsDottedDomain` | js/main.js:226-227 | "a@b.c.d" is in the pattern's language (the domain's first run may hold dots) |
| `ContactForm.DataOf` | js/main.js:213-217 | the `data` object built from the FormData entries; characterised by `DataOfKeys` and `DataOfLastWins` |
| `ContactForm.DataOfKeys` | js/main.js:213-217 | a name is a key of `data` iff some submitted entry carries it |
| `ContactForm.DataOfLastWins` | js/main.js:215-217 | the value stored under a name is that of the last entry with that name |
| `ContactForm.CollectData` | js/main.js:213-217 | the `forEach` loop builds exactly the `data` object described by the two lemmas above |
| `ContactForm.Validate` | js/main.js:219-230 | the two checks in their order; characterised by `ValidateCharacterised` |
| `ContactForm.ValidateCharacterised` | js/main.js:219-230 | a submission goes through iff all five required fields are present and non-empty and the address matches the pattern; a missing field gives the fields alert whatever the address; otherwise a bad address gives the address alert |
| `ContactForm.Cleared` | js/main.js:241 | `form.reset()` keeps every control's name and empties its value |
| `ContactForm.ClearedFormRejected` | js/main.js:219-223 | a form just reset is rejected with the missing-fields alert |
| `ContactForm.LastWithName` | js/main.js:215-217 | every entry has a last entry with the same name from it on |
| `ContactForm.ExampleAccepted` | js/main.js:219-237 | the filled example (Ama Owusu, ama@example.com, Hi, Hello) is submitted with its data |
| `ContactForm.ExampleBadEmailRejected` | js/main.js:225-230 | the example with address "bad-email" gets the address alert |
| `ContactForm.ExampleMissingEmailRejected` | js/main.js:219-223 | the example without an email field gets the missing-fields alert |
| `ContactForm.Form.HandleSubmit` | js/main.js:206-238 | the outcome is the validation of the collected data; an alert changes nothing; a submission hides the form, shows the success message and schedules one reset; the fields are not touched |
| `ContactForm.Form.ResetTimerFires` | js/main.js:240-244 | a scheduled reset clears the fields, shows the form and hides the success message |
| `Navigation.Click` | js/main.js:23-43 | one click: the clicked element's listener, then the document's; characterised by `ClickEffect`, `FlagsStayInStep`, `ToggleParity` and `LastCloseWins` |
| `Navigation.ClickEffect` | js/main.js:23-43 | a toggle click flips both flags; a nav-link or outside click clears both; a click elsewhere in the menu changes nothing |
| `Navigation.FlagsStayInStep` | js/main.js:23-43 | if the menu and toggle flags start equal, they are equal after any series of clicks |
| `Navigation.ToggleParity` | js/main.js:23-26 | after toggle clicks only, each flag is its start value xor the parity of the click count |
| `Navigation.LastCloseWins` | js/main.js:30-43 | a series ending in a nav-link or outside click leaves the menu closed |
| `Navigation.LastScrollDecides` | js/main.js:48-54 | after scroll events, "scrolled" holds iff the last `scrollY` exceeds 50 (at 50 it does not) |
| `Navigation.NavigationBar.Init` | js/main.js:16-55 | the menu listeners exist iff toggle and menu exist; the scroll listener exists iff the navbar exists and starts without "scrolled" |
| `Navigation.NavigationBar.OnClick` | js/main.js:22-44 | with the listeners installed a click does what `Click` describes, otherwise nothing; "scrolled" is untouched |
| `Navigation.NavigationBar.OnScroll` | js/main.js:47-54 | with the listener installed "scrolled" becomes `scrollY > 50`, otherwise it keeps its value; the menu flags are untouched |
| `ScrollEffects.OnAnchorClick` | js/main.js:61-77 | a smooth scroll happens iff the href starts with `#`, is not `#` alone and its selector finds an element; the requested top is the target's `offsetTop` minus the navbar's height minus 20 |
| `Animations.Animator.Init` | js/main.js:82-106 | with an observer every element is observed and not yet visible; without one every element is visible at once; either way every element is revealed or still watched |
| `Animations.Animator.MarkAllVisible` | js/main.js:103-105 | the fallback loop leaves every element visible |
| `Animations.Animator.OnEntries` | js/main.js:86-92 | an element is visible afterwards iff it was before or an entry reports it intersecting (so "visible" is never lost), and such elements stop being observed; every element stays revealed or watched |
| `Gallery.Filtered` | js/main.js:127-134 | one item under a filter token; characterised by `FilteredItem` |
| `Gallery.FilterAll` | js/main.js:126-135 | every item is replaced by its filtered form, in place, with nothing added or dropped |
| `Gallery.FilteredItem` | js/main.js:126-135 | an item is displayed iff the token is "all" or its category equals the token exactly; otherwise it is hidden and keeps its animation; its category never changes |
| `Gallery.LastFilterDecidesDisplay` | js/main.js:116-136 | which items show depends only on the last filter clicked |
| `Gallery.FilterIdempotent` | js/main.js:116-136 | clicking the same filter twice gives the same items as clicking it once |
| `Gallery.OnlyOneActive` | js/main.js:120-121 | when exactly the clicked button is active, the number of active buttons is one |
| `Gallery.NoneActive` | js/main.js:120 | buttons that are all inactive count zero active |
| `Gallery.FirstWithFilter` | js/main.js:143 | the button found carries the token and no earlier one does; none found means no button carries it |
| `Gallery.GalleryPage.Click` | js/main.js:116-136 | exactly the clicked button is active; every other button loses "active", and nothing else about any button changes; the gallery items (if any, else the cards) become their filtered forms, and the other sequence is untouched |
| `Gallery.GalleryPage.FilterBy` | js/main.js:141-153 | the first button with the token is clicked, with the effect of `Click`: exactly that button is active (one active button), the targeted items are filtered by the token, and the other item sequence is untouched; without such a button nothing changes |
| `Lightbox.Opened` | js/main.js:167-178 | the state after opening on an item; characterised by `OpenShowsItem` |
| `Lightbox.Closed` | js/main.js:199-202 | `closeLightbox`: inactive, overflow restored, image and caption kept; characterised by `EscapeCloses` and `StepConsistent` |
| `Lightbox.Step` | js/main.js:166-202 | one event of the lightbox; characterised by `StepConsistent`, `OpenShowsItem` and `EscapeCloses` |
| `Lightbox.StepConsistent` | js/main.js:166-202 | every event keeps "page scrolling suppressed iff the lightbox is open" |
| `Lightbox.RunConsistent` | js/main.js:166-202 | so does any series of events |
| `Lightbox.OpenShowsItem` | js/main.js:167-178 | opening on an item shows its `src` and `alt`, takes the caption from its overlay (empty strings only without one), activates the lightbox and hides the page's overflow |
| `Lightbox.EscapeCloses` | js/main.js:193-202 | Escape closes an open lightbox and leaves a closed one unchanged |
| `Lightbox.LightboxElement.Init` | js/main.js:157-163 | at load the lightbox is closed and consistent |
| `Lightbox.LightboxElement.OnItemClick` | js/main.js:167-178 | the new state is the open step on that item, and it stays consistent |
| `Lightbox.LightboxElement.CloseLightbox` | js/main.js:199-202 | clears "active" and restores overflow to `''`; image and caption are kept |
| `Lightbox.LightboxElement.OnCloseButtonClick` | js/main.js:182-184 | closes when the close button exists, otherwise nothing |
| `Lightbox.LightboxElement.OnLightboxClick` | js/main.js:186-190 | closes only when the click target is the lightbox backdrop itself |
| `Lightbox.LightboxElement.OnKeyDown` | js/main.js:193-197 | closes only on "Escape" while active |

## Left out

- DOM lookups and listener registration (js/main.js:7-13, 17-19, 29-30, 61, 111-113, 157-161) are not modelled. Elements are given as fields, sequences and arrays, and "element exists" is a boolean. A missing `lightbox` means no model object.
- IntersectionObserver geometry (threshold 0.1, root margin) is not modelled. An entry just says whether its element intersects.
- Smooth scrolling, `window.scrollTo` clamping and `scrollIntoView` (js/main.js:72-75, 148-151) are not modelled. The model yields only the requested top position.
- The CSS selectors built from an href or a filter token are not parsed. A selector that throws, or a token with quotes or backslashes, is out of scope. `querySelector` is a map from selector to the found element's `offsetTop`. A missing `.navbar` at js/main.js:69 would throw; the model takes its height as a given.
- `alert`, `console.log` and the 5000 ms delay (js/main.js:221, 228, 233, 240) are not modelled. Alerts are an `Outcome` value, the logged data is the `Submitted` payload, and the timer is the separate step `ResetTimerFires`.
- `ContactForm.Cleared`: `form.reset()` restores each control's default value; the model assumes every default is empty.
- FormData entries that are files, and disabled or unchecked controls, are not modelled. The model gets the entries as name/value strings.
- The caption's `innerHTML` markup (js/main.js:175) is a pair of strings. HTML escaping is not modelled.
- The injected `@keyframes` block (js/main.js:250-263) is not modelled, and neither is the animation string: the model records only whether the fade-in was set.
- Events that bubble from one component into another (a gallery click also reaching the document's outside-click listener) are not modelled. Each component's handlers are modelled on their own; the menu side of such a click is an `Outside` click.
- Gallery items without an `img` would throw at js/main.js:173; every modelled item has an image.
- Missing elements that make a handler throw are not modelled; each modelled handler runs to completion:
  - a missing `#lightbox-img` throws at js/main.js:173, and the lightbox stays closed;
  - a missing `#lightbox-caption` throws at js/main.js:175, after `src` and `alt` are copied, and the lightbox stays closed;
  - a missing `#contact-form` makes `new FormData` throw at js/main.js:213;
  - a missing `#form-success` throws at js/main.js:237, after line 236 has hidden the form, so no success message is shown and no reset is scheduled.
- ContactForm.DataOf stores every entry under its name. In the source `data` is a plain object, and `data[key] = value` (js/main.js:216) under the name `__proto__` with a string value stores nothing. For that one name, `DataOfKeys` and `DataOfLastWins` do not describe the source.
