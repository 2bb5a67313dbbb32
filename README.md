# Portfolio page core, modelled in Dafny

This project models the behaviour of the single-page portfolio site in `src/App.jsx`. It covers the parts that make decisions:

- **the contact form** (`ContactSection` and its `handleSubmit`):
  - it checks that all three fields are filled;
  - it tests the visitor's address against the page's email regex;
  - it builds the subject, the body text and the `mailto:` link;
  - it then tries the delivery paths in a fixed order, stopping at the first that succeeds: EmailJS (only when all three `VITE_EMAILJS_*` values are set), a hidden `mailto:` anchor, the clipboard, and finally an error toast;
- **the active-section tracker** (`useIntersectionObserver`):
  - the observer callback, where the last intersecting entry of a batch wins;
  - the scroll and resize fallback `computeNearest`, which is an argmin over section distances from an anchor, with a strict `<` so the earliest of equally near sections wins;
- **the theme hook** (`useTheme`): the initial theme, the toggle, and the effect on the root element's classes and on the stored value;
- **the toast slot and its style lookup** (`useToast`, `Toast`);
- **navigation state**: `scrollToSection` with its mobile offset, the back-to-top threshold and the mobile menu toggle.

Modules, one per concern:

| file | module | what it holds |
|---|---|---|
| `wrappers.dfy` | `Wrappers` | `Option` |
| `strings.dfy` | `Strings` | index, count, prefix, line and split helpers on `string`, with their lemmas |
| `uri_component.dfy` | `UriComponent` | `encodeURIComponent` written out per the Encode operation of ECMA-262: UTF-8 (RFC 3629), then percent-encoding (section 2.1 of RFC 3986). Also the decoder a mail client applies, proved to invert it. |
| `email_validation.dfy` | `EmailValidation` | the regex `^[^\s@]+@[^\s@]+\.[^\s@]+$` as a predicate, proved equal to a plain description of a well-formed address |
| `message.dfy` | `Message` | the subject, body, `mailto:` link and clipboard text, plus parsers for each. The link is read with the syntax of section 2 of RFC 6068; the reader is lenient in one respect: RFC 6068 (section 5) asks for line breaks in `body` as `%0D%0A`, while `encodeURIComponent` writes the body's `\n` as `%0A`, and the reader accepts that. The parsers are proved to recover the form. |
| `toasts.dfy` | `Toasts` | the toast value, the style lookup and the `ToastCenter` class |
| `submission.dfy` | `Submission` | `Submit` and `Deliver`, the decision functions of the submit handler, and the `ContactSection` class whose `HandleSubmit` runs the chain imperatively and is proved to follow them |
| `theme.dfy` | `Theme` | theme functions and the `ThemeState` class |
| `section_tracker.dfy` | `SectionTracker` | the nearest-section search as a loop proved against a recursive definition, the observer batch rule, and the `Tracker` class |
| `navigation.dfy` | `Navigation` | the scroll offset, the back-to-top threshold and the `Shell` class |

Collaborators the page calls are replaced by their outcomes, given as inputs:

- `emailjs.send`;
- the anchor's `click()`;
- `navigator.clipboard.writeText`;
- `localStorage` and `matchMedia`;
- bounding rectangles and `window.innerHeight`.

`Submission.Environment` holds whether each delivery path works on one submission. For the section tracker, each section ref is a `Slot`: either no element, or the element's id and its integer top.

The guard in `computeNearest` compares the nearest id with `activeSection` as the effect's closure captured it. The effect runs once, so that value is always `"home"`. This is modelled as written: `Tracker.captured` is a constant. `SectionTracker.ScrollNeverRestoresHome` states the consequence: once another section is active, the scroll fallback never makes `"home"` active again; only the observer callback could. On the page the observer watches only the elements of the first mount (src/App.jsx:104-105), and those are replaced at the first re-render of `App` (see Left out), so as the source is written the navigation never highlights Home again once another section has been highlighted.

## Model

| member | source | states |
|---|---|---|
| `EmailValidation.EmailRegexTest` | src/App.jsx:580-581 | The regex as a predicate: an `@` and a later `.` cut the whole string into three non-empty runs that hold neither whitespace nor `@`. It has no contract of its own; `EmailRegexCharacterised` states which strings it accepts. |
| `EmailValidation.EmailRegexCharacterised` | src/App.jsx:580-581 | The regex accepts a string exactly when all of these hold: it has no whitespace in the JavaScript `\s` sense; it has exactly one `@`; it has a non-empty part before the `@`; and the domain after the `@` has a `.` with text on both sides. |
| `EmailValidation.RegexImpliesWellFormed` | src/App.jsx:580-581 | One direction of that equivalence: every accepted address is well formed. |
| `EmailValidation.WellFormedImpliesRegex` | src/App.jsx:580-581 | The other direction: every well-formed address is accepted. |
| `EmailValidation.AcceptedEmailIsOneLine` | src/App.jsx:580-587 | An accepted address holds no line break, so the `Email:` line of the body stays one line. |
| `UriComponent.Utf8Char` | src/App.jsx:586-588 | A character takes 1 to 4 UTF-8 octets, and one octet exactly when it is ASCII, which is then its own code. |
| `UriComponent.EncodeUriComponent` | src/App.jsx:586-588 | The encoded text holds only unescaped characters and `%`, so it holds none of the `mailto:` delimiters `?`, `&`, `=` and `#`. |
| `UriComponent.EncodeChar` | src/App.jsx:586-588 | The encoding of one character uses only unescaped characters and `%`. |
| `UriComponent.PercentOctets` | src/App.jsx:586-588 | Percent-written octets use only `%` and characters of the unescaped set. |
| `UriComponent.HexDigit` | src/App.jsx:586-588 | Each written hexadecimal digit lies in the unescaped set, so it is never escaped again. |
| `UriComponent.HexDigitValue` | src/App.jsx:586-588 | About the encoder's inverse, which the page never runs: reading a written hexadecimal digit back gives its value. |
| `UriComponent.Utf8CharDecodes` | src/App.jsx:586-588 | About the encoder's inverse, which the page never runs: the UTF-8 octets of a character decode to that character and consume exactly their own length. |
| `UriComponent.Utf8RoundTrip` | src/App.jsx:586-588 | About the encoder's inverse, which the page never runs: decoding the UTF-8 octets of any string gives the string back. |
| `UriComponent.PercentOctetsDecode` | src/App.jsx:586-588 | About the encoder's inverse, which the page never runs: percent-decoding percent-written octets gives the octets back, followed by whatever comes after them. |
| `UriComponent.EncodeCharDecode` | src/App.jsx:586-588 | About the encoder's inverse, which the page never runs: percent-decoding one encoded character gives its UTF-8 octets. |
| `UriComponent.PercentDecodeOfEncode` | src/App.jsx:586-588 | About the encoder's inverse, which the page never runs: percent-decoding an encoded string gives the UTF-8 octets of the original. |
| `UriComponent.EncodeRoundTrip` | src/App.jsx:586-588 | Decoding undoes `encodeURIComponent` for every string, so the subject and the body reach the mail client intact. |
| `UriComponent.DecodeLiteral` | src/App.jsx:589 | About the encoder's inverse, which the page never runs: text without `%` decodes to itself. This applies to the owner's address and the header names written literally in the link. |
| `UriComponent.PercentDecodeLiteral` | src/App.jsx:589 | About the encoder's inverse, which the page never runs: text without `%` percent-decodes to its own UTF-8 octets. |
| `UriComponent.ScalarOf` | src/App.jsx:586-588 | Part of the encoder's inverse, the decoder a mail client applies, which the page never runs: a decoded code point is returned with the number of octets it used. |
| `UriComponent.Utf8DecodeFirst` | src/App.jsx:586-588 | Part of the encoder's inverse, the decoder a mail client applies, which the page never runs: a decoded first character consumes between 1 octet and all of the input. |
| `UriComponent.HexValue` | src/App.jsx:586-588 | Part of the encoder's inverse, the decoder a mail client applies, which the page never runs: a hexadecimal digit's value lies in 0-15. |
| `Message.Subject` | src/App.jsx:586 | `Portfolio Contact from ` followed by the name, the subject of the link, of the EmailJS parameters (606) and of the clipboard text (635). No contract of its own; `SubjectIsOneLine`, `MailtoRoundTrip` and `ClipboardRoundTrip` state its properties. |
| `Message.BodyText` | src/App.jsx:587 | The three labelled fields of the message body. No contract of its own; `BodyRoundTrip` states that it loses nothing. |
| `Message.MailtoLink` | src/App.jsx:589 | `mailto:`, the owner's address, then the encoded `subject` and `body` fields. No contract of its own; `MailtoRoundTrip` states what a reader of the link recovers. |
| `Message.ClipboardText` | src/App.jsx:635 | The owner's address, the subject line and the body, separated by blank lines. No contract of its own; `ClipboardRoundTrip` states what a reader recovers. |
| `Message.BodyRoundTrip` | src/App.jsx:587 | The body lists Name, Email and Message in that order and loses nothing. When the name and the address hold no line break, parsing the body gives the form back. The name comes from an `<input type="text">` (src/App.jsx:681-689), whose value the browser strips of line breaks, and the address passes the regex, which excludes them, so every submission meets the requirement. |
| `Message.SubjectIsOneLine` | src/App.jsx:586 | The subject holds no line break when the name holds none. |
| `Message.ClipboardRoundTrip` | src/App.jsx:635 | Parsing the clipboard text gives back the owner's address, the subject and the whole form, when the name and the address hold no line break. The name comes from an `<input type="text">` (src/App.jsx:681-689), whose value the browser strips of line breaks, and the address passes the regex, which excludes them, so every submission meets the requirement. |
| `Message.ParseHeaderOf` | src/App.jsx:586-589 | An encoded header field `name=value` parses back to the name and the value. |
| `Message.HeaderHasNoAmpersand` | src/App.jsx:586-589 | An encoded header field holds no `&`, so the fields of the query split apart correctly. |
| `Message.SplitTwo` | src/App.jsx:589 | A query made of two fields joined by `&` splits into exactly those two fields. |
| `Message.ParseTwo` | src/App.jsx:589 | Two header fields parse to their two pairs, in order. |
| `Message.TwoFields` | src/App.jsx:589 | A two-field query decodes to its two (name, value) pairs in order. |
| `Message.QueryRoundTrip` | src/App.jsx:586-589 | The query decodes to exactly `subject` then `body`, carrying the original values. |
| `Message.MailtoRoundTrip` | src/App.jsx:586-589 | Under the syntax of RFC 6068, the link addresses the owner and carries exactly two header fields, `subject` then `body`. Their decoded values are the subject line and the body text. |
| `Toasts.StyleFor` | src/App.jsx:173-191 | `success` and `error` get their own styles. Every other kind gets the warning style. A missing kind cannot occur: see the line on the default `type` under Left out. |
| `Toasts.ToastCenter.constructor` | src/App.jsx:151 | No toast is shown at first. |
| `Toasts.ToastCenter.Show` | src/App.jsx:153-155 | The toast on screen becomes exactly this message and kind. It replaces any earlier toast, and the history records it. |
| `Submission.HasEmptyField` | src/App.jsx:575 | Some field is the empty string, the only falsy value a form field can hold, so `!form.name || !form.email || !form.message` holds. `Submit`'s first ensures states what follows. |
| `Submission.IsSet` | src/App.jsx:596-600 | JavaScript truthiness of an environment value: defined and not empty. Used by `IsConfigured`. |
| `Submission.IsConfigured` | src/App.jsx:600 | All three EmailJS values are set. `Deliver` states that EmailJS is tried exactly when this holds. |
| `Submission.ParamsOf` | src/App.jsx:602-607 | The template parameters: name, address, message and subject. `Deliver` states that EmailJS is handed exactly these, and `DeliveredContentRecoversForm` that they carry the form. |
| `Submission.Submit` | src/App.jsx:572-649 | An empty field gives the "fill all fields" error; an address the regex rejects gives the invalid-address error. In both cases nothing is sent and the handler itself leaves the form as it is (the page then remounts the section, which empties it: see Left out). Otherwise the delivery chain runs. Delivery is attempted exactly when the form passes both checks. |
| `Submission.Deliver` | src/App.jsx:586-648 | At least one path is tried, in the order EmailJS, anchor, clipboard, and each at most once. Each path is handed the form's parameters, the `mailto:` link or the clipboard text. EmailJS is tried if and only if all three values are set. The anchor is tried if and only if EmailJS was not tried or failed. The clipboard is tried if and only if both earlier paths failed or were skipped and the clipboard API exists. Every path but the last failed. The handler clears the form itself exactly when the last path succeeded. The toast names the path that succeeded, or the clipboard error, or the final error. |
| `Submission.DeliveredContentRecoversForm` | src/App.jsx:586-648 | Whatever path a valid submission reaches, what it hands on carries the whole form. EmailJS gets the three fields. The link decodes to the owner, the subject and the body, and the body parses back to the form. The clipboard text parses back to the owner, the subject and the form. It requires a name without line breaks, which the name's `<input type="text">` (src/App.jsx:681-689) guarantees because the browser strips them from its value. |
| `Submission.ContactSection.constructor` | src/App.jsx:566 | The form starts empty. |
| `Submission.ContactSection.HandleChange` | src/App.jsx:568-570 | The named field takes the input's value and the other two fields keep theirs. |
| `Submission.ContactSection.HandleSubmit` | src/App.jsx:572-649 | The imperative handler shows exactly the toast `Submit` gives, makes exactly its calls in order, and clears the form itself exactly when `Submit` says. Remounting by the page is outside the handler: see Left out. |
| `Theme.InitialTheme` | src/App.jsx:64-71 | The theme is never empty. A non-empty stored theme wins. Otherwise the theme is `dark` exactly when a window exists and prefers dark, and `light` in every other case. |
| `Theme.Toggled` | src/App.jsx:85-87 | The result is always `light` or `dark`, and it is `dark` exactly when the previous theme was `light`. |
| `Theme.ToggleInvolution` | src/App.jsx:85-87 | On the two themes, toggling twice restores the theme, and toggling once always changes it. |
| `Theme.RootClasses` | src/App.jsx:73-81 | The root has class `dark` exactly when the theme is `dark`, and class `light` exactly when it is not. Other classes are untouched. |
| `Theme.ThemeState.constructor` | src/App.jsx:64-71 | The state starts at the initial theme, which is never empty (`Valid`). |
| `Theme.ThemeState.ToggleTheme` | src/App.jsx:85-87 | The theme becomes the toggle of the previous theme, and stays non-empty. |
| `Theme.ThemeState.ApplyTheme` | src/App.jsx:73-83 | The root's classes become those of `RootClasses` and the theme is stored. Because the theme is never empty, the stored value is what `InitialTheme` starts a later visit with, whatever that visit's colour-scheme preference. |
| `SectionTracker.Distance` | src/App.jsx:117 | `Math.abs(rect.top - viewportMiddle)` on integers. `NearestUpToIsArgmin` states the search's result in terms of it. |
| `SectionTracker.NearestUpTo` | src/App.jsx:110-122 | A winner, when there is one, is a set slot among those scanned. |
| `SectionTracker.NearestUpToIsArgmin` | src/App.jsx:110-122 | The scan's winner is nearest to the anchor among the set slots, and strictly nearer than every earlier one, so ties go to the earliest. There is no winner only when no slot is set. |
| `SectionTracker.NearestId` | src/App.jsx:110-122 | The id the search finds: None exactly when no section ref is set, otherwise the id of the nearest set section. |
| `SectionTracker.NearestIsUnique` | src/App.jsx:118 | With the strict comparison, only one slot can be the nearest. |
| `SectionTracker.FindNearest` | src/App.jsx:110-122 | The loop returns the id of the nearest set section, or None exactly when no section ref is set. |
| `SectionTracker.ScrollUpdate` | src/App.jsx:123-125 | With no section rendered, the active section is unchanged. Otherwise the result is either unchanged or an id that is nearest, non-empty and different from the captured value. The nearest id becomes active whenever it is non-empty and differs from the captured value. |
| `SectionTracker.ScrollNeverRestoresHome` | src/App.jsx:123-125 | Because the closure captured `"home"`, the scroll fallback never turns an active non-`home` section back into `home`. |
| `SectionTracker.LastIntersecting` | src/App.jsx:97-101 | The result is None exactly when no entry of the batch intersects. Otherwise it is the id of an intersecting entry after which no entry intersects. |
| `SectionTracker.Tracker.constructor` | src/App.jsx:93 | The active section, and the value the listener captured, both start as `home`. |
| `SectionTracker.Tracker.OnIntersections` | src/App.jsx:96-101 | After the callback, the active section is the last intersecting entry's id, or unchanged when none intersects. |
| `SectionTracker.Tracker.ComputeNearest` | src/App.jsx:108-129 | The active section becomes the result of `ScrollUpdate` for the captured value. |
| `Navigation.ScrollOffset` | src/App.jsx:258 | The offset is 0 or 90, and 0 exactly when the viewport is at least 768 pixels wide. |
| `Navigation.ScrollTarget` | src/App.jsx:261-263 | The scroll target plus the offset is the section's `offsetTop`. On wide viewports it is `offsetTop` itself. |
| `Navigation.ShowsBackToTop` | src/App.jsx:270 | `scrollY > 500`. `Shell.HandleScroll` states that the button's visibility is exactly this. |
| `Navigation.Shell.constructor` | src/App.jsx:227-228 | The menu starts closed, the button hidden, and no scroll has been requested. |
| `Navigation.Shell.ScrollToSection` | src/App.jsx:254-267 | With the ref set, the page is asked to scroll to `ScrollTarget` and the menu closes. With the ref unset, nothing changes. |
| `Navigation.Shell.HandleScroll` | src/App.jsx:269-271 | The button shows exactly when `scrollY` is above 500. |
| `Navigation.Shell.ToggleMobileMenu` | src/App.jsx:365 | The menu's open state flips. |

## Left out

- The JSX markup, Tailwind classes, icons and the static `personalData` content are presentation. Only the owner's address is used, as `Message.OwnerEmail`.
- `emailjs.send`, the DOM anchor, `navigator.clipboard` and `console.error` are foreign calls. The model keeps only whether each call succeeds, as `Submission.Environment`, and what it is handed, as `Submission.Delivery`. The `await` ordering is not modelled because each path starts only after the previous one has settled.
- `IntersectionObserver` thresholds and geometry, and the registration and removal of the `scroll`/`resize` listeners. The model receives the observer's entries and the section tops as data.
- Floating point: `window.innerHeight * 0.35` and `getBoundingClientRect().top` are modelled as integers, with the anchor as an input. `window.scrollY` and `offsetTop` are integers too.
- The `try`/`catch` around `computeNearest` is left out because nothing in the model can throw there.
- Reading the stored theme with `localStorage.getItem` (src/App.jsx:66) is an input that always answers. When storage is blocked the browser throws a `SecurityError` there, and an exception in the `useState` initialiser stops the page rendering; that failure is not modelled.
- The `setTimeout` auto-dismiss of a toast (src/App.jsx:156-158) needs a clock. The toast stays until the next one replaces it.
- The default `type = 'success'` of `showToast` is left out because every call in the core passes a type.
- The Copy button (src/App.jsx:715-734) is a second clipboard path outside `handleSubmit`, with its own text and toasts. It is not part of the modelled core.
- The back-to-top click (src/App.jsx:802) is a single foreign call that holds no logic.
- `Toasts.StyleFor`: does not model a `type` that names an inherited property of a plain object (such as `constructor`). JavaScript would find such a property in `styleMap` rather than fall back to the warning style.
- `EmailValidation.EmailRegexTest` and `UriComponent.EncodeUriComponent` work on Unicode scalar values, not on UTF-16 code units. A lone surrogate, on which `encodeURIComponent` throws, cannot occur in the model's strings.
- React's rendering, the identity of the section refs across renders, and the re-created closures are not modelled. The tracker keeps the value captured at mount, which is what the effect with its fixed dependencies sees.
- `Submission.Submit`, `Submission.ContactSection.HandleSubmit` and `SectionTracker.Tracker.OnIntersections` do not model the remounting of the page's sections. `ContactSection` and the other sections are declared inside `App` (src/App.jsx:397-565), so every re-render of `App` gives them a new component type and React mounts them afresh. `App` re-renders on every toast (src/App.jsx:153-154, 230) and on every change of the active section, the theme or the back-to-top flag. Two consequences follow. First, the typed form is emptied after every toast, including the validation errors, the clipboard failure and the final error, where the handler itself keeps the form. Second, after the first re-render the observer (src/App.jsx:104-105) watches detached elements and reports nothing more, so only `computeNearest` changes the active section, and it never selects `"home"`.
- `Submission.Submit`: the browser's own constraint validation is left out. The inputs carry `required` and the address input `type="email"` (src/App.jsx:687, 691, 696, 705), so the browser blocks the submit event before `handleSubmit` runs when a field is empty or the address is not a valid email. The empty-field and regex branches are modelled as the handler's code has them.
- `handleSubmit` is `async`: a second press of "Send Message" during the `await` at src/App.jsx:608 or 638 starts a second chain alongside the first. Only one submission at a time is modelled.
- `postcss.config.cjs` is build configuration and is not part of this model.
