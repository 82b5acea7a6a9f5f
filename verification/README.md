# Concrete World site script — a Dafny model

`app.js` drives the Concrete World (Ayaan Hardware) marketing site. Most of it is
DOM glue. This project models the parts that make decisions, as pure functions
and small event-driven state machines, and proves what they guarantee:

- **Quote-form rules** (`validation.dfy`, module `Validation`):
  - the mobile-number pattern `/^[6-9]\d{9}$/`;
  - the e-mail pattern `/^[^\s@]+@[^\s@]+\.[^\s@]+$/`, stated as a structural
    rule and proved equal to a literal reading of the regex;
  - the submit handler's three-way classification and the toast each outcome
    produces;
  - the verdict the input handler gives tel and email fields.
- **`BusinessUtils.formatPhone`** (`phone_format.dfy`). Ten digits become
  `+91 XXXXX XXXXX`; anything else comes back unchanged.
- **`isBusinessHours` / `getBusinessStatus`** (`business_hours.dfy`). These are
  functions of the day of the week and the hour that `Date` would report.
- **`encodeURIComponent`** (`uri_encoding.dfy`). This is the Encode operation of
  ECMA-262 section 19.2.6 (URI Handling Functions): UTF-8 octets
  percent-encoded in the form of section 2.1 of RFC 3986, outside the ECMA
  unreserved set. `decodeURIComponent` is modelled as its partner.
- **WhatsApp texts** (`whatsapp.dfy`). These are `generateWhatsAppMessage` and
  the `wa.me` link built by `initWhatsAppIntegration`, which carries the
  business status.
- **Toast lifecycle** of `showNotification` (`notifications.dfy`). It is a state
  machine over show, close-click, five-second-timer and removal-timer events.
- **Mobile menu** (`mobile_menu.dfy`). The `active` classes on the toggle button
  and the nav element change under clicks (routed to each handler the click
  reaches) and under the Escape key.

Text is a sequence of Unicode scalar values (`text.dfy` holds JavaScript's `\s`
and `\d` classes and the digits-only projection). A JavaScript string that
holds a lone surrogate therefore has no counterpart in the model. This is why
the `URIError` that `encodeURIComponent` throws for such strings is not
modelled. For every string the model does cover, the lengths these rules test, and
their regex matches, are the same whether counted in UTF-16 code units or in
code points. The reason is that the rules involved either count ASCII digits
only, or match one class repeatedly (`[^\s@]+`), and both halves of a
surrogate pair fall in that class. Other lengths can differ: a character
outside the Basic Multilingual Plane has length 2 in JavaScript.

Behaviour worth knowing, as the code has it:

- `isBusinessHours` tests `hours <= 19`, so the shop counts as open until 19:59.
  That makes 66 open hours a week. The closed-status text advertises
  "9 AM - 7 PM", which would be 60. The model follows the code
  (`OpenHoursPerWeek`).
- The formatted phone `+91 XXXXX XXXXX` is 15 characters long.
- A field holding only spaces is present for the submit handler. Its
  required-field test is JavaScript truthiness, not `trim`.
- Old timers are not cancelled when a new toast replaces the current one.
  Instead:
  - the five-second timer checks `document.body.contains` before it acts;
  - a removal timer on a detached element does nothing.

  The model keeps those timers pending and proves they cannot disturb the new
  toast.

## Model

| member | source | states |
|---|---|---|
| Validation.IsValidPhone | app.js:191 | the definition: exactly ten characters, all ASCII digits, the first one 6 to 9 |
| Validation.IsValidEmail | app.js:475 | the definition: no whitespace, a first `@` with a non-empty part before it, no second `@`, and a `.` strictly inside a domain of at least three characters. Its equivalence with the regex is `EmailRuleMatchesPattern` |
| Validation.MatchPhone | app.js:191-192 | a left-to-right scan accepts exactly the strings of ten ASCII digits whose first digit is 6 to 9 |
| Validation.PhoneExamples | app.js:191-192 | `9876543210` matches; `1234567890`, the 11-digit `98765432100` and the empty string do not |
| Text.IsWs | app.js:475 | the definition of `\s`: the WhiteSpace and LineTerminator code points of ECMA-262 (TAB, VT, FF, SP, NBSP, ZWNBSP, the other Zs code points, LF, CR, LS, PS) |
| Validation.MatchesEmailPattern | app.js:475 | the definition: the string splits as atom `@` atom `.` atom, each atom a non-empty run of characters that are neither `\s` nor `@` |
| Validation.EmailRuleMatchesPattern | app.js:474-476 | the structural rule accepts exactly what the regex matches. The rule: no whitespace, exactly one `@` with something before it, and a `.` inside the domain that is neither its first nor its last character |
| Validation.EmailAcceptsExample | app.js:475 | `a@b.co` is accepted |
| Validation.EmailRejectsExamples | app.js:475 | the examples `a@b`, `@b.co`, `a@.co` and `a@b.` are rejected |
| Validation.EmailRejectsLeadingAt | app.js:475 | any string that starts with `@` is rejected, because its local part is empty |
| Validation.EmailRejectsNoDotInDomain | app.js:475 | any string with no `.` after its first `@` is rejected |
| Validation.EmailRejectsWhitespace | app.js:475 | any string with a whitespace character at any position is rejected |
| Validation.EmailRejectsSecondAt | app.js:475 | any string with two `@` characters, wherever they stand, is rejected |
| Validation.ClassifySubmit | app.js:184-195 | the result is Missing iff a field is the empty string. Otherwise it is InvalidPhone iff the phone rule fails, and Accepted iff it holds |
| Validation.EmptyPhoneIsMissing | app.js:184-188 | an empty phone is reported as missing, never as invalid |
| Validation.BlankNameIsPresent | app.js:184 | every non-empty name made only of whitespace, with a valid phone and a non-empty category, is accepted |
| Validation.SubmitNotice | app.js:184-211 | both rejections are shown with type `error` and acceptance with type `success` |
| Validation.SubmitNoticesDistinct | app.js:184-211 | the three outcomes give three different notices |
| Validation.FieldCheck | app.js:464-481 | an empty value leaves the field's marking as it was. A non-empty tel value is marked valid iff the phone rule holds, and a non-empty email value iff the e-mail regex matches |
| Text.Digits | app.js:583 | the result of `replace(/\D/g, '')` holds only ASCII digits and is no longer than the input. `DigitsAppend` shows it works character by character, `DigitsOfAllDigits` that it keeps an all-digit string unchanged |
| PhoneFormat.FormatPhone | app.js:582-588 | with exactly ten digits the result is 15 characters: `+91 `, the first five digits, a space, the last five. Otherwise the input comes back unchanged |
| PhoneFormat.FormattedDigits | app.js:583-585 | the digits of the display form are `91` followed by the input's digits |
| PhoneFormat.LocalNumberRoundTrip | app.js:582-588 | the input's digits are recovered from the display form by dropping the country code |
| PhoneFormat.FormatIdempotent | app.js:582-588 | formatting twice equals formatting once |
| PhoneFormat.FormatValidPhone | app.js:584-585 | a number the form accepts is regrouped from its own characters |
| PhoneFormat.FormatIgnoresSeparator | app.js:583-585 | a non-digit separator between the two groups of five does not change the result |
| BusinessHours.IsBusinessHours | app.js:602-609 | the definition: a day other than Sunday and an hour from 9 to 19 inclusive |
| BusinessHours.BusinessStatus | app.js:612-618 | the open text is returned iff the business-hours predicate holds; otherwise the closed text |
| BusinessHours.SundayClosed | app.js:605-608 | Sunday is closed at every hour |
| BusinessHours.HourBoundaries | app.js:608 | on a working day 08 is closed, 09 and 19 are open, and 20 is closed |
| BusinessHours.SameHoursEveryWorkingDay | app.js:608 | Monday to Saturday have identical hours |
| BusinessHours.OpenHoursContiguous | app.js:608 | the open hours of a day form one unbroken stretch |
| BusinessHours.OpenHoursPerWorkingDay | app.js:607-608 | counted from any hour, a working day's remaining open hours follow the 09-19 window: 11 in all |
| BusinessHours.OpenHoursPerWeek | app.js:601-608 | the week has 66 open hours |
| UriEncoding.Utf8RoundTrip | app.js:598 | the UTF-8 octets of every code point decode back to it, and the lead octet announces their count |
| UriEncoding.Encode | app.js:598 | `encodeURIComponent` works code point by code point, and the result is never shorter than the text. Its form, inverse and injectivity are stated by the rows below |
| UriEncoding.Decode | app.js:598 | the partner of `encodeURIComponent`, following the Decode operation of ECMA-262 with an empty reserved set: other characters are copied, each escape sequence must be shortest-form UTF-8 of a scalar value, and None stands for `URIError`. The decoded text is never longer than its input |
| UriEncoding.EncodeForm | app.js:598 | the encoding consists only of unreserved characters and `%XY` triples with upper-case hex digits |
| UriEncoding.DecodeEncode | app.js:598 | decoding the encoding gives back the original text, for every text |
| UriEncoding.EncodeInjective | app.js:633 | different texts never share an encoding |
| UriEncoding.EncodeAppend | app.js:598 | encoding is applied code point by code point, so it distributes over concatenation |
| UriEncoding.EncodeExamples | app.js:598 | a space becomes `%20` and a newline `%0A`; unreserved marks stay as they are |
| WhatsApp.ComposeMessage | app.js:591-597 | the message starts with the fixed greeting and ends with `Thank you!`. `IntroFields` places the customer's fields in between |
| WhatsApp.IntroFields | app.js:593 | in the line after the greeting, the name follows `I'm `, then ` (` and the phone, and the category stands just before the `.` and newline that end the line |
| WhatsApp.GenerateWhatsAppMessage | app.js:591-599 | the result is in encoded form and decodes to the composed message |
| WhatsApp.DetailsLineIff | app.js:594-596 | right after the intro line, the `Project Details: ` label stands iff the details are non-empty, followed by the details text |
| WhatsApp.DetailsOnlyInsert | app.js:592-597 | with details, the message is the one without details plus the details paragraph inserted after the intro line |
| WhatsApp.EnquiryText | app.js:627-629 | the enquiry is the fixed sentence, then `\n\n`, then the current business status |
| WhatsApp.WhatsAppHref | app.js:627-633 | the link is the fixed `wa.me` base for 918660775309 plus an encoded query. The query decodes to the enquiry, whose status is the open text iff in business hours |
| WhatsApp.HrefReflectsHours | app.js:627-633 | two clock readings give the same link iff both are open or both are closed |
| Notifications.Background | app.js:238-257 | a type in the colour table gets its colour; any other type gets the info colour |
| Notifications.BackgroundExamples | app.js:238-243 | error is `#dc3545` and warning is `#d4af37`. Success and an unknown type share the info colour |
| Notifications.Step | app.js:228-284 | only a show attaches a toast, and then exactly the new one under a fresh id. Every other event keeps or shrinks the attached set, a close click keeps it, and ids are never drawn twice |
| Notifications.Dismiss | app.js:272-275 | closing keeps the toast attached, marks it dismissing and schedules its removal |
| Notifications.ShowReplacesAll | app.js:229-280 | after a show, exactly the new toast is attached, not dismissing, under a fresh id, whatever was attached before. Its five-second timer is added to the pending ones, and the removal timers are unchanged |
| Notifications.AutoTimerDetachedNoop | app.js:278-283 | a five-second timer whose toast is gone changes neither the page nor the removal timers; only its own pending entry goes |
| Notifications.AutoTimerAttachedDismisses | app.js:277-283 | a five-second timer whose toast is attached marks it dismissing, drops its own pending entry and schedules exactly one removal |
| Notifications.RemoveTimerOnlyOwn | app.js:272-283 | a removal timer detaches its own toast and leaves every other one as it was. Exactly one removal entry for that toast is used up, and the five-second timers are unchanged |
| Notifications.CloseKeepsAttached | app.js:272-275 | a close click only marks its toast dismissing and adds one removal timer for it; the five-second timers are unchanged |
| Notifications.StepInv | app.js:228-284 | every event keeps the lifecycle invariant. At most the newest toast is attached. A shown toast has its five-second timer pending; a dismissing toast has a removal pending |
| Notifications.InvAtMostOne | app.js:229-233 | the invariant allows at most one attached toast |
| Notifications.RunInv | app.js:228-284 | the invariant holds after any run of enabled events |
| Notifications.AtMostOneAttached | app.js:229-268 | no sequence of shows, clicks and timers ever leaves two toasts on the page |
| Notifications.RemovalOnlyAfterExit | app.js:272-283 | for every enabled event other than a show, a toast that the event detaches was already dismissing |
| Notifications.TimersClearPage | app.js:277-283 | from any reachable page, some run of at most two events, all of them timer events, empties the page |
| Notifications.SubmitNoticeShown | app.js:184-211 | a rejected submission shows one red toast; an accepted one shows one toast that is not red |
| MobileMenu.ToggleHandler | app.js:27-30 | a toggle click flips both classes |
| MobileMenu.DocumentClickHandler | app.js:42-47 | a click outside nav and toggle clears both classes; any other click leaves them |
| MobileMenu.ClickStep | app.js:27-47 | toggle-button clicks flip the menu. Nav-link and outside clicks close it. Other clicks inside the nav change nothing |
| MobileMenu.KeyStep | app.js:508-513 | Escape closes both when the nav is active; otherwise keys change nothing |
| MobileMenu.MenuStep | app.js:27-47 | a toggle click flips the menu. On a menu whose classes agree, a link click, an outside click or Escape leaves it closed. Every other event leaves it unchanged |
| MobileMenu.StepKeepsSynced | app.js:27-47 | every click or key keeps equal classes equal |
| MobileMenu.RunKeepsSynced | app.js:27-47 | equal classes stay equal over any sequence of events |
| MobileMenu.FromClosedSynced | app.js:27-47 | from page load, the toggle shows active exactly when the nav is open |
| MobileMenu.ToggleTwiceIdentity | app.js:27-30 | two toggle clicks restore the menu |
| MobileMenu.CloseIdempotent | app.js:35-47 | a link or outside click closes the menu, and closing again changes nothing |
| MobileMenu.EscapeIgnoresToggleAlone | app.js:510-512 | Escape looks only at the nav: an active toggle with a closed nav stays as it is |
| MobileMenu.OpenIffOddToggles | app.js:27-47 | from page load, the nav is open iff an odd number of toggle clicks followed the last closing event |

## Left out

- DOM manipulation, the injected style sheets, `innerHTML` rendering and console logging are left out. They are presentation with no decisions. This includes the fact that toast messages are inserted unescaped.
- Timer durations (5000 ms, 300 ms, 1500 ms, 800 ms, 2000 ms, the stagger delays) are left out. Timers are events that fire in any order once scheduled.
- The clock read (`new Date()`) is left out. Day and hour are parameters.
- `animateCounter`, the ripple geometry, the scroll and header thresholds, smooth-scroll offsets, IntersectionObserver wiring and hover effects are left out. They are floating-point or layout arithmetic on browser-supplied values.
- `debounce` is left out. It is only timer behaviour and nothing calls it.
- The simulated submission, the form reset and `highlightEmptyFields` are left out, along with the required-field border colours of the input handler (app.js:455-461). These are styling only.
- The `formData.get(...) || element.value` fallback (app.js:179-181) is left out. The model assumes that each form control's `name` and `id` belong to the same element. Under that assumption of the HTML, both sides read the same field, so each field is one string.
- The product-card clicks, the welcome toast and the Ctrl+M shortcut are left out. They only call `showNotification`, or scroll to the quote form and preselect its category.
- The guards for a missing toggle button or nav element are left out. Both elements are assumed present.
- Notifications.Background: a `type` naming an `Object.prototype` member (such as `toString`) reads an inherited value in JavaScript. The model gives such a type the info colour.
- Notifications.Step: its own contract speaks only of the attached ids and the id counter. The notes' fields and both kinds of pending timers after each event are stated by the per-event lemmas listed above: `ShowReplacesAll`, `CloseKeepsAttached`, `AutoTimerDetachedNoop`, `AutoTimerAttachedDismisses` and `RemoveTimerOnlyOwn`.
- The default `type = 'info'` of `showNotification` is left out. Every call in app.js passes a type (lines 167, 185, 193, 206 and 532), so no reachable call uses the default.
- The page-load state of the menu is left out of app.js. The model starts from both `active` classes off (`MobileMenu.Closed`), which is an assumption about the HTML.
- Nothing in app.js calls `initWhatsAppIntegration` (defined at app.js:622). `WhatsApp.WhatsAppHref` states what the links would be once it is called.
- WhatsApp.GenerateWhatsAppMessage: arguments that are not strings (for example `undefined`, which a template would print as `undefined`) are not modelled. Every argument is a string, and the omitted `details` is the empty string.
- The lone-surrogate `URIError` of `encodeURIComponent` is left out. Model strings cannot contain lone surrogates.
