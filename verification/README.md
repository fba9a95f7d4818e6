# Terry website controllers, modelled in Dafny

`Terry/script.js` wires a small one-page website. It has four parts:

- **Navigation.** Clicking a nav link or a call-to-action button makes exactly one nav link and one page section carry the `active` class. The hamburger opens and closes the mobile menu.
- **Slider.** A current-slide index moves the `active` class to the neighbouring slide, wrapping at both ends. The previous and next buttons and a five-second timer drive it.
- **Contact-form validation rules.** Name, email, phone, subject and message each have a rule. Each failure writes one fixed message into that field's error element.
- **Contact-form controller.** It checks the whole form on submit and a single field on blur. Typing clears a field's error. A successful submit shows "Sending..." and disables the button until a completion 1.5 s later resets the form and restores the button.

The model has six modules:

- `Seqs`: counting, first-match lookup and one-hot flag rows. First-match lookup models `getElementById` and `querySelector`, which return the first element in document order.
- `Text`: ECMAScript whitespace and `String.prototype.trim`.
- `Rules`: the five field rules and their error texts, as pure functions. Each rule comes with lemmas that state in plain terms what it accepts.
- `Slides`: the slider as a class over an array of `active` flags, with JavaScript's truncating `%` written out.
- `Navigation`: the links, pages and menu as a class over arrays of `active` flags.
- `Contact`: the form as a class whose fields are the five input values, one error text per field, the button text, `disabled`, and the queue of pending completions.

## Model

| member | source | states |
|---|---|---|
| Seqs.Count | Terry/script.js:22-27 | the number of occurrences is at most the length (used to say "exactly one element is active") |
| Seqs.CountZero | Terry/script.js:22-27 | no occurrence exactly when the element is absent |
| Seqs.CountAppend | Terry/script.js:22-27 | counts add up over a concatenation |
| Seqs.CountOneAt | Terry/script.js:22-27 | with `x` at position `k`, `x` occurs once iff no other position holds `x` |
| Seqs.IndexOf | Terry/script.js:27 | `getElementById`/`querySelector` pick the first element in document order that matches: the result holds `x` and no earlier position does |
| Seqs.OnlyAt | Terry/script.js:22-23 | the one-hot row of `n` flags has length `n` |
| Seqs.OnlyAtExactlyOne | Terry/script.js:22-27 | a row with position `k` set is the one-hot row for `k` iff exactly one flag is set |
| Text.TrimStart | Terry/script.js:97 | removing leading whitespace never lengthens the text |
| Text.TrimEnd | Terry/script.js:97 | removing trailing whitespace never lengthens the text |
| Text.Trim | Terry/script.js:97 | `value.trim()` (TrimStart then TrimEnd) never lengthens the text; TrimSpec, TrimEmptyIff and TrimIdempotent characterise it |
| Text.TrimStartSpec | Terry/script.js:97 | TrimStart drops a whitespace-only prefix and stops at a non-whitespace character |
| Text.TrimEndSpec | Terry/script.js:97 | TrimEnd drops a whitespace-only suffix and stops at a non-whitespace character |
| Text.TrimSpec | Terry/script.js:97 | `trim()` is the slice between a whitespace prefix and a whitespace suffix, and starts and ends with non-whitespace |
| Text.TrimEmptyIff | Terry/script.js:97 | `!value.trim()` holds exactly when the value is all whitespace (or empty) |
| Text.TrimIdempotent | Terry/script.js:97 | trimming twice equals trimming once |
| Rules.MinLength | Terry/script.js:97-140 | the minimum trimmed lengths 2 (name), 5 (subject), 10 (message); zero exactly for email and phone, which have no length check |
| Rules.LengthRule | Terry/script.js:97-140 | the name, subject and message check never reports a malformed value; LengthRuleSpec gives its three verdicts as iffs |
| Rules.LengthRuleSpec | Terry/script.js:97-103 | required iff blank; too short iff not blank and the trimmed length is under the minimum; otherwise it passes |
| Rules.EmailPattern | Terry/script.js:106 | the regex as a split into three non-empty runs of `[^\s@]` around an '@' and a '.'; a match is at least 5 characters long; EmailPatternIff gives its plain-words meaning |
| Rules.EmailPatternHasShape | Terry/script.js:106 | any split of the text that the regex accepts gives an address of the plain-words shape |
| Rules.EmailShapeHasPattern | Terry/script.js:106 | every plain-words address is matched by the regex |
| Rules.EmailPatternIff | Terry/script.js:106 | `/^[^\s@]+@[^\s@]+\.[^\s@]+$/` accepts exactly the texts with no whitespace, exactly one '@' with something before it, and a '.' inside the domain that is neither its first nor its last character |
| Rules.EmailRule | Terry/script.js:107-113 | the email check never reports "too short"; EmailRuleSpec says what it accepts |
| Rules.EmailRuleSpec | Terry/script.js:105-113 | required iff blank; passes iff the untrimmed text has the address shape; malformed otherwise |
| Rules.Strip | Terry/script.js:118 | `value.replace(/[\s\-\(\)]/g, '')` never lengthens the text; StripRemovesSeparators, StripAppend and StripKeeps pin it down |
| Rules.StripRemovesSeparators | Terry/script.js:118 | `replace(/[\s\-\(\)]/g, '')` leaves no whitespace, '-', '(' or ')' and never lengthens the text |
| Rules.StripAppend | Terry/script.js:118 | stripping works on each part of a concatenation separately, keeping the other characters in order |
| Rules.StripKeeps | Terry/script.js:118 | text without separators is unchanged by stripping |
| Rules.StripDigits | Terry/script.js:118 | a run of digits is unchanged by stripping |
| Rules.StripSeparatorsOnly | Terry/script.js:118 | text made only of separators strips to the empty string |
| Rules.StripAround | Terry/script.js:118 | separators between two pieces vanish |
| Rules.PhonePattern | Terry/script.js:117 | `/^[\+]?[1-9][\d]{0,15}$/`: a match is 1 to 17 characters long |
| Rules.PhoneRule | Terry/script.js:116-122 | the phone check only passes or reports a malformed number; PhoneRuleSpec says what it accepts |
| Rules.PhoneRuleSpec | Terry/script.js:115-122 | the phone is optional: it passes iff it is blank or its stripped text matches `/^[\+]?[1-9][\d]{0,15}$/`; the only failure is "malformed" |
| Rules.PhoneAcceptedLength | Terry/script.js:117-118 | an accepted non-blank phone strips to 1 to 17 characters, all digits except an optional leading '+' |
| Rules.FieldRule | Terry/script.js:96-140 | the rule for each field gives only the verdicts that field's branches can give (email never "too short", phone only passes or is malformed, the others never "malformed") |
| Rules.ErrorText | Terry/script.js:98-139 | the nine messages written by showError, picked by field and verdict; none is empty |
| Rules.Error | Terry/script.js:96-140 | a field gets a message iff its rule fails, and the message is never empty; the messages are the source's nine texts |
| Rules.EmailSampleValid | Terry/script.js:106-110 | "a@b.c" passes |
| Rules.EmailSampleNoDot | Terry/script.js:106-110 | "a@b" is malformed |
| Rules.EmailSampleInnerSpace | Terry/script.js:106-110 | "a b@c.d" is malformed |
| Rules.EmailSampleLeadingSpace | Terry/script.js:106-110 | " a@b.c" is malformed: the blank check trims, but the regex sees the untrimmed text |
| Rules.FormattedNumberStrips | Terry/script.js:118 | a number written "(AAA) BBB-CCCC" strips to its digits AAABBBCCCC |
| Rules.FormattedNumberPasses | Terry/script.js:116-122 | such a number passes when it does not start with zero and has at most 16 digits |
| Rules.PhoneSampleSeparated | Terry/script.js:116-122 | "(555) 123-4567" passes |
| Rules.PlusNumberPasses | Terry/script.js:116-122 | a '+' followed by one to sixteen digits, the first not zero, passes |
| Rules.PhoneSamplePlus | Terry/script.js:116-122 | "+12345" passes |
| Rules.PhoneSampleLetters | Terry/script.js:116-122 | "abc" is malformed |
| Rules.PhoneSampleLeadingZero | Terry/script.js:116-122 | "0123" is malformed |
| Slides.JsRemainder | Terry/script.js:66 | JavaScript's `%`: for a non-negative dividend the result lies in [0, \|n\|); for a negative one it lies in (-\|n\|, 0] |
| Slides.Advance | Terry/script.js:66 | `(current + direction + length) % length` stays in range; forward it wraps from the last slide to 0, backward from 0 to the last slide |
| Slides.AdvanceIsMod | Terry/script.js:66 | Advance is exactly `(current + direction + length) % length` (the dividend is never negative, so JavaScript's and Dafny's `%` agree) |
| Slides.AdvanceBackAndForth | Terry/script.js:57-58 | "previous" then "next" (or the other way round) returns to the same slide |
| Slides.Forward | Terry/script.js:61 | `k` ticks of the auto-advance stay in range |
| Slides.AdvanceMod | Terry/script.js:66 | one step forward from `a mod n` lands on `(a + 1) mod n` |
| Slides.ForwardIsModular | Terry/script.js:61 | `k` ticks from slide `i` land on `(i + k) mod n` |
| Slides.FullRound | Terry/script.js:61 | `n` ticks bring the slider back to where it started |
| Slides.Slider.constructor | Terry/script.js:4-5 | the slider starts at index 0 over the slides in the page |
| Slides.Slider.ChangeSlide | Terry/script.js:64-68 | the index becomes `Advance(old index, direction)`; the old slide's flag is cleared and the new one's set; every other flag is unchanged; a one-hot row stays one-hot |
| Navigation.ActivateOnly | Terry/script.js:22-23 | removing `active` from every element and then adding it to element `k` leaves the one-hot row for `k` |
| Navigation.Site.constructor | Terry/script.js:13-14 | the links, pages and menu as the markup provides them |
| Navigation.Site.ClickNavLink | Terry/script.js:16-31 | only the clicked link and the first page whose id is its `data-page` are active (exactly one of each), and the menu is closed |
| Navigation.Site.ClickCallToAction | Terry/script.js:35-48 | only the first nav link with the button's `data-page` and the first page with that id are active (exactly one of each); the menu flag is untouched |
| Navigation.Site.ClickHamburger | Terry/script.js:221-223 | the menu flag is toggled |
| Navigation.Site.ClickDocument | Terry/script.js:226-230 | the menu closes unless the click is inside the hamburger or the menu, in which case it is unchanged |
| Navigation.NavigateToContact | Terry/script.js:16-31 | after clicking the "contact" link, exactly that link and the "contact" section are active |
| Contact.Texts.Set | Terry/script.js:83 | typing into one input changes that input's text only |
| Contact.Position | Terry/script.js:87-143 | the place of each field in validateForm's order: the five checks cover every field, each exactly once |
| Contact.Shown | Terry/script.js:96-140 | an error slot after a check keeps its text when the rule passes, and is non-empty iff it was before or the rule fails |
| Contact.AllValidByField | Terry/script.js:87-143 | the form passes iff each of the five field rules passes on its own field |
| Contact.AllValidInOrder | Terry/script.js:87-143 | every check in the order name, email, phone, subject, message passes iff every field's rule passes |
| Contact.LengthSample | Terry/script.js:97-103 | printable text at least `min` long passes the length rule |
| Contact.NameSample | Terry/script.js:97-103 | the name "Jo" passes |
| Contact.SubjectSample | Terry/script.js:125-131 | the subject "Hello" passes |
| Contact.MessageSample | Terry/script.js:134-140 | the message "Hello_there" passes |
| Contact.SampleFormPasses | Terry/script.js:87-143 | name "Jo", email "a@b.c", blank phone, subject "Hello", message "Hello_there" passes |
| Contact.ContactForm.constructor | Terry/script.js:70-71 | the form the listeners act on, with the input texts, error texts, button text and `disabled` as the markup gives them, and nothing pending |
| Contact.ContactForm.ShowError | Terry/script.js:189-193 | exactly the given field's error slot gets the message |
| Contact.ContactForm.ClearError | Terry/script.js:195-199 | exactly the given field's error slot is emptied |
| Contact.ContactForm.Input | Terry/script.js:83 | the new text is stored and that field's slot is cleared |
| Contact.ContactForm.CheckField | Terry/script.js:96-140 | one field's block of checks: reports whether the rule passes, and only that field's slot may change, to its message when the rule fails |
| Contact.ContactForm.ValidateForm | Terry/script.js:87-143 | returns true iff every rule passes; each failing field's slot holds its message; passing fields' slots are left as they were (never cleared); a slot is non-empty iff it was before or its field fails |
| Contact.ContactForm.ValidateField | Terry/script.js:145-187 | only the given field's slot changes: it is cleared, then gets the message if the rule fails, so it is empty iff the rule passes |
| Contact.ContactForm.StartSending | Terry/script.js:201-208 | the button shows "Sending..." and is disabled; the original text is queued for the completion |
| Contact.ContactForm.Complete | Terry/script.js:209-214 | the oldest pending completion resets the inputs, restores the text it remembered and enables the button |
| Contact.ContactForm.Submit | Terry/script.js:72-77 | sending starts iff the form is valid; otherwise the button and the queue are untouched |
| Contact.SubmitAndComplete | Terry/script.js:72-77 | a valid submission followed by its completion leaves blank inputs, the original button text, an enabled button and no error messages |

## Left out

- DOM wiring is not modelled: event registration, `preventDefault`, element lookup by id or selector, and the `DOMContentLoaded` start-up (Terry/script.js:3-10, 234-237). Elements are arrays of flags, strings and per-field records given to the constructors.
- Event bubbling is not modelled. A click on a nav link also reaches the document listener (Terry/script.js:226-230), which may close the menu. The two listeners are modelled as separate methods, so the caller composes them.
- Timers are not modelled. The five-second auto-advance is a further `ChangeSlide(1)` call. The 1.5 s completion is a queue of remembered button texts, released one at a time, oldest first, by `Complete`.
- The `alert` text, the border colours set by showError and clearError, smooth scrolling (Terry/script.js:240-251) and the parallax offset applied to the feature cards (Terry/script.js:254-264) are left out. They are visual only and keep no state that the rest reads.
- `form.reset()` is modelled as blanking the five input values. The markup's default values are not part of this model.
- Text lengths count Dafny characters, not UTF-16 code units. The two differ only for characters outside the Basic Multilingual Plane.
- Slides.Slider.ChangeSlide: an empty slider is excluded by a precondition. There `this.slides[0]` is undefined, so reading its `classList` throws before the index is recomputed.
- Navigation.Site.ClickNavLink: a `data-page` with no matching section is excluded by a precondition. There `getElementById` returns null and the handler throws.
- Navigation.Site.ClickCallToAction: a target with no matching nav link or section is excluded by a precondition, for the same reason.
- Rules.EmailPatternIff: the regex is modelled by its meaning as a concatenation of three runs. Backtracking and the regex engine are not modelled.
