# Portfolio site script: a verified model of its decision logic

`app.js` drives a one-page portfolio. Most of it wires browser APIs to
cosmetic effects. This project models the parts that make decisions, and
proves what they promise:

- **Contact form** (modules `Text`, `EmailFormat`, `FormRules`, `ContactForm`):
  - the e-mail regular expression;
  - the three field rules `validateForm` applies at submit time;
  - the weaker rules of the blur listener and the clearing rule of the input listener;
  - the error elements these handlers show and hide;
  - the submit listener's button state and form reset, split at its `await`.
- **Navigation** (module `Navigation`):
  - `highlightNavLink`, which picks the section the page is scrolled to and marks the matching nav link active;
  - the two scroll thresholds that restyle the navbar and show the scroll-to-top button.
- **Typing effect** (module `Typing`): `typeWriter`, which types a title one character per timer tick.

Strings are `seq<char>`. JavaScript's `.trim()` and the regular expression
class `\s` share one definition of white space, `Text.IsWhitespace`. It is
the ECMAScript WhiteSpace and LineTerminator characters.

The source's mutable objects are Dafny classes:

- `ContactForm.Controller` holds:
  - the four input values;
  - the error elements, as `ErrorTable`, a map from field to text, visibility and border;
  - the submit button's label, loader and `disabled` flag;
  - the success notice.
- `Navigation.NavMenu` holds the links' hrefs and an array of their `active` classes.
- `Typing.TypeWriter` holds the closure's counter `i` and the element's text.

The error-table handlers (`ClearAllErrors`, `ValidateForm`, `OnBlur`, `OnInput`) are proved against pure functions of `FormRules`. The same holds for `Navigation.CurrentSection` and `Navigation.NavMenu.HighlightNavLink`, which are proved against functions of `Navigation`. The properties are then proved as lemmas about those functions. The other state-changing methods state their new values directly. These are the input setters, the success notice, the form reset, the submit steps and the typewriter's steps.

The awaited submission step is a parameter: `Outcome` is `Resolved` or
`Rejected`. The browser's scroll offset, the section geometry and the input
values are inputs to the methods.

Where one might expect otherwise, the model follows the code:

- When no section is in range, the current section becomes `''` (app.js:60). It does not keep the previous one.
- The button is restored in `finally` as soon as the awaited step settles. There is no extra delay.
- A rejected submission only logs (app.js:204-206); no failure notice is shown, although the comment at app.js:206 suggests one.

## Model

| member | source | states |
|---|---|---|
| Text.Trim | app.js:120 | JavaScript's `.trim()`, used at app.js:120, 123, 129, 138, 141, 219 and 233: the result is never longer than the value; what it means is proved in `TrimSpec` and `TrimIsSlice` |
| Text.TrimSpec | app.js:120-123 | the trimmed value is empty exactly when every character is white space; a non-empty trim starts and ends with a non-white-space character |
| Text.TrimIsSlice | app.js:120-123 | the trim is a contiguous slice of the value, and everything cut off around it is white space |
| Text.TrimIdempotent | app.js:219-223 | trimming an already trimmed value changes nothing |
| Text.TrimOfPaddedSolid | app.js:219-223 | leading white space before a white-space-free word is removed by the trim, leaving the word |
| EmailFormat.ValidateEmail | app.js:89-92 | `validateEmail`: no contract of its own; it splits the address at the end of its longest run of characters other than white space and '@', and `ValidateEmailMatchesPattern` proves it equal to the regular expression |
| EmailFormat.MatchesEmailPattern | app.js:90 | a literal reading of `/^[^\s@]+@[^\s@]+\.[^\s@]+$/`: some '@' and some later '.' split the string into three non-empty parts free of white space and '@'; no contract of its own, it is the reference `ValidateEmail` is proved against |
| EmailFormat.ValidateEmailMatchesPattern | app.js:89-92 | `validateEmail` accepts exactly the strings `local@domain.tld` of the regular expression: each part non-empty and free of white space and '@', with some '.' after the '@' that is neither first nor last |
| EmailFormat.AcceptedEmailShape | app.js:89-92 | an accepted address contains no white space and exactly one '@' |
| EmailFormat.AcceptedExample | app.js:90 | "a@b.c" is accepted and matches the pattern |
| EmailFormat.RejectedExamples | app.js:90 | "a@b", "a@.c", "a@b.", "a@@b.c" and " a@b.c" are rejected |
| FormRules.SubmitError | app.js:119-145 | the message, if any, each of the three `validateForm` blocks shows for its field; no contract of its own, its precedence is proved in `SubmitErrorPrecedence` |
| FormRules.SubmitErrorPrecedence | app.js:119-145 | each field gets at most one message at submit time: "required" exactly when the value is blank, the length or format message exactly when it is not blank and fails its rule, none otherwise |
| FormRules.FormIsValidIff | app.js:115-147 | the form is valid exactly when the trimmed name has at least 2 characters, the trimmed address is non-empty and the raw address passes `validateEmail`, and the trimmed message has at least 10 characters |
| FormRules.FormIsValidNoErrors | app.js:115-147 | the form is valid exactly when no field has a message |
| FormRules.OnBlurAction | app.js:218-230 | the blur listener's branch chain on the trimmed value: show the field's message, clear, or do nothing; no contract of its own, its meaning is proved in `BlurNeverRequired`, `BlurAgreesWithSubmit` and `PaddedEmailPassesBlurFailsSubmit` |
| FormRules.BlurNeverRequired | app.js:218-230 | blur never shows a "required" message; it leaves the element alone exactly when the value is blank, and otherwise shows the format message or clears |
| FormRules.BlurAgreesWithSubmit | app.js:218-230 | on a non-blank value, and for the address one with no surrounding white space, blur clears exactly when submit finds no error and shows the format message exactly when submit does |
| FormRules.AcceptedEmailIsTrimmed | app.js:129-135 | an address that passes at submit time is its own trim |
| FormRules.PaddedEmailPassesBlurFailsSubmit | app.js:132 | a valid address behind leading white space is cleared on blur but rejected with "Please enter a valid email address" at submit, because submit tests the raw value |
| FormRules.ClearAll | app.js:111-113 | after clearing, no element is displayed and every text is kept |
| FormRules.ValidationErrors | app.js:115-147 | `validateForm` decides on a message, or none, for every field |
| FormRules.DecideAll | app.js:115-147 | clearing all elements, then deciding name, e-mail and message in that order, gives the combined `ShowErrors` table |
| FormRules.ShowErrorsDisplays | app.js:94-113 | after showing decided messages, exactly those messages are displayed, whatever was shown before, the table stays well formed, and every border is styled |
| FormRules.AfterValidate | app.js:115-147 | the error table `validateForm` leaves: every field keeps its element; what it displays is proved in `ValidateDisplaysSubmitErrors`, `ValidateIdempotent` and `ValidFormDisplaysNothing` |
| FormRules.ValidateDisplaysSubmitErrors | app.js:115-117 | because `validateForm` clears first, what it leaves displayed depends only on the form data: each field shows its submit-time message |
| FormRules.ValidateForgetsHistory | app.js:115-117 | two error tables validated against the same data display the same messages |
| FormRules.ValidateIdempotent | app.js:115-147 | validating twice on unchanged data leaves the table as one validation left it |
| FormRules.ValidFormDisplaysNothing | app.js:115-147 | a valid form leaves every element hidden, like `clearAllErrors` |
| FormRules.AfterBlur | app.js:218-230 | the blur handler changes only the element of its own field: shown with the message, hidden with its text kept, or left alone for a blank value |
| FormRules.AfterInput | app.js:232-236 | the input handler changes only its own field's element, hiding it exactly when the trimmed value is non-empty |
| ContactForm.Controller.constructor | app.js:168-236 | the page starts with empty inputs, hidden unstyled error elements and an idle button |
| ContactForm.Controller.SetValue | app.js:171-176 | typing into one input changes that input's value and no other |
| ContactForm.Controller.SetSubject | app.js:174 | typing into the subject input changes the subject and no other value |
| ContactForm.Controller.ShowError | app.js:94-101 | `showError` writes the message, shows the element and alerts the border of that field only |
| ContactForm.Controller.ClearError | app.js:103-109 | `clearError` hides the element and resets the border of that field only, keeping the text |
| ContactForm.Controller.ClearAllErrors | app.js:111-113 | the loop over 'name', 'email', 'message' leaves the table equal to `ClearAll` of the old one |
| ContactForm.Controller.ValidateForm | app.js:115-147 | the sequential checks return true exactly when the form is valid, and leave the table equal to `AfterValidate` of the old table and the data |
| ContactForm.Controller.OnBlur | app.js:218-230 | the blur listener leaves the table equal to `AfterBlur` of the old table and the field's value |
| ContactForm.Controller.OnInput | app.js:232-236 | the input listener leaves the table equal to `AfterInput` of the old table and the field's value |
| ContactForm.Controller.ShowSuccessMessage | app.js:149-157 | the success notice is shown |
| ContactForm.Controller.ResetForm | app.js:199 | every input is emptied |
| ContactForm.Controller.SubmitStart | app.js:168-189 | the values are validated as they are; on invalid input only the error elements change and the button is untouched; on valid input the label is hidden, the loader shown and the button disabled |
| ContactForm.Controller.SubmitSettle | app.js:191-212 | after the awaited step the button is re-enabled and its label restored on both outcomes; only a resolved step shows the notice, resets the inputs and clears all errors |
| ContactForm.Controller.Submit | app.js:168-212 | a whole submission: invalid input changes only the error elements; valid input always ends with an idle button and no message displayed, and the inputs are emptied exactly when the step resolved |
| Navigation.ActiveSection | app.js:60-69 | `currentSection` after the scan: no contract of its own; `LastMatchWins`, `NoMatchIsEmpty` and `ActiveSectionIsInRange` prove it is the id of the last section in range, or '' |
| Navigation.LastMatchWins | app.js:59-69 | the current section is the id of the last section, in document order, whose range [offsetTop - 150, offsetTop - 150 + clientHeight) contains the scroll offset |
| Navigation.NoMatchIsEmpty | app.js:59-69 | with no section in range the current section is '' |
| Navigation.ActiveSectionIsInRange | app.js:59-69 | the current section is '' or the id of a section in range |
| Navigation.CurrentSection | app.js:60-69 | the forward loop over the sections computes the last-match-wins section |
| Navigation.LinkStates | app.js:71-76 | the `active` classes after the link pass: one flag per link; which ones are set is proved in `LinkOfActiveSection`, `OnlyLinkOfActiveSection` and `LinksWhenNoMatch` |
| Navigation.LinkOfActiveSection | app.js:71-76 | for any hrefs, the link whose href is '#' followed by the current section's id is active |
| Navigation.OnlyLinkOfActiveSection | app.js:71-76 | with distinct hrefs, that link is the only active one |
| Navigation.LinksWhenNoMatch | app.js:60-76 | with no section in range exactly the links whose href is '#' are active |
| Navigation.NavMenu.constructor | app.js:4 | the `.nav-link` elements, one `active` flag per href; the model starts them all unset, since the page's markup is not part of this model |
| Navigation.NavMenu.HighlightNavLink | app.js:59-77 | each link is active exactly when its href is '#' followed by the current section; the new state does not depend on the old one, so running it again changes nothing |
| Navigation.NavbarStyleAt | app.js:45-51 | the navbar style the scroll listener writes; no contract of its own, its threshold is proved in `ScrollThresholds` |
| Navigation.ScrollTopButtonAt | app.js:354-360 | the scroll-to-top button style the scroll listener writes; no contract of its own, its threshold is proved in `ScrollThresholds` |
| Navigation.ScrollThresholds | app.js:45-51 | the navbar turns solid strictly above 100 and the scroll-to-top button (app.js:354-360) shows strictly above 300; both stay on further down, and the button never shows while the navbar has its unscrolled style |
| Typing.TypeWriter.constructor | app.js:305-318 | `typeWriter` empties the element and types the first character straight away, scheduling the next tick when it typed one |
| Typing.TypeWriter.Typing | app.js:309-315 | one step appends the next character and reschedules, or does nothing once the text is complete |
| Typing.TypeWriter.Tick | app.js:309-315 | a pending timer firing types one more character, or ends the chain when none remains; the element always shows a prefix of the text |
| Typing.TypeWriter.RunToCompletion | app.js:305-318 | once every pending timer has fired, the element shows the whole text |

## Left out

- Timers: the scroll and resize debouncing, the 2-second simulated request and the 5-second hide of the success notice are not modelled. The awaited request is the `Outcome` parameter. The typing speed is not modelled either; ticks are just the order in which timers fire.
- Events that interleave with the `await` are not modelled beyond splitting the listener into `SubmitStart` and `SubmitSettle`. The browser's refusal to submit through a disabled button is not modelled either.
- The reveal animations (IntersectionObserver), smooth scrolling, the preloader, the cursor follower, the orbit-icon hover and the injected styles are browser calls and cosmetic style writes.
- The parallax offsets and stagger delays are not modelled, because they are floating-point arithmetic.
- `console.log` and `console.error` output is not modelled.
- The hamburger menu toggle is not modelled; it only flips a class.
- `lastScrollY` in the navbar listener is not modelled; it is written but never read.
- JavaScript strings are UTF-16 code units; the model counts `char`s, which agree for text inside the Basic Multilingual Plane.
- Scroll offsets and section geometry are integers here; the browser may report fractions.
- `form.reset()` restores the inputs' default values; the model takes those to be empty.
- Typing.TypeWriter.RunToCompletion: assumes no other code writes the element while its timers are pending.
