# SonicJobs landing-page script — a Dafny model

`sonicjobs-script.js` is the browser script of a one-page marketing site. This
project models the parts of it that carry logic:

- **The contact form** (`contact_form.dfy`). `validate` trims the name, company
  and e-mail fields. It checks each one, with no short circuit, and reports the
  verdict through `setError` / `clearError`. The submit handler enters the
  loading state only for a valid form. After the simulated submission the form
  is reset, the button returns to idle and the toast is shown. Each field is a
  `Field` object: input text, the group's `bad` class, and the error element's
  `on` class and text. The button and the toast are objects too.
- **The e-mail test** (`email.dfy`). The regular expression
  `^[^\s@]+@[^\s@]+\.[^\s@]{2,}$` is read as a split of the string. The model
  proves it equivalent to a field-by-field description:
  - no white space;
  - exactly one `@`, with a non-empty part before it;
  - after the `@`, a `.` with at least one character before it and at least
    two UTF-16 code units after it (the pattern has no `u` flag, so a
    character outside the Basic Multilingual Plane counts twice).
- **White space and `trim`** (`js_text.dfy`). The ECMAScript WhiteSpace and
  LineTerminator code points (sections 12.2 and 12.3 of ECMA-262) are shared
  by `\s` and `String.prototype.trim`.
- **The burger menu** (`menu.dfy`). The two click handlers leave the burger,
  the drawer and both aria attributes consistent, whatever state the markup
  started in. A pure `Run` over click sequences gives the open state after any
  history.
- **The viewport observers** (`observers.dfy`). The reveal callback and the
  counter callback process batches of entries. An acting entry unobserves its
  element, so across batches an element fires at most once. Entries that are
  not intersecting, a NaN counter target and a missing `.counter` change
  nothing. `setTimeout`'s treatment of the parsed delay is written out.
- **The counter animation** (`counter.dfy`). The curve `1 - (1 - t)^4`,
  `Math.round`, the value written per frame, and `tick`, which reschedules
  itself while the duration has not elapsed and writes the exact target last.

Timers and animation frames are recorded as pending work: a counter of waiting
submissions, a list of reveal timers, or a `pending` flag. A later method call
settles them. Which timer fires next, and at what frame times, are parameters.

## Model

| member | source | states |
|---|---|---|
| JsText.TrimStart | sonicjobs-script.js:155-157 | the result is the suffix of the input after its longest all-white-space prefix and does not start with white space |
| JsText.TrimEnd | sonicjobs-script.js:155-157 | the result is the prefix of the input before its longest all-white-space suffix and does not end with white space |
| JsText.Trim | sonicjobs-script.js:155-157 | `trim` yields the empty string exactly when the input is all white space; otherwise its ends are not white space |
| JsText.TrimInfix | sonicjobs-script.js:155-157 | what `trim` keeps is the stretch of the input between an all-white-space prefix and an all-white-space suffix |
| JsText.TrimFixesTrimmed | sonicjobs-script.js:155-157 | a string with no white space at either end is its own trim |
| JsText.TrimIdempotent | sonicjobs-script.js:155-157 | trimming twice equals trimming once |
| Email.MatchesEmailPattern | sonicjobs-script.js:153 | definition, no contract of its own: the regular expression as a split of the string into local part, `@`, domain label, `.` and a closing part of at least two code units; its properties are stated by `Email.PatternIffShape`, `Email.AcceptsAdaAtAcme`, `Email.AcceptsAstralEnding`, `Email.RejectsBadAtX` and `Email.RejectsShortEnding` |
| Email.Utf16Length | sonicjobs-script.js:153 | the code-unit length the `{2,}` quantifier counts lies between the number of characters and twice that number |
| Email.TwoUnits | sonicjobs-script.js:153 | a string is at least two code units long iff it has two characters, or one character outside the Basic Multilingual Plane |
| Email.SplitAt | sonicjobs-script.js:153 | around an `@` at a given index, the string holds exactly one `@` iff no other index holds one |
| Email.PatternToShape | sonicjobs-script.js:153 | every string the pattern accepts has the e-mail shape (no white space, one `@`, non-empty local part, a well-placed `.`) |
| Email.ShapeToPattern | sonicjobs-script.js:153 | every string of e-mail shape is accepted by the pattern |
| Email.PatternIffShape | sonicjobs-script.js:153 | the pattern accepts a string iff it has the e-mail shape |
| Email.RejectsBadAtX | sonicjobs-script.js:172 | the pattern rejects "bad@x" |
| Email.AcceptsAdaAtAcme | sonicjobs-script.js:172 | the pattern accepts "ada@acme.com" |
| Email.AcceptsAstralEnding | sonicjobs-script.js:153 | the pattern accepts "x@y." followed by one emoji, whose two code units satisfy `{2,}` |
| Email.RejectsShortEnding | sonicjobs-script.js:153 | the pattern rejects "x@y.c", whose closing part is one code unit |
| ContactForm.CheckRequired | sonicjobs-script.js:159-167 | definition, no contract of its own: a required field fails with its message exactly when its reading is falsy; stated by `ContactForm.FormPassesIff`, `ContactForm.BlankFormRejected` and `ContactForm.Field.CheckRequiredField` |
| ContactForm.CheckEmail | sonicjobs-script.js:169-175 | definition, no contract of its own: the e-mail verdict, "required" before "invalid"; stated by `ContactForm.EmailMessages` and `ContactForm.Field.CheckEmailField` |
| ContactForm.FormPasses | sonicjobs-script.js:151-178 | definition, no contract of its own: the value `validate` returns; stated by `ContactForm.FormPassesIff` and `ContactForm.Form.Validate` |
| ContactForm.FormPassesIff | sonicjobs-script.js:151-178 | `validate` is true iff the trimmed name and company are present and non-empty, and the trimmed e-mail is present, non-empty and of e-mail shape |
| ContactForm.EmailMessages | sonicjobs-script.js:169-175 | the e-mail field gets "A work email is required." iff it is blank, and "Please enter a valid email address." iff it is non-blank and not of e-mail shape |
| ContactForm.BlankFormRejected | sonicjobs-script.js:159-175 | empty name, empty company and "bad@x" each fail with their own message, and the form is rejected |
| ContactForm.FilledFormAccepted | sonicjobs-script.js:151-178 | "Ada", "Acme", "ada@acme.com" pass validation |
| ContactForm.Field.Read | sonicjobs-script.js:155-157 | the reading is absent iff the input element is absent; it is falsy iff the input is absent or its text is all white space; a non-empty reading neither starts nor ends with white space and is the stretch of the text between an all-white-space prefix and suffix |
| ContactForm.Field.SetError | sonicjobs-script.js:125-132 | with input and error element present: the error is shown with the message, and the group (if any) is marked `bad`; with either absent, nothing changes; the input text is untouched |
| ContactForm.Field.ClearError | sonicjobs-script.js:134-140 | with both elements present, the error is hidden and the group (if any) loses `bad`, the message text stays; otherwise nothing changes |
| ContactForm.Field.CheckRequiredField | sonicjobs-script.js:159-167 | one required-field step: it fails exactly for a blank reading, reported through `setError` with that field's message, and passes with `clearError` otherwise |
| ContactForm.Field.CheckEmailField | sonicjobs-script.js:169-175 | the e-mail step: "required" for a blank reading, "invalid" when the pattern rejects it, `clearError` otherwise; the result is true only in the last case |
| ContactForm.Field.OnInput | sonicjobs-script.js:147-149 | an edit replaces the text and clears the field's error (when its error element exists) |
| ContactForm.Field.Reset | sonicjobs-script.js:193 | `form.reset()` restores the default text and leaves the error state alone |
| ContactForm.SubmitButton.ShowLoading | sonicjobs-script.js:186-188 | each existing element enters the loading state (button disabled, text hidden, loader shown); missing ones are untouched |
| ContactForm.SubmitButton.ShowReady | sonicjobs-script.js:194-196 | the button, text and loader return to idle |
| ContactForm.Toast.Show | sonicjobs-script.js:206-210 | an existing toast is shown and one more hide timer waits; a missing toast changes nothing |
| ContactForm.Toast.Hide | sonicjobs-script.js:210 | a hide timer fires: the toast is hidden even when another timer still waits |
| ContactForm.Form.Validate | sonicjobs-script.js:151-178 | all three fields are checked; each field's error state follows its own verdict only; the result is true iff all three pass |
| ContactForm.Form.Submit | sonicjobs-script.js:181-188 | loading is entered iff validation passes; each field reports its own verdict on the text it held, as in `validate`; on failure the button and pending work are unchanged, so an idle button stays enabled with its loader hidden; on success each existing button element enters the loading state and one submission waits |
| ContactForm.Form.EnterLoading | sonicjobs-script.js:186-188 | each existing button element enters the loading state and one more submission waits; the idle-unless-pending invariant is kept |
| ContactForm.Form.FinishSubmit | sonicjobs-script.js:191-198 | after the delay the fields hold their defaults while their error marks and messages stay as they were, the button is idle and the toast is shown with a hide timer |
| Menu.Step | sonicjobs-script.js:35-49 | definition, no contract of its own: a burger click flips the open state, a link click closes; stated by `Menu.Drawer.OnBurgerClick`, `Menu.Drawer.OnLinkClick` and the `Run` lemmas |
| Menu.Run | sonicjobs-script.js:35-49 | definition, no contract of its own: the open state after a click history; stated by `Menu.RunThen`, `Menu.RunAppend`, `Menu.LinkClickCloses`, `Menu.BurgerClicksToggle` and `Menu.RunAfterLink` |
| Menu.RunThen | sonicjobs-script.js:35-49 | a further click acts on the state the earlier clicks left |
| Menu.RunAppend | sonicjobs-script.js:35-49 | running two click sequences in turn equals running their concatenation |
| Menu.LinkClickCloses | sonicjobs-script.js:44-49 | after any history, a drawer-link click leaves the menu closed |
| Menu.BurgerClicksToggle | sonicjobs-script.js:35-40 | burger clicks alone flip the open state once per click |
| Menu.RunAfterLink | sonicjobs-script.js:35-49 | after the last drawer-link click, the menu is open iff an odd number of burger clicks followed |
| Menu.Drawer.OnBurgerClick | sonicjobs-script.js:35-40 | the burger's `open` flips; the drawer and both aria attributes agree with it afterwards, whatever the state before |
| Menu.Drawer.OnLinkClick | sonicjobs-script.js:44-49 | burger and drawer are closed, `aria-expanded` is "false" and `aria-hidden` is "true" |
| Menu.AriaReflectsOpen | sonicjobs-script.js:38-39 | in a consistent state, `aria-expanded` is "true" iff the menu is open, `aria-hidden` is "true" iff it is closed, and the drawer matches the burger |
| Observers.ToLong | sonicjobs-script.js:62 | Web IDL `long` conversion: the result is in the signed 32-bit range and congruent to the input modulo 2^32 |
| Observers.TimerDelay | sonicjobs-script.js:61-62 | the `setTimeout` wait: NaN gives 0, a negative 32-bit value gives 0, a non-negative 32-bit value is kept |
| Observers.RevealTimers | sonicjobs-script.js:57-64 | definition, no contract of its own: the reveal timers one batch schedules, in entry order; stated by `Observers.RevealTimersExactly`, `Observers.QuietBatchSchedulesNothing`, `Observers.RepeatedEntryRevealsTwice` and `Observers.RevealObserver.Deliver` |
| Observers.RevealTimersExactly | sonicjobs-script.js:57-64 | a batch schedules a reveal of an element iff it has an intersecting entry for it |
| Observers.QuietBatchSchedulesNothing | sonicjobs-script.js:59 | a batch with no intersecting entry schedules nothing |
| Observers.RepeatedEntryRevealsTwice | sonicjobs-script.js:57-64 | two intersecting entries for one element in one batch schedule two reveals |
| Observers.RevealObserver.Deliver | sonicjobs-script.js:57-64 | the timers grow by the batch's reveals in entry order; their elements leave the observed set; no element scheduled in an earlier batch is scheduled again |
| Observers.RevealObserver.Fire | sonicjobs-script.js:62 | a fired timer adds `visible` to its element and leaves the list |
| Observers.CounterStarts | sonicjobs-script.js:103-111 | definition, no contract of its own: the animations one batch starts, in entry order; stated by `Observers.CounterStartsExactly`, `Observers.StartsComeFromEntries`, `Observers.QuietBatchStartsNothing`, `Observers.RepeatedEntryStartsTwice` and `Observers.CounterObserver.Deliver` |
| Observers.CounterStartsExactly | sonicjobs-script.js:103-111 | a batch starts an element's counter iff some entry for it is intersecting, parses to a number and has a `.counter`; any other element stays observed |
| Observers.StartsComeFromEntries | sonicjobs-script.js:106-109 | every started run carries the parsed target of an eligible entry for its element |
| Observers.QuietBatchStartsNothing | sonicjobs-script.js:105 | a batch with no intersecting entry starts nothing |
| Observers.RepeatedEntryStartsTwice | sonicjobs-script.js:103-111 | two eligible entries for one element in one batch start two runs |
| Observers.CounterObserver.Deliver | sonicjobs-script.js:103-111 | the runs grow by the batch's starts in entry order; their elements leave the observed set; no element started before starts again |
| Observers.StartRun | sonicjobs-script.js:81-109 | a started animation is a fresh run that counts towards the entry's parsed target over 1500 ms from the current clock reading, with its first frame requested and nothing written yet |
| Counter.EaseOut | sonicjobs-script.js:77-79 | on [0, 1] the curve stays within [0, 1] |
| Counter.EaseOutIncreasing | sonicjobs-script.js:77-79 | the curve rises strictly on [0, 1] |
| Counter.EaseOutMonotone | sonicjobs-script.js:77-79 | the curve never goes down on [0, 1] |
| Counter.EaseOutEnds | sonicjobs-script.js:77-79 | the curve maps 0 to 0, 1 to 1 and 0.5 to 0.9375 |
| Counter.JsRound | sonicjobs-script.js:90 | `Math.round` is within half of its argument, halves rounded up |
| Counter.JsRoundMonotone | sonicjobs-script.js:90 | rounding preserves order |
| Counter.Progress | sonicjobs-script.js:89 | progress is at most 1, below 1 iff the elapsed time is below the duration, and non-negative for non-negative elapsed time |
| Counter.ProgressMonotone | sonicjobs-script.js:89 | progress never goes down as time advances |
| Counter.Eased | sonicjobs-script.js:90 | definition, no contract of its own: the eased fraction of the target, rounded; stated by `Counter.EasedValueMonotone`, `Counter.ShownHalfway` and `Counter.ShownInRange` |
| Counter.EasedValueMonotone | sonicjobs-script.js:90 | for a non-negative target, the rounded scaled curve never goes down on [0, 1] |
| Counter.Shown | sonicjobs-script.js:88-90 | definition, no contract of its own: the value a frame writes after a given elapsed time; stated by `Counter.ShownAtEnd`, `Counter.ShownHalfway`, `Counter.ShownInRange`, `Counter.ShownMonotone` and `Counter.CounterRun.Tick` |
| Counter.ShownAtEnd | sonicjobs-script.js:89-90 | once the duration has elapsed, the formula gives the target itself |
| Counter.ShownHalfway | sonicjobs-script.js:90 | halfway through 1500 ms, a target of 200 shows 188 |
| Counter.ShownInRange | sonicjobs-script.js:88-90 | for a non-negative target and elapsed time, the value shown lies between 0 and the target |
| Counter.ShownMonotone | sonicjobs-script.js:88-90 | for a non-negative target, the value shown never goes down as time advances |
| Counter.FrameValues | sonicjobs-script.js:88-92 | definition: the values a list of frame times writes, one per frame; stated by `Counter.FrameValuesCountUp` and `Counter.CounterRun.Animate` |
| Counter.FrameValuesCountUp | sonicjobs-script.js:87-98 | frame times that are in order and not before the start give values that count up from at least 0 to at most the target |
| Counter.CounterRun.Tick | sonicjobs-script.js:87-98 | a tick reschedules iff elapsed < duration; it writes the eased value, and on the last tick also the target, so the text ends as the target |
| Counter.CounterRun.Animate | sonicjobs-script.js:87-100 | over a sequence of frame times, the run stops at the first frame at least the duration after the start, writing each frame's value and then the target; it is still pending only if every frame came earlier |

## Left out

- DOM lookup and listener registration (`get`, `qa`, `addEventListener`, `observe`) are not modelled. Elements are handles, and the presence of an optional element is a boolean constant.
- IntersectionObserver geometry (`threshold`, `rootMargin`) is not modelled. Entries arrive with an `isIntersecting` flag. The platform's guarantee that a batch only holds entries for elements observed when it was collected is a precondition of `Deliver`.
- Real time is not modelled. The reveal delay, the 1800 ms submission, the 5500 ms toast and animation frames are pending events, and the caller chooses which fires next.
- Observers.RevealObserver.Deliver: models the callback as written, without an "is it still observed" check, so two intersecting entries for one element within one batch schedule two reveals (see `RepeatedEntryRevealsTwice`). "At most once" is proved across batches only.
- Observers.CounterObserver.Deliver: likewise, two eligible entries for one element within one batch start two runs (see `RepeatedEntryStartsTwice`).
- `parseInt` is not modelled. Its result enters as an optional integer, with `None` for NaN.
- The `suffix` argument of `animateCount` is unused by the source and not modelled.
- Counter arithmetic is over exact reals, not IEEE doubles, and `performance.now()` is in whole milliseconds. Rounding effects of floating point are not captured.
- Counter.CounterRun.Tick: the text is an integer, not the string `textContent` becomes.
- `form.reset()` is modelled only as restoring each field's default text.
- The e-mail pattern is modelled by its meaning (a split of the string), not by a regular-expression engine.
- Strings are sequences of Unicode scalar values, so a lone surrogate code unit, which a JavaScript string can hold, is not representable. Code units are counted only where the pattern's `{2,}` counts them.
- Each input is modelled as the only one in its own `.fg` group, with its own error element. Two inputs sharing one group, where clearing one field would remove the `bad` mark the other had set, are not modelled.
- Smooth anchor scrolling and the nav shadow on scroll depend on layout geometry and are not modelled.
