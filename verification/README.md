# Restaurant site: reservation dialog and gallery viewer

This project models the two pieces of real logic in the restaurant's single-page site as pure
reducers over immutable records.

- **The reservation dialog** (`ReservationModal`) is a two-step wizard.
  - Step 1 picks a date among the next thirty days, skipping Mondays. It then picks an available
    evening time slot and a party size of 1 to 8.
  - Step 2 collects name, email, phone and special requests.
  - Submission is gated by `validateForm` and confirmed by a simulated 1.5 s request.
  - Closing the dialog resets it after a 300 ms fade.
- **The gallery viewer** (`Gallery`) is a fullscreen lightbox over a list of image URLs.
  - Opening shows an image.
  - Next and previous step circularly through the list, finding the current image with `indexOf`.
  - Closing hides the overlay at once and clears the image when a 300 ms timer fires.

Every timer is an event of its own. Starting a timer increments a pending counter, and the
"timer fires" event consumes one count. A timer event with nothing pending does nothing.

What the rendered markup lets happen is the predicate `Offered(state, event)`, and `Apply`
maps each event to the handler it is wired to. Case by case, in `Reservation.Offered`:

- Nothing can be clicked while the dialog is closed, because the component returns null
  (ReservationModal.tsx:190). The host's open and close are offered when they change the prop.
  The close controls are the backdrop, the X, Cancel and the success view's Close
  (ReservationModal.tsx:197, 215, 238, 442).
- Once a reservation is confirmed, only the success view is rendered (ReservationModal.tsx:224),
  and the footer is hidden (ReservationModal.tsx:436). No wizard control is offered then.
- Step 1 controls appear only on step 1, and step 2 controls only on step 2
  (ReservationModal.tsx:256, 438).
- Date buttons carry the non-empty labels of the date list (ReservationModal.tsx:266-274).
- Time buttons appear only once a date is chosen (ReservationModal.tsx:283). A click on slot `i`
  goes through the availability guard (ReservationModal.tsx:300-301).
- The guest menu appears only with a date and a time chosen (ReservationModal.tsx:311), and it
  lists 1 to 8 (ReservationModal.tsx:328-334).
- Next is offered on step 1 even though the button is disabled without a date and a time
  (ReservationModal.tsx:453). The handler's own guard then makes the click a no-op, so
  offering it is harmless.
- Submit is not offered while a request is in flight, because the button is disabled
  (ReservationModal.tsx:473).
- A timer event is offered only while a started timer is pending.

In `Gallery.Offered`:

- A thumbnail (Gallery.tsx:40-44) is offered only while the viewer is hidden. The visible
  overlay covers the grid, and the hidden one lets clicks through (Gallery.tsx:57-58).
- Close, previous and next (Gallery.tsx:74-99) are offered in every state. The hidden overlay
  only blocks the pointer, and the keyboard still reaches its buttons.
- `Gallery.ApplyAsWritten` wires a thumbnail click to `openGallery` as written. `Gallery.Apply`
  wires it to the corrected open described under Findings.

The invariants are proved for every sequence of offered events.

The project has four files:

- `validation.dfy` (module `Validation`) covers:
  - JavaScript whitespace, modelled as the ECMAScript WhiteSpace and LineTerminator code points
    that both `trim` and `\s` use;
  - `trim`;
  - the unanchored pattern `/\S+@\S+\.\S+/`, as a predicate, together with a one-pass matcher
    proved equal to it;
  - `validateForm`.
- `availability.dfy` (module `Availability`) covers the date list and the time-slot table.
  - A date is its offset `i` from today, and its weekday is `(w0 + i) % 7`, where `w0` is today's
    `getDay()`.
  - Turning dates into labels is formatting and is not modelled.
- `reservation.dfy` (module `Reservation`) is the dialog's reducer.
- `gallery.dfy` (module `Gallery`) is the viewer's reducer.

## Model

| member | source | states |
|---|---|---|
| Validation.SetField | src/components/ReservationModal.tsx:120-125 | the named form field takes the new value and every other field is unchanged |
| Validation.Trim | src/components/ReservationModal.tsx:140 | `trim()` is a slice of `s` with only whitespace outside it; it is empty exactly when every character is whitespace, and a non-empty result starts and ends with a non-space |
| Validation.TrimsToEmpty | src/components/ReservationModal.tsx:144 | `!s.trim()` holds exactly when `s` is all whitespace |
| Validation.MatchEmail | src/components/ReservationModal.tsx:146 | a single left-to-right scan answers true exactly when some `@` at p and `.` at q have a non-space before p, only non-spaces strictly between them (at least one), and a non-space after q, which is when the unanchored regex test matches |
| Validation.Validate | src/components/ReservationModal.tsx:137-153 | the name and phone keys are present exactly when the field is all whitespace; the email key is present exactly when it is blank or fails the pattern, with "required" for blank and "invalid" otherwise; no key is ever set for special requests; each message is the source's text |
| Validation.FormIsValid | src/components/ReservationModal.tsx:154-155 | the validator returns true exactly when name and phone are not blank and the email is not blank and matches the pattern |
| Validation.ValidIffNoErrors | src/components/ReservationModal.tsx:137-156 | the return value is true if and only if the error map is empty |
| Validation.ValidateMessagesNonEmpty | src/components/ReservationModal.tsx:128-133 | every stored message is non-empty, so the `errors[name]` truthiness test sees every key the validator sets |
| Validation.BadFormExample | src/components/ReservationModal.tsx:140-152 | empty name and phone with "bad-email" yield exactly the three errors name required, email invalid and phone required |
| Validation.GoodFormExample | src/components/ReservationModal.tsx:140-155 | "Jane Doe", "jane@example.com" and "555-0100" pass validation |
| Availability.OpenDays | src/components/ReservationModal.tsx:47-59 | the kept offsets lie in the range, avoid weekday 1, strictly increase and include every non-Monday offset of the range |
| Availability.OpenDaysLength | src/components/ReservationModal.tsx:47-52 | the number of kept offsets depends only on the first day's weekday and the number of days |
| Availability.OpenDaysBounds | src/components/ReservationModal.tsx:47-52 | n consecutive days keep between n - ceil(n/7) and n - floor(n/7) dates |
| Availability.ScanDays | src/components/ReservationModal.tsx:44-60 | the loop's list is exactly the open days among the first n, in ascending order, with that count bound |
| Availability.GenerateDates | src/components/ReservationModal.tsx:43-63 | one entry per offset 0..29 that is not a Monday, in ascending order, none a Monday, and 25 or 26 of them |
| Availability.SlotTableShape | src/components/ReservationModal.tsx:69-80 | ten slots with distinct non-empty labels, of which exactly 7:00 PM and 8:30 PM are unavailable |
| Reservation.Mount | src/components/ReservationModal.tsx:25-40 | the first render has the host's open flag, no slot table, step 1 with no date or time, 2 guests, an empty form, no errors and no request; a dialog mounted closed has a reset pending |
| Reservation.SelectDate | src/components/ReservationModal.tsx:66-109 | the date becomes the chosen one and the time is emptied; step, guests, form, errors and flags are unchanged; a non-empty date loads the slot table |
| Reservation.ClickSlot | src/components/ReservationModal.tsx:300-301 | an available slot sets the time to its label; an unavailable one changes nothing; nothing but the time changes |
| Reservation.ChooseGuests | src/components/ReservationModal.tsx:115-118 | the party size becomes the chosen number and nothing else changes |
| Reservation.NextStep | src/components/ReservationModal.tsx:178-182 | the result is on step 2 exactly when it already was or a date and a time are both chosen; only the step can change |
| Reservation.PrevStep | src/components/ReservationModal.tsx:184-188 | the result is on step 1 with every selection and the form kept |
| Reservation.EditField | src/components/ReservationModal.tsx:120-135 | only the named field changes; that field's error is removed when it holds a message, and otherwise the error map is left exactly as it was; every other error key and message is kept |
| Reservation.Submit | src/components/ReservationModal.tsx:158-161 | the errors become the validator's map; an invalid form changes nothing else; a valid one clears the errors, sets submitting and starts one timer |
| Reservation.CompleteSubmit | src/components/ReservationModal.tsx:164-175 | a pending request ends with submitting false and success true, consuming its timer; with none pending nothing changes |
| Reservation.Open | src/components/ReservationModal.tsx:87-88 | opening only sets the open flag; the effect does nothing when the prop becomes true |
| Reservation.Close | src/components/ReservationModal.tsx:87-89 | the dialog is closed, and a reset timer is started only when it was open |
| Reservation.CompleteReset | src/components/ReservationModal.tsx:89-102 | a pending reset restores step 1, no date or time, 2 guests, an empty form, no success and no errors; it never touches submitting, the slot table, the open flag or the request timer |
| Reservation.ResetRestoresMount | src/components/ReservationModal.tsx:89-102 | the reset state equals the first render except for the fields the reset leaves alone |
| Reservation.MountInv | src/components/ReservationModal.tsx:25-40 | the first render satisfies the dialog's invariant |
| Reservation.ApplyInv | src/components/ReservationModal.tsx:106-188 | every offered event keeps the invariant: guests 1 to 8; a time is a bookable slot and never outlives its date; step 2 only with both chosen; error keys are validated fields with messages; a request in flight has its timer pending |
| Reservation.RunInv | src/components/ReservationModal.tsx:106-188 | any sequence of offered events keeps the invariant |
| Reservation.ReachableInv | src/components/ReservationModal.tsx:25-188 | every state reachable from the first render satisfies the invariant |
| Reservation.DateClearsTime | src/components/ReservationModal.tsx:106-113 | after picking a date and a time, picking a date again leaves no time chosen |
| Reservation.StepRoundTrip | src/components/ReservationModal.tsx:178-188 | with a date and a time chosen, back undoes next and next undoes back |
| Reservation.NextNeedsSchedule | src/components/ReservationModal.tsx:178-182 | on step 1, next advances if and only if both a date and a time are chosen, and otherwise changes nothing |
| Reservation.EditClearsOwnError | src/components/ReservationModal.tsx:127-134 | editing a field after a submission removes exactly that field's error and keeps the validator's other keys |
| Reservation.SubmitRejectsExample | src/components/ReservationModal.tsx:158-159 | the invalid example stores its three errors and starts no request |
| Reservation.SubmitAcceptsExample | src/components/ReservationModal.tsx:158-175 | the valid example goes to submitting with no errors, then to confirmed when the timer fires |
| Reservation.ConfirmAfterReset | src/components/ReservationModal.tsx:164-175 | with the valid example form, a request started before closing still confirms after the reset has emptied the dialog, so reopening shows a confirmation with no date or time |
| Gallery.JsRem | src/components/Gallery.tsx:26 | JavaScript's `%` truncates toward zero: the result differs from the dividend by a multiple of n, is smaller than n in magnitude, and when non-zero has the dividend's sign |
| Gallery.IndexOf | src/components/Gallery.tsx:25 | `indexOf` is the first position holding the value, or -1 exactly when the value is absent |
| Gallery.Next | src/components/Gallery.tsx:23-28 | with no truthy image nothing changes (open or not); otherwise the selection becomes `images[(indexOf + 1) % n]`, or undefined on an empty list; nothing but the selection changes |
| Gallery.Prev | src/components/Gallery.tsx:30-35 | with no truthy image nothing changes; otherwise the selection becomes `images[(indexOf - 1 + n) % n]`, or undefined on an empty list; nothing but the selection changes |
| Gallery.OpenAsWritten | src/components/Gallery.tsx:11-14 | opening shows the image and sets the open flag, leaving a running clear timer in place |
| Gallery.Open | src/components/Gallery.tsx:11-14 | the corrected open shows the image, sets the open flag and cancels any pending clear |
| Gallery.Close | src/components/Gallery.tsx:16-18 | closing clears the open flag at once, keeps the image and starts one clear timer |
| Gallery.ClearFires | src/components/Gallery.tsx:18-20 | a pending clear empties the selection and consumes its timer; with none pending nothing changes |
| Gallery.CloseThenClear | src/components/Gallery.tsx:16-21 | the image stays after close and is null only after the timer fires, with the viewer closed |
| Gallery.IndexOfDistinct | src/components/Gallery.tsx:25 | in a list without repetitions `indexOf` of position k's image is k |
| Gallery.StepPositions | src/components/Gallery.tsx:23-35 | from position k, next shows position (k + 1) mod n and previous shows position (k - 1 + n) mod n |
| Gallery.NextWraps | src/components/Gallery.tsx:26-27 | next from the last image shows the first, and from any other image the one after it |
| Gallery.PrevWraps | src/components/Gallery.tsx:33-34 | previous from the first image shows the last, and from any other image the one before it |
| Gallery.NextPrevInverse | src/components/Gallery.tsx:23-35 | previous after next and next after previous both give back the starting state, including at the ends of the list |
| Gallery.NextNPosition | src/components/Gallery.tsx:26 | m presses of next from position k, for m up to n, show position k + m wrapped once |
| Gallery.NextNStaysInList | src/components/Gallery.tsx:26-27 | any number of presses of next leaves the selection on an image of the list |
| Gallery.FullCycle | src/components/Gallery.tsx:23-28 | n presses of next return to the starting image |
| Gallery.CycleLessOne | src/components/Gallery.tsx:23-35 | n - 1 presses of next land where one press of previous does |
| Gallery.ApplyInv | src/components/Gallery.tsx:11-35 | with the corrected open, every offered event keeps the invariant that an open viewer shows an image of the list with no clear pending |
| Gallery.RunInv | src/components/Gallery.tsx:11-35 | any sequence of offered events keeps that invariant |
| Gallery.ReachableInv | src/components/Gallery.tsx:8-35 | every state reachable from the first render satisfies it |
| Gallery.StaleClearBlanksOpenViewer | src/components/Gallery.tsx:11-21 | as written, open, close, open another image, then the first timer: the viewer is open with no image |
| Gallery.ReopenKeepsImage | src/components/Gallery.tsx:11-21 | with the corrected open, the same clicks leave no timer to fire, and the reopened viewer keeps its image |

Notes on the source's behaviour:

- It takes `n` presses of next, not `n - 1`, to return to the starting image. After `n - 1`
  presses the viewer shows the image before the start (`Gallery.FullCycle`,
  `Gallery.CycleLessOne`).
- Next and previous test whether `selectedImage` is truthy, not whether the viewer is open. They
  work on a closed viewer that still holds its image.
- The viewer stores the image URL, not its index.
- `handleGuestChange` checks nothing, and `handleSubmit` checks only the form
  (ReservationModal.tsx:159). Neither checks the step or whether a request is already in
  flight. Only the rendered controls restrict that, so those restrictions live in `Offered`.
- The close reset does not clear `isSubmitting`. A request in flight therefore survives closing,
  and it confirms after the reset (`Reservation.ConfirmAfterReset`).
- `handleInputChange` removes an error only when the stored message is truthy. Every message the
  validator stores is non-empty, so in practice it always removes it.

## Left out

- JSX rendering, CSS classes, icons and transitions are left out. Their only effect on the logic
  is which controls are on screen, and `Offered` captures that.
- `console.log` of the reservation (ReservationModal.tsx:172) is output only.
- The guest dropdown's open flag (`showGuestDropdown`) is a display toggle. The party size is an
  event offering 1 to 8.
- `Date` arithmetic and `toLocaleDateString` labels are replaced by day offsets and weekdays. A
  date is a non-empty string label, and the model does not tie the label to an offset.
- Timer durations (300 ms, 1500 ms) and the relative order of timers are not modelled. Any
  started timer may fire at any later point, which allows more interleavings than real time does.
- React's batching and stale closures are not modelled. Each event sees the state left by the
  previous one.
- `Gallery.NextNPosition`: states the landing position only for up to `n` presses; for more
  presses `Gallery.NextNStaysInList` states only that the selection stays in the list.
- src/App.tsx, src/components/DishCard.tsx, src/components/SmoothScroll.tsx and
  src/components/AnimatedText.tsx are static data, presentation, floating-point scrolling or a
  typing animation. They are not part of this model.

## Findings

| source | as written | input that shows it | evidently intended | confidence | as-written member | corrected member |
|---|---|---|---|---|---|---|
| src/components/Gallery.tsx:11-21 | `closeGallery` starts a 300 ms timer that sets the image to null, and `openGallery` does not cancel it | open image a, close, then within 300 ms click image b (the hidden overlay lets clicks through); the timer fires and leaves the viewer open with no image, and next and previous do nothing | opening cancels a pending clear, so an open viewer always shows an image of the list | medium, not executed | Gallery.StaleClearBlanksOpenViewer | Gallery.ReachableInv |
