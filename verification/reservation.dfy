/**
 The reservation dialog as a reducer: one immutable record holds everything
 the dialog keeps in component state, and each user action, host prop change
 or timer completion is an event mapped to the next record. The two timers of
 the dialog (the simulated submission latency and the reset after closing)
 are counted as pending when they are started, and each of their completions
 is an event of its own.
 */
module Reservation {
  import opened Validation
  import opened Availability

  /** Step 1 picks date, time and party size; step 2 collects contact details. */
  datatype Step = SelectSchedule | ContactDetails

  datatype Wizard = Wizard(
    isOpen: bool,                  // the host's `isOpen` prop
    step: Step,
    timeSlots: seq<TimeSlot>,      // `availableTimeSlots`
    selectedDate: string,
    selectedTime: string,
    guestCount: int,
    form: ContactForm,
    errors: map<Field, string>,
    isSubmitting: bool,
    isSuccess: bool,
    pendingSubmits: nat,           // started submission timers not yet fired
    pendingResets: nat)            // started reset timers not yet fired

  const DefaultGuests := 2
  const MaxGuests := 8

  datatype Event =
    | HostOpen                             // the host sets `isOpen` to true
    | HostClose                            // the host sets `isOpen` to false (`onClose`)
    | ResetTimerFires                      // the reset scheduled on close runs
    | PickDate(date: string)               // a date button
    | PickSlot(index: int)                 // the time button at this position
    | PickGuests(count: int)               // an entry of the guest dropdown
    | NextClick
    | BackClick
    | Edit(field: Field, value: string)    // an input's change event
    | SubmitClick
    | SubmitTimerFires                     // the simulated request completes

  /** The component as first rendered. The reset effect also runs on mount,
      so a dialog mounted closed starts with one reset pending. */
  function Mount(isOpen: bool): (w: Wizard)
    ensures w.step == SelectSchedule && w.selectedDate == "" && w.selectedTime == ""
    ensures w.guestCount == DefaultGuests && w.form == EmptyForm && w.errors == map[]
    ensures !w.isSubmitting && !w.isSuccess && w.pendingSubmits == 0
    ensures w.pendingResets == (if isOpen then 0 else 1)
    ensures w.isOpen == isOpen && w.timeSlots == []
  {
    Wizard(isOpen, SelectSchedule, [], "", "", DefaultGuests, EmptyForm, map[],
           false, false, 0, if isOpen then 0 else 1)
  }

  // ---------------------------------------------------------------------------
  // Step 1: schedule
  // ---------------------------------------------------------------------------

  /** `handleDateSelect`, followed by the effect that loads the slot table
      whenever the selected date is non-empty. Any chosen time is cleared;
      step, party size, form, errors and submission state are kept. */
  function SelectDate(w: Wizard, date: string): (r: Wizard)
    ensures r.selectedDate == date && r.selectedTime == ""
    ensures r.timeSlots == (if date != "" then SlotTable else w.timeSlots)
    ensures r.step == w.step && r.guestCount == w.guestCount
    ensures r.form == w.form && r.errors == w.errors
    ensures r.isOpen == w.isOpen && r.isSubmitting == w.isSubmitting && r.isSuccess == w.isSuccess
    ensures r.pendingSubmits == w.pendingSubmits && r.pendingResets == w.pendingResets
  {
    var slots := if date != "" then SlotTable else w.timeSlots;
    w.(selectedDate := date, selectedTime := "", timeSlots := slots)
  }

  /** A time button's click handler: `slot.available && handleTimeSelect(slot.time)`.
      An unavailable slot leaves the chosen time as it was. */
  function ClickSlot(w: Wizard, index: int): (r: Wizard)
    requires 0 <= index < |w.timeSlots|
    ensures w.timeSlots[index].available ==> r.selectedTime == w.timeSlots[index].time
    ensures !w.timeSlots[index].available ==> r == w
    ensures r == w.(selectedTime := r.selectedTime)
  {
    var slot := w.timeSlots[index];
    if slot.available then w.(selectedTime := slot.time) else w
  }

  /** `handleGuestChange`: the party size becomes the picked entry. */
  function ChooseGuests(w: Wizard, count: int): (r: Wizard)
    ensures r.guestCount == count
    ensures r == w.(guestCount := r.guestCount)
  {
    w.(guestCount := count)
  }

  /** `handleNextStep`: advances only from step 1 with both a date and a time. */
  function NextStep(w: Wizard): (r: Wizard)
    ensures r.step == ContactDetails <==>
              w.step == ContactDetails || (w.selectedDate != "" && w.selectedTime != "")
    ensures r == w.(step := r.step)
  {
    if w.step.SelectSchedule? && w.selectedDate != "" && w.selectedTime != "" then
      w.(step := ContactDetails)
    else
      w
  }

  /** `handlePrevStep`: from step 2 back to step 1, keeping every selection. */
  function PrevStep(w: Wizard): (r: Wizard)
    ensures r.step == SelectSchedule
    ensures r == w.(step := SelectSchedule)
  {
    if w.step.ContactDetails? then w.(step := SelectSchedule) else w
  }

  // ---------------------------------------------------------------------------
  // Step 2: contact details and submission
  // ---------------------------------------------------------------------------

  /** `handleInputChange`: sets the named field and drops that field's error
      when it holds a non-empty message. */
  function EditField(w: Wizard, f: Field, v: string): (r: Wizard)
    ensures FieldValue(r.form, f) == v
    ensures forall g :: g != f ==> FieldValue(r.form, g) == FieldValue(w.form, g)
    ensures forall g :: g != f ==> (g in r.errors <==> g in w.errors)
    ensures forall g | g != f && g in r.errors :: r.errors[g] == w.errors[g]
    ensures f in w.errors && w.errors[f] != "" ==> f !in r.errors
    ensures !(f in w.errors && w.errors[f] != "") ==> r.errors == w.errors
    ensures r == w.(form := r.form, errors := r.errors)
  {
    var errors := if f in w.errors && w.errors[f] != "" then w.errors - {f} else w.errors;
    w.(form := SetField(w.form, f, v), errors := errors)
  }

  /** `handleSubmit`: stores the validator's errors; only a valid form starts
      the submission and its timer. */
  function Submit(w: Wizard): (r: Wizard)
    ensures r.errors == Validate(w.form)
    ensures !FormIsValid(w.form) ==> r == w.(errors := r.errors)
    ensures FormIsValid(w.form) ==>
              r.errors == map[] && r.isSubmitting && r.pendingSubmits == w.pendingSubmits + 1
              && r == w.(errors := map[], isSubmitting := true, pendingSubmits := r.pendingSubmits)
  {
    var errors := Validate(w.form);
    if !FormIsValid(w.form) then
      w.(errors := errors)
    else
      ValidIffNoErrors(w.form);
      w.(errors := errors, isSubmitting := true, pendingSubmits := w.pendingSubmits + 1)
  }

  /** The submission timer's callback: the request is over and confirmed. */
  function CompleteSubmit(w: Wizard): (r: Wizard)
    ensures w.pendingSubmits > 0 ==>
              !r.isSubmitting && r.isSuccess && r.pendingSubmits == w.pendingSubmits - 1
              && r == w.(isSubmitting := false, isSuccess := true, pendingSubmits := r.pendingSubmits)
    ensures w.pendingSubmits == 0 ==> r == w
  {
    if w.pendingSubmits > 0 then
      w.(isSubmitting := false, isSuccess := true, pendingSubmits := w.pendingSubmits - 1)
    else
      w
  }

  // ---------------------------------------------------------------------------
  // Opening, closing and the deferred reset
  // ---------------------------------------------------------------------------

  /** The host opens the dialog. */
  function Open(w: Wizard): (r: Wizard)
    ensures r.isOpen
    ensures r == w.(isOpen := true)
  {
    w.(isOpen := true)
  }

  /** The host closes the dialog; the effect keyed on `isOpen` starts the
      reset timer when the prop actually changes to false. */
  function Close(w: Wizard): (r: Wizard)
    ensures !r.isOpen
    ensures w.isOpen ==> r.pendingResets == w.pendingResets + 1
    ensures !w.isOpen ==> r == w
    ensures r == w.(isOpen := false, pendingResets := r.pendingResets)
  {
    if w.isOpen then w.(isOpen := false, pendingResets := w.pendingResets + 1) else w
  }

  /** The reset timer's callback: back to the defaults of step 1. It does not
      touch `isSubmitting`, the slot table, the open flag or the other
      pending timers. */
  function CompleteReset(w: Wizard): (r: Wizard)
    ensures w.pendingResets > 0 ==>
              && r.step == SelectSchedule && r.selectedDate == "" && r.selectedTime == ""
              && r.guestCount == DefaultGuests && r.form == EmptyForm
              && !r.isSuccess && r.errors == map[]
              && r.pendingResets == w.pendingResets - 1
    ensures r.isSubmitting == w.isSubmitting && r.timeSlots == w.timeSlots
    ensures r.isOpen == w.isOpen && r.pendingSubmits == w.pendingSubmits
    ensures w.pendingResets == 0 ==> r == w
  {
    if w.pendingResets > 0 then
      w.(step := SelectSchedule, selectedDate := "", selectedTime := "",
         guestCount := DefaultGuests, form := EmptyForm, isSuccess := false,
         errors := map[], pendingResets := w.pendingResets - 1)
    else
      w
  }

  // ---------------------------------------------------------------------------
  // The reducer
  // ---------------------------------------------------------------------------

  /** The next state after an event. A click on a time position that is not
      on screen does nothing. */
  function Apply(w: Wizard, e: Event): Wizard {
    match e
    case HostOpen => Open(w)
    case HostClose => Close(w)
    case ResetTimerFires => CompleteReset(w)
    case PickDate(d) => SelectDate(w, d)
    case PickSlot(i) => if 0 <= i < |w.timeSlots| then ClickSlot(w, i) else w
    case PickGuests(n) => ChooseGuests(w, n)
    case NextClick => NextStep(w)
    case BackClick => PrevStep(w)
    case Edit(f, v) => EditField(w, f, v)
    case SubmitClick => Submit(w)
    case SubmitTimerFires => CompleteSubmit(w)
  }

  /** The events that can occur in a state: a control must be on screen
      (the dialog renders nothing while closed, and only the success view
      once a reservation is confirmed), a disabled submit button cannot be
      clicked, the guest menu lists 1 to 8, date labels are non-empty, and
      a timer can only fire after it was started. */
  predicate Offered(w: Wizard, e: Event) {
    match e
    case HostOpen => !w.isOpen
    case HostClose => w.isOpen
    case ResetTimerFires => w.pendingResets > 0
    case SubmitTimerFires => w.pendingSubmits > 0
    case PickDate(d) => OnStep(w, SelectSchedule) && d != ""
    case PickSlot(i) => OnStep(w, SelectSchedule) && w.selectedDate != "" && 0 <= i < |w.timeSlots|
    case PickGuests(n) =>
      OnStep(w, SelectSchedule) && w.selectedDate != "" && w.selectedTime != "" && 1 <= n <= MaxGuests
    case NextClick => OnStep(w, SelectSchedule)
    case BackClick => OnStep(w, ContactDetails)
    case Edit(_, _) => OnStep(w, ContactDetails)
    case SubmitClick => OnStep(w, ContactDetails) && !w.isSubmitting
  }

  /** The wizard's controls for `step` are on screen. */
  predicate OnStep(w: Wizard, step: Step) {
    w.isOpen && !w.isSuccess && w.step == step
  }

  /** What holds in every state the dialog can reach. */
  predicate Inv(w: Wizard) {
    && 1 <= w.guestCount <= MaxGuests
    && (w.timeSlots == [] || w.timeSlots == SlotTable)
    && (w.selectedDate != "" ==> w.timeSlots == SlotTable)
    && (w.selectedTime != "" ==> w.selectedDate != "" && Bookable(w.selectedTime))
    && (w.step == ContactDetails ==> w.selectedDate != "" && w.selectedTime != "")
    && (forall f | f in w.errors :: f != SpecialRequests && w.errors[f] != "")
    && (w.isSubmitting ==> w.pendingSubmits > 0)
  }

  /** Events applied one after another. */
  function Run(w: Wizard, events: seq<Event>): Wizard
    decreases |events|
  {
    if events == [] then w else Run(Apply(w, events[0]), events[1..])
  }

  /** Every event of the sequence is offered in the state it meets. */
  predicate OfferedRun(w: Wizard, events: seq<Event>)
    decreases |events|
  {
    events == [] || (Offered(w, events[0]) && OfferedRun(Apply(w, events[0]), events[1..]))
  }

  // ---------------------------------------------------------------------------
  // Properties
  // ---------------------------------------------------------------------------

  lemma MountInv(isOpen: bool)
    ensures Inv(Mount(isOpen))
  {
  }

  /** Each offered event keeps the invariant. */
  lemma ApplyInv(w: Wizard, e: Event)
    requires Inv(w) && Offered(w, e)
    ensures Inv(Apply(w, e))
  {
    match e
    case PickSlot(i) =>
      var r := Apply(w, e);
      if w.timeSlots[i].available {
        assert SlotTable[i].available && SlotTable[i].time == r.selectedTime;
        SlotTableShape();
      }
    case SubmitClick =>
      ValidateMessagesNonEmpty(w.form);
    case Edit(f, v) =>
      var r := Apply(w, e);
      assert forall g | g in r.errors :: g in w.errors && r.errors[g] == w.errors[g];
    case _ =>
  }

  /** Every state reached by offered events from an invariant state keeps it. */
  lemma {:induction false} RunInv(w: Wizard, events: seq<Event>)
    requires Inv(w) && OfferedRun(w, events)
    ensures Inv(Run(w, events))
    decreases |events|
  {
    if events != [] {
      ApplyInv(w, events[0]);
      RunInv(Apply(w, events[0]), events[1..]);
    }
  }

  /** Every state the mounted dialog can reach satisfies the invariant: the
      party size stays within 1 to 8, a chosen time is a bookable slot and
      never outlives its date, step 2 is only entered with both chosen,
      errors name only validated fields, and a submission in flight always
      has its completion pending. */
  lemma ReachableInv(isOpen: bool, events: seq<Event>)
    requires OfferedRun(Mount(isOpen), events)
    ensures Inv(Run(Mount(isOpen), events))
  {
    MountInv(isOpen);
    RunInv(Mount(isOpen), events);
  }

  /** The reset brings back the state of a freshly mounted dialog, except
      for the submission flag, the loaded slot table and the timers. */
  lemma ResetRestoresMount(w: Wizard)
    requires w.pendingResets > 0
    ensures CompleteReset(w)
            == Mount(w.isOpen).(timeSlots := w.timeSlots, isSubmitting := w.isSubmitting,
                                pendingSubmits := w.pendingSubmits, pendingResets := w.pendingResets - 1)
  {
  }

  /** Choosing a date after a time always leaves no time chosen. */
  lemma DateClearsTime(w: Wizard, d1: string, i: int, d2: string)
    requires Inv(w) && Offered(w, PickDate(d1))
    ensures var w1 := Apply(Apply(w, PickDate(d1)), PickSlot(i));
            Apply(w1, PickDate(d2)).selectedTime == ""
  {
  }

  /** Back undoes Next and Next undoes Back while a date and a time are chosen. */
  lemma StepRoundTrip(w: Wizard)
    requires w.selectedDate != "" && w.selectedTime != ""
    ensures w.step == SelectSchedule ==> PrevStep(NextStep(w)) == w
    ensures w.step == ContactDetails ==> NextStep(PrevStep(w)) == w
  {
  }

  /** Next is refused on step 1 unless both a date and a time are chosen. */
  lemma NextNeedsSchedule(w: Wizard)
    requires w.step == SelectSchedule
    ensures NextStep(w).step == ContactDetails <==> w.selectedDate != "" && w.selectedTime != ""
    ensures NextStep(w).step == SelectSchedule ==> NextStep(w) == w
  {
  }

  /** Editing a field after a failed submission clears exactly that field's
      error and keeps the others. */
  lemma EditClearsOwnError(w: Wizard, f: Field, v: string)
    ensures var r := EditField(Submit(w), f, v);
            f !in r.errors
            && forall g | g != f :: (g in r.errors <==> g in Validate(w.form))
  {
    var s := Submit(w);
    ValidateMessagesNonEmpty(w.form);
  }

  /** A form with empty name and phone and the email "bad-email" is refused
      with exactly three errors, and no submission starts. */
  lemma SubmitRejectsExample(w: Wizard)
    requires w.form == ContactForm("", "bad-email", "", "")
    ensures var r := Submit(w);
            r.errors == map[Name := NameRequired, Email := EmailInvalid, Phone := PhoneRequired]
            && r.isSubmitting == w.isSubmitting && r.isSuccess == w.isSuccess
            && r.pendingSubmits == w.pendingSubmits
  {
    BadFormExample();
  }

  /** A well-formed contact goes from idle to submitting at once and to
      confirmed when the timer fires, with no errors. */
  lemma SubmitAcceptsExample(w: Wizard)
    requires w.form == ContactForm("Jane Doe", "jane@example.com", "555-0100", "")
    requires !w.isSubmitting && !w.isSuccess && w.pendingSubmits == 0
    ensures var s := Submit(w);
            s.isSubmitting && !s.isSuccess && s.errors == map[]
            && var t := CompleteSubmit(s);
               !t.isSubmitting && t.isSuccess && t.errors == map[] && t.pendingSubmits == 0
  {
    GoodFormExample();
  }

  /** The submission timer is not tied to the dialog's lifetime: a request
      started before closing still confirms after the reset has emptied the
      dialog, so reopening shows the confirmation with no date or time. The
      form is the well-formed example. */
  lemma ConfirmAfterReset(w: Wizard)
    requires OnStep(w, ContactDetails) && !w.isSubmitting
    requires w.form == ContactForm("Jane Doe", "jane@example.com", "555-0100", "")
    ensures var w1 := Apply(w, SubmitClick);
            var w2 := Apply(w1, HostClose);
            var w3 := Apply(w2, ResetTimerFires);
            var w4 := Apply(w3, HostOpen);
            var w5 := Apply(w4, SubmitTimerFires);
            && Offered(w, SubmitClick) && Offered(w1, HostClose) && Offered(w2, ResetTimerFires)
            && Offered(w3, HostOpen) && Offered(w4, SubmitTimerFires)
            && w5.isOpen && w5.isSuccess && w5.selectedDate == "" && w5.selectedTime == ""
  {
    GoodFormExample();
    var w1 := Submit(w);
    assert w1.isSubmitting && w1.pendingSubmits == w.pendingSubmits + 1 && w1.isOpen;
  }
}
