/** The client side of the contact form (components/contact.tsx):
    `handleChange`, the pre-validation of `handleSubmit`, and the `status`
    machine idle / loading / success / error.

    React state setters become field updates. The `fetch` to the route is a
    foreign call: the request it sends is an output of `HandleSubmit`, and
    its outcome is the input of `ResponseArrived`. Each `setTimeout(() =>
    setStatus('idle'), ...)` is a pending reset counted in `pendingResets`;
    its firing is the event `ResetTimerFired`. Timers are never cancelled,
    and their delays (4000 and 5000 ms) are not modelled, so any pending
    reset may fire next. */
module ContactForm {
  import opened Wrappers
  import opened JsString
  import opened EmailPattern
  import ContactRoute

  datatype Status = Idle | Loading | Success | Error

  /** The `name` attributes of the three inputs. */
  datatype Field = Name | Email | Message

  datatype FormData = FormData(name: string, email: string, message: string)

  const EmptyForm := FormData("", "", "")

  function Get(form: FormData, field: Field): string {
    match field
    case Name => form.name
    case Email => form.email
    case Message => form.message
  }

  /** `setFormData((prev) => ({ ...prev, [name]: value }))`: the named field
      takes the new value and the other two keep theirs. */
  function Update(form: FormData, field: Field, value: string): (r: FormData)
    ensures Get(r, field) == value
    ensures forall other :: other != field ==> Get(r, other) == Get(form, other)
  {
    match field
    case Name => form.(name := value)
    case Email => form.(email := value)
    case Message => form.(message := value)
  }

  const FillInAllFields := "Please fill in all fields"
  const EnterValidAddress := "Please enter a valid email address"
  const MessageTooShort := "Message must be at least 10 characters long"
  const SendFailed := "Failed to send message. Please try again."
  const NetworkFailure := "An error occurred. Please try again later."

  /** The form passes the client's checks: no empty field, the shared e-mail
      pattern, and a message of at least 10 UTF-16 code units. There is no
      name-length check and no upper bound on the message. */
  predicate ClientAcceptable(form: FormData) {
    form.name != "" && form.email != "" && form.message != "" &&
    Matches(form.email) && Utf16Length(form.message) >= 10
  }

  /** The three guarded early returns of `handleSubmit`, in order. */
  function ClientError(form: FormData): (r: Option<string>)
    ensures r.None? <==> ClientAcceptable(form)
    ensures r == Some(FillInAllFields) <==> form.name == "" || form.email == "" || form.message == ""
    ensures r == Some(EnterValidAddress) <==>
      form.name != "" && form.email != "" && form.message != "" && !Matches(form.email)
    ensures r == Some(MessageTooShort) <==>
      form.name != "" && form.email != "" && form.message != "" && Matches(form.email) &&
      Utf16Length(form.message) < 10
  {
    if form.name == "" || form.email == "" || form.message == "" then Some(FillInAllFields)
    else if !Matches(form.email) then Some(EnterValidAddress)
    else if Utf16Length(form.message) < 10 then Some(MessageTooShort)
    else None
  }

  /** What `await fetch(...)` ends in: a response with its status and the
      `message` of its JSON body when that is a string (absent otherwise),
      or a thrown error: from `fetch`, from `response.json()`, or from
      reading `message` of a non-ok response whose JSON body is `null`. */
  datatype FetchOutcome = Responded(status: int, message: Option<string>) | Threw

  /** `response.ok`. */
  predicate IsOk(status: int): (b: bool)
    ensures b <==> status / 100 == 2
  {
    200 <= status <= 299
  }

  /** The text shown after a failed request: the server's `message` when it
      is a non-empty string, a fallback otherwise. */
  function ErrorText(outcome: FetchOutcome): (text: string)
    ensures text != ""
    ensures outcome.Threw? ==> text == NetworkFailure
    ensures outcome.Responded? && outcome.message.Some? && outcome.message.value != "" ==> text == outcome.message.value
    ensures outcome.Responded? && !(outcome.message.Some? && outcome.message.value != "") ==> text == SendFailed
  {
    match outcome
    case Threw => NetworkFailure
    case Responded(_, message) =>
      if message.Some? && message.value != "" then message.value else SendFailed
  }

  /** The inputs are disabled while a request is loading. */
  function InputsEnabled(status: Status): (r: bool)
    ensures r <==> status == Idle || status == Success || status == Error
    ensures SubmitEnabled(status) ==> r
  {
    status != Loading
  }

  /** The submit button is disabled in 'loading' and 'success', so a
      submission is only offered from 'idle' or 'error'. */
  function SubmitEnabled(status: Status): (r: bool)
    ensures r <==> status == Idle || status == Error
  {
    status != Loading && status != Success
  }

  /** The component's state. */
  class ContactFormState {
    var form: FormData
    var status: Status
    var errorMessage: string
    /** Reset timers scheduled and not yet fired. */
    var pendingResets: nat
    /** Requests sent and not yet answered. */
    var inFlight: nat

    constructor ()
      ensures form == EmptyForm && status == Idle && errorMessage == ""
      ensures pendingResets == 0 && inFlight == 0
    {
      form := EmptyForm;
      status := Idle;
      errorMessage := "";
      pendingResets := 0;
      inFlight := 0;
    }

    /** `handleChange(e)` for the input named `field`, now holding `value`. */
    method HandleChange(field: Field, value: string)
      modifies this
      ensures form == Update(old(form), field, value)
      ensures status == old(status) && errorMessage == old(errorMessage)
      ensures pendingResets == old(pendingResets) && inFlight == old(inFlight)
    {
      form := Update(form, field, value);
    }

    method ScheduleReset()
      modifies this`pendingResets
      ensures pendingResets == old(pendingResets) + 1
    {
      pendingResets := pendingResets + 1;
    }

    /** `handleSubmit(e)` up to `await fetch(...)`. A failed check shows its
        message, sets 'error', schedules a reset and returns before the
        status becomes 'loading', so no request is sent. Otherwise the
        status becomes 'loading', the message is cleared and the form, as it
        stands, is sent. */
    method HandleSubmit() returns (request: Option<FormData>)
      modifies this
      ensures request == if ClientError(old(form)).None? then Some(old(form)) else None
      ensures form == old(form)
      ensures ClientError(old(form)).Some? ==>
        && status == Error && errorMessage == ClientError(old(form)).value
        && pendingResets == old(pendingResets) + 1 && inFlight == old(inFlight)
      ensures ClientError(old(form)).None? ==>
        && status == Loading && errorMessage == ""
        && pendingResets == old(pendingResets) && inFlight == old(inFlight) + 1
    {
      if form.name == "" || form.email == "" || form.message == "" {
        errorMessage := FillInAllFields;
        status := Error;
        ScheduleReset();
        return None;
      }
      if !Matches(form.email) {
        errorMessage := EnterValidAddress;
        status := Error;
        ScheduleReset();
        return None;
      }
      if Utf16Length(form.message) < 10 {
        errorMessage := MessageTooShort;
        status := Error;
        ScheduleReset();
        return None;
      }
      status := Loading;
      errorMessage := "";
      request := Some(form);
      inFlight := inFlight + 1;
    }

    /** The rest of `handleSubmit` once the request has settled. An ok
        response shows success and clears the form; a failed one, or a
        thrown error, shows 'error' with `ErrorText`. Either way a reset is
        scheduled. */
    method ResponseArrived(outcome: FetchOutcome)
      requires inFlight > 0
      modifies this
      ensures inFlight == old(inFlight) - 1 && pendingResets == old(pendingResets) + 1
      ensures outcome.Responded? && IsOk(outcome.status) ==>
        status == Success && form == EmptyForm && errorMessage == old(errorMessage)
      ensures !(outcome.Responded? && IsOk(outcome.status)) ==>
        status == Error && errorMessage == ErrorText(outcome) && form == old(form)
    {
      inFlight := inFlight - 1;
      if outcome.Threw? {
        errorMessage := NetworkFailure;
        status := Error;
      } else if IsOk(outcome.status) {
        status := Success;
        form := EmptyForm;
      } else {
        var message := outcome.message;
        errorMessage := if message.Some? && message.value != "" then message.value else SendFailed;
        status := Error;
      }
      ScheduleReset();
    }

    /** One pending `setTimeout(() => setStatus('idle'), ...)` fires: the
        status becomes 'idle' whatever it was, even 'loading'. */
    method ResetTimerFired()
      requires pendingResets > 0
      modifies this
      ensures status == Idle && pendingResets == old(pendingResets) - 1
      ensures form == old(form) && errorMessage == old(errorMessage) && inFlight == old(inFlight)
    {
      pendingResets := pendingResets - 1;
      status := Idle;
    }
  }

  /** A reset scheduled by a failed check can fire while a later request is
      still loading: the status returns to 'idle' with the request in
      flight, and the inputs and the submit button are enabled again. */
  method StaleResetScenario() returns (f: ContactFormState)
    ensures f.status == Idle && f.inFlight == 1
    ensures InputsEnabled(f.status) && SubmitEnabled(f.status)
  {
    f := new ContactFormState();
    var rejected := f.HandleSubmit();
    assert rejected == None;
    f.HandleChange(Name, "Jane Doe");
    f.HandleChange(Email, "jane@example.com");
    f.HandleChange(Message, "Hello, nice to meet!");
    assert f.form == FormData("Jane Doe", "jane@example.com", "Hello, nice to meet!");
    ContactRoute.ExampleAddressMatches();
    var sent := f.HandleSubmit();
    assert sent.Some? && f.status == Loading;
    f.ResetTimerFired();
  }

  /** Any three strings the route accepts also pass the client's checks:
      the client checks nothing the route does not. */
  lemma ServerAcceptanceImpliesClientAcceptance(form: FormData)
    requires ContactRoute.Verdict(form.name, form.email, form.message) == ContactRoute.Sent
    ensures ClientError(form) == None
  {
    var v := ContactRoute.Validate(ContactRoute.Str(form.name), ContactRoute.Str(form.email), ContactRoute.Str(form.message));
    if v.Some? {
      assert ContactRoute.Rejection(v.value).status == 400;
    }
  }

  /** A form the client lets through reaches the route as three strings,
      which the route can only reject for their lengths: never as missing,
      mistyped or a bad address. */
  lemma ClientCheckedFormVerdict(form: FormData)
    requires ClientError(form) == None
    ensures var r := ContactRoute.HandleBody(ContactRoute.Submission(form.name, form.email, form.message));
      r == ContactRoute.Sent || r == ContactRoute.Rejection(ContactRoute.NameLength) ||
      r == ContactRoute.Rejection(ContactRoute.MessageLength)
  {
    ContactRoute.SubmissionVerdict(form.name, form.email, form.message);
  }

  /** The converse does not hold: the client sends any form with a
      one-character name, which the route rejects. */
  lemma ClientLooserThanServer(name: string, email: string, message: string)
    requires |name| == 1 && InBmp(name) && Matches(email) && 10 <= Utf16Length(message)
    ensures ClientError(FormData(name, email, message)) == None
    ensures ContactRoute.Verdict(name, email, message) == ContactRoute.Rejection(ContactRoute.NameLength)
  {
    ContactRoute.NameOutOfBoundsRejected(name, email, message);
  }

  /** For every answer the route gives, the client shows success exactly
      for the 200, and otherwise shows the route's own message. */
  lemma ClientShowsRouteAnswer(limited: bool, decoded: ContactRoute.Decoded)
    ensures var r := if limited then ContactRoute.TooManyRequests else ContactRoute.HandleBody(decoded);
      (IsOk(r.status) <==> r == ContactRoute.Sent) &&
      (!IsOk(r.status) ==> ErrorText(Responded(r.status, Some(r.message))) == r.message)
  {
    var r := if limited then ContactRoute.TooManyRequests else ContactRoute.HandleBody(decoded);
    if r.status == 400 {
      var q :| r == ContactRoute.Rejection(q) by {
        var d := decoded.body;
        var q := ContactRoute.Validate(ContactRoute.Property(d, "name"), ContactRoute.Property(d, "email"),
          ContactRoute.Property(d, "message")).value;
        assert r == ContactRoute.Rejection(q);
      }
      assert r.message != "";
    }
  }
}
