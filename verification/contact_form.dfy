/** The contact form of the landing page (`ConnectSection`): a message
    input, an inline validation error, and a success toast that a timer
    takes down. Sending is local only: nothing leaves the page. */
module ContactForm {
  import opened JsText
  import opened Timers

  /** Bounds on the message: at least this many units once trimmed, at
      most this many units as typed. */
  const MinLength: nat := 3
  const MaxLength: nat := 200

  /** How long the success toast stays up, in ms. */
  const ToastDelay: nat := 2000

  const EmptyError: string := "Message cannot be empty."
  const ShortError: string := "Message must be at least 3 characters."
  const LongError: string := "Message cannot exceed 200 characters."

  /** `validateMessage`: three rules tried in order, the first that fails
      naming the error, `""` when all pass. The lower bound is measured on
      the trimmed text and the upper bound on the raw text. */
  function ValidateMessage(msg: JsString): (r: string)
    ensures r == "" <==> |Trim(msg)| >= MinLength && |msg| <= MaxLength
    ensures r == EmptyError <==> AllWhitespace(msg)
    ensures r == ShortError <==> 0 < |Trim(msg)| < MinLength
    ensures r == LongError <==> |Trim(msg)| >= MinLength && |msg| > MaxLength
  {
    if Trim(msg) == [] then EmptyError
    else if |Trim(msg)| < MinLength then ShortError
    else if |msg| > MaxLength then LongError
    else ""
  }

  /** White space at the end is trimmed away for the lower bound but still
      counts toward the upper one: padding an accepted message past the
      limit gets it rejected although its trimmed text is unchanged. */
  lemma TrailingSpaceCountsAgainstLimit(core: JsString, pad: JsString)
    requires AllWhitespace(pad)
    requires ValidateMessage(core) == ""
    requires |core| + |pad| > MaxLength
    ensures Trim(core + pad) == Trim(core)
    ensures ValidateMessage(core + pad) == LongError
  {
    TrimIgnoresTrailingWhitespace(core, pad);
  }

  /** The form's state: the input text, the error shown under it (`""` for
      none) and the toast. */
  datatype Form = Form(message: JsString, error: string, toast: Flash)

  const Initial: Form := Form([], "", Hidden)

  /** The first render: an empty input, no error, no toast and no hide
      pending, so the state is consistent and Send starts disabled. */
  lemma InitialState()
    ensures Initial.message == [] && Initial.error == "" && !Initial.toast.shown
    ensures Deadlines(Initial.toast.hides) == {} && Timers.Valid(Initial.toast.hides)
    ensures Consistent(Initial)
    ensures !SendEnabled(Initial.message)
  {
  }

  /** `handleSend` at time `now`: a failing message only sets the error; an
      accepted one clears the input and the error and shows the toast, whose
      hide is scheduled `ToastDelay` ms later and never cancelled. */
  function Submit(f: Form, now: nat): (r: Form)
    ensures ValidateMessage(f.message) != "" ==> r == f.(error := ValidateMessage(f.message))
    ensures ValidateMessage(f.message) == "" ==>
              && r.message == [] && r.error == "" && r.toast.shown
              && now + ToastDelay in Deadlines(r.toast.hides)
    ensures ValidateMessage(f.message) == "" && Timers.Valid(f.toast.hides) ==>
              Deadlines(r.toast.hides)
                == {now + ToastDelay} + (set d | d in Deadlines(f.toast.hides) && d > now)
    ensures Timers.Valid(f.toast.hides) ==> Timers.Valid(r.toast.hides)
  {
    var e := ValidateMessage(f.message);
    if e != "" then f.(error := e)
    else Form([], "", Show(f.toast, now, ToastDelay))
  }

  /** `handleInputChange`: the input shows exactly the new text and any
      error is gone; the toast is untouched. */
  function Edit(f: Form, text: JsString): (r: Form)
    ensures r.message == text && r.error == "" && r.toast == f.toast
  {
    var f' := f.(message := text);
    if f.error != "" then f'.(error := "") else f'
  }

  /** The clock reaches `now`: a due toast hide fires. */
  function Tick(f: Form, now: nat): (r: Form)
    ensures r.message == f.message && r.error == f.error
    ensures r.toast.shown <==> f.toast.shown && Due(f.toast.hides, now) == {}
    ensures forall d :: d in Deadlines(r.toast.hides) <==> d in Deadlines(f.toast.hides) && d > now
    ensures Timers.Valid(f.toast.hides) ==> Timers.Valid(r.toast.hides)
  {
    f.(toast := Timers.Tick(f.toast, now))
  }

  /** Whether the Send button is enabled: the trimmed message is not empty. */
  function SendEnabled(message: JsString): (b: bool)
    ensures b <==> !AllWhitespace(message)
  {
    Trim(message) != []
  }

  /** The button is disabled exactly when submitting would report an empty
      message, so an enabled button never leads to that error. */
  lemma SendEnabledIffNotEmptyError(message: JsString)
    ensures SendEnabled(message) <==> ValidateMessage(message) != EmptyError
  {
  }

  /** The error on screen is either none or the verdict on the message on
      screen. */
  predicate Consistent(f: Form) {
    f.error == "" || f.error == ValidateMessage(f.message)
  }

  /** Every transition keeps the error in step with the message. */
  lemma ConsistentPreserved(f: Form, now: nat, text: JsString)
    requires Consistent(f)
    ensures Consistent(Submit(f, now))
    ensures Consistent(Edit(f, text))
    ensures Consistent(Tick(f, now))
  {
  }

  /** Submitting a rejected message again changes nothing more. */
  lemma RejectedSubmitIdempotent(f: Form, now: nat, later: nat)
    requires ValidateMessage(f.message) != ""
    ensures Submit(Submit(f, now), later) == Submit(f, now)
  {
  }

  /** After an accepted send the input is empty, so the button is disabled
      until something is typed. */
  lemma AcceptedSendDisablesButton(f: Form, now: nat)
    requires ValidateMessage(f.message) == ""
    ensures !SendEnabled(Submit(f, now).message)
    ensures ValidateMessage(Submit(f, now).message) == EmptyError
  {
  }

  /** A second accepted send within `ToastDelay` ms of the first does not
      get a full toast interval: the first send's hide still fires. */
  lemma SecondToastCutShort(f: Form, t1: nat, t2: nat, text: JsString)
    requires Timers.Valid(f.toast.hides)
    requires ValidateMessage(f.message) == "" && ValidateMessage(text) == ""
    requires t1 < t2 < t1 + ToastDelay
    ensures var g := Submit(Edit(Submit(f, t1), text), t2);
            g.toast.shown && !Tick(g, t1 + ToastDelay).toast.shown
  {
  }

  /** Two sends at least `ToastDelay` ms apart do not interfere: the first
      send's hide has run by the time of the second, so the second toast is
      up for its full interval. */
  lemma SpacedSendsGetFullToast(f: Form, t1: nat, t2: nat, text: JsString, t: nat)
    requires forall d :: d in Deadlines(f.toast.hides) ==> d <= t2
    requires ValidateMessage(f.message) == "" && ValidateMessage(text) == ""
    requires t1 + ToastDelay <= t2
    ensures var g := Submit(Edit(Submit(f, t1), text), t2);
            g.toast.shown && (Tick(g, t).toast.shown <==> t < t2 + ToastDelay)
  {
    var mid := Edit(Submit(f, t1), text);
    ShowLastsItsDelay(mid.toast, t2, ToastDelay, t);
  }

  /** An empty message and a two-letter one fail the first and the second
      rule. */
  lemma EmptyAndShortExamples()
    ensures ValidateMessage([]) == EmptyError
    ensures ValidateMessage(Units("hi")) == ShortError
  {
  }

  /** 201 letters fail the third rule. */
  lemma OverlongExample()
    ensures ValidateMessage(seq(201, _ => 0x61 as CodeUnit)) == LongError
  {
  }

  /** An ordinary greeting passes, and sending it clears the input and shows
      the toast. */
  lemma AcceptedExample(f: Form, now: nat)
    requires f.message == Units("Hello there")
    ensures ValidateMessage(f.message) == ""
    ensures var g := Submit(f, now); g.message == [] && g.error == "" && g.toast.shown
  {
    var hello := f.message;
    assert !IsWhitespace(hello[0]);
    assert !IsWhitespace(hello[10]);
    assert TrimStartIndex(hello) == 0;
    assert TrimEndIndex(hello) == 11;
  }
}
