/**
 * The demo contact form: the validation chain run on submit and the
 * handler that shows the outcome and clears the form on success.
 */
module ContactForm {
  import opened JsStrings
  import opened Email
  import opened Wrappers
  import opened Toast

  /** Why a submission is refused; each stands for one of the form's error toasts. */
  datatype Reason = BadName | BadPhone | BadEmail | NoService | ShortMessage

  /** The outcome of the validation chain. */
  datatype Verdict = Accept | Reject(reason: Reason)

  /** Text of the toast: the success message or the error message for a reason. */
  datatype Notice = Sent | Refused(reason: Reason)

  /**
   * The five field values as submitted, each `String(fd.get(field) || "")`,
   * before trimming.
   */
  datatype Submission = Submission(name: string, phone: string, email: string, service: string, message: string)

  /** The form after `form.reset()`: every field back to its empty default. */
  const Blank := Submission("", "", "", "", "")

  /** Position of each rule in the handler's chain of guards. */
  function Rank(r: Reason): nat {
    match r
    case BadName => 0
    case BadPhone => 1
    case BadEmail => 2
    case NoService => 3
    case ShortMessage => 4
  }

  /** The field each rule inspects. */
  function FieldOf(r: Reason, f: Submission): string {
    match r
    case BadName => f.name
    case BadPhone => f.phone
    case BadEmail => f.email
    case NoService => f.service
    case ShortMessage => f.message
  }

  /**
   * Submission `f` satisfies the rule whose failure `r` reports.  The e-mail
   * rule is stated by the regular expression's meaning, not by the check the
   * handler runs.
   */
  ghost predicate Passes(r: Reason, f: Submission) {
    match r
    case BadName => JsLength(Trim(f.name)) >= 2
    case BadPhone => JsLength(Trim(f.phone)) >= 6
    case BadEmail => MatchesEmailRegex(Trim(f.email))
    case NoService => Trim(f.service) != []
    case ShortMessage => JsLength(Trim(f.message)) >= 10
  }

  /**
   * The submit handler's guards, run on the trimmed field values in order;
   * the first that fails decides the error.  FirstFailureDecides states
   * what the verdict means.
   */
  function Validate(f: Submission): Verdict {
    var name := Trim(f.name);
    var phone := Trim(f.phone);
    var email := Trim(f.email);
    var service := Trim(f.service);
    var message := Trim(f.message);
    if JsLength(name) < 2 then Reject(BadName)
    else if JsLength(phone) < 6 then Reject(BadPhone)
    else if !IsEmail(email) then Reject(BadEmail)
    else if service == [] then Reject(NoService)
    else if JsLength(message) < 10 then Reject(ShortMessage)
    else Accept
  }

  /**
   * Each reason is reported exactly when its rule fails and every rule
   * before it holds; a submission is accepted exactly when all five hold.
   * The e-mail rule here is the regular expression's meaning.
   */
  lemma FirstFailureDecides(f: Submission)
    ensures Validate(f) == Reject(BadName) <==> !Passes(BadName, f)
    ensures Validate(f) == Reject(BadPhone) <==> Passes(BadName, f) && !Passes(BadPhone, f)
    ensures Validate(f) == Reject(BadEmail) <==>
      Passes(BadName, f) && Passes(BadPhone, f) && !Passes(BadEmail, f)
    ensures Validate(f) == Reject(NoService) <==>
      Passes(BadName, f) && Passes(BadPhone, f) && Passes(BadEmail, f) && !Passes(NoService, f)
    ensures Validate(f) == Reject(ShortMessage) <==>
      Passes(BadName, f) && Passes(BadPhone, f) && Passes(BadEmail, f) && Passes(NoService, f) &&
      !Passes(ShortMessage, f)
    ensures Validate(f) == Accept <==>
      Passes(BadName, f) && Passes(BadPhone, f) && Passes(BadEmail, f) && Passes(NoService, f) &&
      Passes(ShortMessage, f)
  {
    IsEmailIffRegex(Trim(f.email));
    assert Passes(BadName, f) == (JsLength(Trim(f.name)) >= 2);
    assert Passes(BadPhone, f) == (JsLength(Trim(f.phone)) >= 6);
    assert Passes(BadEmail, f) == IsEmail(Trim(f.email));
    assert Passes(NoService, f) == (Trim(f.service) != []);
    assert Passes(ShortMessage, f) == (JsLength(Trim(f.message)) >= 10);
  }

  /** The notice the handler shows for a verdict. */
  function NoticeOf(v: Verdict): (n: Notice)
    ensures n == Sent <==> v.Accept?
    ensures v.Reject? ==> n == Refused(v.reason)
  {
    if v.Accept? then Sent else Refused(v.reason)
  }

  /** The kind of toast the handler shows for a verdict. */
  function KindOf(v: Verdict): (k: Kind)
    ensures k == Success <==> v.Accept?
  {
    if v.Accept? then Success else Error
  }

  /** A trimmed name shorter than two code units is refused for the name, whatever else was typed. */
  lemma ShortNameRefused(f: Submission)
    requires JsLength(Trim(f.name)) < 2
    ensures Validate(f) == Reject(BadName)
  {
    FirstFailureDecides(f);
  }

  /** The reported reason's rule fails, and every rule ranked before it holds. */
  lemma RefusalIsFirstFailure(f: Submission, q: Reason)
    requires Validate(f).Reject?
    requires Rank(q) < Rank(Validate(f).reason)
    ensures Passes(q, f) && !Passes(Validate(f).reason, f)
  {
    FirstFailureDecides(f);
  }

  /**
   * Rules after the failing one are never consulted: a submission that agrees
   * with a refused one on the fields up to the failing rule is refused for
   * the same reason.
   */
  lemma LaterFieldsIgnored(f: Submission, g: Submission)
    requires Validate(f).Reject?
    requires forall r | Rank(r) <= Rank(Validate(f).reason) :: FieldOf(r, g) == FieldOf(r, f)
    ensures Validate(g) == Validate(f)
  {
    FirstFailureDecides(f);
    FirstFailureDecides(g);
    var v := Validate(f).reason;
    assert FieldOf(BadName, g) == FieldOf(BadName, f);
    if Rank(v) >= 1 { assert FieldOf(BadPhone, g) == FieldOf(BadPhone, f); }
    if Rank(v) >= 2 { assert FieldOf(BadEmail, g) == FieldOf(BadEmail, f); }
    if Rank(v) >= 3 { assert FieldOf(NoService, g) == FieldOf(NoService, f); }
    if Rank(v) >= 4 { assert FieldOf(ShortMessage, g) == FieldOf(ShortMessage, f); }
  }

  /** The sample values the examples below use have no blanks to trim. */
  lemma SampleUntrimmed(s: string)
    requires s == "A" || s == "Ali" || s == "12345" || s == "0123456" || s == "bad" ||
      s == "a@b.com" || s == "paint" || s == "short" || s == "a long description"
    ensures Trim(s) == s
  {
    TrimOfTrimmed(s);
  }

  /** The short sample values are plain ASCII, so `length` counts their characters. */
  lemma SampleLength(s: string)
    requires s == "A" || s == "12345" || s == "short"
    ensures JsLength(s) == |s|
  {
  }

  /** `trim` removes the blanks around ` Ali `. */
  lemma PaddedNameExample(s: string)
    requires s == " Ali "
    ensures Trim(s) == "Ali"
  {
    assert s == [' '] + "Ali" + [' '];
    TrimPadded("Ali");
  }

  /** A one-letter name is refused for the name, whatever the other fields hold. */
  lemma ExampleShortName(f: Submission)
    requires f.name == "A"
    ensures Validate(f) == Reject(BadName)
  {
    SampleUntrimmed(f.name);
    SampleLength(f.name);
  }

  /** A five-digit phone number is refused for the phone once the name is valid. */
  lemma ExampleShortPhone(f: Submission)
    requires f.name == "Ali" && f.phone == "12345"
    ensures Validate(f) == Reject(BadPhone)
  {
    SampleUntrimmed(f.name);
    SampleUntrimmed(f.phone);
    SampleLength(f.phone);
  }

  /** An address without `@` is refused for the e-mail. */
  lemma ExampleBadEmail(f: Submission)
    requires f.name == "Ali" && f.phone == "0123456" && f.email == "bad"
    ensures Validate(f) == Reject(BadEmail)
  {
    SampleUntrimmed(f.name);
    SampleUntrimmed(f.phone);
    SampleUntrimmed(f.email);
    ExampleNotAnAddress(f.email);
  }

  /** With the service left empty, valid name, phone and e-mail lead to the service error. */
  lemma ExampleNoService(f: Submission)
    requires f.name == "Ali" && f.phone == "0123456" && f.email == "a@b.com" && f.service == ""
    ensures Validate(f) == Reject(NoService)
  {
    SampleUntrimmed(f.name);
    SampleUntrimmed(f.phone);
    SampleUntrimmed(f.email);
    ExampleAddress(f.email);
  }

  /** A five-letter description is refused as too short. */
  lemma ExampleShortMessage(f: Submission)
    requires f.name == "Ali" && f.phone == "0123456" && f.email == "a@b.com"
    requires f.service == "paint" && f.message == "short"
    ensures Validate(f) == Reject(ShortMessage)
  {
    SampleUntrimmed(f.name);
    SampleUntrimmed(f.phone);
    SampleUntrimmed(f.email);
    ExampleAddress(f.email);
    SampleUntrimmed(f.service);
    SampleUntrimmed(f.message);
    SampleLength(f.message);
  }

  /** A complete submission is accepted, and blanks around its fields do not count. */
  lemma ExampleAccepted(f: Submission)
    requires f.name == " Ali " && f.phone == "0123456" && f.email == "a@b.com"
    requires f.service == "paint" && f.message == "a long description"
    ensures Validate(f) == Accept
  {
    PaddedNameExample(f.name);
    SampleUntrimmed(f.phone);
    SampleUntrimmed(f.email);
    ExampleAddress(f.email);
    SampleUntrimmed(f.service);
    SampleUntrimmed(f.message);
  }

  /** The verdict depends only on the trimmed values of the fields. */
  lemma OnlyTrimmedValuesMatter(f: Submission, g: Submission)
    requires Trim(f.name) == Trim(g.name) && Trim(f.phone) == Trim(g.phone)
    requires Trim(f.email) == Trim(g.email) && Trim(f.service) == Trim(g.service)
    requires Trim(f.message) == Trim(g.message)
    ensures Validate(f) == Validate(g)
  {
    FirstFailureDecides(f);
    FirstFailureDecides(g);
  }

  /** The contact form element together with the toast its handler reports to. */
  class Form {
    /** The current values of the five named controls. */
    var fields: Submission
    /** `#toast`, or `null` when the page has none. */
    const toast: Toast?<Notice>

    constructor (initial: Submission, toast: Toast?<Notice>)
      ensures fields == initial && this.toast == toast
    {
      fields := initial;
      this.toast := toast;
    }

    /**
     * The `submit` listener at time `now`: validate, show the outcome, and
     * reset the form only when the submission is accepted.
     */
    method Submit(now: nat) returns (v: Verdict)
      requires toast != null ==> toast.Valid()
      modifies this, toast
      ensures v == Validate(old(fields))
      ensures fields == if v.Accept? then Blank else old(fields)
      ensures toast != null ==> toast.Valid()
      ensures toast != null ==> toast.text == Some(NoticeOf(v)) && toast.showing == Some(KindOf(v))
      ensures toast != null ==> toast.pending == map[old(toast.nextTimer) := now + Duration]
    {
      v := Validate(fields);
      if toast != null {
        toast.Show(NoticeOf(v), KindOf(v), now);
      }
      if v.Accept? {
        fields := Blank;
      }
    }
  }
}
