/**
 * The comment form of `components/features/comment/comment-form.tsx`: its
 * state, the field rules of `validate`, and what `handleSubmit` sends and
 * resets.
 *
 * The three `Math.random()` draws behind each new captcha are parameters,
 * and the result of the `onSubmit` callback is the parameter `accepted`.
 */
module CommentForm {
  import opened Wrappers
  import opened Text
  import opened Constants

  const NicknameRequired: string := "닉네임을 입력하세요."
  const PasswordTooShort: string := "비밀번호는 4자 이상 입력하세요."
  const ContentRequired: string := "내용을 입력하세요."

  /** The shortest password the form accepts. */
  const MinPasswordLength: nat := 4

  /** The four keys `validate` may record in `errors`. */
  datatype Field = Nickname | Password | Content | CaptchaAnswer

  /** The key's name in the error record. */
  function KeyName(f: Field): (name: string)
    ensures name in {"nickname", "password", "content", "captcha"}
  {
    match f
    case Nickname => "nickname"
    case Password => "password"
    case Content => "content"
    case CaptchaAnswer => "captcha"
  }

  // `!s.trim()` holds exactly when every character of s is white space
  // (the third ensures of Text.Trim), which is how the rules below say it.

  predicate NicknameInvalid(nickname: string) { AllSpace(nickname) }

  predicate PasswordInvalid(password: string) { AllSpace(password) || |password| < MinPasswordLength }

  predicate ContentInvalid(content: string) { AllSpace(content) }

  /** `parseInt(captchaInput, 10) !== captcha.answer`: NaN differs from every answer. */
  predicate CaptchaInvalid(captchaInput: string, answer: int) { ParseInt(captchaInput) != Some(answer) }

  /**
   * The errors `validate` records: one key per broken rule, with its
   * message, and no other key.
   */
  function ValidationErrors(nickname: string, password: string, content: string, captchaInput: string, answer: int)
    : (errors: map<Field, string>)
    ensures Nickname in errors <==> NicknameInvalid(nickname)
    ensures Password in errors <==> PasswordInvalid(password)
    ensures Content in errors <==> ContentInvalid(content)
    ensures CaptchaAnswer in errors <==> CaptchaInvalid(captchaInput, answer)
    ensures Nickname in errors ==> errors[Nickname] == NicknameRequired
    ensures Password in errors ==> errors[Password] == PasswordTooShort
    ensures Content in errors ==> errors[Content] == ContentRequired
    ensures CaptchaAnswer in errors ==> errors[CaptchaAnswer] == InvalidCaptchaMessage
  {
    var e0: map<Field, string> := map[];
    var e1 := if NicknameInvalid(nickname) then e0[Nickname := NicknameRequired] else e0;
    var e2 := if PasswordInvalid(password) then e1[Password := PasswordTooShort] else e1;
    var e3 := if ContentInvalid(content) then e2[Content := ContentRequired] else e2;
    if CaptchaInvalid(captchaInput, answer) then e3[CaptchaAnswer := InvalidCaptchaMessage] else e3
  }

  /** Every rule of `validate` holds. */
  predicate Passes(nickname: string, password: string, content: string, captchaInput: string, answer: int) {
    !NicknameInvalid(nickname) && !PasswordInvalid(password) && !ContentInvalid(content)
    && !CaptchaInvalid(captchaInput, answer)
  }

  /** `validate` records no error exactly when every rule holds. */
  lemma NoErrorsIffPasses(nickname: string, password: string, content: string, captchaInput: string, answer: int)
    ensures ValidationErrors(nickname, password, content, captchaInput, answer) == map[]
        <==> Passes(nickname, password, content, captchaInput, answer)
  {
    var e := ValidationErrors(nickname, password, content, captchaInput, answer);
    if Passes(nickname, password, content, captchaInput, answer) {
      forall f | f in e ensures false {
        match f
        case Nickname =>
        case Password =>
        case Content =>
        case CaptchaAnswer =>
      }
    }
  }

  /** Non-empty, with no white space at either end. */
  predicate Trimmed(s: string) {
    s != [] && !IsSpace(s[0]) && !IsSpace(s[|s| - 1])
  }

  /** A field that is not blank trims to a non-empty text with no white space at its ends. */
  lemma TrimOfFilled(s: string)
    requires !AllSpace(s)
    ensures Trimmed(Trim(s))
  {
  }

  /** What `onSubmit` receives. */
  datatype Payload = Payload(nickname: string, password: string, content: string)

  /** Nickname and content are trimmed, the password is sent as typed. */
  function PayloadOf(nickname: string, password: string, content: string): (p: Payload)
    ensures p.password == password
    ensures p.nickname == Trim(nickname) && p.content == Trim(content)
  {
    Payload(Trim(nickname), password, Trim(content))
  }

  /**
   * A form that passes validation sends a non-empty nickname and content
   * without surrounding white space, a password of four or more characters,
   * and its captcha field holds the answer.
   */
  lemma ValidPayload(nickname: string, password: string, content: string, captchaInput: string, answer: int)
    requires Passes(nickname, password, content, captchaInput, answer)
    ensures var p := PayloadOf(nickname, password, content);
      && Trimmed(p.nickname) && Trimmed(p.content)
      && |p.password| >= MinPasswordLength && Trim(p.password) != []
      && ParseInt(captchaInput) == Some(answer)
  {
    TrimOfFilled(nickname);
    TrimOfFilled(content);
    TrimOfFilled(password);
  }

  /** Four spaces are not a password: the password is checked trimmed as well as by length. */
  lemma BlankPasswordRejected()
    ensures PasswordInvalid("    ")
  {
  }

  /** " ab " is a password: the length counts the untrimmed text. */
  lemma PaddedPasswordAccepted()
    ensures !PasswordInvalid(" ab ")
  {
    assert !AllSpace(" ab ") by { assert !IsSpace(" ab "[1]); }
  }

  /** A digit prefix counts: "7x" answers 7. */
  lemma DigitPrefixAnswers()
    ensures !CaptchaInvalid("7x", 7)
  {
    assert Decimal(7) == "7";
    ParseIntDecimalPrefix([], 7, "x");
    assert [] + "7" + "x" == "7x";
  }

  /** Input with no digit after the optional blanks and sign never answers the captcha. */
  lemma NonNumericRejected(captchaInput: string, answer: int)
    requires Unsigned(captchaInput) == [] || !IsDigit(Unsigned(captchaInput)[0])
    ensures CaptchaInvalid(captchaInput, answer)
  {
  }

  /** Typing a captcha's answer in decimal passes the captcha rule. */
  lemma DecimalAnswerAccepted(r1: real, r2: real, r3: real)
    requires 0.0 <= r1 < 1.0 && 0.0 <= r2 < 1.0 && 0.0 <= r3 < 1.0
    ensures var c := GenerateCaptcha(r1, r2, r3);
      !CaptchaInvalid(Decimal(c.answer as nat), c.answer)
  {
    CaptchaAnswerParses(r1, r2, r3);
  }

  class Form {
    var nickname: string
    var password: string
    var content: string
    var captcha: Captcha
    var captchaInput: string
    var errors: map<Field, string>
    var isSubmitting: bool

    /** The `useState` initial values. */
    constructor ()
      ensures nickname == [] && password == [] && content == [] && captchaInput == []
      ensures captcha == Captcha([], 0) && errors == map[] && !isSubmitting
    {
      nickname := [];
      password := [];
      content := [];
      captcha := Captcha([], 0);
      captchaInput := [];
      errors := map[];
      isSubmitting := false;
    }

    /** The mount effect: a first captcha. */
    method Mount(r1: real, r2: real, r3: real)
      requires 0.0 <= r1 < 1.0 && 0.0 <= r2 < 1.0 && 0.0 <= r3 < 1.0
      modifies this
      ensures captcha == GenerateCaptcha(r1, r2, r3)
      ensures nickname == old(nickname) && password == old(password) && content == old(content)
      ensures captchaInput == old(captchaInput) && errors == old(errors) && isSubmitting == old(isSubmitting)
    {
      captcha := GenerateCaptcha(r1, r2, r3);
    }

    /** `refreshCaptcha`: a new captcha and an empty answer field. */
    method RefreshCaptcha(r1: real, r2: real, r3: real)
      requires 0.0 <= r1 < 1.0 && 0.0 <= r2 < 1.0 && 0.0 <= r3 < 1.0
      modifies this
      ensures captcha == GenerateCaptcha(r1, r2, r3) && captchaInput == []
      ensures nickname == old(nickname) && password == old(password) && content == old(content)
      ensures errors == old(errors) && isSubmitting == old(isSubmitting)
    {
      captcha := GenerateCaptcha(r1, r2, r3);
      captchaInput := [];
    }

    /** `validate`: record the broken rules in `errors`; true exactly when there are none. */
    method Validate() returns (ok: bool)
      modifies this
      ensures errors == ValidationErrors(nickname, password, content, captchaInput, captcha.answer)
      ensures ok <==> errors == map[]
      ensures ok <==> Passes(nickname, password, content, captchaInput, captcha.answer)
      ensures nickname == old(nickname) && password == old(password) && content == old(content)
      ensures captcha == old(captcha) && captchaInput == old(captchaInput) && isSubmitting == old(isSubmitting)
    {
      var newErrors: map<Field, string> := map[];
      if NicknameInvalid(nickname) {
        newErrors := newErrors[Nickname := NicknameRequired];
      }
      if PasswordInvalid(password) {
        newErrors := newErrors[Password := PasswordTooShort];
      }
      if ContentInvalid(content) {
        newErrors := newErrors[Content := ContentRequired];
      }
      if CaptchaInvalid(captchaInput, captcha.answer) {
        newErrors := newErrors[CaptchaAnswer := InvalidCaptchaMessage];
      }
      NoErrorsIffPasses(nickname, password, content, captchaInput, captcha.answer);
      errors := newErrors;
      ok := newErrors == map[];
    }

    /** After a successful submission: empty inputs, a new captcha, no errors. */
    method ClearAfterSuccess(r1: real, r2: real, r3: real)
      requires 0.0 <= r1 < 1.0 && 0.0 <= r2 < 1.0 && 0.0 <= r3 < 1.0
      modifies this
      ensures nickname == [] && password == [] && content == [] && captchaInput == []
      ensures captcha == GenerateCaptcha(r1, r2, r3) && errors == map[]
      ensures isSubmitting == old(isSubmitting)
    {
      nickname := [];
      password := [];
      content := [];
      captchaInput := [];
      RefreshCaptcha(r1, r2, r3);
      errors := map[];
    }

    /**
     * `handleSubmit`. An invalid form records its errors and sends nothing.
     * A valid one sends the shaped payload; when `onSubmit` reports success
     * the inputs are cleared, a new captcha drawn and the errors emptied.
     * Either way the form is no longer submitting afterwards.
     */
    method HandleSubmit(accepted: bool, r1: real, r2: real, r3: real) returns (sent: Option<Payload>)
      requires 0.0 <= r1 < 1.0 && 0.0 <= r2 < 1.0 && 0.0 <= r3 < 1.0
      requires !isSubmitting
      modifies this
      ensures !Passes(old(nickname), old(password), old(content), old(captchaInput), old(captcha.answer)) ==>
        && sent.None?
        && errors == ValidationErrors(old(nickname), old(password), old(content), old(captchaInput), old(captcha.answer))
        && nickname == old(nickname) && password == old(password) && content == old(content)
        && captcha == old(captcha) && captchaInput == old(captchaInput)
      ensures Passes(old(nickname), old(password), old(content), old(captchaInput), old(captcha.answer)) ==>
        && sent == Some(PayloadOf(old(nickname), old(password), old(content)))
        && errors == map[]
        && (accepted ==>
              && nickname == [] && password == [] && content == [] && captchaInput == []
              && captcha == GenerateCaptcha(r1, r2, r3))
        && (!accepted ==>
              && nickname == old(nickname) && password == old(password) && content == old(content)
              && captcha == old(captcha) && captchaInput == old(captchaInput))
      ensures !isSubmitting
    {
      var payload := PayloadOf(nickname, password, content);
      var valid := Validate();
      if !valid {
        return None;
      }
      SubmitValidated(accepted, r1, r2, r3);
      return Some(payload);
    }

    /**
     * The `try`/`finally` of `handleSubmit` once the form is valid: submitting
     * while `onSubmit` runs, cleared when it reports success, and no longer
     * submitting afterwards.
     */
    method SubmitValidated(accepted: bool, r1: real, r2: real, r3: real)
      requires 0.0 <= r1 < 1.0 && 0.0 <= r2 < 1.0 && 0.0 <= r3 < 1.0
      modifies this
      ensures accepted ==>
        && nickname == [] && password == [] && content == [] && captchaInput == []
        && captcha == GenerateCaptcha(r1, r2, r3) && errors == map[]
      ensures !accepted ==>
        && nickname == old(nickname) && password == old(password) && content == old(content)
        && captcha == old(captcha) && captchaInput == old(captchaInput) && errors == old(errors)
      ensures !isSubmitting
    {
      isSubmitting := true;
      if accepted {
        ClearAfterSuccess(r1, r2, r3);
      }
      isSubmitting := false;
    }
  }
}
