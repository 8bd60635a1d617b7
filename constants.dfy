/**
 * The session constants and the arithmetic captcha of `lib/constants/index.ts`.
 *
 * `Math.random()` is not modelled as a source of randomness: each of its
 * three calls in `generateCaptcha` becomes a parameter, a real number in
 * [0, 1) as the language guarantees.
 */
module Constants {
  import opened Wrappers
  import opened Text

  /** Name of the administrator session cookie. */
  const SessionCookieName: string := "stellar-admin-session"

  /** Lifetime of the session cookie in seconds: thirty days. */
  const SessionMaxAge: nat := 60 * 60 * 24 * 30

  /** The two operators the captcha draws from. */
  const CaptchaOperators: seq<char> := ['+', '-']

  /** Shown when the captcha answer is wrong. */
  const InvalidCaptchaMessage: string := "보안 문자가 올바르지 않습니다."

  datatype Captcha = Captcha(question: string, answer: int)

  /** `Math.floor(r * 10) + 1` for a draw r in [0, 1): an operand from 1 to 10. */
  function Operand(r: real): (n: nat)
    requires 0.0 <= r < 1.0
    ensures 1 <= n <= 10
    ensures (n - 1) as real <= r * 10.0 < n as real
  {
    (r * 10.0).Floor + 1
  }

  /** `Math.floor(r * CAPTCHA_OPERATORS.length)`: an index into the operators. */
  function OperatorIndex(r: real): (i: nat)
    requires 0.0 <= r < 1.0
    ensures i < |CaptchaOperators|
    ensures i == 0 <==> r < 0.5
  {
    (r * 2.0).Floor
  }

  /** The question text `${x} ${op} ${y} = ?`. */
  function QuestionText(x: nat, op: char, y: nat): string {
    Decimal(x) + " " + [op] + " " + Decimal(y) + " = ?"
  }

  /**
   * `generateCaptcha`, with the three draws of `Math.random()` as r1, r2, r3:
   * a sum of the two operands, or the difference of the larger and the
   * smaller, never negative.
   */
  function GenerateCaptcha(r1: real, r2: real, r3: real): (c: Captcha)
    requires 0.0 <= r1 < 1.0 && 0.0 <= r2 < 1.0 && 0.0 <= r3 < 1.0
    ensures 0 <= c.answer <= 20
    ensures r3 >= 0.5 ==> c.answer <= 9
  {
    var a := Operand(r1);
    var b := Operand(r2);
    var operator := CaptchaOperators[OperatorIndex(r3)];
    if operator == '+' then
      Captcha(QuestionText(a, '+', b), a + b)
    else
      var max := Max(a, b);
      var min := Min(a, b);
      Captcha(QuestionText(max, '-', min), max - min)
  }

  // ---------------------------------------------------------------------
  // Reading a question back
  // ---------------------------------------------------------------------

  /** A question as a reader sees it. */
  datatype Question = Question(left: nat, op: char, right: nat)

  /** The value a reader computes from a question. */
  function Value(q: Question): int {
    if q.op == '+' then q.left + q.right else q.left - q.right
  }

  predicate IsNumeral(s: seq<char>) {
    s != [] && AllDigits(s)
  }

  /** Reads `x op y = ?` with decimal operands and a '+' or '-' between them. */
  function ReadQuestion(text: string): (q: Option<Question>)
    ensures q.Some? ==> q.value.op in CaptchaOperators
  {
    var parts := Split(text, ' ');
    if |parts| == 5 && IsNumeral(parts[0]) && IsNumeral(parts[2])
       && |parts[1]| == 1 && parts[1][0] in CaptchaOperators
       && parts[3] == "=" && parts[4] == "?"
    then Some(Question(NumeralValue(parts[0]), parts[1][0], NumeralValue(parts[2])))
    else None
  }

  lemma NumeralHasNoSpace(d: seq<char>)
    requires AllDigits(d)
    ensures ' ' !in d
  {
    assert forall i :: 0 <= i < |d| ==> d[i] != ' ';
  }

  lemma SplitTail()
    ensures Split("= ?", ' ') == ["=", "?"]
  {
    SplitField("=", "?", ' ');
    SplitWithoutSeparator("?", ' ');
    assert "=" + [' '] + "?" == "= ?";
  }

  lemma QuestionShape(x: nat, op: char, y: nat)
    ensures QuestionText(x, op, y) == Decimal(x) + [' '] + ([op] + [' '] + (Decimal(y) + [' '] + "= ?"))
  {
  }

  lemma SplitQuestion(x: nat, op: char, y: nat)
    requires op != ' '
    ensures Split(QuestionText(x, op, y), ' ') == [Decimal(x), [op], Decimal(y), "=", "?"]
  {
    var dx, dy := Decimal(x), Decimal(y);
    NumeralHasNoSpace(dx);
    NumeralHasNoSpace(dy);
    var t2 := dy + [' '] + "= ?";
    var t1 := [op] + [' '] + t2;
    SplitTail();
    SplitField(dy, "= ?", ' ');
    SplitField([op], t2, ' ');
    SplitField(dx, t1, ' ');
    QuestionShape(x, op, y);
  }

  /** A question text reads back as the operands and operator it was built from. */
  lemma ReadQuestionText(x: nat, op: char, y: nat)
    requires op in CaptchaOperators
    ensures ReadQuestion(QuestionText(x, op, y)) == Some(Question(x, op, y))
  {
    SplitQuestion(x, op, y);
    NumeralOfDecimal(x);
    NumeralOfDecimal(y);
  }

  /** `Math.max` and `Math.min` on two operands. */
  function Max(a: nat, b: nat): (m: nat)
    ensures m >= a && m >= b && (m == a || m == b)
  {
    if a >= b then a else b
  }

  function Min(a: nat, b: nat): (m: nat)
    ensures m <= a && m <= b && (m == a || m == b)
  {
    if a >= b then b else a
  }

  /**
   * The captcha's answer is the value of its own question, whose operands
   * are the two draws' operands, between 1 and 10: in draw order for '+',
   * the larger first for '-'; the
   * operator is '+' exactly when the third draw is below one half.
   */
  lemma CaptchaAnswersItsQuestion(r1: real, r2: real, r3: real)
    requires 0.0 <= r1 < 1.0 && 0.0 <= r2 < 1.0 && 0.0 <= r3 < 1.0
    ensures var c := GenerateCaptcha(r1, r2, r3);
      ReadQuestion(c.question).Some? &&
      var q := ReadQuestion(c.question).value;
      && Value(q) == c.answer
      && 1 <= q.left <= 10 && 1 <= q.right <= 10
      && (q.op == '+' <==> r3 < 0.5)
      && (q.op == '-' ==> q.left >= q.right)
      && (r3 < 0.5 ==> q == Question(Operand(r1), '+', Operand(r2)))
      && (r3 >= 0.5 ==> q == Question(Max(Operand(r1), Operand(r2)), '-', Min(Operand(r1), Operand(r2))))
  {
    var a, b := Operand(r1), Operand(r2);
    if r3 < 0.5 {
      ReadQuestionText(a, '+', b);
    } else {
      ReadQuestionText(Max(a, b), '-', Min(a, b));
    }
  }

  /** Typing the answer in decimal is accepted by `parseInt`. */
  lemma CaptchaAnswerParses(r1: real, r2: real, r3: real)
    requires 0.0 <= r1 < 1.0 && 0.0 <= r2 < 1.0 && 0.0 <= r3 < 1.0
    ensures var c := GenerateCaptcha(r1, r2, r3);
      ParseInt(Decimal(c.answer as nat)) == Some(c.answer)
  {
    ParseIntDecimal(GenerateCaptcha(r1, r2, r3).answer as nat);
  }

  /** Thirty days are 2,592,000 seconds. */
  lemma SessionMaxAgeIsThirtyDays()
    ensures SessionMaxAge == 2592000
  {
  }
}
