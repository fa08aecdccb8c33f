/**
 * The practice card of `components/lessons/CalculusLesson.tsx`: a random monomial `cx^p` to
 * differentiate, the answer the differentiator prints for it, and the check of a typed answer,
 * which ignores whitespace and letter case. `Math.random()` comes in as parameters (see
 * `MathLib.RandInt`).
 */
module CalculusLesson {
  import opened Wrappers
  import opened JsText
  import opened Derivative
  import opened MathLib
  import opened AppProvider
  import opened QuickGenerator

  // ---------------------------------------------------------------------------
  // The generated problem
  // ---------------------------------------------------------------------------

  /** What the card shows (`d/dx (expression) = ?`) and the answer it expects. */
  datatype Problem = Problem(expression: string, answer: string)

  /** The problem before the first one is generated. */
  const EmptyProblem := Problem("", "")

  /** `${coeff}x^${power}` */
  function ExpressionText(coeff: int, power: int): string {
    IntToString(coeff) + "x^" + IntToString(power)
  }

  /**
   * The expression is the monomial `coeff * x^power` written out as the application writes
   * polynomials, and the differentiator prints `(coeff * power) x^(power - 1)` for it.
   */
  lemma GeneratedDerivative(coeff: int, power: nat)
    requires power >= 2
    ensures ExpressionText(coeff, power) == PolynomialText([Monomial(coeff, power)])
    ensures DerivePolynomial(ExpressionText(coeff, power)) == Some(TermText(coeff * power, power - 1))
  {
    OneTermText(coeff, power);
    TermDerivative(coeff, power);
  }

  /** `generateProblem` for the drawn coefficient and power: the expression and its derivative (see `GeneratedDerivative`). */
  function NewProblem(coeff: int, power: int): Problem {
    Problem(ExpressionText(coeff, power), TermText(coeff * power, power - 1))
  }

  /** The expected answer: "{2 coeff}x" for a square, "{coeff power}x^{power - 1}" for a higher power. */
  lemma ExpectedAnswer(coeff: int, power: int)
    requires power >= 2
    ensures power == 2 ==> NewProblem(coeff, power).answer == IntToString(2 * coeff) + "x"
    ensures power > 2 ==>
      NewProblem(coeff, power).answer == IntToString(coeff * power) + "x^" + IntToString(power - 1)
  {
    var answer := NewProblem(coeff, power).answer;
    assert answer == TermText(coeff * power, power - 1);
    if power == 2 {
      assert coeff * power == 2 * coeff;
    }
  }

  // ---------------------------------------------------------------------------
  // Comparing answers
  // ---------------------------------------------------------------------------

  /** `s.replace(/\s/g, "").toLowerCase()` */
  function Normalize(s: string): (r: string)
    ensures NoSpace(r) && |r| <= |s|
  {
    ToLowerNoSpace(RemoveWhitespace(s));
    ToLower(RemoveWhitespace(s))
  }

  /** A typed answer is right when it normalizes to the normalized expected answer. */
  predicate Matches(typed: string, expected: string) {
    Normalize(typed) == Normalize(expected)
  }

  /** Normalizing twice changes nothing more. */
  lemma NormalizeIdempotent(s: string)
    ensures Normalize(Normalize(s)) == Normalize(s)
  {
    var n := Normalize(s);
    RemoveWhitespaceNoSpace(n);
    ToLowerIdempotent(RemoveWhitespace(s));
  }

  /** Letter case is ignored: an upper-cased letter anywhere does not change the verdict. */
  lemma NormalizeIgnoresCase(s: string)
    ensures Normalize(ToLower(s)) == Normalize(s)
  {
    RemoveWhitespaceToLower(s);
    ToLowerIdempotent(RemoveWhitespace(s));
  }

  /** Normalizing a concatenation normalizes each part. */
  lemma NormalizeAppend(a: string, b: string)
    ensures Normalize(a + b) == Normalize(a) + Normalize(b)
  {
    RemoveWhitespaceAppend(a, b);
    ToLowerAppend(RemoveWhitespace(a), RemoveWhitespace(b));
  }

  /** Whitespace typed anywhere, of any amount, does not change the verdict. */
  lemma NormalizeIgnoresBlanks(a: string, blanks: string, b: string)
    requires AllSpace(blanks)
    ensures Normalize(a + blanks + b) == Normalize(a + b)
  {
    AllSpaceRemoved(blanks);
    calc {
      Normalize(a + blanks + b);
      { NormalizeAppend(a + blanks, b); }
      Normalize(a + blanks) + Normalize(b);
      { NormalizeAppend(a, blanks); }
      Normalize(a) + Normalize(blanks) + Normalize(b);
      { assert Normalize(blanks) == []; }
      Normalize(a) + Normalize(b);
      { NormalizeAppend(a, b); }
      Normalize(a + b);
    }
  }

  /** A string without whitespace or capital letters is its own normal form. */
  lemma NormalForm(t: string)
    requires NoSpace(t) && NoUpper(t)
    ensures Normalize(t) == t
  {
    RemoveWhitespaceNoSpace(t);
    ToLowerNoUpper(t);
  }

  lemma NumeralNoUpper(n: int)
    ensures NoUpper(IntToString(n))
  {
    var c := IntToString(n);
    IntToStringChars(n);
    assert forall i :: 0 <= i < |c| ==> c[i] == '-' || IsDigit(c[i]);
  }

  /** The printed derivative has no whitespace and no capital letter: it is its own normal form. */
  lemma AnswerIsNormal(k: int, n: nat)
    ensures Normalize(TermText(k, n)) == TermText(k, n)
  {
    var t := TermText(k, n);
    PieceTermText(k, n);
    NumeralNoUpper(k);
    NumeralNoUpper(n);
    var c, e := IntToString(k), IntToString(n);
    if n == 1 {
      assert t == c + "x";
      assert forall i :: |c| <= i < |t| ==> t[i] == 'x';
    } else if n >= 2 {
      var ce := c + "x^";
      assert NoUpper(ce) by {
        assert forall i :: |c| <= i < |ce| ==> ce[i] == "x^"[i - |c|];
      }
      assert t == ce + e;
      assert forall i :: |ce| <= i < |t| ==> t[i] == e[i - |ce|];
    }
    NormalForm(t);
  }

  /** For a generated problem, a typed answer is accepted exactly when it normalizes to the printed derivative. */
  lemma AcceptedIff(typed: string, coeff: int, power: int)
    requires power >= 2
    ensures Matches(typed, NewProblem(coeff, power).answer)
            <==> Normalize(typed) == TermText(coeff * power, power - 1)
  {
    var answer := NewProblem(coeff, power).answer;
    assert answer == TermText(coeff * power, power - 1);
    AnswerIsNormal(coeff * power, power - 1);
  }

  // ---------------------------------------------------------------------------
  // The component
  // ---------------------------------------------------------------------------

  class CalculusPractice {
    var problem: Problem
    var userAnswer: string
    var feedback: Feedback

    /** The card before its effect has generated the first problem. */
    constructor ()
      ensures problem == EmptyProblem && userAnswer == "" && feedback == NoFeedback
    {
      problem := EmptyProblem;
      userAnswer := "";
      feedback := NoFeedback;
    }

    /** `generateProblem()`: `randInt(2, 9)` for the coefficient, `randInt(2, 5)` for the power. */
    method GenerateProblem(uCoeff: real, uPower: real)
      requires IsRandom(uCoeff) && IsRandom(uPower)
      modifies this
      ensures 2 <= RandInt(2, 9, uCoeff) <= 9 && 2 <= RandInt(2, 5, uPower) <= 5
      ensures problem == NewProblem(RandInt(2, 9, uCoeff), RandInt(2, 5, uPower))
      ensures DerivePolynomial(problem.expression) == Some(problem.answer)
      ensures userAnswer == "" && feedback == NoFeedback
    {
      var coeff := RandInt(2, 9, uCoeff);
      var power := RandInt(2, 5, uPower);
      GeneratedDerivative(coeff, power);
      problem := NewProblem(coeff, power);
      userAnswer := "";
      feedback := NoFeedback;
    }

    method SetUserAnswer(text: string)
      modifies this
      ensures userAnswer == text && problem == old(problem) && feedback == old(feedback)
    {
      userAnswer := text;
    }

    /** `checkAnswer()`: +15 XP on a match, otherwise the expected answer is shown. */
    method CheckAnswer() returns (dispatched: seq<AppAction>)
      modifies this
      ensures problem == old(problem) && userAnswer == old(userAnswer)
      ensures Matches(userAnswer, problem.answer) ==>
        dispatched == [AddXp(15, "Prática de Cálculo")] && feedback == Correct(15)
      ensures !Matches(userAnswer, problem.answer) ==>
        dispatched == [] && feedback == Wrong(problem.answer)
    {
      var normalizedUser := Normalize(userAnswer);
      var normalizedCorrect := Normalize(problem.answer);
      if normalizedUser == normalizedCorrect {
        feedback := Correct(15);
        dispatched := [AddXp(15, "Prática de Cálculo")];
      } else {
        feedback := Wrong(problem.answer);
        dispatched := [];
      }
    }
  }
}
