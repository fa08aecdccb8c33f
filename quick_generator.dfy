/**
 * The practice problems of `components/core/QuickGenerator.tsx`: a linear equation, a
 * quadratic equation and a rectangle area. Each problem component holds its problem, the
 * typed answer, the feedback and the shown solution; checking an answer sets the feedback
 * and the solution and, when the answer is right, dispatches one XP award. The dispatched
 * actions are returned to the caller.
 */
module QuickGenerator {
  import opened Wrappers
  import opened JsText
  import opened Sorting
  import opened MathLib
  import opened AppProvider

  /** What the feedback line says: nothing yet, "Correto! +n XP", or "Errado." with the expected answer. */
  datatype Feedback = NoFeedback | Correct(xp: nat) | Wrong(expected: string)

  // ---------------------------------------------------------------------------
  // Linear equation: `parseInt(answer) === equation.x`
  // ---------------------------------------------------------------------------

  predicate CheckLinear(answer: string, x: int) {
    ParseInt(answer, true) == Some(x)
  }

  /** Typing a number accepts exactly when the number is the solution. */
  lemma LinearCheckIff(v: int, x: int)
    ensures CheckLinear(IntToString(v), x) <==> v == x
  {
    ParseIntRoundTrip(v, true);
  }

  // ---------------------------------------------------------------------------
  // Quadratic equation: split on ',', parse each trimmed piece, sort, compare
  // ---------------------------------------------------------------------------

  /**
   * `parseInt(n.trim())` for one comma-separated piece; `None` is NaN. The trimmed piece
   * starts with no whitespace, so it goes straight to the sign and digits (`ParseTrimmed`).
   */
  function ParseEntry(piece: string): Option<int> {
    ParseSigned(Trim(piece), true)
  }

  /** Parses every piece; `None` when one of them is NaN. */
  function ParseAll(pieces: seq<string>): (r: Option<seq<int>>)
    ensures r.Some? ==> |r.value| == |pieces|
  {
    if forall i :: 0 <= i < |pieces| ==> ParseEntry(pieces[i]).Some? then
      Some(seq(|pieces|, i requires 0 <= i < |pieces| => ParseEntry(pieces[i]).value))
    else None
  }

  /**
   * The quadratic check: every entry a number, as many entries as roots, and the entries
   * sorted ascending equal to the roots one by one. A NaN entry never equals a root, so an
   * answer with one is rejected wherever the sort leaves it.
   */
  predicate CheckQuadratic(answer: string, roots: seq<int>) {
    match ParseAll(Split(answer, ','))
    case None => false
    case Some(vs) => |vs| == |roots| && SortAsc(vs) == roots
  }

  function Texts(vs: seq<int>): (r: seq<string>)
    ensures |r| == |vs| && forall i :: 0 <= i < |r| ==> r[i] == IntToString(vs[i])
  {
    if vs == [] then [] else [IntToString(vs[0])] + Texts(vs[1..])
  }

  /** Numbers typed the way the input suggests ("-2, 5"), or `roots.join(', ')`. */
  function RootsAnswer(vs: seq<int>): string {
    Join(Texts(vs), ", ")
  }

  function Padded(ws: seq<string>): (r: seq<string>)
    ensures |r| == |ws| && forall i :: 0 <= i < |r| ==> r[i] == " " + ws[i]
  {
    if ws == [] then [] else [" " + ws[0]] + Padded(ws[1..])
  }

  lemma {:induction false} JoinPadded(ws: seq<string>)
    requires ws != []
    ensures Join(Padded(ws), ",") == " " + Join(ws, ", ")
  {
    if |ws| > 1 {
      JoinPadded(ws[1..]);
      assert Padded(ws)[1..] == Padded(ws[1..]);
      calc {
        Join(Padded(ws), ",");
        " " + ws[0] + "," + Join(Padded(ws[1..]), ",");
        " " + ws[0] + "," + (" " + Join(ws[1..], ", "));
        " " + (ws[0] + ", " + Join(ws[1..], ", "));
        " " + Join(ws, ", ");
      }
    }
  }

  /** The pieces `split(',')` cuts a typed list of numbers into. */
  lemma AnswerPieces(vs: seq<int>)
    requires vs != []
    ensures Split(RootsAnswer(vs), ',') == [IntToString(vs[0])] + Padded(Texts(vs[1..]))
  {
    var ts := Texts(vs);
    var pieces := [IntToString(vs[0])] + Padded(Texts(vs[1..]));
    assert ts[1..] == Texts(vs[1..]);
    if |vs| == 1 {
      assert Join(pieces, ",") == Join(ts, ", ");
    } else {
      JoinPadded(ts[1..]);
      assert pieces[1..] == Padded(ts[1..]);
      assert Join(pieces, ",") == ts[0] + "," + (" " + Join(ts[1..], ", "));
      assert Join(pieces, ",") == Join(ts, ", ");
    }
    IntToStringChars(vs[0]);
    forall i | 0 <= i < |pieces|
      ensures ',' !in pieces[i]
    {
      if i > 0 {
        IntToStringChars(vs[1..][i - 1]);
        assert pieces[i] == " " + IntToString(vs[1..][i - 1]);
      }
    }
    SplitJoin(pieces, ',');
  }

  lemma ParsePaddedNumber(v: int)
    ensures ParseEntry(IntToString(v)) == Some(v) && ParseEntry(" " + IntToString(v)) == Some(v)
  {
    var s := IntToString(v);
    TrimNoOp(s);
    TrimPadded(s);
    ParseTrimmed(s, true);
    ParseIntRoundTrip(v, true);
  }

  /** Each piece of a typed list is one of the typed numbers. */
  lemma PieceParses(vs: seq<int>, i: int)
    requires 0 <= i < |vs|
    ensures ParseEntry(([IntToString(vs[0])] + Padded(Texts(vs[1..])))[i]) == Some(vs[i])
  {
    var piece := ([IntToString(vs[0])] + Padded(Texts(vs[1..])))[i];
    assert piece == if i == 0 then IntToString(vs[i]) else " " + IntToString(vs[i]) by {
      if i > 0 {
        assert piece == Padded(Texts(vs[1..]))[i - 1];
        assert vs[1..][i - 1] == vs[i];
      }
    }
    ParsePaddedNumber(vs[i]);
  }

  lemma ParseAllNumbers(pieces: seq<string>, vs: seq<int>)
    requires |pieces| == |vs| && forall i :: 0 <= i < |pieces| ==> ParseEntry(pieces[i]) == Some(vs[i])
    ensures ParseAll(pieces) == Some(vs)
  {
    var values := seq(|pieces|, i requires 0 <= i < |pieces| => ParseEntry(pieces[i]).value);
    assert values == vs;
  }

  /** A typed list of numbers parses back to those numbers. */
  lemma AnswerEntries(vs: seq<int>)
    requires vs != []
    ensures ParseAll(Split(RootsAnswer(vs), ',')) == Some(vs)
  {
    var pieces := [IntToString(vs[0])] + Padded(Texts(vs[1..]));
    forall i | 0 <= i < |pieces|
      ensures ParseEntry(pieces[i]) == Some(vs[i])
    {
      PieceParses(vs, i);
    }
    ParseAllNumbers(pieces, vs);
    AnswerPieces(vs);
  }

  /**
   * For sorted roots, a typed list of numbers is accepted exactly when it holds the roots,
   * in any order and each as often as it occurs among the roots.
   */
  lemma QuadraticCheckIff(vs: seq<int>, roots: seq<int>)
    requires vs != [] && SortedAsc(roots)
    ensures CheckQuadratic(RootsAnswer(vs), roots) <==> multiset(vs) == multiset(roots)
  {
    AnswerEntries(vs);
    if multiset(vs) == multiset(roots) {
      assert |vs| == |multiset(vs)| == |multiset(roots)| == |roots|;
      SortedUnique(SortAsc(vs), roots);
    }
  }

  /**
   * For any typed text: an accepted answer holds numbers only, and they are the roots, each
   * as often as it occurs; against sorted roots the converse holds too.
   */
  lemma QuadraticCheckParsed(answer: string, roots: seq<int>)
    ensures CheckQuadratic(answer, roots) ==>
              ParseAll(Split(answer, ',')).Some? && multiset(ParseAll(Split(answer, ',')).value) == multiset(roots)
    ensures SortedAsc(roots) ==>
              (CheckQuadratic(answer, roots) <==>
                 ParseAll(Split(answer, ',')).Some? && multiset(ParseAll(Split(answer, ',')).value) == multiset(roots))
  {
    var p := ParseAll(Split(answer, ','));
    if p.Some? && SortedAsc(roots) && multiset(p.value) == multiset(roots) {
      assert |p.value| == |multiset(p.value)| == |multiset(roots)| == |roots|;
      SortedUnique(SortAsc(p.value), roots);
    }
  }

  /** The order in which the roots are typed does not matter. */
  lemma QuadraticIgnoresOrder(vs: seq<int>, ws: seq<int>, roots: seq<int>)
    requires vs != [] && ws != [] && SortedAsc(roots)
    requires multiset(vs) == multiset(ws)
    ensures CheckQuadratic(RootsAnswer(vs), roots) == CheckQuadratic(RootsAnswer(ws), roots)
  {
    QuadraticCheckIff(vs, roots);
    QuadraticCheckIff(ws, roots);
  }

  /** A double root has to be typed twice: once is not enough. */
  lemma RepeatedRootTypedTwice(r: int)
    ensures !CheckQuadratic(RootsAnswer([r]), [r, r])
    ensures CheckQuadratic(RootsAnswer([r, r]), [r, r])
  {
    QuadraticCheckIff([r], [r, r]);
    QuadraticCheckIff([r, r], [r, r]);
    assert multiset([r]) != multiset([r, r]) by {
      assert multiset([r])[r] == 1;
    }
  }

  // ---------------------------------------------------------------------------
  // Rectangle: `parseInt(answer) === base * height`
  // ---------------------------------------------------------------------------

  predicate CheckRectangle(answer: string, base: int, height: int) {
    ParseInt(answer, true) == Some(base * height)
  }

  /**
   * The rectangle check is the linear check against the area: typing a number accepts
   * exactly when the number is base times height.
   */
  lemma RectangleCheckIff(answer: string, v: int, base: int, height: int)
    ensures CheckRectangle(answer, base, height) == CheckLinear(answer, base * height)
    ensures CheckRectangle(IntToString(v), base, height) <==> v == base * height
  {
    LinearCheckIff(v, base * height);
  }

  // ---------------------------------------------------------------------------
  // The problem components
  // ---------------------------------------------------------------------------

  class AlgebraProblem {
    var equation: Equation
    var answer: string
    var feedback: Feedback
    var solution: seq<string>

    /** A fresh problem, from the three `Math.random()` values of `genLinearEquation`. */
    constructor (ua: real, ub: real, ux: real)
      requires IsRandom(ua) && IsRandom(ub) && IsRandom(ux)
      ensures equation == GenLinearEquation(ua, ub, ux)
      ensures answer == "" && feedback == NoFeedback && solution == []
    {
      equation := GenLinearEquation(ua, ub, ux);
      answer := "";
      feedback := NoFeedback;
      solution := [];
    }

    method SetAnswer(text: string)
      modifies this
      ensures answer == text
      ensures equation == old(equation) && feedback == old(feedback) && solution == old(solution)
    {
      answer := text;
    }

    /** `checkAnswer()`: feedback, +8 XP when right, and the solution steps either way. */
    method CheckAnswer() returns (dispatched: seq<AppAction>)
      modifies this
      ensures equation == old(equation) && answer == old(answer)
      ensures CheckLinear(answer, equation.x) ==>
        dispatched == [AddXp(8, "Quick Gen Algebra")] && feedback == Correct(8)
      ensures !CheckLinear(answer, equation.x) ==>
        dispatched == [] && feedback == Wrong(IntToString(equation.x))
      ensures solution == LinearSteps(equation)
    {
      var isCorrect := CheckLinear(answer, equation.x);
      if isCorrect {
        feedback := Correct(8);
        dispatched := [AddXp(8, "Quick Gen Algebra")];
      } else {
        feedback := Wrong(IntToString(equation.x));
        dispatched := [];
      }
      solution := SolveLinearEquation(equation);
    }
  }

  class QuadraticProblem {
    var equation: QuadraticEquation
    var answer: string
    var feedback: Feedback
    var solution: seq<string>

    predicate Valid()
      reads this
    {
      WellFormedQuadratic(equation)
    }

    /** A fresh problem, from the `Math.random()` values of `genQuadraticEquation`. */
    constructor (ua: real, u1: real, u2: real, uCoin: real, uShift: real)
      requires IsRandom(ua) && IsRandom(u1) && IsRandom(u2) && IsRandom(uCoin) && IsRandom(uShift)
      ensures Valid() && 1 <= equation.a <= 3
      ensures -5 <= equation.roots[0] && equation.roots[1] <= 8
      ensures uCoin < 0.8 ==> equation.roots[0] < equation.roots[1]
      ensures equation.a == RandInt(1, 3, ua)
      ensures var r1, r2 := RandInt(-5, 5, u1), RandInt(-5, 5, u2);
              equation.roots == SortAsc([r1, if r1 == r2 && uCoin < 0.8 then r1 + RandInt(1, 3, uShift) else r2])
      ensures answer == "" && feedback == NoFeedback && solution == []
    {
      var generated := GenQuadraticEquation(ua, u1, u2, uCoin, uShift);
      equation := generated;
      answer := "";
      feedback := NoFeedback;
      solution := [];
    }

    method SetAnswer(text: string)
      modifies this
      ensures answer == text
      ensures equation == old(equation) && feedback == old(feedback) && solution == old(solution)
    {
      answer := text;
    }

    /**
     * `checkAnswer()`: feedback, +12 XP when right, and the Bhaskara steps either way; the
     * generated equation always takes the solver's two-root branch.
     */
    method CheckAnswer() returns (dispatched: seq<AppAction>)
      requires Valid()
      modifies this
      ensures Valid() && equation == old(equation) && answer == old(answer)
      ensures CheckQuadratic(answer, equation.roots) ==>
        dispatched == [AddXp(12, "Quick Gen Quadratic")] && feedback == Correct(12)
      ensures !CheckQuadratic(answer, equation.roots) ==>
        dispatched == [] && feedback == Wrong(RootsAnswer(equation.roots))
      ensures IsPerfectSquare(Discriminant(equation)) && solution == QuadraticSteps(equation)
    {
      var isCorrect := CheckQuadratic(answer, equation.roots);
      if isCorrect {
        feedback := Correct(12);
        dispatched := [AddXp(12, "Quick Gen Quadratic")];
      } else {
        feedback := Wrong(RootsAnswer(equation.roots));
        dispatched := [];
      }
      GeneratedStepsShowRoots(equation);
      var steps := SolveQuadraticEquation(equation);
      solution := steps;
    }
  }

  class RectangleProblem {
    var base: int
    var height: int
    var answer: string
    var feedback: Feedback
    var solution: seq<string>

    /** A fresh rectangle, from the two `Math.random()` values of its `randInt(2, 20)` calls. */
    constructor (ub: real, uh: real)
      requires IsRandom(ub) && IsRandom(uh)
      ensures 2 <= base <= 20 && 2 <= height <= 20
      ensures base == RandInt(2, 20, ub) && height == RandInt(2, 20, uh)
      ensures answer == "" && feedback == NoFeedback && solution == []
    {
      base := RandInt(2, 20, ub);
      height := RandInt(2, 20, uh);
      answer := "";
      feedback := NoFeedback;
      solution := [];
    }

    method SetAnswer(text: string)
      modifies this
      ensures answer == text && base == old(base) && height == old(height)
      ensures feedback == old(feedback) && solution == old(solution)
    {
      answer := text;
    }

    /** `checkAnswer()`: feedback, +7 XP when right, and `solveGeometry(base, height)` either way. */
    method CheckAnswer() returns (dispatched: seq<AppAction>)
      modifies this
      ensures base == old(base) && height == old(height) && answer == old(answer)
      ensures CheckRectangle(answer, base, height) ==>
        dispatched == [AddXp(7, "Quick Gen Rectangle")] && feedback == Correct(7)
      ensures !CheckRectangle(answer, base, height) ==>
        dispatched == [] && feedback == Wrong(IntToString(base * height))
      ensures solution == SolveGeometry(base, height)
    {
      var correctAnswer := base * height;
      var isCorrect := CheckRectangle(answer, base, height);
      if isCorrect {
        feedback := Correct(7);
        dispatched := [AddXp(7, "Quick Gen Rectangle")];
      } else {
        feedback := Wrong(IntToString(correctAnswer));
        dispatched := [];
      }
      solution := SolveGeometry(base, height);
    }
  }
}
