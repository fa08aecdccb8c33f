/**
 * The problem generators and step-by-step solvers of `lib/math.ts`.
 *
 * `Math.random()` is not a function of anything the model can see: every call to it
 * becomes a parameter `u` with `0.0 <= u < 1.0` (`IsRandom`), supplied by the caller.
 */
module MathLib {
  import opened Wrappers
  import opened JsText
  import opened Sorting
  import Derivative
  import opened Arith

  function Abs(n: int): nat {
    if n < 0 then -n else n
  }

  /** A value `Math.random()` can return. */
  predicate IsRandom(u: real) {
    0.0 <= u < 1.0
  }

  /** `randInt(a, b)` when `Math.random()` returned `u`: an integer of the closed range [a, b]. */
  function RandInt(a: int, b: int, u: real): (r: int)
    ensures a <= b && IsRandom(u) ==> a <= r <= b
  {
    var n := b - a + 1;
    if a <= b && IsRandom(u) then
      assert u * (n as real) < n as real by {
        assert (1.0 - u) * (n as real) > 0.0;
      }
      (u * (n as real)).Floor + a
    else
      (u * (n as real)).Floor + a
  }

  // ---------------------------------------------------------------------------
  // Linear equations a*x + b = c
  // ---------------------------------------------------------------------------

  datatype Equation = Equation(a: int, b: int, c: int, x: int, text: string)

  /**
   * The display text of a*x + b = c, e.g. "3x - 4 = 11" or "1x + 0 = 7": the template
   * `${a}x ${b >= 0 ? '+ ' + b : '- ' + |b|} = ${c}`, written out one word and one blank at a time.
   */
  function LinearText(a: int, b: int, c: int): string {
    IntToString(a) + "x" + " " + (if b >= 0 then "+" else "-") + " " + IntToString(Abs(b))
    + " " + "=" + " " + IntToString(c)
  }

  /**
   * Reads a linear equation back from its display text: five space-separated words
   * "<a>x", "+" or "-", "<|b|>", "=", "<c>".
   */
  function ReadLinearText(t: string): Option<(int, int, int)> {
    var w := Split(t, ' ');
    if |w| == 5 && w[0] != [] && w[0][|w[0]| - 1] == 'x' && (w[1] == "+" || w[1] == "-") && w[3] == "=" then
      match (ParseIntLiteral(w[0][..|w[0]| - 1]), ParseIntLiteral(w[2]), ParseIntLiteral(w[4]))
      case (Some(a), Some(m), Some(c)) => Some((a, if w[1] == "+" then m else -m, c))
      case _ => None
    else None
  }

  /** The display text is five words separated by single spaces. */
  lemma LinearTextWords(a: int, b: int, c: int)
    ensures LinearText(a, b, c)
            == Join([IntToString(a) + "x", if b >= 0 then "+" else "-", IntToString(Abs(b)), "=", IntToString(c)], " ")
  {
    JoinFive(IntToString(a) + "x", if b >= 0 then "+" else "-", IntToString(Abs(b)), "=", IntToString(c), " ");
  }

  /** Splitting the display text at its blanks gives back its five words. */
  lemma LinearTextSplits(a: int, b: int, c: int)
    ensures Split(LinearText(a, b, c), ' ')
            == [IntToString(a) + "x", if b >= 0 then "+" else "-", IntToString(Abs(b)), "=", IntToString(c)]
  {
    var words := [IntToString(a) + "x", if b >= 0 then "+" else "-", IntToString(Abs(b)), "=", IntToString(c)];
    LinearTextWords(a, b, c);
    IntToStringChars(a);
    NoSpaceNoBlank(IntToString(a));
    IntToStringChars(Abs(b));
    NoSpaceNoBlank(IntToString(Abs(b)));
    IntToStringChars(c);
    NoSpaceNoBlank(IntToString(c));
    assert ' ' !in IntToString(a) + "x";
    SplitJoin(words, ' ');
  }

  lemma LinearTextReadsBack(a: int, b: int, c: int)
    ensures ReadLinearText(LinearText(a, b, c)) == Some((a, b, c))
  {
    var w0 := IntToString(a) + "x";
    LinearTextSplits(a, b, c);
    assert w0[..|w0| - 1] == IntToString(a);
    ParseIntLiteralRoundTrip(a);
    ParseIntLiteralRoundTrip(Abs(b));
    ParseIntLiteralRoundTrip(c);
  }

  /**
   * `genLinearEquation()` when its three `Math.random()` calls returned `ua`, `ub`, `ux`:
   * an equation with an integer solution, whose text states it.
   */
  function GenLinearEquation(ua: real, ub: real, ux: real): (eq: Equation)
    requires IsRandom(ua) && IsRandom(ub) && IsRandom(ux)
    ensures 1 <= eq.a <= 10 && -10 <= eq.b <= 10 && -10 <= eq.x <= 10
    ensures eq.a * eq.x + eq.b == eq.c
    ensures ReadLinearText(eq.text) == Some((eq.a, eq.b, eq.c))
  {
    var a := RandInt(1, 10, ua);
    var b := RandInt(-10, 10, ub);
    var x := RandInt(-10, 10, ux);
    var c := a * x + b;
    LinearTextReadsBack(a, b, c);
    Equation(a, b, c, x, LinearText(a, b, c))
  }

  /** The solution of a generated equation is the only one, and dividing c - b by a is exact. */
  lemma LinearSolutionUnique(eq: Equation, y: int)
    requires eq.a >= 1 && eq.a * eq.x + eq.b == eq.c
    ensures eq.a * y + eq.b == eq.c <==> y == eq.x
    ensures (eq.c - eq.b) % eq.a == 0 && (eq.c - eq.b) / eq.a == eq.x
  {
    if eq.a * y + eq.b == eq.c {
      CancelLeft(eq.a, y, eq.x);
    }
    ExactDivision(eq.a, eq.x);
  }

  /** `1. Mova a constante: ${a}x = ${c} ${b > 0 ? '-' : '+'} ${Math.abs(b)}`. */
  function MoveConstantLine(a: int, b: int, c: int): string {
    "1. Mova a constante: " + IntToString(a) + "x = " + IntToString(c) + (if b > 0 then " - " else " + ")
    + IntToString(Abs(b))
  }

  /** `2. Isole 'x': x = ${c - b} / ${a}`. */
  function IsolateLine(a: int, cMinusB: int): string {
    "2. Isole 'x': x = " + IntToString(cMinusB) + " / " + IntToString(a)
  }

  /** The lines `solveLinearEquation` prints for `eq`, in order. */
  function LinearSteps(eq: Equation): seq<string> {
    ["Equação: " + eq.text]
    + (if eq.b != 0 then [MoveConstantLine(eq.a, eq.b, eq.c), "   " + IntToString(eq.a) + "x = " + IntToString(eq.c - eq.b)]
       else [])
    + (if eq.a != 1 then [IsolateLine(eq.a, eq.c - eq.b)] else [])
    + ["Resultado: x = " + IntToString(eq.x)]
  }

  /** `solveLinearEquation(eq)`: the explanation lines for moving b and dividing by a, one push at a time. */
  method SolveLinearEquation(eq: Equation) returns (steps: seq<string>)
    ensures steps == LinearSteps(eq)
  {
    steps := [];
    steps := steps + ["Equação: " + eq.text];
    if eq.b != 0 {
      var cMinusB := eq.c - eq.b;
      steps := steps + [MoveConstantLine(eq.a, eq.b, eq.c)];
      steps := steps + ["   " + IntToString(eq.a) + "x = " + IntToString(cMinusB)];
    }
    if eq.a != 1 {
      steps := steps + [IsolateLine(eq.a, eq.c - eq.b)];
    }
    steps := steps + ["Resultado: x = " + IntToString(eq.x)];
  }

  /**
   * For a generated equation the steps start with the equation and end with its solution;
   * the constant is moved only when there is one, and the division printed when a != 1 is
   * exact and gives that solution.
   */
  lemma GeneratedLinearSteps(eq: Equation)
    requires eq.a >= 1 && eq.a * eq.x + eq.b == eq.c
    ensures var steps := LinearSteps(eq);
      |steps| == 2 + (if eq.b != 0 then 2 else 0) + (if eq.a != 1 then 1 else 0)
      && steps[0] == "Equação: " + eq.text
      && steps[|steps| - 1] == "Resultado: x = " + IntToString(eq.x)
      && (eq.b != 0 ==> steps[1] == MoveConstantLine(eq.a, eq.b, eq.c))
      && (eq.a != 1 ==> steps[|steps| - 2] == IsolateLine(eq.a, eq.c - eq.b)
                        && (eq.c - eq.b) / eq.a == eq.x && (eq.c - eq.b) % eq.a == 0)
  {
    LinearSolutionUnique(eq, eq.x);
  }

  // ---------------------------------------------------------------------------
  // Quadratic equations a*x² + b*x + c = 0 with integer roots
  // ---------------------------------------------------------------------------

  datatype QuadraticEquation = QuadraticEquation(a: int, b: int, c: int, roots: seq<int>, text: string)

  /**
   * `formatTerm(coeff, power)`: nothing for a zero coefficient, otherwise " + " or " - ",
   * the magnitude (left out when it is 1 in front of a power of x), and the power.
   */
  function FormatTerm(coeff: int, power: string): (r: string)
    ensures r == [] <==> coeff == 0
    ensures coeff != 0 ==> |r| >= 3 + |power| && r[..3] == [' ', if coeff > 0 then '+' else '-', ' ']
    ensures coeff != 0 ==> r[|r| - |power|..] == power
    ensures coeff != 0 ==> r[3..|r| - |power|] == (if Abs(coeff) == 1 && power != "" then "" else IntToString(Abs(coeff)))
  {
    if coeff == 0 then ""
    else
      var sign := if coeff > 0 then '+' else '-';
      var display := if Abs(coeff) == 1 && power != "" then "" else IntToString(Abs(coeff));
      " " + [sign] + " " + display + power
  }

  /** The display text before trimming: "x² - 5x + 6 = 0", "2x² - 8 = 0". */
  function QuadraticText(a: int, b: int, c: int): string {
    (if a == 1 then "" else IntToString(a)) + "x²" + FormatTerm(b, "x") + FormatTerm(c, "") + " = 0"
  }

  /** `p(r)` for the polynomial a*x² + b*x + c of the equation. */
  function Value(eq: QuadraticEquation, r: int): int {
    eq.a * r * r + eq.b * r + eq.c
  }

  /** What `genQuadraticEquation` produces: a = a leading coefficient, roots sorted, b and c from them. */
  predicate WellFormedQuadratic(eq: QuadraticEquation) {
    eq.a >= 1 && |eq.roots| == 2 && eq.roots[0] <= eq.roots[1]
    && eq.b == -eq.a * (eq.roots[0] + eq.roots[1])
    && eq.c == eq.a * eq.roots[0] * eq.roots[1]
    && eq.text == QuadraticText(eq.a, eq.b, eq.c)
  }

  /** The integers that solve a well-formed equation are exactly its two recorded roots. */
  lemma RootsAreSolutions(eq: QuadraticEquation)
    requires WellFormedQuadratic(eq)
    ensures forall r :: Value(eq, r) == 0 <==> r in eq.roots
  {
    forall r
      ensures Value(eq, r) == 0 <==> r in eq.roots
    {
      var r0, r1 := eq.roots[0], eq.roots[1];
      FactorZeros(eq.a, r0, r1, r);
      assert eq.roots == [r0, r1];
    }
  }

  /** Sorting two numbers puts the smaller first. */
  lemma SortPair(r1: int, r2: int)
    ensures SortAsc([r1, r2]) == if r1 <= r2 then [r1, r2] else [r2, r1]
  {
    assert [r1, r2][1..] == [r2] && SortAsc([r2]) == InsertAsc(r2, []) == [r2];
    if r1 > r2 {
      assert [r2][1..] == [] && InsertAsc(r1, []) == [r1];
    }
  }

  /** The display text starts with 'x' or with a digit and ends with "0": trimming leaves it as it is. */
  lemma QuadraticTextTrimmed(a: int, b: int, c: int)
    requires a >= 1
    ensures var t := QuadraticText(a, b, c); t != [] && t[0] != '+' && Trim(t) == t
  {
    var t := QuadraticText(a, b, c);
    var head := (if a == 1 then "" else IntToString(a)) + "x²" + FormatTerm(b, "x") + FormatTerm(c, "");
    assert t == head + " = 0";
    assert !IsSpace(t[|t| - 1]) by {
      assert t[|t| - 1] == '0';
    }
    assert t[0] != '+' && !IsSpace(t[0]) by {
      if a == 1 {
        assert ("" + "x²")[0] == 'x';
        assert t[0] == 'x';
      } else {
        assert t[0] == IntToString(a)[0];
      }
    }
    TrimNoOp(t);
  }

  /**
   * `genQuadraticEquation()` when its `Math.random()` calls returned `ua` (for a), `u1`, `u2`
   * (for the two roots), `uCoin` (the 80% coin) and `uShift` (for the shift of the second root).
   * A tie between the roots is broken unless the coin says otherwise.
   */
  method GenQuadraticEquation(ua: real, u1: real, u2: real, uCoin: real, uShift: real)
    returns (eq: QuadraticEquation)
    requires IsRandom(ua) && IsRandom(u1) && IsRandom(u2) && IsRandom(uCoin) && IsRandom(uShift)
    ensures WellFormedQuadratic(eq)
    ensures 1 <= eq.a <= 3 && -5 <= eq.roots[0] && eq.roots[1] <= 8
    ensures uCoin < 0.8 ==> eq.roots[0] < eq.roots[1]
    ensures eq.a == RandInt(1, 3, ua)
    ensures var r1, r2 := RandInt(-5, 5, u1), RandInt(-5, 5, u2);
            eq.roots == SortAsc([r1, if r1 == r2 && uCoin < 0.8 then r1 + RandInt(1, 3, uShift) else r2])
  {
    var a := RandInt(1, 3, ua);
    var r1 := RandInt(-5, 5, u1);
    var r2 := RandInt(-5, 5, u2);
    if r1 == r2 && uCoin < 0.8 {
      r2 := r1 + RandInt(1, 3, uShift);
    }
    var b := -a * (r1 + r2);
    var c := a * r1 * r2;
    var text := QuadraticText(a, b, c);
    QuadraticTextTrimmed(a, b, c);
    text := if Trim(text) != [] && Trim(text)[0] == '+' then Substring(Trim(text), 2) else Trim(text);
    SortPair(r1, r2);
    eq := QuadraticEquation(a, b, c, SortAsc([r1, r2]), text);
    FromRootsWellFormed(a, r1, r2);
  }

  /** The equation built from two roots in either order is well formed. */
  lemma FromRootsWellFormed(a: int, r1: int, r2: int)
    requires a >= 1
    ensures var b, c := -a * (r1 + r2), a * r1 * r2;
            WellFormedQuadratic(QuadraticEquation(a, b, c, SortAsc([r1, r2]), QuadraticText(a, b, c)))
  {
    SortPair(r1, r2);
    MulSwap(a, r1, r2);
  }

  // ---------------------------------------------------------------------------
  // Integer square roots and the Bhaskara steps
  // ---------------------------------------------------------------------------

  function Discriminant(eq: QuadraticEquation): int {
    eq.b * eq.b - 4 * eq.a * eq.c
  }

  predicate IsPerfectSquare(n: int) {
    n >= 0 && ISqrt(n) * ISqrt(n) == n
  }

  /**
   * For a well-formed equation Δ = (a*(r1 - r0))², so √Δ = a*(r1 - r0), and
   * -b + √Δ = 2a*r1, -b - √Δ = 2a*r0: the two fractions the solver prints equal the roots.
   * Such an equation meets the solver's precondition and always takes its two-root branch.
   */
  lemma QuadraticDiscriminant(eq: QuadraticEquation)
    requires WellFormedQuadratic(eq)
    ensures Discriminant(eq) == (eq.a * (eq.roots[1] - eq.roots[0])) * (eq.a * (eq.roots[1] - eq.roots[0]))
    ensures IsPerfectSquare(Discriminant(eq)) && |eq.roots| > 1
    ensures ISqrt(Discriminant(eq)) == eq.a * (eq.roots[1] - eq.roots[0])
    ensures -eq.b + ISqrt(Discriminant(eq)) == 2 * eq.a * eq.roots[1]
    ensures -eq.b - ISqrt(Discriminant(eq)) == 2 * eq.a * eq.roots[0]
  {
    var a, r0, r1 := eq.a, eq.roots[0], eq.roots[1];
    MulNonNegative(a, r1 - r0);
    var g: nat := a * (r1 - r0);
    RootNumerators(a, r0, r1);
    DiscriminantSquare(a, r0, r1);
    ISqrtOfSquare(g);
  }

  /** `1. Identifique os coeficientes: a=${a}, b=${b}, c=${c}`. */
  function CoefficientsLine(a: int, b: int, c: int): string {
    "1. Identifique os coeficientes: a=" + IntToString(a) + ", b=" + IntToString(b) + ", c=" + IntToString(c)
  }

  /** `   Δ = (${b})² - 4 * ${a} * ${c} = ${delta}`. */
  function DeltaLine(a: int, b: int, c: int, delta: int): string {
    "   Δ = (" + IntToString(b) + ")² - 4 * " + IntToString(a) + " * " + IntToString(c) + " = " + IntToString(delta)
  }

  /** `   x = (${-b} ± ${sqrtDelta}) / ${2 * a}`. */
  function FormulaLine(a: int, b: int, sqrtDelta: int): string {
    "   x = (" + IntToString(-b) + " ± " + IntToString(sqrtDelta) + ") / " + IntToString(2 * a)
  }

  /** `${name} = (${-b} ${sign} ${sqrtDelta}) / ${2 * a} = ${root}`, the line of one root. */
  function RootLine(name: string, sign: string, a: int, b: int, sqrtDelta: int, root: int): string {
    name + " = (" + IntToString(-b) + " " + sign + " " + IntToString(sqrtDelta) + ") / " + IntToString(2 * a)
    + " = " + IntToString(root)
  }

  /** `Resultado: {${x1}, ${x2}}`, or `Resultado: {${x}}` for a single root. */
  function ResultLine(roots: seq<int>): string
    requires |roots| >= 1
  {
    if |roots| > 1 then "Resultado: {" + IntToString(roots[0]) + ", " + IntToString(roots[1]) + "}"
    else "Resultado: {" + IntToString(roots[0]) + "}"
  }

  /** The lines `solveQuadraticEquation` prints for `eq`, in order. */
  function QuadraticSteps(eq: QuadraticEquation): seq<string>
    requires |eq.roots| >= 1 && IsPerfectSquare(Discriminant(eq))
  {
    var a, b, c, delta := eq.a, eq.b, eq.c, Discriminant(eq);
    var sqrtDelta := ISqrt(delta);
    ["Equação: " + eq.text, CoefficientsLine(a, b, c), "2. Calcule o delta: Δ = b² - 4ac",
     DeltaLine(a, b, c, delta), "3. Aplique a fórmula: x = (-b ± √Δ) / 2a",
     "   x = (-(" + IntToString(b) + ") ± √" + IntToString(delta) + ") / (2 * " + IntToString(a) + ")",
     FormulaLine(a, b, sqrtDelta)]
    + (if |eq.roots| > 1
       then [RootLine("x'", "+", a, b, sqrtDelta, eq.roots[1]), RootLine("x''", "-", a, b, sqrtDelta, eq.roots[0])]
       else ["x = " + IntToString(-b) + " / " + IntToString(2 * a) + " = " + IntToString(eq.roots[0])])
    + [ResultLine(eq.roots)]
  }

  /**
   * `solveQuadraticEquation(eq)`: identify the coefficients, compute Δ and √Δ, and print
   * both roots (or the single root when one is recorded). The seven lines every equation
   * gets are gathered first; the lines of the roots are then pushed one at a time.
   */
  method SolveQuadraticEquation(eq: QuadraticEquation) returns (steps: seq<string>)
    requires |eq.roots| >= 1 && IsPerfectSquare(Discriminant(eq))
    ensures steps == QuadraticSteps(eq)
  {
    var a, b, c, roots := eq.a, eq.b, eq.c, eq.roots;
    var delta := Discriminant(eq);
    var sqrtDelta := ISqrt(delta);
    steps := ["Equação: " + eq.text, CoefficientsLine(a, b, c), "2. Calcule o delta: Δ = b² - 4ac",
              DeltaLine(a, b, c, delta), "3. Aplique a fórmula: x = (-b ± √Δ) / 2a",
              "   x = (-(" + IntToString(b) + ") ± √" + IntToString(delta) + ") / (2 * " + IntToString(a) + ")",
              FormulaLine(a, b, sqrtDelta)];
    if |roots| > 1 {
      steps := steps + [RootLine("x'", "+", a, b, sqrtDelta, roots[1])];
      steps := steps + [RootLine("x''", "-", a, b, sqrtDelta, roots[0])];
    } else {
      steps := steps + ["x = " + IntToString(-b) + " / " + IntToString(2 * a) + " = " + IntToString(roots[0])];
    }
    steps := steps + [ResultLine(roots)];
  }

  /**
   * For a generated equation the steps take the two-root branch, the printed √Δ is an exact
   * square root of Δ, and each printed fraction (-b ± √Δ) / 2a equals the root printed after it.
   */
  lemma GeneratedStepsShowRoots(eq: QuadraticEquation)
    requires WellFormedQuadratic(eq)
    ensures IsPerfectSquare(Discriminant(eq)) && |eq.roots| == 2
    ensures var steps, g := QuadraticSteps(eq), ISqrt(Discriminant(eq));
      |steps| == 10 && steps[0] == "Equação: " + eq.text
      && g * g == Discriminant(eq)
      && steps[7] == RootLine("x'", "+", eq.a, eq.b, g, eq.roots[1]) && -eq.b + g == 2 * eq.a * eq.roots[1]
      && steps[8] == RootLine("x''", "-", eq.a, eq.b, g, eq.roots[0]) && -eq.b - g == 2 * eq.a * eq.roots[0]
      && steps[9] == "Resultado: {" + IntToString(eq.roots[0]) + ", " + IntToString(eq.roots[1]) + "}"
  {
    QuadraticDiscriminant(eq);
    QuadraticStepsLines(eq);
  }

  /** Where the lines of the roots and of the result sit among the steps. */
  lemma QuadraticStepsLines(eq: QuadraticEquation)
    requires |eq.roots| >= 1 && IsPerfectSquare(Discriminant(eq))
    ensures var steps, g := QuadraticSteps(eq), ISqrt(Discriminant(eq));
      |steps| == (if |eq.roots| > 1 then 10 else 9) && steps[0] == "Equação: " + eq.text
      && (|eq.roots| > 1 ==> steps[7] == RootLine("x'", "+", eq.a, eq.b, g, eq.roots[1])
                             && steps[8] == RootLine("x''", "-", eq.a, eq.b, g, eq.roots[0]))
      && steps[|steps| - 1] == ResultLine(eq.roots)
  {
  }

  // ---------------------------------------------------------------------------
  // The one-line solvers of the quick generator
  // ---------------------------------------------------------------------------

  datatype ArithOp = Plus | Minus

  function OpText(op: ArithOp): string {
    if op == Plus then "+" else "-"
  }

  /** `${a} ${op} ${b} = ${result}`, one word and one blank at a time. */
  function ArithmeticLine(a: int, b: int, op: ArithOp): string {
    IntToString(a) + " " + OpText(op) + " " + IntToString(b) + " " + "=" + " "
    + IntToString(if op == Plus then a + b else a - b)
  }

  lemma ArithmeticWords(a: int, b: int, op: ArithOp)
    ensures ArithmeticLine(a, b, op)
            == Join([IntToString(a), OpText(op), IntToString(b), "=", IntToString(if op == Plus then a + b else a - b)], " ")
  {
    JoinFive(IntToString(a), OpText(op), IntToString(b), "=", IntToString(if op == Plus then a + b else a - b), " ");
  }

  /** `solveArithmetic(a, b, op)`: the single line "a op b = result". */
  function SolveArithmetic(a: int, b: int, op: ArithOp): seq<string> {
    [ArithmeticLine(a, b, op)]
  }

  /** The line of `solveArithmetic` splits at its blanks into the operands, the operator and the result. */
  lemma ArithmeticReadsBack(a: int, b: int, op: ArithOp)
    ensures var lines := SolveArithmetic(a, b, op);
      |lines| == 1
      && Split(lines[0], ' ') == [IntToString(a), OpText(op), IntToString(b), "=",
                                  IntToString(if op == Plus then a + b else a - b)]
  {
    var result := if op == Plus then a + b else a - b;
    ArithmeticWords(a, b, op);
    IntToStringChars(a);
    NoSpaceNoBlank(IntToString(a));
    IntToStringChars(b);
    NoSpaceNoBlank(IntToString(b));
    IntToStringChars(result);
    NoSpaceNoBlank(IntToString(result));
    SplitJoin([IntToString(a), OpText(op), IntToString(b), "=", IntToString(result)], ' ');
  }

  /** `Área = ${base} * ${height} = ${base * height}`, one word and one blank at a time. */
  function AreaLine(base: int, height: int): string {
    "Área" + " " + "=" + " " + IntToString(base) + " " + "*" + " " + IntToString(height) + " " + "=" + " "
    + IntToString(base * height)
  }

  lemma AreaWords(base: int, height: int)
    ensures AreaLine(base, height)
            == Join(["Área", "=", IntToString(base), "*", IntToString(height), "=", IntToString(base * height)], " ")
  {
    JoinSeven("Área", "=", IntToString(base), "*", IntToString(height), "=", IntToString(base * height), " ");
  }

  /** `solveGeometry(base, height)`: the rectangle-area formula, then the area with the numbers filled in. */
  function SolveGeometry(base: int, height: int): seq<string> {
    [AreaFormula, AreaLine(base, height)]
  }

  const AreaFormula := "Área = base * altura"

  /** The second line of `solveGeometry` splits at its blanks into the sides and their product. */
  lemma GeometryReadsBack(base: int, height: int)
    ensures var lines := SolveGeometry(base, height);
      |lines| == 2 && lines[0] == "Área = base * altura"
      && Split(lines[1], ' ') == ["Área", "=", IntToString(base), "*", IntToString(height), "=",
                                  IntToString(base * height)]
  {
    AreaWords(base, height);
    IntToStringChars(base);
    NoSpaceNoBlank(IntToString(base));
    IntToStringChars(height);
    NoSpaceNoBlank(IntToString(height));
    IntToStringChars(base * height);
    NoSpaceNoBlank(IntToString(base * height));
    SplitJoin(["Área", "=", IntToString(base), "*", IntToString(height), "=", IntToString(base * height)], ' ');
  }

  /**
   * `solveCalculus(expression)`: one line with the derivative. `None` when the differentiator
   * meets input outside the model.
   */
  function SolveCalculus(expression: string): (lines: Option<seq<string>>)
    ensures lines.Some? <==> Derivative.DerivePolynomial(expression).Some?
    ensures lines.Some? ==>
              lines.value == ["d/dx (" + expression + ") = " + Derivative.DerivePolynomial(expression).value]
  {
    match Derivative.DerivePolynomial(expression)
    case Some(d) => Some(["d/dx (" + expression + ") = " + d])
    case None => None
  }

  /** On a polynomial the application prints, the line shows the true derivative. */
  lemma SolveCalculusOfPolynomial(ms: seq<Derivative.Monomial>)
    ensures var d := Derivative.Differentiate(ms);
            SolveCalculus(Derivative.PolynomialText(ms))
            == Some(["d/dx (" + Derivative.PolynomialText(ms) + ") = "
                     + (if d == [] then "0" else Derivative.PolynomialText(d))])
  {
    Derivative.DeriveRoundTrip(ms);
  }
}
