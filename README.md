# Math-learning app core, modelled in Dafny

This project models the logic at the heart of an interactive mathematics study app.
The app is a single-page web application with a topic sidebar, lessons, a practice
generator, a calculator, an interactive triangle and a local leaderboard. The model covers:

- **`lib/math.ts`** (modules `MathLib`, `Derivative`):
  - random integer draws;
  - the generators of linear and quadratic equations with integer solutions;
  - the step-by-step solvers, including the Bhaskara steps;
  - the polynomial differentiator `derivePolynomial`, which works on text;
  - the one-line solvers of the quick generator.
- **`context/app-provider.tsx`** (module `AppProvider`): the global state and its reducer. This covers topic and lesson navigation, practice mode, XP with levels and streak, and the console panel.
- **`components/core/QuickGenerator.tsx`** (module `QuickGenerator`): the linear, quadratic and rectangle practice problems. Each problem holds its state, checks a typed answer, sets the feedback and solution, and dispatches an XP award.
- **`components/lessons/CalculusLesson.tsx`** (module `CalculusLesson`): the derivative practice card. It generates a problem `cx^p` and compares answers while ignoring whitespace and letter case.
- **`components/workspace/Calculator.tsx`** (module `Workspace`): the calculator state machine, one method per button handler.
- **`components/sidebar/LeaderBoard.tsx`** (module `Leaderboard`): saving a score sorts the entries by XP and keeps the ten best; the board can be cleared.
- **`components/interactive/InteractiveGeometry.tsx`** (module `Geometry`): the shoelace area of the triangle, clamping a dragged vertex to the drawing area, and the drag update.

Supporting modules:
- `JsText` models the JavaScript string and number built-ins the core relies on: `trim`, `split`, `join`, `replace`, `parseInt`, `parseFloat` on integers, `toLowerCase` and `${n}`.
- `Sorting` models the numeric `sort`.
- `Arith` holds arithmetic facts.
- `Wrappers` defines `Option`.

How source constructs become Dafny:
- Pure code becomes functions and lemmas.
- Components that update state become classes whose methods change their fields.
- `Math.random()` becomes a parameter `u` with `0 <= u < 1` at every call site.
- Browser dialogs become parameters: the name typed at the prompt (`None` when cancelled) and the confirmation answer.
- Dispatched actions are returned to the caller.

Two properties sit at the centre:
- `derivePolynomial` is correct on every polynomial the app prints: differentiating the text of a list of monomials prints the text of its derivative (`Derivative.DeriveRoundTrip`).
- Every generated exercise is consistent: its text, its recorded solution and the solver's steps agree, and a typed answer is accepted exactly when it is right.

Where the design and the code differ, the model follows the code:
- The leaderboard records `xp + (level - 1) * 50` as total XP, but reaching level `l` costs `50 + 100 + … + (l-1)*50`. From level 3 on, the board records less XP than was earned. `Leaderboard.RecordedXpFallsShort` states the gap exactly.
- The quadratic checker requires a double root to be typed twice (`QuickGenerator.RepeatedRootTypedTwice`).

## Model

| member | source | states |
|---|---|---|
| MathLib.RandInt | lib/math.ts:26-28 | for a valid `Math.random()` value the result lies in the closed range [a, b] |
| MathLib.LinearText | lib/math.ts:38 | the display text "{a}x ± {magnitude of b} = {c}"; the definition `LinearTextReadsBack` and `LinearTextSplits` are about |
| MathLib.LinearSteps | lib/math.ts:44-58 | the solver's lines as a function of the equation; the definition `SolveLinearEquation` is proved equal to and `GeneratedLinearSteps` is about |
| MathLib.GenLinearEquation | lib/math.ts:33-39 | a in [1,10], b and x in [-10,10], a*x + b = c, and the displayed text reads back as exactly (a, b, c) |
| MathLib.LinearTextReadsBack | lib/math.ts:38 | the text "{a}x ± {magnitude of b} = {c}" splits into five words that parse back to a, b and c |
| MathLib.LinearTextSplits | lib/math.ts:38 | the display text splits at its blanks into exactly its five words |
| MathLib.LinearSolutionUnique | lib/math.ts:33-37 | x is the only integer solving a*x + b = c, and (c - b) / a is exact and equals x |
| MathLib.SolveLinearEquation | lib/math.ts:44-58 | the pushed lines are exactly the specification `LinearSteps` of the equation |
| MathLib.GeneratedLinearSteps | lib/math.ts:44-58 | number of steps 2 + 2·[b≠0] + [a≠1]; first the equation, last its solution; the printed division is exact and gives x |
| MathLib.FormatTerm | lib/math.ts:75-81 | empty exactly for a zero coefficient; otherwise " ± ", the magnitude (omitted for ±1 before a power), then the power |
| MathLib.QuadraticText | lib/math.ts:75-83 | the display text built from the formatted terms; the definition `QuadraticTextTrimmed` is about |
| MathLib.QuadraticTextTrimmed | lib/math.ts:83-84 | the built text has no surrounding blanks and does not start with '+', so the trim step leaves it unchanged |
| MathLib.SortPair | lib/math.ts:86 | sorting the two roots puts the smaller first |
| MathLib.FromRootsWellFormed | lib/math.ts:72-86 | b = -a(r1+r2), c = a·r1·r2 with the roots sorted make a well-formed equation |
| MathLib.GenQuadraticEquation | lib/math.ts:63-87 | the equation is well formed, a in [1,3], roots in [-5,8]; roots are distinct whenever the 80% coin came up; a is the first draw and the roots are the two root draws sorted, the second one shifted up by the fourth draw when they tie and the coin came up |
| MathLib.RootsAreSolutions | lib/math.ts:63-87 | the integers that solve a·r² + b·r + c = 0 are exactly the two recorded roots |
| MathLib.QuadraticDiscriminant | lib/math.ts:97-106 | for a generated equation Δ = (a(r1 - r0))², √Δ is exact, and -b ± √Δ equals 2a times each root |
| MathLib.SolveQuadraticEquation | lib/math.ts:92-113 | the pushed lines are exactly the specification `QuadraticSteps` (the seven common lines, the root lines of the branch, the result) |
| MathLib.QuadraticSteps | lib/math.ts:92-113 | the Bhaskara lines as a function of the equation; the definition `QuadraticStepsLines` and `GeneratedStepsShowRoots` are about |
| MathLib.QuadraticStepsLines | lib/math.ts:104-111 | 10 lines with two roots and 9 with one; the root lines sit at 7 and 8 and the result is last |
| MathLib.GeneratedStepsShowRoots | lib/math.ts:92-113 | for a generated equation the two-root branch is taken, √Δ squared is Δ, and each printed fraction equals the root printed after it |
| MathLib.SolveArithmetic | lib/math.ts:186 | the one-line arithmetic solution; the definition `ArithmeticReadsBack` is about |
| MathLib.SolveGeometry | lib/math.ts:187 | the two-line rectangle solution; the definition `GeometryReadsBack` is about |
| MathLib.ArithmeticReadsBack | lib/math.ts:186 | one line that splits into the operands, the operator, "=" and the correct result |
| MathLib.GeometryReadsBack | lib/math.ts:187 | the formula line, then a line that splits into base, height and their product |
| MathLib.SolveCalculus | lib/math.ts:188 | a line is produced exactly when the differentiator gives a result, and it is "d/dx (expression) = " followed by that result |
| MathLib.SolveCalculusOfPolynomial | lib/math.ts:188 | on a printed polynomial the line shows its true derivative ("0" when constant) |
| Derivative.DerivePolynomial | lib/math.ts:141-182 | `derivePolynomial` on text; the definition the round trip and the lemmas below are about |
| Derivative.DeriveRoundTrip | lib/math.ts:141-182 | differentiating the text of any list of monomials prints the text of the derivative, or "0" when every term is constant |
| Derivative.BlankInput | lib/math.ts:142 | empty or all-whitespace input gives "0" |
| Derivative.WhitespaceIgnored | lib/math.ts:142-145 | removing every whitespace character from the input never changes the result |
| Derivative.ImplicitSameTokens | lib/math.ts:145-181 | two one-term inputs whose terms parse to the same coefficient and power differentiate alike |
| Derivative.BareTermParses | lib/math.ts:149-160 | "x", "x^n", "-x" and "-x^n" are single terms read with coefficient 1 or -1 and power n |
| Derivative.TermDerivative | lib/math.ts:167-181 | a printed term c·x^n with n ≥ 1 differentiates to (c·n)·x^(n-1) |
| Derivative.BareTermDerivative | lib/math.ts:149-181 | a term written without its coefficient 1 differentiates as with "1" or "-1" written out, to ±n·x^(n-1) |
| Derivative.DocumentedExample | lib/math.ts:136-141 | "3x^2 - 2x + 5" differentiates to "6x - 2" |
| Derivative.MonomialExamples | lib/math.ts:167-175 | "3x^2" gives "6x" and "-3x^2" gives "-6x" |
| Derivative.ConstantExample | lib/math.ts:168-178 | a lone constant differentiates to "0" |
| Derivative.SumExample | lib/math.ts:141-182 | "2x^3 + 4x - 7" differentiates to "6x^2 + 4" |
| Derivative.TokensOfPolynomial | lib/math.ts:145-146 | cleaning and splitting a printed polynomial at '+' gives back exactly its printed terms |
| Derivative.CleanedPolynomial | lib/math.ts:145 | removing whitespace and rewriting '-' as "+-" turns the printed sum into its terms, each prefixed by '+' |
| Derivative.ParseTermText | lib/math.ts:149-164 | a printed term parses back to its coefficient and exponent |
| Derivative.ParseMonomialTexts | lib/math.ts:149-164 | parsing all printed terms gives each monomial's coefficient and exponent |
| Derivative.DeriveMonomials | lib/math.ts:167-176 | the per-term derivation, constants dropped, prints exactly the terms of the derivative |
| Derivative.PieceTermText | lib/math.ts:173-175 | a printed term is non-empty, has no blank and no '+', and starts with '-' exactly when its coefficient is negative |
| Derivative.JoinReplace | lib/math.ts:181 | joining with " + " and replacing "+ -" by "- " writes the terms as a signed sum |
| Derivative.NonEmpty | lib/math.ts:146 | `filter(Boolean)` keeps only non-empty pieces, each taken from the input |
| JsText.ParseIntRoundTrip | components/core/QuickGenerator.tsx:81 | `parseInt` reads back every printed integer, with or without a radix |
| JsText.ParseIntNeedsDigit | components/core/QuickGenerator.tsx:81 | `parseInt` gives a number only when the text holds a digit |
| JsText.TrimEmptyIffAllSpace | lib/math.ts:142 | `trim()` is empty exactly when the text is all whitespace |
| JsText.SplitJoin | lib/math.ts:146 | splitting at a separator that occurs in no piece gives back the pieces |
| Sorting.SortAsc | components/core/QuickGenerator.tsx:105 | the numeric sort returns an ascending permutation of its input |
| Sorting.SortedUnique | components/core/QuickGenerator.tsx:105-107 | two ascending sequences with the same elements are equal, so comparing sorted lists compares multisets |
| AppProvider.InitialStateValid | context/app-provider.tsx:27-35 | the initial state names a lesson of its topic, has XP within its level, and has earned nothing |
| AppProvider.AppReducer | context/app-provider.tsx:37-80 | `appReducer`; the definition the effect and invariant lemmas below are about |
| AppProvider.Run | context/app-provider.tsx:106-107 | the state after a sequence of dispatches, each through the reducer; the definition `RunKeepsValidLesson` and `RunEarnedXp` are about |
| AppProvider.SetTopicEffect | context/app-provider.tsx:40-46 | choosing a topic opens lesson 0 outside practice and keeps XP, level, streak and console |
| AppProvider.SetLessonIndexEffect | context/app-provider.tsx:47-54 | the index is taken exactly when it names a lesson of the current topic; otherwise the state is unchanged |
| AppProvider.ReducerKeepsValidLesson | context/app-provider.tsx:38-80 | no action moves the lesson index off the current topic's lessons |
| AppProvider.RunKeepsValidLesson | context/app-provider.tsx:38-80 | any sequence of actions keeps the lesson index valid |
| AppProvider.SingleFieldActions | context/app-provider.tsx:55-78 | practice mode, console content, console clearing and unknown actions change only their own field |
| AppProvider.AddXpStreakAndLevel | context/app-provider.tsx:60-72 | every award extends the streak by one and raises the level by at most one |
| AppProvider.AddXpLevelUp | context/app-provider.tsx:60-72 | the level rises exactly when xp + amount reaches level·50, which the level-up then costs |
| AppProvider.ReducerKeepsValidXp | context/app-provider.tsx:60-72 | with awards of at most 50, xp stays within [0, level·50) and the level stays at least 1 |
| AppProvider.AddXpConservesEarned | context/app-provider.tsx:60-72 | an award adds exactly its amount to the XP earned overall (xp + 25·level·(level-1)) |
| AppProvider.RunEarnedXp | context/app-provider.tsx:38-80 | after any sequence of actions the XP earned has grown by the sum of the awards |
| QuickGenerator.LinearCheckIff | components/core/QuickGenerator.tsx:81 | typing a number is accepted exactly when it is the solution |
| QuickGenerator.CheckLinear | components/core/QuickGenerator.tsx:81 | `parseInt(answer) === x`; the definition `LinearCheckIff` is about |
| QuickGenerator.CheckQuadratic | components/core/QuickGenerator.tsx:105-107 | the parsed entries, sorted, equal the roots one by one; the definition `QuadraticCheckIff` and `QuadraticCheckParsed` are about |
| QuickGenerator.ParseAll | components/core/QuickGenerator.tsx:105 | parsing every piece succeeds with one number per piece |
| QuickGenerator.AnswerEntries | components/core/QuickGenerator.tsx:105 | a list typed as "-2, 5" splits and parses back to its numbers |
| QuickGenerator.QuadraticCheckIff | components/core/QuickGenerator.tsx:105-107 | a typed list is accepted exactly when it holds the roots with their multiplicities, in any order |
| QuickGenerator.QuadraticCheckParsed | components/core/QuickGenerator.tsx:105-107 | for any typed text: an accepted answer parses entry by entry to the roots with their multiplicities; against sorted roots exactly such answers are accepted |
| QuickGenerator.QuadraticIgnoresOrder | components/core/QuickGenerator.tsx:105-107 | two orderings of the same numbers get the same verdict |
| QuickGenerator.RepeatedRootTypedTwice | components/core/QuickGenerator.tsx:105-107 | a double root typed once is rejected; typed twice it is accepted |
| QuickGenerator.CheckRectangle | components/core/QuickGenerator.tsx:132 | `parseInt(answer) === base * height`; the definition `RectangleProblem.CheckAnswer` is stated with |
| QuickGenerator.RectangleCheckIff | components/core/QuickGenerator.tsx:132 | the rectangle check is the linear check against base·height, so typing a number is accepted exactly when it is the area |
| QuickGenerator.AlgebraProblem.constructor | components/core/QuickGenerator.tsx:75-78 | a generated linear equation, with empty answer, feedback and solution |
| QuickGenerator.AlgebraProblem.SetAnswer | components/core/QuickGenerator.tsx:89 | only the typed answer changes |
| QuickGenerator.AlgebraProblem.CheckAnswer | components/core/QuickGenerator.tsx:80-85 | +8 XP and "correct" exactly when `parseInt(answer)` is x, otherwise x is shown; the solution is the linear steps |
| QuickGenerator.QuadraticProblem.constructor | components/core/QuickGenerator.tsx:99-102 | the equation is what `genQuadraticEquation` gives for the draws: well formed, a the first draw in [1,3], the roots the sorted root draws (the second shifted when they tie and the coin came up), within [-5,8] and distinct under the coin; empty answer, feedback and solution |
| QuickGenerator.QuadraticProblem.SetAnswer | components/core/QuickGenerator.tsx:115 | only the typed answer changes |
| QuickGenerator.QuadraticProblem.CheckAnswer | components/core/QuickGenerator.tsx:104-111 | +12 XP exactly when the sorted parsed list equals the roots, otherwise the roots are shown; Δ is a perfect square and the solution is the Bhaskara steps |
| QuickGenerator.RectangleProblem.constructor | components/core/QuickGenerator.tsx:125-129 | base and height are the two `randInt(2, 20)` draws, so both lie in [2,20]; empty answer, feedback and solution |
| QuickGenerator.RectangleProblem.SetAnswer | components/core/QuickGenerator.tsx:141 | only the typed answer changes |
| QuickGenerator.RectangleProblem.CheckAnswer | components/core/QuickGenerator.tsx:131-136 | +7 XP exactly when `parseInt(answer)` is base·height, otherwise the area is shown; the solution is the area lines |
| CalculusLesson.GeneratedDerivative | components/lessons/CalculusLesson.tsx:22-25 | the expression `${c}x^${p}` is the printed monomial, and the differentiator gives `(c·p)x^(p-1)` for it |
| CalculusLesson.NewProblem | components/lessons/CalculusLesson.tsx:21-26 | the expression `${c}x^${p}` and the differentiator's answer for it; the definition `GeneratedDerivative` and `GenerateProblem` are about |
| CalculusLesson.ExpectedAnswer | components/lessons/CalculusLesson.tsx:25 | the expected answer is "{2c}x" for p = 2 and "{c·p}x^{p-1}" for higher powers |
| CalculusLesson.Normalize | components/lessons/CalculusLesson.tsx:37-38 | the normalized answer has no whitespace and is no longer than the typed one |
| CalculusLesson.NormalizeIdempotent | components/lessons/CalculusLesson.tsx:37-38 | normalizing twice changes nothing more |
| CalculusLesson.NormalizeIgnoresCase | components/lessons/CalculusLesson.tsx:37-40 | lower-casing a typed answer does not change the verdict |
| CalculusLesson.NormalizeIgnoresBlanks | components/lessons/CalculusLesson.tsx:37-40 | whitespace of any amount inserted anywhere does not change the verdict |
| CalculusLesson.NormalizeAppend | components/lessons/CalculusLesson.tsx:37-38 | normalizing a concatenation normalizes each part |
| CalculusLesson.AnswerIsNormal | components/lessons/CalculusLesson.tsx:38 | the printed derivative is its own normal form |
| CalculusLesson.AcceptedIff | components/lessons/CalculusLesson.tsx:35-40 | a typed answer is accepted exactly when it normalizes to the printed derivative |
| CalculusLesson.CalculusPractice.constructor | components/lessons/CalculusLesson.tsx:17-19 | empty problem, empty answer, no feedback |
| CalculusLesson.CalculusPractice.GenerateProblem | components/lessons/CalculusLesson.tsx:21-29 | c in [2,9], p in [2,5], the answer is the differentiator's output for the expression, and answer and feedback are cleared |
| CalculusLesson.CalculusPractice.SetUserAnswer | components/lessons/CalculusLesson.tsx:65 | only the typed answer changes |
| CalculusLesson.CalculusPractice.CheckAnswer | components/lessons/CalculusLesson.tsx:35-47 | +15 XP and "correct" exactly when the normalized answers match; otherwise the expected answer is shown and nothing is dispatched |
| Workspace.Calculator.constructor | components/workspace/Calculator.tsx:19-25 | display "0", empty expression, no operator or operand, not waiting |
| Workspace.Calculator.DigitClick | components/workspace/Calculator.tsx:34-48 | starts a new number after an operator, replaces a lone "0", appends otherwise; nothing else changes |
| Workspace.Calculator.DecimalClick | components/workspace/Calculator.tsx:50-57 | appends "." unless the display already has one; afterwards the display holds a ".", and nothing else changes |
| Workspace.Calculator.OperatorClick | components/workspace/Calculator.tsx:59-81 | folds a pending operation into its result when an operand was typed, otherwise records the display as first operand; then waits with the new operator |
| Workspace.Calculator.EqualsClick | components/workspace/Calculator.tsx:83-95 | no-op without a pending operation; otherwise shows the result, records "a op b =", and resets the rest |
| Workspace.Calculator.Clear | components/workspace/Calculator.tsx:97-99 | back to the initial state |
| Workspace.Calculator.Backspace | components/workspace/Calculator.tsx:101-108 | ignored while waiting; drops the last character, or shows "0" instead of emptying the display |
| Workspace.Press | components/workspace/Calculator.tsx:34-108 | any sequence of button presses keeps the display non-empty |
| Leaderboard.InsertByXp | components/sidebar/LeaderBoard.tsx:55 | inserting into a list sorted by XP keeps it sorted and adds exactly the entry |
| Leaderboard.SortByXp | components/sidebar/LeaderBoard.tsx:55 | the result is sorted by XP, highest first, and is a permutation of the input |
| Leaderboard.InsertKeepsTieOrder | components/sidebar/LeaderBoard.tsx:55 | the inserted entry goes ahead of the entries whose XP it ties, and those keep their order |
| Leaderboard.SortKeepsTieOrder | components/sidebar/LeaderBoard.tsx:55 | the sort is stable: entries with equal XP come out in the order they went in |
| Leaderboard.SortSorted | components/sidebar/LeaderBoard.tsx:55 | a list already sorted by XP is left unchanged |
| Leaderboard.Entry | components/sidebar/LeaderBoard.tsx:53-54 | the saved entry with XP `xp + (level - 1) * 50`; the definition `RecordedXpFallsShort` is about |
| Leaderboard.Rank | components/sidebar/LeaderBoard.tsx:54-56 | the new board: sorted by XP and cut to ten; the definition the ranking lemmas below are about |
| Leaderboard.RankShape | components/sidebar/LeaderBoard.tsx:54-56 | the saved board has min(n+1, 10) entries in non-increasing XP order |
| Leaderboard.RankDrawsFromBoard | components/sidebar/LeaderBoard.tsx:54-56 | every kept entry is from the old board or is the new one, with its multiplicity |
| Leaderboard.RankKeepsBest | components/sidebar/LeaderBoard.tsx:54-56 | no dropped entry has more XP than a kept one |
| Leaderboard.RankKeepsNewcomer | components/sidebar/LeaderBoard.tsx:54-56 | with fewer than ten entries, nothing is dropped and the new entry is on the board |
| Leaderboard.RankBehindTies | components/sidebar/LeaderBoard.tsx:54-56 | among equal XP the board keeps the order of the old board followed by the newcomer, so a newcomer ranks behind every older entry it only ties |
| Leaderboard.RankFullBoardTie | components/sidebar/LeaderBoard.tsx:54-56 | on a full sorted board, a newcomer that does not beat the last entry's XP leaves the board unchanged |
| Leaderboard.RecordedXpFallsShort | components/sidebar/LeaderBoard.tsx:53 | the recorded XP falls short of the XP earned by 25(l-1)(l-2); from level 3 it is strictly less |
| Leaderboard.LevelThreeExample | components/sidebar/LeaderBoard.tsx:53 | three awards of 50 reach level 3 having earned 150, and the board records 100 |
| Leaderboard.Board.constructor | components/sidebar/LeaderBoard.tsx:36 | the board starts empty, which satisfies the board invariant (at most ten entries, sorted by XP) |
| Leaderboard.Board.SaveScore | components/sidebar/LeaderBoard.tsx:50-61 | keeps the board invariant; a cancelled or empty name changes nothing, otherwise the board becomes the ranking with the new entry |
| Leaderboard.Board.ClearBoard | components/sidebar/LeaderBoard.tsx:63-68 | keeps the board invariant; confirmed, the board is empty, otherwise unchanged |
| Geometry.Area | components/interactive/InteractiveGeometry.tsx:25-27 | the shoelace area is never negative |
| Geometry.AreaIsHalfCross | components/interactive/InteractiveGeometry.tsx:25-27 | the shoelace area is half the magnitude of the edge cross product |
| Geometry.ZeroAreaIffCollinear | components/interactive/InteractiveGeometry.tsx:25-27 | the area vanishes exactly when the vertices are collinear |
| Geometry.AreaIgnoresOrder | components/interactive/InteractiveGeometry.tsx:25-27 | the area does not depend on the order of the vertices |
| Geometry.AreaIgnoresTranslation | components/interactive/InteractiveGeometry.tsx:25-27 | moving the whole triangle keeps its area |
| Geometry.InitialArea | components/interactive/InteractiveGeometry.tsx:14-18 | the initial triangle has area 14400 |
| Geometry.Clamp | components/interactive/InteractiveGeometry.tsx:44-45 | the result lies in [lo, hi], equals v inside, and the nearer bound outside |
| Geometry.ClampToCanvas | components/interactive/InteractiveGeometry.tsx:44-45 | the pointer position is limited to [10,390]×[10,210] and kept as is inside |
| Geometry.MoveVertex | components/interactive/InteractiveGeometry.tsx:47-49 | only the dragged vertex moves, to the clamped pointer position, and vertices stay on the canvas |
| Geometry.DragsKeepCanvas | components/interactive/InteractiveGeometry.tsx:36-49 | any sequence of drags keeps every vertex on the canvas |
| Geometry.DragsStayOnCanvas | components/interactive/InteractiveGeometry.tsx:14-49 | from the initial triangle, any sequence of drags leaves three vertices on the canvas |

## Left out

- The circle problem (`genCircleProblem`, `solveCircleArea` and the circle card of the quick generator) works in floating point with a tolerance, which the model does not represent.
- Calculator arithmetic: `parseFloat`, `String(number)` and `calculate` stay abstract (the `Arithmetic` parameter), because they are IEEE floating point.
- Calculator sign toggle and percent (`handleToggleSign`, `handlePercentClick`) are floating-point operations on the display value and are not modelled.
- Persistence through `localStorage` (the state initializer and saver, the leaderboard's load and save) and the console error logs are I/O.
- The distribution of `Math.random()` is not modelled: each draw is a parameter, and only its range is used.
- Rendering, the canvas and pointer-capture plumbing, theme, progress bars, and the delayed regeneration after a correct calculus answer (`setTimeout`) are UI and timing.
- JavaScript numbers are modelled as unbounded integers (or exact reals for the triangle); precision loss beyond 2^53 is not modelled.
- Derivative.DerivePolynomial: input outside integer coefficients and exponents (a fraction, an exponent in scientific notation, trailing characters that `parseFloat` would skip, NaN) gives `None` instead of the text the source prints for it.
- MathLib.SolveQuadraticEquation: requires a perfect-square discriminant and at least one root; the source prints `Math.sqrt` of any number (NaN for a negative one) and would read `roots[0]` of an empty list, which the generator never produces.
- JsText.ToLower: folds only the letters A–Z; `toLowerCase` also folds non-ASCII capitals.
- QuickGenerator.CheckQuadratic: any NaN entry rejects the answer outright; the source sorts NaN entries with a comparator that returns NaN, which gives the same verdict without modelling where the NaN lands.
- MathLib.SolveQuadraticEquation: the seven lines every equation gets are gathered in one list before the pushes of the branch; the order and content of the lines are the same.
- The topic table (`data/topics.ts`) enters only through the number of lessons of each topic (`AppProvider.LessonCount`); lesson titles and contents are data.
