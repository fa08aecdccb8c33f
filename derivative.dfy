/**
 * `derivePolynomial` of lib/math.ts: a sum of monomials in `x`, given as text, is
 * differentiated term by term and printed back as text.
 *
 * The source works on JavaScript numbers parsed with `parseFloat` and `parseInt`. The
 * model keeps every integer coefficient and exponent exactly; where the source would
 * print `NaN` or a non-integer coefficient, the model answers `None`.
 */
module Derivative {
  import opened Wrappers
  import opened JsText

  // ---------------------------------------------------------------------------
  // The source's pipeline
  // ---------------------------------------------------------------------------

  /** A token after parsing, `{ coef, pow }`: `None` where the number is NaN or not an integer. */
  datatype ParsedTerm = ParsedTerm(coef: Option<int>, pow: Option<int>)

  /** The coefficient written before 'x': "" or "+" is 1, "-" is -1, anything else goes to `parseFloat`. */
  function ParseCoefficient(s: string): Option<int> {
    if s == "" || s == "+" then Some(1)
    else if s == "-" then Some(-1)
    else ParseIntLiteral(s)
  }

  /**
   * One token. With an 'x', the text before the first 'x' is the coefficient and the text
   * between the first and a second 'x' gives the exponent when it starts with '^'
   * (`parseInt(…, 10)` of the rest), 1 otherwise. Without an 'x', the token is a constant.
   */
  function ParseTerm(t: string): ParsedTerm {
    if 'x' in t then
      var parts := Split(t, 'x');
      var pow := if |parts| > 1 && parts[1] != [] && parts[1][0] == '^'
                 then ParseInt(parts[1][1..], false) else Some(1);
      ParsedTerm(ParseCoefficient(parts[0]), pow)
    else ParsedTerm(ParseIntLiteral(t), Some(0))
  }

  function ParseTerms(tokens: seq<string>): (r: seq<ParsedTerm>)
    ensures |r| == |tokens|
  {
    if tokens == [] then [] else [ParseTerm(tokens[0])] + ParseTerms(tokens[1..])
  }

  /** `filter(Boolean)` on strings: the empty pieces are dropped. */
  function NonEmpty(pieces: seq<string>): (r: seq<string>)
    ensures forall i :: 0 <= i < |r| ==> r[i] != [] && r[i] in pieces
  {
    if pieces == [] then []
    else if pieces[0] == [] then NonEmpty(pieces[1..])
    else [pieces[0]] + NonEmpty(pieces[1..])
  }

  /** `k`, `kx` or `kx^n`: how a term of the derivative is printed. */
  function TermText(k: int, n: int): string {
    if n == 0 then IntToString(k)
    else if n == 1 then IntToString(k) + "x"
    else IntToString(k) + "x^" + IntToString(n)
  }

  /** What one term contributes: nothing (a constant), a printed term, or a value the model leaves out. */
  datatype Derived = Vanishes | Term(text: string) | Unmodelled

  function DeriveTerm(t: ParsedTerm): Derived {
    if t.pow == Some(0) then Vanishes
    else if t.coef.None? || t.pow.None? then Unmodelled
    else Term(TermText(t.coef.value * t.pow.value, t.pow.value - 1))
  }

  /** The printed terms of the derivative, constants dropped; `None` if any term is left out. */
  function DeriveTerms(ts: seq<ParsedTerm>): Option<seq<string>> {
    if ts == [] then Some([])
    else
      match (DeriveTerm(ts[0]), DeriveTerms(ts[1..]))
      case (Unmodelled, _) => None
      case (_, None) => None
      case (Vanishes, Some(rest)) => Some(rest)
      case (Term(s), Some(rest)) => Some([s] + rest)
  }

  /** The pieces that `split('+')` finds once whitespace is gone and every '-' reads "+-". */
  function Tokens(input: string): seq<string> {
    NonEmpty(Split(ReplaceAll(RemoveWhitespace(input), "-", "+-"), '+'))
  }

  /** `derivePolynomial(input)`. */
  function DerivePolynomial(input: string): Option<string> {
    if Trim(input) == [] then Some("0")
    else
      match DeriveTerms(ParseTerms(Tokens(input)))
      case None => None
      case Some(ds) =>
        if ds == [] then Some("0") else Some(ReplaceAll(Join(ds, " + "), "+ -", "- "))
  }

  // ---------------------------------------------------------------------------
  // The reference: polynomials as lists of monomials
  // ---------------------------------------------------------------------------

  datatype Monomial = Monomial(coef: int, pow: nat)

  /** d/dx of a sum of monomials: constants drop out, c*x^p becomes (c*p)*x^(p-1). */
  function Differentiate(ms: seq<Monomial>): (r: seq<Monomial>)
    ensures |r| <= |ms|
  {
    if ms == [] then []
    else if ms[0].pow == 0 then Differentiate(ms[1..])
    else [Monomial(ms[0].coef * ms[0].pow, ms[0].pow - 1)] + Differentiate(ms[1..])
  }

  /** The terms after the first, each preceded by " + ", or by " - " in place of its own '-'. */
  function SignedTail(ds: seq<string>): string {
    if ds == [] then []
    else
      (if ds[0] != [] && ds[0][0] == '-' then " - " + ds[0][1..] else " + " + ds[0])
      + SignedTail(ds[1..])
  }

  /** Terms joined the way a person writes a sum: "6x - 2", not "6x + -2". */
  function SignedJoin(ds: seq<string>): string {
    if ds == [] then [] else ds[0] + SignedTail(ds[1..])
  }

  function MonomialTexts(ms: seq<Monomial>): (r: seq<string>)
    ensures |r| == |ms|
    ensures forall i :: 0 <= i < |ms| ==> r[i] == TermText(ms[i].coef, ms[i].pow)
  {
    if ms == [] then [] else [TermText(ms[0].coef, ms[0].pow)] + MonomialTexts(ms[1..])
  }

  /** A polynomial written out: "3x^2 - 2x + 5" for [3x^2, -2x, 5]. */
  function PolynomialText(ms: seq<Monomial>): string {
    SignedJoin(MonomialTexts(ms))
  }

  // ---------------------------------------------------------------------------
  // The round trip
  // ---------------------------------------------------------------------------

  /**
   * Differentiating a written-out polynomial prints the derivative, written out the same
   * way, or "0" when every term was a constant.
   */
  lemma DeriveRoundTrip(ms: seq<Monomial>)
    ensures DerivePolynomial(PolynomialText(ms))
            == Some(if Differentiate(ms) == [] then "0" else PolynomialText(Differentiate(ms)))
  {
    var text := PolynomialText(ms);
    if ms == [] {
      assert Trim(text) == [];
    } else {
      var ts := MonomialTexts(ms);
      PiecesOfMonomials(ms);
      assert Trim(text) != [] by {
        assert text[0] == ts[0][0];
        TrimEmptyIffAllSpace(text);
      }
      TokensOfPolynomial(ts);
      ParseMonomialTexts(ms);
      DeriveMonomials(ms);
      var ds := MonomialTexts(Differentiate(ms));
      if ds != [] {
        PiecesOfMonomials(Differentiate(ms));
        JoinReplace(ds);
      }
    }
  }

  /** Empty or all-whitespace input gives "0". */
  lemma BlankInput(input: string)
    requires AllSpace(input)
    ensures DerivePolynomial(input) == Some("0")
  {
    TrimEmptyIffAllSpace(input);
  }

  /** Whitespace anywhere in the input is irrelevant: the input reads as it does with all of it removed. */
  lemma WhitespaceIgnored(input: string)
    ensures DerivePolynomial(input) == DerivePolynomial(RemoveWhitespace(input))
  {
    TokensIgnoreWhitespace(input);
    BlankIgnoresWhitespace(input);
  }

  lemma TokensIgnoreWhitespace(input: string)
    ensures Tokens(RemoveWhitespace(input)) == Tokens(input)
  {
    RemoveWhitespaceNoSpace(RemoveWhitespace(input));
  }

  lemma BlankIgnoresWhitespace(input: string)
    ensures Trim(input) == [] <==> Trim(RemoveWhitespace(input)) == []
  {
    var w := RemoveWhitespace(input);
    TrimEmptyIffAllSpace(input);
    TrimEmptyIffAllSpace(w);
    RemoveWhitespaceEmptyIff(input);
    assert AllSpace(w) <==> w == [] by {
      if w != [] {
        assert !IsSpace(w[0]);
      }
    }
  }

  /** A term printed without the coefficient 1: "x", "x^n", "-x", "-x^n". */
  function BareTermText(minus: bool, n: nat): string {
    (if minus then "-" else "") + "x" + (if n == 1 then "" else "^" + IntToString(n))
  }

  /** What follows the 'x' of a bare term: nothing, or '^' and the power. */
  lemma BareTermRest(n: nat)
    requires n >= 1
    ensures var rest := if n == 1 then "" else "^" + IntToString(n);
      'x' !in rest && NoSpace(rest) && '+' !in rest && '-' !in rest
      && (n != 1 ==> rest != [] && rest[0] == '^' && ParseInt(rest[1..], false) == Some(n))
  {
    if n != 1 {
      var p := IntToString(n);
      var rest := "^" + p;
      IntToStringChars(n);
      assert rest[1..] == p;
      assert forall i :: 0 < i < |rest| ==> rest[i] == p[i - 1];
      ParseIntRoundTrip(n, false);
    }
  }

  /** A sign, an 'x' and a rest with no sign and no blank make one printed term. */
  lemma PieceAfterX(sign: string, rest: string)
    requires sign == "" || sign == "-"
    requires NoSpace(rest) && '+' !in rest && '-' !in rest
    ensures Piece(sign + "x" + rest)
  {
    var t := sign + "x" + rest;
    assert forall i :: |sign| < i < |t| ==> t[i] == rest[i - |sign| - 1];
  }

  /** A coefficient left out before 'x' is 1, and a lone '-' before 'x' is -1. */
  lemma BareTermParses(minus: bool, n: nat)
    requires n >= 1
    ensures Piece(BareTermText(minus, n))
    ensures ParseTerm(BareTermText(minus, n)) == ParsedTerm(Some(if minus then -1 else 1), Some(n))
  {
    var sign := if minus then "-" else "";
    var rest := if n == 1 then "" else "^" + IntToString(n);
    assert BareTermText(minus, n) == sign + "x" + rest;
    BareTermRest(n);
    PieceAfterX(sign, rest);
    SplitAtX(sign, rest);
  }

  /** A single printed term c x^n with n >= 1 differentiates to (c n) x^(n-1). */
  lemma TermDerivative(c: int, n: nat)
    requires n >= 1
    ensures DerivePolynomial(TermText(c, n)) == Some(TermText(c * n, n - 1))
  {
    var m := Monomial(c, n);
    assert Differentiate([m]) == [Monomial(c * n, n - 1)];
    DeriveRoundTrip([m]);
    OneTermText(c, n);
    OneTermText(c * n, n - 1);
  }

  /**
   * Differentiating a term printed without the coefficient 1 gives what it gives with the
   * coefficient written out: n x^(n-1), or -n x^(n-1) after a lone '-'.
   */
  lemma BareTermDerivative(minus: bool, n: nat)
    requires n >= 1
    ensures DerivePolynomial(BareTermText(minus, n)) == DerivePolynomial(TermText(if minus then -1 else 1, n))
    ensures DerivePolynomial(BareTermText(minus, n)) == Some(TermText(if minus then -(n as int) else n, n - 1))
  {
    var c := if minus then -1 else 1;
    assert c * n == if minus then -(n as int) else n;
    BareTermParses(minus, n);
    PieceTermText(c, n);
    ParseTermText(Monomial(c, n));
    ImplicitSameTokens(BareTermText(minus, n), TermText(c, n));
    TermDerivative(c, n);
  }

  /** A one-term polynomial is written as its term alone. */
  lemma OneTermText(k: int, n: nat)
    ensures PolynomialText([Monomial(k, n)]) == TermText(k, n)
  {
    assert MonomialTexts([Monomial(k, n)]) == [TermText(k, n)];
    assert SignedJoin([TermText(k, n)]) == TermText(k, n) + SignedTail([]);
  }

  /** A single printed term is not blank and is read as the one token it is. */
  lemma SingleToken(a: string)
    requires Piece(a)
    ensures Trim(a) == a && Tokens(a) == [a]
  {
    assert SignedJoin([a]) == a;
    TokensOfPolynomial([a]);
    TrimNoOp(a);
  }

  /** Two one-term inputs whose terms parse alike are differentiated alike. */
  lemma ImplicitSameTokens(a: string, b: string)
    requires Piece(a) && Piece(b) && ParseTerm(a) == ParseTerm(b)
    ensures DerivePolynomial(a) == DerivePolynomial(b)
  {
    SingleToken(a);
    SingleToken(b);
    assert ParseTerms([a]) == [ParseTerm(a)] == ParseTerms([b]);
  }

  /** The example of the source's documentation: 3x^2 - 2x + 5 differentiates to 6x - 2. */
  lemma DocumentedExample()
    ensures DerivePolynomial("3x^2 - 2x + 5") == Some("6x - 2")
  {
    var ms := [Monomial(3, 2), Monomial(-2, 1), Monomial(5, 0)];
    DocumentedTexts();
    assert Differentiate(ms) == [Monomial(6, 1), Monomial(-2, 0)];
    DeriveRoundTrip(ms);
  }

  lemma DocumentedTexts()
    ensures PolynomialText([Monomial(3, 2), Monomial(-2, 1), Monomial(5, 0)]) == "3x^2 - 2x + 5"
    ensures PolynomialText([Monomial(6, 1), Monomial(-2, 0)]) == "6x - 2"
  {
    assert MonomialTexts([Monomial(3, 2), Monomial(-2, 1), Monomial(5, 0)]) == ["3x^2", "-2x", "5"] by {
      assert TermText(3, 2) == "3x^2" && TermText(-2, 1) == "-2x" && TermText(5, 0) == "5";
    }
    assert SignedJoin(["3x^2", "-2x", "5"]) == "3x^2 - 2x + 5";
    assert MonomialTexts([Monomial(6, 1), Monomial(-2, 0)]) == ["6x", "-2"] by {
      assert TermText(6, 1) == "6x" && TermText(-2, 0) == "-2";
    }
    assert SignedJoin(["6x", "-2"]) == "6x - 2";
  }

  lemma MonomialExamples()
    ensures DerivePolynomial("3x^2") == Some("6x")
    ensures DerivePolynomial("-3x^2") == Some("-6x")
  {
    var a, b := [Monomial(3, 2)], [Monomial(-3, 2)];
    assert PolynomialText(a) == "3x^2" && PolynomialText([Monomial(6, 1)]) == "6x";
    assert PolynomialText(b) == "-3x^2" && PolynomialText([Monomial(-6, 1)]) == "-6x";
    DeriveRoundTrip(a);
    DeriveRoundTrip(b);
  }

  lemma ConstantExample()
    ensures DerivePolynomial("5") == Some("0")
  {
    var d := [Monomial(5, 0)];
    assert PolynomialText(d) == "5";
    DeriveRoundTrip(d);
  }

  lemma SumExample()
    ensures DerivePolynomial("2x^3 + 4x - 7") == Some("6x^2 + 4")
  {
    var c := [Monomial(2, 3), Monomial(4, 1), Monomial(-7, 0)];
    SumTexts();
    assert Differentiate(c) == [Monomial(6, 2), Monomial(4, 0)];
    DeriveRoundTrip(c);
  }

  lemma SumTexts()
    ensures PolynomialText([Monomial(2, 3), Monomial(4, 1), Monomial(-7, 0)]) == "2x^3 + 4x - 7"
    ensures PolynomialText([Monomial(6, 2), Monomial(4, 0)]) == "6x^2 + 4"
  {
    assert MonomialTexts([Monomial(2, 3), Monomial(4, 1), Monomial(-7, 0)]) == ["2x^3", "4x", "-7"] by {
      assert TermText(2, 3) == "2x^3" && TermText(4, 1) == "4x" && TermText(-7, 0) == "-7";
    }
    assert SignedJoin(["2x^3", "4x", "-7"]) == "2x^3 + 4x - 7";
    assert MonomialTexts([Monomial(6, 2), Monomial(4, 0)]) == ["6x^2", "4"] by {
      assert TermText(6, 2) == "6x^2" && TermText(4, 0) == "4";
    }
    assert SignedJoin(["6x^2", "4"]) == "6x^2 + 4";
  }

  /** A printed term: not empty, no whitespace, no '+', and '-' at most as its sign. */
  predicate Piece(t: string) {
    t != [] && NoSpace(t) && '+' !in t && forall i :: 0 < i < |t| ==> t[i] != '-'
  }

  lemma PieceTermText(k: int, n: nat)
    ensures Piece(TermText(k, n))
    ensures TermText(k, n)[0] == '-' <==> k < 0
  {
    var c := IntToString(k);
    IntToStringChars(k);
    IntToStringChars(n);
    if n == 1 {
      assert TermText(k, n) == c + "x";
    } else if n >= 2 {
      var t := c + "x^" + IntToString(n);
      assert forall i :: |c| + 2 <= i < |t| ==> t[i] == IntToString(n)[i - |c| - 2];
    }
  }

  lemma PiecesOfMonomials(ms: seq<Monomial>)
    ensures forall i :: 0 <= i < |ms| ==> Piece(MonomialTexts(ms)[i])
  {
    forall i | 0 <= i < |ms| ensures Piece(MonomialTexts(ms)[i]) {
      PieceTermText(ms[i].coef, ms[i].pow);
    }
  }

  /** Each piece after the first, as it stands once whitespace is gone and '-' reads "+-". */
  function PlusPrefixed(ts: seq<string>): string {
    if ts == [] then [] else "+" + ts[0] + PlusPrefixed(ts[1..])
  }

  lemma TokensOfPolynomial(ts: seq<string>)
    requires ts != [] && forall i :: 0 <= i < |ts| ==> Piece(ts[i])
    ensures Tokens(SignedJoin(ts)) == ts
  {
    var h := ts[0];
    var head := if h[0] == '-' then "+" + h else h;
    CleanedPolynomial(ts);
    SplitPlusPrefixed(head, ts[1..]);
    SplitHead(h);
    NonEmptyAppend(Split(head, '+'), ts[1..]);
    NonEmptyKeeps(ts[1..]);
  }

  /** The first piece splits off alone, after an empty piece when it carries a '-'. */
  lemma SplitHead(h: string)
    requires Piece(h)
    ensures NonEmpty(Split(if h[0] == '-' then "+" + h else h, '+')) == [h]
  {
    SplitNoSeparator(h, '+');
    if h[0] == '-' {
      assert "+" + h == [] + ['+'] + h;
      SplitAround([], h, '+');
      assert Split("+" + h, '+') == [[], h];
      assert [[], h][1..] == [h];
      assert NonEmpty([h]) == [h] + NonEmpty([]);
      assert NonEmpty([[], h]) == NonEmpty([h]);
    }
  }

  lemma CleanedPolynomial(ts: seq<string>)
    requires ts != [] && Piece(ts[0])
    requires forall i :: 0 <= i < |ts| ==> Piece(ts[i])
    ensures ReplaceAll(RemoveWhitespace(SignedJoin(ts)), "-", "+-")
            == (if ts[0][0] == '-' then "+" + ts[0] else ts[0]) + PlusPrefixed(ts[1..])
  {
    var h := ts[0];
    var tail := RemoveWhitespace(SignedTail(ts[1..]));
    RemoveWhitespaceAppend(h, SignedTail(ts[1..]));
    RemoveWhitespaceNoSpace(h);
    ReplaceCharAppend(h, tail, '-', "+-");
    CleanPiece(h);
    CleanTail(ts[1..]);
  }

  /** The "-" to "+-" rewrite on a piece: only a leading '-' is rewritten. */
  lemma CleanPiece(t: string)
    requires Piece(t)
    ensures ReplaceAll(t, "-", "+-") == if t[0] == '-' then "+" + t else t
  {
    if t[0] == '-' {
      var u := t[1..];
      assert '-' !in u by {
        forall i | 0 <= i < |u| ensures u[i] != '-' { assert u[i] == t[i + 1]; }
      }
      assert t == "-" + u;
      CleanSign(u);
    } else {
      assert '-' !in t by {
        forall i | 0 <= i < |t| ensures t[i] != '-' { if i == 0 { } }
      }
      ReplaceCharAbsent(t, '-', "+-");
    }
  }

  lemma CleanSign(u: string)
    requires '-' !in u
    ensures ReplaceAll("-" + u, "-", "+-") == "+" + ("-" + u)
  {
    assert "+-" + u == "+" + ("-" + u);
    ReplaceCharAbsent(u, '-', "+-");
    ReplaceAtStart("-", u, "+-");
  }

  /** A later term, with its separator: " + t" or " - u", cleaned to "+t" or "+-u". */
  lemma CleanLead(t: string)
    requires Piece(t)
    ensures var lead := if t[0] == '-' then " - " + t[1..] else " + " + t;
            ReplaceAll(RemoveWhitespace(lead), "-", "+-") == "+" + t
  {
    RemoveWhitespaceNoSpace(t);
    RemoveWhitespaceNoSpace(t[1..]);
    if t[0] == '-' {
      assert " - " + t[1..] == " " + "-" + " " + t[1..] && t == "-" + t[1..];
      RemoveWhitespaceAppend(" - ", t[1..]);
      CleanPiece(t);
    } else {
      RemoveWhitespaceAppend(" + ", t);
      ReplaceCharAbsent("+", '-', "+-");
      ReplaceCharAppend("+", t, '-', "+-");
      CleanPiece(t);
    }
  }

  lemma {:induction false} CleanTail(ts: seq<string>)
    requires forall i :: 0 <= i < |ts| ==> Piece(ts[i])
    ensures ReplaceAll(RemoveWhitespace(SignedTail(ts)), "-", "+-") == PlusPrefixed(ts)
  {
    if ts != [] {
      var t := ts[0];
      var lead := if t[0] == '-' then " - " + t[1..] else " + " + t;
      CleanLead(t);
      RemoveWhitespaceAppend(lead, SignedTail(ts[1..]));
      ReplaceCharAppend(RemoveWhitespace(lead), RemoveWhitespace(SignedTail(ts[1..])), '-', "+-");
      CleanTail(ts[1..]);
    }
  }

  lemma {:induction false} SplitPlusPrefixed(h: string, ts: seq<string>)
    requires forall i :: 0 <= i < |ts| ==> Piece(ts[i])
    ensures Split(h + PlusPrefixed(ts), '+') == Split(h, '+') + ts
    decreases ts
  {
    if ts == [] {
      assert h + PlusPrefixed(ts) == h;
    } else {
      var t := ts[0];
      assert h + PlusPrefixed(ts) == h + ['+'] + (t + PlusPrefixed(ts[1..]));
      SplitAround(h, t + PlusPrefixed(ts[1..]), '+');
      SplitPlusPrefixed(t, ts[1..]);
      SplitNoSeparator(t, '+');
    }
  }

  lemma {:induction false} NonEmptyAppend(a: seq<string>, b: seq<string>)
    ensures NonEmpty(a + b) == NonEmpty(a) + NonEmpty(b)
  {
    if a == [] {
      assert a + b == b;
    } else {
      assert (a + b)[0] == a[0] && (a + b)[1..] == a[1..] + b;
      NonEmptyAppend(a[1..], b);
    }
  }

  lemma {:induction false} NonEmptyKeeps(ts: seq<string>)
    requires forall i :: 0 <= i < |ts| ==> ts[i] != []
    ensures NonEmpty(ts) == ts
  {
    if ts != [] {
      NonEmptyKeeps(ts[1..]);
    }
  }

  /** A string with one 'x' splits into the parts before and after it. */
  lemma SplitAtX(c: string, rest: string)
    requires 'x' !in c && 'x' !in rest
    ensures Split(c + "x" + rest, 'x') == [c, rest]
    ensures 'x' in c + "x" + rest
  {
    assert c + "x" + rest == c + ['x'] + rest;
    SplitAround(c, rest, 'x');
    SplitNoSeparator(c, 'x');
    SplitNoSeparator(rest, 'x');
    assert (c + "x" + rest)[|c|] == 'x';
  }

  /** Each printed monomial parses back to its own coefficient and exponent. */
  lemma ParseTermText(m: Monomial)
    ensures ParseTerm(TermText(m.coef, m.pow)) == ParsedTerm(Some(m.coef), Some(m.pow))
  {
    var c := IntToString(m.coef);
    ParseIntLiteralRoundTrip(m.coef);
    if m.pow == 1 {
      SplitAtX(c, "");
      assert c + "x" + "" == c + "x";
    } else if m.pow >= 2 {
      var p := IntToString(m.pow);
      IntToStringChars(m.pow);
      assert 'x' !in "^" + p by { assert ("^" + p)[1..] == p; }
      SplitAtX(c, "^" + p);
      assert c + "x" + ("^" + p) == c + "x^" + p;
      assert ("^" + p)[1..] == p;
      ParseIntRoundTrip(m.pow, false);
    }
  }

  function ParsedMonomials(ms: seq<Monomial>): seq<ParsedTerm> {
    if ms == [] then [] else [ParsedTerm(Some(ms[0].coef), Some(ms[0].pow))] + ParsedMonomials(ms[1..])
  }

  lemma {:induction false} ParseMonomialTexts(ms: seq<Monomial>)
    ensures ParseTerms(MonomialTexts(ms)) == ParsedMonomials(ms)
  {
    if ms != [] {
      ParseTermText(ms[0]);
      assert MonomialTexts(ms)[1..] == MonomialTexts(ms[1..]);
      ParseMonomialTexts(ms[1..]);
    }
  }

  lemma {:induction false} DeriveMonomials(ms: seq<Monomial>)
    ensures DeriveTerms(ParsedMonomials(ms)) == Some(MonomialTexts(Differentiate(ms)))
  {
    if ms != [] {
      DeriveMonomials(ms[1..]);
      assert ParsedMonomials(ms)[1..] == ParsedMonomials(ms[1..]);
    }
  }

  // ---------------------------------------------------------------------------
  // join(' + ') followed by replace(/\+ -/g, '- ')
  // ---------------------------------------------------------------------------

  lemma {:induction false} ReplaceAllAfter(p: string, s: string, pat: string, rep: string)
    requires pat != [] && pat[0] !in p
    ensures ReplaceAll(p + s, pat, rep) == p + ReplaceAll(s, pat, rep)
  {
    if p != [] {
      var ps := p + s;
      assert ps[0] == p[0] && ps[1..] == p[1..] + s;
      assert p[0] in p;
      if |ps| >= |pat| {
        assert ps[..|pat|][0] == p[0];
      }
      ReplaceAllAfter(p[1..], s, pat, rep);
      assert ps == [p[0]] + (p[1..] + s);
    } else {
      assert p + s == s;
    }
  }

  lemma JoinTail(ds: seq<string>)
    requires |ds| >= 2
    ensures Join(ds, " + ") == ds[0] + " + " + Join(ds[1..], " + ")
  {
  }

  /** At a separator before a negative term, " + -" becomes " - ". */
  lemma ReplaceAtNegative(j: string)
    ensures ReplaceAll(" + -" + j, "+ -", "- ") == " - " + ReplaceAll(j, "+ -", "- ")
  {
    var s1 := " + -" + j;
    assert s1[..3] == " + " && s1[1..] == "+ -" + j;
    var s2 := "+ -" + j;
    assert s2[..3] == "+ -" && s2[3..] == j;
  }

  /** At a separator before any other term, " + " stays. */
  lemma ReplaceAtOther(j: string)
    requires j != [] && j[0] != '-'
    ensures ReplaceAll(" + " + j, "+ -", "- ") == " + " + ReplaceAll(j, "+ -", "- ")
  {
    var r := ReplaceAll(j, "+ -", "- ");
    calc {
      ReplaceAll(" + " + j, "+ -", "- ");
    == { assert " + " + j == [' '] + ("+ " + j); ReplaceSkip(' ', "+ " + j); }
      " " + ReplaceAll("+ " + j, "+ -", "- ");
    == { assert "+ " + j == ['+'] + (" " + j) && (" " + j)[1] == j[0]; ReplaceSkip('+', " " + j); }
      " " + ("+" + ReplaceAll(" " + j, "+ -", "- "));
    == { assert " " + j == [' '] + j; ReplaceSkip(' ', j); }
      " " + ("+" + (" " + r));
    == { AppendAssoc(" ", "+", " " + r); AppendAssoc(" " + "+", " ", r); }
      " + " + r;
    }
  }

  /** A character that does not start "+ -" is copied as it is. */
  lemma ReplaceSkip(c: char, t: string)
    requires c != '+' || |t| < 2 || t[1] != '-'
    ensures ReplaceAll([c] + t, "+ -", "- ") == [c] + ReplaceAll(t, "+ -", "- ")
  {
    var s := [c] + t;
    assert s[1..] == t;
    if |s| >= 3 {
      assert s[..3][0] == c && s[..3][2] == t[1];
      assert s[..3] != "+ -";
      assert ReplaceAll(s, "+ -", "- ") == [s[0]] + ReplaceAll(s[1..], "+ -", "- ");
    } else {
      assert ReplaceAll(t, "+ -", "- ") == t;
    }
  }

  lemma JoinNegativeHead(ds: seq<string>)
    requires |ds| >= 1 && ds[0] != [] && ds[0][0] == '-'
    ensures Join(ds, " + ") == "-" + Join([ds[0][1..]] + ds[1..], " + ")
  {
    var t := ds[0][1..];
    var ds' := [t] + ds[1..];
    assert ds[0] == "-" + t;
    if |ds| == 1 {
      assert Join(ds', " + ") == t;
    } else {
      var rest := Join(ds[1..], " + ");
      assert Join(ds', " + ") == t + " + " + rest by {
        JoinTail(ds');
        assert ds'[1..] == ds[1..];
      }
      assert Join(ds, " + ") == ("-" + t) + " + " + rest by {
        JoinTail(ds);
      }
      AppendAssoc4("-", t, " + ", rest);
    }
  }

  predicate Joinable(ds: seq<string>) {
    ds != [] && '+' !in ds[0] && forall i :: 1 <= i < |ds| ==> Piece(ds[i])
  }

  /** The terms still to be joined after the first separator has been rewritten. */
  function Next(ds: seq<string>): seq<string>
    requires |ds| >= 2 && ds[1] != []
  {
    if ds[1][0] == '-' then [ds[1][1..]] + ds[2..] else ds[1..]
  }

  function Separator(ds: seq<string>): string
    requires |ds| >= 2 && ds[1] != []
  {
    if ds[1][0] == '-' then " - " else " + "
  }

  /** The terms after the first separator are again joinable. */
  lemma NextJoinable(ds: seq<string>)
    requires |ds| >= 2 && Joinable(ds)
    ensures Joinable(Next(ds))
  {
    var d1 := ds[1];
    assert Piece(d1);
    var ds' := Next(ds);
    assert '+' !in ds'[0] by {
      if d1[0] == '-' {
        forall i | 0 <= i < |d1[1..]| ensures d1[1..][i] != '+' {
          assert d1[1..][i] == d1[i + 1];
        }
      }
    }
    assert forall i :: 1 <= i < |ds'| ==> ds'[i] == ds[i + 1];
  }

  /** One separator of the joined text, rewritten. */
  lemma JoinReplaceStep(ds: seq<string>)
    requires |ds| >= 2 && Joinable(ds)
    ensures Joinable(Next(ds))
    ensures ReplaceAll(Join(ds, " + "), "+ -", "- ")
            == ds[0] + Separator(ds) + ReplaceAll(Join(Next(ds), " + "), "+ -", "- ")
    ensures |Join(Next(ds), " + ")| < |Join(ds, " + ")|
  {
    NextJoinable(ds);
    assert Piece(ds[1]);
    var j := Join(ds[1..], " + ");
    var rest := ReplaceAll(Join(Next(ds), " + "), "+ -", "- ");
    JoinTail(ds);
    assert Join(ds, " + ") == ds[0] + (" + " + j);
    ReplaceAllAfter(ds[0], " + " + j, "+ -", "- ");
    if ds[1][0] == '-' {
      JoinReplaceNegative(ds);
    } else {
      JoinReplaceOther(ds);
    }
    AppendAssoc(ds[0], Separator(ds), rest);
  }

  lemma AppendAssoc(a: string, b: string, c: string)
    ensures a + (b + c) == a + b + c
  {
  }

  lemma AppendAssoc4(a: string, b: string, c: string, d: string)
    ensures a + (b + c + d) == a + b + c + d
  {
  }

  lemma SignedJoinStep(ds: seq<string>)
    requires |ds| >= 2 && ds[1] != []
    ensures SignedJoin(ds) == ds[0] + Separator(ds) + SignedJoin(Next(ds))
  {
    var ds' := Next(ds);
    if ds[1][0] == '-' {
      assert ds'[1..] == ds[2..];
    } else {
      assert ds'[1..] == ds[2..];
    }
  }

  /** Past the first separator, a negative term's '-' heads the remaining joined text. */
  lemma JoinAfterNegative(ds: seq<string>)
    requires |ds| >= 2 && ds[1] != [] && ds[1][0] == '-'
    ensures Join(ds[1..], " + ") == "-" + Join(Next(ds), " + ")
  {
    JoinNegativeHead(ds[1..]);
    assert [ds[1..][0][1..]] + ds[1..][1..] == Next(ds);
  }

  lemma JoinReplaceNegative(ds: seq<string>)
    requires |ds| >= 2 && ds[1] != [] && ds[1][0] == '-'
    ensures ReplaceAll(" + " + Join(ds[1..], " + "), "+ -", "- ")
            == " - " + ReplaceAll(Join(Next(ds), " + "), "+ -", "- ")
    ensures |Join(Next(ds), " + ")| < |Join(ds[1..], " + ")|
  {
    var n := Join(Next(ds), " + ");
    JoinAfterNegative(ds);
    assert " + " + ("-" + n) == " + -" + n;
    ReplaceAtNegative(n);
  }

  lemma JoinReplaceOther(ds: seq<string>)
    requires |ds| >= 2 && ds[1] != [] && ds[1][0] != '-'
    ensures ReplaceAll(" + " + Join(ds[1..], " + "), "+ -", "- ")
            == " + " + ReplaceAll(Join(Next(ds), " + "), "+ -", "- ")
  {
    var j := Join(ds[1..], " + ");
    assert j[0] == ds[1][0] by {
      if |ds[1..]| >= 2 { JoinTail(ds[1..]); }
    }
    ReplaceAtOther(j);
  }

  /** The rewrite turns exactly the separators before a negative term into " - ". */
  lemma {:induction false} JoinReplace(ds: seq<string>)
    requires Joinable(ds)
    ensures ReplaceAll(Join(ds, " + "), "+ -", "- ") == SignedJoin(ds)
    decreases |Join(ds, " + ")|
  {
    if |ds| == 1 {
      ReplaceAllAfter(ds[0], [], "+ -", "- ");
      assert ds[0] + [] == ds[0];
    } else {
      JoinReplaceStep(ds);
      SignedJoinStep(ds);
      JoinReplace(Next(ds));
    }
  }
}
