/**
 * The JavaScript string and number behaviour that the application's code relies on:
 * the `\s` character class and `trim`, `split` with a one-character separator,
 * `join`, a global literal `replace`, template-literal rendering of integers and
 * `parseInt`. Numbers that the application keeps integral are Dafny `int`s.
 */
module JsText {
  import opened Wrappers

  // ---------------------------------------------------------------------------
  // Whitespace
  // ---------------------------------------------------------------------------

  /** ECMAScript WhiteSpace and LineTerminator code points: what `\s` matches and `trim` removes. */
  predicate IsSpace(c: char) {
    c == '\t' || c == '\n' || c == '\U{000B}' || c == '\U{000C}' || c == '\r' || c == ' '
    || c == '\U{00A0}' || c == '\U{1680}' || ('\U{2000}' <= c <= '\U{200A}')
    || c == '\U{2028}' || c == '\U{2029}' || c == '\U{202F}' || c == '\U{205F}'
    || c == '\U{3000}' || c == '\U{FEFF}'
  }

  predicate NoSpace(s: string) {
    forall i :: 0 <= i < |s| ==> !IsSpace(s[i])
  }

  lemma NoSpaceNoBlank(s: string)
    requires NoSpace(s)
    ensures ' ' !in s
  {
  }

  /** `s.replace(/\s+/g, '')` (equally `s.replace(/\s/g, '')`): every whitespace character dropped. */
  function RemoveWhitespace(s: string): (r: string)
    ensures NoSpace(r)
    ensures |r| <= |s|
  {
    if s == [] then []
    else if IsSpace(s[0]) then RemoveWhitespace(s[1..])
    else [s[0]] + RemoveWhitespace(s[1..])
  }

  /** Removing whitespace keeps every other character, in order. */
  lemma {:induction false} RemoveWhitespaceAppend(a: string, b: string)
    ensures RemoveWhitespace(a + b) == RemoveWhitespace(a) + RemoveWhitespace(b)
  {
    if a != [] {
      assert (a + b)[0] == a[0];
      assert (a + b)[1..] == a[1..] + b;
      RemoveWhitespaceAppend(a[1..], b);
      if !IsSpace(a[0]) {
        calc {
          RemoveWhitespace(a + b);
          [a[0]] + RemoveWhitespace(a[1..] + b);
          [a[0]] + (RemoveWhitespace(a[1..]) + RemoveWhitespace(b));
          ([a[0]] + RemoveWhitespace(a[1..])) + RemoveWhitespace(b);
        }
      }
    } else {
      assert a + b == b;
    }
  }

  lemma {:induction false} RemoveWhitespaceNoSpace(s: string)
    requires NoSpace(s)
    ensures RemoveWhitespace(s) == s
  {
    if s != [] {
      RemoveWhitespaceNoSpace(s[1..]);
    }
  }

  /** A string made of whitespace only (including the empty string). */
  predicate AllSpace(s: string) {
    forall i :: 0 <= i < |s| ==> IsSpace(s[i])
  }

  function TrimStart(s: string): (r: string)
    ensures |r| <= |s|
    ensures r == [] || !IsSpace(r[0])
    ensures AllSpace(s[..|s| - |r|])
  {
    if s != [] && IsSpace(s[0]) then TrimStart(s[1..]) else s
  }

  /** `trimStart` keeps a suffix of its input. */
  lemma {:induction false} TrimStartSuffix(s: string)
    ensures TrimStart(s) == s[|s| - |TrimStart(s)|..]
  {
    if s != [] && IsSpace(s[0]) {
      TrimStartSuffix(s[1..]);
      assert s[1..][|s| - 1 - |TrimStart(s)|..] == s[|s| - |TrimStart(s)|..];
    }
  }

  function TrimEnd(s: string): (r: string)
    ensures |r| <= |s| && r == s[..|r|]
    ensures r == [] || !IsSpace(r[|r| - 1])
    ensures AllSpace(s[|r|..])
  {
    if s != [] && IsSpace(s[|s| - 1]) then TrimEnd(s[..|s| - 1]) else s
  }

  /** `s.trim()`. */
  function Trim(s: string): string {
    TrimStart(TrimEnd(s))
  }

  lemma TrimEmptyIffAllSpace(s: string)
    ensures Trim(s) == [] <==> AllSpace(s)
  {
    var e := TrimEnd(s);
    if Trim(s) == [] {
      assert AllSpace(e);
      assert s == e + s[|e|..];
    }
  }

  /** `trim` leaves a string alone when it neither starts nor ends with whitespace. */
  lemma TrimNoOp(s: string)
    requires s == [] || (!IsSpace(s[0]) && !IsSpace(s[|s| - 1]))
    ensures Trim(s) == s
  {
  }

  /** One leading blank, as left by splitting "a, b" on ',', is trimmed away. */
  lemma TrimPadded(s: string)
    requires s != [] && !IsSpace(s[0]) && !IsSpace(s[|s| - 1])
    ensures Trim(" " + s) == s
  {
    var p := " " + s;
    assert TrimEnd(p) == p;
    assert p[1..] == s;
    TrimNoOp(s);
  }

  // ---------------------------------------------------------------------------
  // split, join, replace
  // ---------------------------------------------------------------------------

  /** `s.substring(start)`: the suffix from `start`, clamped to the string's bounds. */
  function Substring(s: string, start: int): (r: string)
    ensures 0 <= start <= |s| ==> r == s[start..]
    ensures start < 0 ==> r == s
    ensures start > |s| ==> r == []
  {
    if start < 0 then s else if start <= |s| then s[start..] else []
  }

  /** `s.split(d)` for a one-character separator: the maximal pieces between separators. */
  function Split(s: string, d: char): (r: seq<string>)
    ensures |r| >= 1
    ensures forall k :: 0 <= k < |r| ==> d !in r[k]
  {
    if s == [] then [[]]
    else if s[0] == d then [[]] + Split(s[1..], d)
    else
      var rest := Split(s[1..], d);
      [[s[0]] + rest[0]] + rest[1..]
  }

  /** `parts.join(sep)`. */
  function Join(parts: seq<string>, sep: string): string {
    if parts == [] then []
    else if |parts| == 1 then parts[0]
    else parts[0] + sep + Join(parts[1..], sep)
  }

  lemma JoinCons(w: string, ws: seq<string>, sep: string)
    requires ws != []
    ensures Join([w] + ws, sep) == w + sep + Join(ws, sep)
  {
    assert ([w] + ws)[1..] == ws;
  }

  /** Five words joined: each separator between two neighbours. */
  lemma JoinFive(w0: string, w1: string, w2: string, w3: string, w4: string, sep: string)
    ensures Join([w0, w1, w2, w3, w4], sep) == w0 + sep + w1 + sep + w2 + sep + w3 + sep + w4
  {
    assert [w0, w1, w2, w3, w4] == [w0] + [w1, w2, w3, w4];
    assert [w1, w2, w3, w4] == [w1] + [w2, w3, w4];
    assert [w2, w3, w4] == [w2] + [w3, w4];
    assert [w3, w4] == [w3] + [w4];
    JoinCons(w3, [w4], sep);
    JoinCons(w2, [w3, w4], sep);
    JoinCons(w1, [w2, w3, w4], sep);
    JoinCons(w0, [w1, w2, w3, w4], sep);
  }

  /** Seven words joined: each separator between two neighbours. */
  lemma JoinSeven(w0: string, w1: string, w2: string, w3: string, w4: string, w5: string, w6: string,
                  sep: string)
    ensures Join([w0, w1, w2, w3, w4, w5, w6], sep)
            == w0 + sep + w1 + sep + w2 + sep + w3 + sep + w4 + sep + w5 + sep + w6
  {
    assert [w0, w1, w2, w3, w4, w5, w6] == [w0] + [w1, w2, w3, w4, w5, w6];
    assert [w1, w2, w3, w4, w5, w6] == [w1] + [w2, w3, w4, w5, w6];
    JoinFive(w2, w3, w4, w5, w6, sep);
    JoinCons(w1, [w2, w3, w4, w5, w6], sep);
    JoinCons(w0, [w1, w2, w3, w4, w5, w6], sep);
  }

  /** Splitting and re-joining with the same separator gives back the string. */
  lemma {:induction false} JoinSplit(s: string, d: char)
    ensures Join(Split(s, d), [d]) == s
  {
    if s != [] {
      JoinSplit(s[1..], d);
      var rest := Split(s[1..], d);
      if s[0] != d {
        if |rest| == 1 {
          assert Split(s, d) == [[s[0]] + rest[0]];
        } else {
          var r := Split(s, d);
          assert r[1..] == rest[1..];
          assert Join(r, [d]) == [s[0]] + rest[0] + [d] + Join(rest[1..], [d]);
        }
      }
    }
  }

  /** Joining pieces that do not contain the separator and splitting again gives the pieces back. */
  lemma {:induction false} SplitJoin(ws: seq<string>, d: char)
    requires ws != [] && forall k :: 0 <= k < |ws| ==> d !in ws[k]
    ensures Split(Join(ws, [d]), d) == ws
  {
    if |ws| == 1 {
      SplitNoSeparator(ws[0], d);
    } else {
      assert Join(ws, [d]) == ws[0] + [d] + Join(ws[1..], [d]);
      SplitAround(ws[0], Join(ws[1..], [d]), d);
      SplitNoSeparator(ws[0], d);
      SplitJoin(ws[1..], d);
    }
  }

  /** A string without the separator is a single piece. */
  lemma {:induction false} SplitNoSeparator(s: string, d: char)
    requires d !in s
    ensures Split(s, d) == [s]
  {
    if s != [] {
      assert s[0] in s;
      SplitNoSeparator(s[1..], d);
      assert [s[0]] + s[1..] == s;
    }
  }

  /** The pieces on either side of a separator are the pieces of each side. */
  lemma {:induction false} SplitAround(a: string, b: string, d: char)
    ensures Split(a + [d] + b, d) == Split(a, d) + Split(b, d)
  {
    if a == [] {
      assert a + [d] + b == [d] + b;
      assert ([d] + b)[1..] == b;
    } else {
      var ab := a + [d] + b;
      assert ab[0] == a[0];
      assert ab[1..] == a[1..] + [d] + b;
      SplitAround(a[1..], b, d);
    }
  }

  /** Whether `pat` occurs in `s` starting at position `i`. */
  predicate OccursAt(s: string, pat: string, i: nat) {
    i + |pat| <= |s| && s[i..i + |pat|] == pat
  }

  /** `s.replace(/pat/g, rep)` for a literal pattern: non-overlapping occurrences, left to right. */
  function ReplaceAll(s: string, pat: string, rep: string): string
    requires pat != []
    decreases |s|
  {
    if |s| < |pat| then s
    else if s[..|pat|] == pat then rep + ReplaceAll(s[|pat|..], pat, rep)
    else [s[0]] + ReplaceAll(s[1..], pat, rep)
  }

  /** An occurrence at the start is replaced, and the rest is rewritten after it. */
  lemma ReplaceAtStart(pat: string, s: string, rep: string)
    requires pat != []
    ensures ReplaceAll(pat + s, pat, rep) == rep + ReplaceAll(s, pat, rep)
  {
    var x := pat + s;
    assert x[..|pat|] == pat && x[|pat|..] == s;
  }

  /** Replacing a pattern that does not occur changes nothing. */
  lemma {:induction false} ReplaceAllAbsent(s: string, pat: string, rep: string)
    requires pat != []
    requires forall i :: 0 <= i <= |s| ==> !OccursAt(s, pat, i)
    ensures ReplaceAll(s, pat, rep) == s
    decreases |s|
  {
    if |s| >= |pat| {
      assert !OccursAt(s, pat, 0);
      forall i | 0 <= i <= |s| - 1 ensures !OccursAt(s[1..], pat, i) {
        assert !OccursAt(s, pat, i + 1);
        if i + |pat| <= |s| - 1 {
          assert s[1..][i..i + |pat|] == s[i + 1..i + 1 + |pat|];
        }
      }
      ReplaceAllAbsent(s[1..], pat, rep);
    }
  }

  /** Replacing a character that does not occur changes nothing. */
  lemma {:induction false} ReplaceCharAbsent(s: string, c: char, rep: string)
    requires c !in s
    ensures ReplaceAll(s, [c], rep) == s
  {
    if s != [] {
      assert s[0] in s;
      assert s[..|[c]|] == [s[0]];
      ReplaceCharAbsent(s[1..], c, rep);
      assert [s[0]] + s[1..] == s;
    }
  }

  /** A one-character pattern is replaced piecewise over a concatenation. */
  lemma {:induction false} ReplaceCharAppend(a: string, b: string, c: char, rep: string)
    ensures ReplaceAll(a + b, [c], rep) == ReplaceAll(a, [c], rep) + ReplaceAll(b, [c], rep)
  {
    if a != [] {
      assert (a + b)[1..] == a[1..] + b;
      assert (a + b)[..|[c]|] == a[..|[c]|];
      assert (a + b)[0] == a[0];
      ReplaceCharAppend(a[1..], b, c, rep);
      var head := if a[0] == c then rep else [a[0]];
      assert a[..1] == [a[0]] && a[1..] == a[|[c]|..];
      calc {
        ReplaceAll(a + b, [c], rep);
        head + ReplaceAll(a[1..] + b, [c], rep);
        head + (ReplaceAll(a[1..], [c], rep) + ReplaceAll(b, [c], rep));
        (head + ReplaceAll(a[1..], [c], rep)) + ReplaceAll(b, [c], rep);
      }
    } else {
      assert a + b == b;
    }
  }

  // ---------------------------------------------------------------------------
  // Rendering integers
  // ---------------------------------------------------------------------------

  predicate IsDigit(c: char) {
    '0' <= c <= '9'
  }

  predicate AllDigits(s: string) {
    forall i :: 0 <= i < |s| ==> IsDigit(s[i])
  }

  function DigitChar(d: nat): (c: char)
    requires d < 10
    ensures IsDigit(c)
  {
    (d + '0' as int) as char
  }

  /** The decimal numeral of a natural number, as `${n}` prints it: no sign, no leading zero. */
  function NatToString(n: nat): (r: string)
    ensures r != [] && IsDigit(r[0])
    ensures r[0] == '0' ==> n == 0
  {
    if n < 10 then [DigitChar(n)] else NatToString(n / 10) + [DigitChar(n % 10)]
  }

  /** `${n}` for an integer: a '-' before the magnitude of a negative number. */
  function IntToString(n: int): (r: string)
    ensures r != [] && (IsDigit(r[0]) || r[0] == '-')
    ensures r[0] == '-' <==> n < 0
  {
    if n < 0 then "-" + NatToString(-n) else NatToString(n)
  }

  /** A printed integer holds digits and at most a leading '-': no blank, '+', 'x' or ','. */
  lemma IntToStringChars(n: int)
    ensures var r := IntToString(n);
      (forall i :: 0 < i < |r| ==> IsDigit(r[i]))
      && NoSpace(r) && '+' !in r && 'x' !in r && ',' !in r && (n >= 0 ==> '-' !in r)
  {
    var r := IntToString(n);
    NatToStringRoundTrip(if n < 0 then -n else n);
    assert forall i :: 0 <= i < |r| ==> IsDigit(r[i]) || r[i] == '-' by {
      if n < 0 {
        assert forall i :: 0 < i < |r| ==> r[i] == NatToString(-n)[i - 1];
      }
    }
  }

  // ---------------------------------------------------------------------------
  // Reading integers
  // ---------------------------------------------------------------------------

  /** The value of a digit character in base 10 or 16 (`None` when it is not a digit there). */
  function DigitValue(c: char, hex: bool): Option<nat> {
    if IsDigit(c) then Some(c as int - '0' as int)
    else if hex && 'a' <= c <= 'f' then Some(c as int - 'a' as int + 10)
    else if hex && 'A' <= c <= 'F' then Some(c as int - 'A' as int + 10)
    else None
  }

  /** The longest prefix of `s` made of digits of the base. */
  function DigitPrefix(s: string, hex: bool): (r: string)
    ensures |r| <= |s| && r == s[..|r|]
    ensures forall i :: 0 <= i < |r| ==> DigitValue(r[i], hex).Some?
    ensures |r| < |s| ==> DigitValue(s[|r|], hex).None?
  {
    if s != [] && DigitValue(s[0], hex).Some? then [s[0]] + DigitPrefix(s[1..], hex) else []
  }

  /** The value of a string of digits in base 10 or 16, most significant first. */
  function DigitsValue(s: string, hex: bool): nat
    requires forall i :: 0 <= i < |s| ==> DigitValue(s[i], hex).Some?
  {
    if s == [] then 0
    else
      var d := DigitValue(s[|s| - 1], hex).value;
      if hex then 16 * DigitsValue(s[..|s| - 1], hex) + d else 10 * DigitsValue(s[..|s| - 1], hex) + d
  }

  /** A numeral is made of digits, and reading it back gives the number it renders. */
  lemma {:induction false} NatToStringRoundTrip(n: nat)
    ensures AllDigits(NatToString(n)) && DigitsValue(NatToString(n), false) == n
  {
    if n >= 10 {
      NatToStringRoundTrip(n / 10);
      var s := NatToString(n);
      assert s[..|s| - 1] == NatToString(n / 10);
    }
  }

  /**
   * `parseInt(s)` (`hex == true`, no radix: a "0x" prefix selects base 16) or
   * `parseInt(s, 10)` (`hex == false`): skip leading whitespace, then read the rest.
   * `None` is NaN: no digit where one was needed.
   */
  function ParseInt(s: string, hex: bool): Option<int> {
    ParseSigned(TrimStart(s), hex)
  }

  /** `parseInt` once past the leading whitespace: an optional sign, then the longest run of digits. */
  function ParseSigned(t: string, hex: bool): Option<int> {
    var neg := t != [] && t[0] == '-';
    var u := if t != [] && (t[0] == '-' || t[0] == '+') then t[1..] else t;
    var isHex := hex && |u| >= 2 && u[0] == '0' && (u[1] == 'x' || u[1] == 'X');
    var body := if isHex then u[2..] else u;
    var z := DigitPrefix(body, isHex);
    if z == [] then None
    else
      var v: int := DigitsValue(z, isHex);
      Some(if neg then -v else v)
  }

  /** A number is read only where the text holds a digit. */
  lemma ParseIntNeedsDigit(s: string, hex: bool)
    ensures ParseInt(s, hex).Some? ==> exists i :: 0 <= i < |s| && IsDigit(s[i])
  {
    var t := TrimStart(s);
    TrimStartSuffix(s);
    if ParseSigned(t, hex).Some? {
      var neg := t != [] && t[0] == '-';
      var u := if t != [] && (t[0] == '-' || t[0] == '+') then t[1..] else t;
      var isHex := hex && |u| >= 2 && u[0] == '0' && (u[1] == 'x' || u[1] == 'X');
      var body := if isHex then u[2..] else u;
      var z := DigitPrefix(body, isHex);
      assert z != [];
      var k := |s| - |u|;
      if isHex {
        assert s[k] == u[0] && IsDigit(s[k]);
      } else {
        assert s[k] == z[0] && IsDigit(z[0]);
      }
    }
  }

  /** After `trim`, `parseInt` has no whitespace left to skip. */
  lemma ParseTrimmed(s: string, hex: bool)
    ensures ParseInt(Trim(s), hex) == ParseSigned(Trim(s), hex)
  {
    var t := Trim(s);
    assert TrimStart(t) == t;
  }

  /** `parseInt` reads back what `${n}` prints, with or without the radix argument. */
  lemma ParseIntRoundTrip(n: int, hex: bool)
    ensures ParseInt(IntToString(n), hex) == Some(n)
  {
    var s := IntToString(n);
    var m: nat := if n < 0 then -n else n;
    var digits := NatToString(m);
    assert TrimStart(s) == s by {
      assert !IsSpace(s[0]);
    }
    assert digits == if n < 0 then s[1..] else s;
    assert !(|digits| >= 2 && digits[0] == '0');
    NatToStringRoundTrip(m);
    DigitPrefixAll(digits);
  }

  lemma {:induction false} DigitPrefixAll(s: string)
    requires AllDigits(s)
    ensures DigitPrefix(s, false) == s
  {
    if s != [] {
      DigitPrefixAll(s[1..]);
    }
  }

  /**
   * `parseFloat(s)` on the strings the model admits: an optional '-' followed by decimal
   * digits. Every other string (a fraction, an exponent, trailing characters, a lone sign)
   * gives `None`, whether `parseFloat` would read NaN, a non-integer or a number prefix.
   */
  function ParseIntLiteral(s: string): (r: Option<int>)
    ensures r.Some? ==> s != [] && s != "-"
  {
    if s != [] && s[0] == '-' && |s| > 1 && AllDigits(s[1..]) then Some(0 - DigitsValue(s[1..], false))
    else if s != [] && AllDigits(s) then Some(DigitsValue(s, false))
    else None
  }

  lemma ParseIntLiteralRoundTrip(n: int)
    ensures ParseIntLiteral(IntToString(n)) == Some(n)
  {
    var s := IntToString(n);
    if n < 0 {
      assert s[1..] == NatToString(-n);
      NatToStringRoundTrip(-n);
    } else {
      NatToStringRoundTrip(n);
    }
  }

  // ---------------------------------------------------------------------------
  // Case
  // ---------------------------------------------------------------------------

  function LowerChar(c: char): char {
    if 'A' <= c <= 'Z' then (c as int - 'A' as int + 'a' as int) as char else c
  }

  /** `s.toLowerCase()` on the Latin letters A-Z; every other character is kept. */
  function ToLower(s: string): (r: string)
    ensures |r| == |s| && forall i :: 0 <= i < |s| ==> r[i] == LowerChar(s[i])
  {
    if s == [] then [] else [LowerChar(s[0])] + ToLower(s[1..])
  }

  /** No capital letter A-Z. */
  predicate NoUpper(s: string) {
    forall i :: 0 <= i < |s| ==> !('A' <= s[i] <= 'Z')
  }

  lemma ToLowerNoSpace(s: string)
    requires NoSpace(s)
    ensures NoSpace(ToLower(s))
  {
    var r := ToLower(s);
    forall i | 0 <= i < |r|
      ensures !IsSpace(r[i])
    {
      assert r[i] == LowerChar(s[i]) && !IsSpace(s[i]);
    }
  }

  lemma ToLowerNoUpper(s: string)
    requires NoUpper(s)
    ensures ToLower(s) == s
  {
  }

  lemma {:induction false} ToLowerAppend(a: string, b: string)
    ensures ToLower(a + b) == ToLower(a) + ToLower(b)
  {
    var r, q := ToLower(a + b), ToLower(a) + ToLower(b);
    forall i | 0 <= i < |r|
      ensures r[i] == q[i]
    {
      if i < |a| {
        assert (a + b)[i] == a[i];
      } else {
        assert (a + b)[i] == b[i - |a|];
      }
    }
    assert r == q;
  }

  lemma {:induction false} ToLowerIdempotent(s: string)
    ensures ToLower(ToLower(s)) == ToLower(s)
  {
    var r := ToLower(s);
    assert forall i :: 0 <= i < |r| ==> LowerChar(r[i]) == r[i];
  }

  /** Lower-casing keeps whitespace whitespace and everything else not whitespace. */
  lemma {:induction false} RemoveWhitespaceToLower(s: string)
    ensures RemoveWhitespace(ToLower(s)) == ToLower(RemoveWhitespace(s))
  {
    if s != [] {
      var t := ToLower(s);
      assert t == [LowerChar(s[0])] + ToLower(s[1..]);
      assert t[0] == LowerChar(s[0]) && t[1..] == ToLower(s[1..]);
      assert IsSpace(LowerChar(s[0])) <==> IsSpace(s[0]);
      RemoveWhitespaceToLower(s[1..]);
      if !IsSpace(s[0]) {
        ToLowerAppend([s[0]], RemoveWhitespace(s[1..]));
      }
    }
  }

  /** Removing whitespace from a string of whitespace leaves nothing. */
  lemma {:induction false} AllSpaceRemoved(s: string)
    requires AllSpace(s)
    ensures RemoveWhitespace(s) == []
  {
    if s != [] {
      AllSpaceRemoved(s[1..]);
    }
  }

  /** Removing whitespace leaves something exactly when there was something besides whitespace. */
  lemma {:induction false} RemoveWhitespaceEmptyIff(s: string)
    ensures RemoveWhitespace(s) == [] <==> AllSpace(s)
  {
    if s != [] {
      RemoveWhitespaceEmptyIff(s[1..]);
      assert AllSpace(s) <==> IsSpace(s[0]) && AllSpace(s[1..]) by {
        if IsSpace(s[0]) && AllSpace(s[1..]) {
          assert forall i :: 1 <= i < |s| ==> s[i] == s[1..][i - 1];
        }
      }
    }
  }
}
