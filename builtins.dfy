/**
  The JavaScript built-ins that the trip-savings core relies on, written out as
  Dafny functions: `String.prototype.trim`, `Number(...)` on form text, the
  decimal rendering of an integer (`String(n)` and template literals),
  `toUpperCase` of a first letter, the truthiness test of `!x`, and the
  ordering of date-only strings.
*/
module Builtins {

  /** A value that may be null or undefined. */
  datatype Option<+T> = None | Some(value: T) {
    /** The `??` operator: the value, or the fallback when null or undefined. */
    function OrElse(fallback: T): T {
      match this
      case Some(v) => v
      case None => fallback
    }
  }

  // ---------------------------------------------------------------------------
  // String.prototype.trim
  // ---------------------------------------------------------------------------

  /** The WhiteSpace and LineTerminator code points of ECMA-262 (sections 12.2 and 12.3),
      which is the set `trim` removes: TAB, VT, FF, SP, NBSP, ZWNBSP, the Zs category, LF, CR,
      LINE SEPARATOR and PARAGRAPH SEPARATOR. */
  predicate IsWhiteSpace(c: char) {
    || c == '\t' || c == '\U{000B}' || c == '\U{000C}' || c == ' ' || c == '\U{00A0}' || c == '\U{FEFF}'
    || c == '\U{1680}' || ('\U{2000}' <= c <= '\U{200A}') || c == '\U{202F}' || c == '\U{205F}' || c == '\U{3000}'
    || c == '\n' || c == '\r' || c == '\U{2028}' || c == '\U{2029}'
  }

  predicate AllWhiteSpace(s: string) {
    forall i :: 0 <= i < |s| ==> IsWhiteSpace(s[i])
  }

  /** The string has no white space at either end (what `trim` returns). */
  predicate IsTrimmed(s: string) {
    s == [] || (!IsWhiteSpace(s[0]) && !IsWhiteSpace(s[|s| - 1]))
  }

  /** The index of the first character at or after `i` that is not white space (`|s|` when
      there is none). */
  function SkipLeading(s: string, i: nat): (r: nat)
    requires i <= |s|
    ensures i <= r <= |s|
    ensures forall k :: i <= k < r ==> IsWhiteSpace(s[k])
    ensures r < |s| ==> !IsWhiteSpace(s[r])
    decreases |s| - i
  {
    if i < |s| && IsWhiteSpace(s[i]) then SkipLeading(s, i + 1) else i
  }

  /** The index just after the last character of `s[lo..j]` that is not white space (`lo`
      when there is none). */
  function SkipTrailing(s: string, lo: nat, j: nat): (r: nat)
    requires lo <= j <= |s|
    ensures lo <= r <= j
    ensures forall k :: r <= k < j ==> IsWhiteSpace(s[k])
    ensures lo < r ==> !IsWhiteSpace(s[r - 1])
    decreases j
  {
    if lo < j && IsWhiteSpace(s[j - 1]) then SkipTrailing(s, lo, j - 1) else j
  }

  /** `s.trim()`: `s` with the white space at both ends removed. */
  function Trim(s: string): (r: string)
    ensures |r| <= |s| && IsTrimmed(r)
  {
    var start := SkipLeading(s, 0);
    s[start..SkipTrailing(s, start, |s|)]
  }

  /** What `trim` promises: the result is the middle of `s` between two runs of white space,
      and it neither starts nor ends with white space. */
  lemma TrimSpec(s: string)
    ensures IsTrimmed(Trim(s))
    ensures exists i :: 0 <= i <= |s| - |Trim(s)|
                 && s[i..i + |Trim(s)|] == Trim(s)
                 && AllWhiteSpace(s[..i]) && AllWhiteSpace(s[i + |Trim(s)|..])
  {
    var i := SkipLeading(s, 0);
    var j := SkipTrailing(s, i, |s|);
    assert Trim(s) == s[i..j];
    assert AllWhiteSpace(s[..i]);
    assert AllWhiteSpace(s[j..]);
  }

  /** `!s.trim()` holds exactly when `s` is nothing but white space. */
  lemma {:induction false} TrimEmptyIff(s: string)
    ensures Trim(s) == [] <==> AllWhiteSpace(s)
  {
  }

  /** Trimming twice is trimming once. */
  lemma TrimIdempotent(s: string)
    ensures Trim(Trim(s)) == Trim(s)
  {
    TrimSpec(s);
    TrimOfTrimmed(Trim(s));
  }

  /** A string without white space at either end is its own trim. */
  lemma TrimOfTrimmed(s: string)
    requires IsTrimmed(s)
    ensures Trim(s) == s
  {
    assert SkipLeading(s, 0) == 0;
    assert SkipTrailing(s, 0, |s|) == |s|;
  }

  // ---------------------------------------------------------------------------
  // Decimal text: String(n) and Number(text)
  // ---------------------------------------------------------------------------

  predicate IsDigit(c: char) {
    '0' <= c <= '9'
  }

  predicate AllDigits(s: string) {
    forall i :: 0 <= i < |s| ==> IsDigit(s[i])
  }

  function DigitChar(d: nat): (c: char)
    requires d < 10
    ensures IsDigit(c) && (c as int) - ('0' as int) == d
  {
    ('0' as int + d) as char
  }

  function DigitValue(c: char): (d: nat)
    requires IsDigit(c)
    ensures d < 10
  {
    (c as int) - ('0' as int)
  }

  /** The value of a run of decimal digits, most significant first. */
  function DigitsValue(s: string): nat
    requires AllDigits(s)
  {
    if s == [] then 0 else DigitsValue(s[..|s| - 1]) * 10 + DigitValue(s[|s| - 1])
  }

  /** `String(n)` for a non-negative integer: its decimal digits, no leading zero. */
  function NatToDecimal(n: nat): (r: string)
    ensures r != [] && AllDigits(r)
    ensures r[0] == '0' ==> r == "0"
  {
    if n < 10 then [DigitChar(n)] else NatToDecimal(n / 10) + [DigitChar(n % 10)]
  }

  /** `String(i)` for an integer: a minus sign in front of the digits of a negative value. */
  function IntToDecimal(i: int): (r: string)
    ensures r != [] && !IsWhiteSpace(r[0]) && !IsWhiteSpace(r[|r| - 1])
    ensures i >= 0 <==> AllDigits(r)
  {
    if i < 0 then "-" + NatToDecimal(-i) else NatToDecimal(i)
  }

  lemma {:induction false} NatToDecimalRoundTrip(n: nat)
    ensures DigitsValue(NatToDecimal(n)) == n
  {
    if n >= 10 {
      var r := NatToDecimal(n);
      NatToDecimalRoundTrip(n / 10);
      assert r[..|r| - 1] == NatToDecimal(n / 10);
    }
  }

  /** A JavaScript number as the modelled core produces it: a finite integer, or NaN. */
  datatype JsNumber = Finite(value: int) | NaN

  /** `Number(text)` on the texts a number input yields for whole amounts: surrounding white
      space is ignored, the empty text is 0, and an optional sign followed by decimal digits is
      that integer. Any other text is NaN here. */
  function TextToNumber(text: string): (r: JsNumber)
    ensures AllWhiteSpace(text) ==> r == Finite(0)
  {
    TrimEmptyIff(text);
    SignedDecimal(Trim(text))
  }

  /** The number a trimmed text denotes. */
  function SignedDecimal(t: string): JsNumber {
    if t == [] then Finite(0)
    else if AllDigits(t) then Finite(DigitsValue(t))
    else if (t[0] == '-' || t[0] == '+') && |t| > 1 && AllDigits(t[1..]) then
      Finite(if t[0] == '-' then -(DigitsValue(t[1..]) as int) else DigitsValue(t[1..]))
    else NaN
  }

  /** Reading back the decimal text of an integer gives the integer. */
  lemma DecimalRoundTrip(i: int)
    ensures TextToNumber(IntToDecimal(i)) == Finite(i)
  {
    if i < 0 {
      NatToDecimalRoundTrip(-i);
      NegativeTextToNumber(NatToDecimal(-i));
    } else {
      TrimOfTrimmed(IntToDecimal(i));
      NatToDecimalRoundTrip(i);
    }
  }

  lemma NegativeTextToNumber(d: string)
    requires d != [] && AllDigits(d)
    ensures TextToNumber("-" + d) == Finite(-(DigitsValue(d) as int))
  {
    assert IsTrimmed("-" + d);
    TrimOfTrimmed("-" + d);
    NegativeDecimal(d);
  }

  lemma NegativeDecimal(d: string)
    requires d != [] && AllDigits(d)
    ensures SignedDecimal("-" + d) == Finite(-(DigitsValue(d) as int))
  {
    var r := "-" + d;
    assert r[1..] == d && r[0] == '-';
    assert !IsDigit(r[0]);
  }

  // ---------------------------------------------------------------------------
  // Dynamic form values: truthiness and Number(...)
  // ---------------------------------------------------------------------------

  /** What an amount field of a form holds: the text typed into a number input, or the number
      loaded from a stored record when editing it. */
  datatype FieldValue = Text(text: string) | Num(n: int)

  /** JavaScript truthiness: the empty text and the number 0 are falsy. */
  predicate Truthy(v: FieldValue)
    ensures !Truthy(v) <==> v == Text("") || v == Num(0)
  {
    match v
    case Text(t) => t != []
    case Num(n) => n != 0
  }

  /** `Number(v)`. */
  function ToNumber(v: FieldValue): (r: JsNumber)
    ensures v == Text("") || v == Num(0) ==> r == Finite(0)
    ensures v.Num? ==> r.Finite? && r.value == v.n
  {
    match v
    case Text(t) => TextToNumber(t)
    case Num(n) => Finite(n)
  }

  /** A falsy value is one whose number is 0, so `!x || Number(x) <= 0` rejects it either way. */
  lemma FalsyIsZero(v: FieldValue)
    requires !Truthy(v)
    ensures ToNumber(v) == Finite(0)
  {
    if v.Text? {
      TrimOfTrimmed(v.text);
    }
  }

  // ---------------------------------------------------------------------------
  // toUpperCase of a first letter
  // ---------------------------------------------------------------------------

  /** `c.toUpperCase()` for Basic Latin and Latin-1 letters (which covers Spanish names); other
      characters are returned unchanged. German sharp s upper-cases to two letters. */
  function UpperCase(c: char): (r: string)
    ensures |r| >= 1
    ensures 'a' <= c <= 'z' ==> r == [(c as int - 32) as char]
    ensures 'A' <= c <= 'Z' ==> r == [c]
  {
    if 'a' <= c <= 'z' then [(c as int - 32) as char]
    else if '\U{00E0}' <= c <= '\U{00FE}' && c != '\U{00F7}' then [(c as int - 32) as char]
    else if c == '\U{00FF}' then ['\U{0178}']
    else if c == '\U{00DF}' then "SS"
    else if c == '\U{00B5}' then ['\U{039C}']
    else [c]
  }

  /** Upper-casing is idempotent: every character of an upper-cased letter is already upper case. */
  lemma UpperCaseIdempotent(c: char)
    ensures forall k :: 0 <= k < |UpperCase(c)| ==> UpperCase(UpperCase(c)[k]) == [UpperCase(c)[k]]
  {
  }

  /** `name.charAt(0).toUpperCase()`: empty for an empty name, otherwise the first letter in
      upper case. */
  function Initial(name: string): (r: string)
    ensures r == [] <==> name == []
    ensures name != [] ==> r == UpperCase(name[0])
    ensures forall k :: 0 <= k < |r| ==> UpperCase(r[k]) == [r[k]]
  {
    if name == [] then "" else UpperCase(name[0])
  }

  // ---------------------------------------------------------------------------
  // Lexicographic order of strings
  // ---------------------------------------------------------------------------

  /** Lexicographic `a < b`, character by character; a proper prefix comes first. */
  predicate StringLess(a: string, b: string) {
    if a == [] then b != []
    else if b == [] then false
    else if a[0] != b[0] then a[0] < b[0]
    else StringLess(a[1..], b[1..])
  }

  lemma {:induction false} StringLessIrreflexive(a: string)
    ensures !StringLess(a, a)
  {
    if a != [] {
      StringLessIrreflexive(a[1..]);
    }
  }

  lemma {:induction false} StringLessTransitive(a: string, b: string, c: string)
    requires StringLess(a, b) && StringLess(b, c)
    ensures StringLess(a, c)
  {
    if a != [] && b != [] && c != [] && a[0] == b[0] && b[0] == c[0] {
      StringLessTransitive(a[1..], b[1..], c[1..]);
    }
  }

  lemma {:induction false} StringLessConnected(a: string, b: string)
    requires a != b
    ensures StringLess(a, b) || StringLess(b, a)
  {
    if a != [] && b != [] && a[0] == b[0] {
      assert a == [a[0]] + a[1..] && b == [b[0]] + b[1..];
      StringLessConnected(a[1..], b[1..]);
    }
  }
}
