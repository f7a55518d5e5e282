/**
 * Python's `int(float(x))` applied to a string `x`: the literal grammar that
 * `float()` accepts, the exact value of an accepted literal, and `int()`'s
 * truncation toward zero with its two errors.
 *
 * `float()` accepts, after removing whitespace from both ends,
 *   [sign] ( "inf" | "infinity" | "nan" )            (letters in any case)
 *   [sign] number [exponent]
 * where number is `digitpart "." [digitpart]`, `"." digitpart` or
 * `digitpart`, exponent is `("e" | "E") [sign] digitpart`, and a digitpart is
 * a run of digits in which single underscores may stand between two digits.
 */
module PyFloat {
  import opened Wrappers
  import PyStr

  /** The exceptions `int(float(x))` raises. */
  datatype ErrorKind =
    | ValueError     // `x` is not a float literal, or it is a NaN
    | OverflowError  // `x` is an infinity

  /** The digits of a number without its exponent: their value and how many follow the point. */
  datatype Mantissa = Mantissa(digits: nat, fractionDigits: nat)

  /** An unsigned finite number, standing for mantissa * 10^scale. */
  datatype Unsigned = Unsigned(mantissa: nat, scale: int)

  /** An accepted literal. A finite one stands for (-1)^negative * mantissa * 10^scale. */
  datatype Literal =
    | Finite(negative: bool, mantissa: nat, scale: int)
    | Infinity(negative: bool)
    | NaN

  /**
   * The characters `float()` strips from both ends: the six ASCII spaces
   * (tab, line feed, vertical tab, form feed, carriage return, space) and the
   * characters above U+007F that Python's `str.isspace` accepts.
   */
  predicate IsSpace(c: char)
  {
    || '\t' <= c <= '\r' || c == ' '
    || c == '\U{85}' || c == '\U{a0}' || c == '\U{1680}'
    || '\U{2000}' <= c <= '\U{200a}'
    || c == '\U{2028}' || c == '\U{2029}' || c == '\U{202f}' || c == '\U{205f}' || c == '\U{3000}'
  }

  const Whitespace: set<char> := set c: char | IsSpace(c)

  predicate IsDigit(c: char)
  {
    '0' <= c <= '9'
  }

  predicate AllDigits(t: string)
  {
    forall k :: 0 <= k < |t| ==> IsDigit(t[k])
  }

  /** A digitpart, `digit (["_"] digit)*`: digits, with single underscores between two of them. */
  predicate IsDigitPart(t: string)
  {
    && |t| > 0 && IsDigit(t[0])
    && (|t| == 1 || IsDigitPart(if t[1] == '_' then t[2..] else t[1..]))
  }

  /** A digitpart holds digits and underscores only. */
  lemma {:induction false} DigitPartChars(t: string)
    requires IsDigitPart(t)
    ensures forall k :: 0 <= k < |t| ==> IsDigit(t[k]) || t[k] == '_'
  {
    if |t| > 1 {
      var rest := if t[1] == '_' then t[2..] else t[1..];
      DigitPartChars(rest);
      forall k | 0 < k < |t| ensures IsDigit(t[k]) || t[k] == '_' {
        if t[1] == '_' {
          if k > 1 { assert t[k] == rest[k - 2]; }
        } else {
          assert t[k] == rest[k - 1];
        }
      }
    }
  }

  /** A non-empty run of digits is a digitpart without underscores. */
  lemma {:induction false} DigitsArePart(d: string)
    requires |d| > 0 && AllDigits(d)
    ensures IsDigitPart(d)
  {
    if |d| > 1 {
      assert AllDigits(d[1..]) by {
        forall k | 0 <= k < |d| - 1 ensures IsDigit(d[1..][k]) {
          assert d[1..][k] == d[k + 1];
        }
      }
      DigitsArePart(d[1..]);
    }
  }

  /** The digits of a digitpart once its underscores are dropped. */
  function RemoveUnderscores(t: string): (d: string)
    ensures |d| <= |t|
    ensures '_' !in t ==> d == t
    ensures (forall k :: 0 <= k < |t| ==> IsDigit(t[k]) || t[k] == '_') ==> AllDigits(d)
  {
    if |t| == 0 then []
    else (if t[0] == '_' then [] else [t[0]]) + RemoveUnderscores(t[1..])
  }

  function Pow10(n: nat): (p: nat)
    ensures p >= 1
  {
    if n == 0 then 1 else 10 * Pow10(n - 1)
  }

  function DigitValue(c: char): nat
    requires IsDigit(c)
  {
    c as int - '0' as int
  }

  /** The number a string of decimal digits denotes; it has fewer digits than 10^|d| has. */
  function DecimalValue(d: string): (v: nat)
    requires AllDigits(d)
    ensures v < Pow10(|d|)
  {
    if |d| == 0 then 0
    else 10 * DecimalValue(d[..|d| - 1]) + DigitValue(d[|d| - 1])
  }

  lemma AllDigitsAppend(a: string, b: string)
    requires AllDigits(a) && AllDigits(b)
    ensures AllDigits(a + b)
  {
    forall k | 0 <= k < |a + b| ensures IsDigit((a + b)[k]) {
      if k >= |a| { assert (a + b)[k] == b[k - |a|]; }
    }
  }

  lemma ShiftArithmetic(va: nat, p: nat, vb: nat, c: nat)
    ensures 10 * (va * p + vb) + c == va * (10 * p) + (10 * vb + c)
  {}

  /** Digits written after others shift those by one decimal place each. */
  lemma {:induction false} DecimalValueAppend(a: string, b: string)
    requires AllDigits(a) && AllDigits(b)
    ensures AllDigits(a + b)
    ensures DecimalValue(a + b) == DecimalValue(a) * Pow10(|b|) + DecimalValue(b)
  {
    AllDigitsAppend(a, b);
    if |b| == 0 {
      assert a + b == a;
    } else {
      var b' := b[..|b| - 1];
      var c := b[|b| - 1];
      assert (a + b)[..|a + b| - 1] == a + b';
      assert (a + b)[|a + b| - 1] == c;
      DecimalValueAppend(a, b');
      ShiftArithmetic(DecimalValue(a), Pow10(|b'|), DecimalValue(b'), DigitValue(c));
    }
  }

  /** Dropping the underscores of a digitpart leaves only digits. */
  lemma DigitPartDigits(t: string)
    requires IsDigitPart(t)
    ensures AllDigits(RemoveUnderscores(t))
  {
  }

  /** Index of the first character of `s` in `cs`, or |s| when there is none. */
  function FirstIndexIn(s: string, cs: set<char>): (i: nat)
    ensures i <= |s|
    ensures i < |s| ==> s[i] in cs
    ensures forall k :: 0 <= k < i ==> s[k] !in cs
  {
    if |s| == 0 || s[0] in cs then 0 else 1 + FirstIndexIn(s[1..], cs)
  }

  /** ASCII lower-casing, as Python uses to match "inf", "infinity" and "nan". */
  function LowerChar(c: char): char
  {
    if 'A' <= c <= 'Z' then (c as int + 32) as char else c
  }

  /** `body` is `word` once lower-cased: Python matches "inf", "infinity" and "nan" in any case. */
  predicate Spells(body: string, word: string)
  {
    |body| == |word| && forall k :: 0 <= k < |word| ==> LowerChar(body[k]) == word[k]
  }

  /** The exponent after the `e`: an optional sign and a digitpart. */
  function ParseExponent(t: string): Option<int>
  {
    var signed := |t| > 0 && (t[0] == '+' || t[0] == '-');
    var digits := if signed then t[1..] else t;
    if IsDigitPart(digits) then
      DigitPartDigits(digits);
      var v: int := DecimalValue(RemoveUnderscores(digits));
      Some(if signed && t[0] == '-' then -v else v)
    else None
  }

  /** The digits `int "." frac` may have on each side of the point. */
  predicate NumberShape(hasPoint: bool, intPart: string, fracPart: string)
  {
    if !hasPoint then IsDigitPart(intPart)
    else
      && (intPart != [] || fracPart != [])
      && (intPart == [] || IsDigitPart(intPart))
      && (fracPart == [] || IsDigitPart(fracPart))
  }

  /** The digits of an optional digitpart (none when it is absent). */
  function OptionalDigits(t: string): (d: string)
    requires t == [] || IsDigitPart(t)
    ensures AllDigits(d)
  {
    if t == [] then [] else DigitPartDigits(t); RemoveUnderscores(t)
  }

  /**
   * The part of an unsigned literal before any exponent.
   */
  function ParseMantissa(number: string): Option<Mantissa>
  {
    var dot := FirstIndexIn(number, {'.'});
    var intPart := number[..dot];
    var fracPart := if dot < |number| then number[dot + 1..] else [];
    if !NumberShape(dot < |number|, intPart, fracPart) then None
    else
      var intDigits, fracDigits := OptionalDigits(intPart), OptionalDigits(fracPart);
      AllDigitsAppend(intDigits, fracDigits);
      Some(Mantissa(DecimalValue(intDigits + fracDigits), |fracDigits|))
  }

  /** The exponent of a number whose mantissa ends at `e`: 0 when nothing follows. */
  function ExponentAfter(body: string, e: nat): Option<int>
    requires e <= |body|
  {
    if e == |body| then Some(0) else ParseExponent(body[e + 1..])
  }

  /**
   * An unsigned finite literal `number [exponent]`.
   */
  function ParseNumber(body: string): Option<Unsigned>
  {
    var e := FirstIndexIn(body, {'e', 'E'});
    var exponent := ExponentAfter(body, e);
    var mantissa := ParseMantissa(body[..e]);
    if mantissa.None? || exponent.None? then None
    else
      Some(Unsigned(mantissa.value.digits, exponent.value - mantissa.value.fractionDigits))
  }

  /** A literal without its sign: one of the special words, or a number. */
  function ParseUnsigned(negative: bool, body: string): Option<Literal>
  {
    if Spells(body, "inf") || Spells(body, "infinity") then Some(Infinity(negative))
    else if Spells(body, "nan") then Some(NaN)
    else
      match ParseNumber(body)
      case None => None
      case Some(u) => Some(Finite(negative, u.mantissa, u.scale))
  }

  /** A literal with its optional leading sign. */
  function ParseSigned(t: string): Option<Literal>
  {
    var signed := |t| > 0 && (t[0] == '+' || t[0] == '-');
    ParseUnsigned(signed && t[0] == '-', if signed then t[1..] else t)
  }

  /** Python's `float(s)`, as the literal it accepts; None where it raises ValueError. */
  function ParseFloat(s: string): Option<Literal>
  {
    ParseSigned(PyStr.StripChars(s, Whitespace))
  }

  /** 10^scale as a real, for negative scales too. */
  function Pow10Real(scale: int): real
  {
    if scale >= 0 then Pow10(scale) as real else 1.0 / Pow10(-scale) as real
  }

  /** The exact value of a finite literal. */
  function Value(lit: Literal): real
    requires lit.Finite?
  {
    (if lit.negative then -1.0 else 1.0) * lit.mantissa as real * Pow10Real(lit.scale)
  }

  /** `n` is `v` truncated toward zero: the integer part of `v`, not its rounding. */
  predicate TowardZero(n: int, v: real)
  {
    && (0.0 <= v ==> n as real <= v < n as real + 1.0)
    && (v <= 0.0 ==> n as real - 1.0 < v <= n as real)
  }

  lemma MulStrictlyMonotonic(a: real, b: real, c: real)
    requires a < b && c > 0.0
    ensures a * c < b * c
  {}

  /** Integer division of naturals is the real quotient rounded down. */
  lemma DivisionBounds(m: nat, d: nat)
    requires d > 0
    ensures (m / d) as real <= m as real / d as real < (m / d) as real + 1.0
  {
    var q, rem := m / d, m % d;
    var x := m as real / d as real;
    var qr, dr := q as real, d as real;
    assert m as real == qr * dr + rem as real;
    assert x * dr == m as real;
    if x < qr {
      MulStrictlyMonotonic(x, qr, dr);
      assert false;
    }
    if qr + 1.0 <= x {
      if qr + 1.0 < x { MulStrictlyMonotonic(qr + 1.0, x, dr); }
      assert false;
    }
  }

  /**
   * Python's `int()` on a float: a finite value truncated toward zero,
   * OverflowError for an infinity, ValueError for a NaN.
   */
  function ToInt(lit: Literal): (r: Result<int, ErrorKind>)
    ensures r.Ok? <==> lit.Finite?
    ensures lit.Infinity? ==> r == Err(OverflowError)
    ensures lit.NaN? ==> r == Err(ValueError)
  {
    match lit
    case Infinity(_) => Err(OverflowError)
    case NaN => Err(ValueError)
    case Finite(negative, m, scale) => Ok(Truncate(negative, m, scale))
  }

  /** `int()` of a finite float is its value truncated toward zero. */
  lemma ToIntTowardZero(lit: Literal)
    requires lit.Finite?
    ensures ToInt(lit).Ok? && TowardZero(ToInt(lit).value, Value(lit))
  {
    TruncateTowardZero(lit.negative, lit.mantissa, lit.scale);
  }

  /** The integer part of (-1)^negative * m * 10^scale, computed on integers. */
  function Truncate(negative: bool, m: nat, scale: int): int
  {
    var magnitude: int := if scale >= 0 then m * Pow10(scale) else m / Pow10(-scale);
    if negative then -magnitude else magnitude
  }

  lemma TruncateTowardZero(negative: bool, m: nat, scale: int)
    ensures TowardZero(Truncate(negative, m, scale), Value(Finite(negative, m, scale)))
  {
    if scale >= 0 {
      WholeValue(negative, m, scale);
    } else {
      FractionalValue(negative, m, -scale);
    }
  }

  /** With a scale of zero or more the value is a whole number. */
  lemma WholeValue(negative: bool, m: nat, scale: nat)
    ensures Value(Finite(negative, m, scale)) == Truncate(negative, m, scale) as real
  {
  }

  /** With a negative scale the value lies between the quotient and the next integer away from zero. */
  lemma FractionalValue(negative: bool, m: nat, k: nat)
    requires k > 0
    ensures TowardZero(Truncate(negative, m, -(k as int)), Value(Finite(negative, m, -(k as int))))
  {
    var d := Pow10(k);
    DivisionBounds(m, d);
    var x := m as real / d as real;
    assert Pow10Real(-(k as int)) == 1.0 / d as real;
    assert m as real * (1.0 / d as real) == x;
    assert Value(Finite(negative, m, -(k as int))) == (if negative then -x else x);
    assert Truncate(negative, m, -(k as int)) == if negative then -((m / d) as int) else m / d;
  }

  /** `int(float(s))`: ValueError when `s` is not a literal, otherwise what `int()` makes of it. */
  function IntOfFloat(s: string): Result<int, ErrorKind>
  {
    match ParseFloat(s)
    case None => Err(ValueError)
    case Some(lit) => ToInt(lit)
  }

  /** A success of `int(float(s))` is the exact value of the literal `s`, truncated toward zero. */
  lemma IntOfFloatTowardZero(s: string)
    requires IntOfFloat(s).Ok?
    ensures ParseFloat(s).Some? && ParseFloat(s).value.Finite?
    ensures TowardZero(IntOfFloat(s).value, Value(ParseFloat(s).value))
  {
    ToIntTowardZero(ParseFloat(s).value);
  }

  /** A letter is not whitespace. */
  lemma SpelledLetters(body: string, word: string, k: nat)
    requires Spells(body, word) && k < |body|
    requires forall j :: 0 <= j < |word| ==> 'a' <= word[j] <= 'z'
    ensures !IsSpace(body[k]) && body[k] != '+' && body[k] != '-'
  {
    assert 'a' <= LowerChar(body[k]) <= 'z';
    LowerLetter(body[k]);
  }

  /** The words of the special values are spelled in lower-case letters. */
  lemma SpecialWordLetters(word: string)
    requires word == "inf" || word == "infinity" || word == "nan"
    ensures |word| > 0 && forall j :: 0 <= j < |word| ==> 'a' <= word[j] <= 'z'
  {}

  /** A special word matches exactly one of the three spellings `float()` checks. */
  lemma UnsignedSpecial(negative: bool, body: string, word: string)
    requires word == "inf" || word == "infinity" || word == "nan"
    requires Spells(body, word)
    ensures ParseUnsigned(negative, body) == if word == "nan" then Some(NaN) else Some(Infinity(negative))
  {
    if word == "nan" {
      assert LowerChar(body[0]) == 'n';
      assert !Spells(body, "inf") && !Spells(body, "infinity");
    }
  }

  /** A sign in front of a word that starts with a letter is read as the sign. */
  lemma SignedWord(sign: string, body: string)
    requires sign == "" || sign == "+" || sign == "-"
    requires |body| > 0 && body[0] != '+' && body[0] != '-'
    ensures ParseSigned(sign + body) == ParseUnsigned(sign == "-", body)
  {
    if sign == "" {
      assert sign + body == body;
    } else {
      assert (sign + body)[1..] == body;
    }
  }

  /**
   * "inf", "infinity" and "nan", in any case, after an optional sign and
   * surrounded by whitespace: `int(float(...))` raises OverflowError on the
   * infinities and ValueError on the NaN.
   */
  lemma IntOfSpecial(w1: string, sign: string, body: string, word: string, w2: string)
    requires sign == "" || sign == "+" || sign == "-"
    requires word == "inf" || word == "infinity" || word == "nan"
    requires Spells(body, word)
    requires PyStr.AllIn(w1, Whitespace) && PyStr.AllIn(w2, Whitespace)
    ensures IntOfFloat(w1 + (sign + body) + w2) == if word == "nan" then Err(ValueError) else Err(OverflowError)
  {
    SpecialTrimmed(sign, body, word);
    PyStr.StripCharsUnique(w1 + (sign + body) + w2, Whitespace, w1, sign + body, w2);
    SignedWord(sign, body);
    UnsignedSpecial(sign == "-", body, word);
  }

  /** A signed special word neither starts nor ends with whitespace. */
  lemma SpecialTrimmed(sign: string, body: string, word: string)
    requires sign == "" || sign == "+" || sign == "-"
    requires word == "inf" || word == "infinity" || word == "nan"
    requires Spells(body, word)
    ensures |body| > 0 && body[0] != '+' && body[0] != '-'
    ensures PyStr.Trimmed(sign + body, Whitespace)
  {
    var t := sign + body;
    SpecialWordLetters(word);
    SpelledLetters(body, word, 0);
    SpelledLetters(body, word, |body| - 1);
    assert t[|t| - 1] == body[|body| - 1];
    assert t[0] == (if sign == "" then body[0] else sign[0]);
  }

  function DigitChar(d: nat): char
    requires d < 10
  {
    ('0' as int + d) as char
  }

  /** Python's `str(n)` for a natural number; its digits denote `n` again. */
  function ShowNat(n: nat): (t: string)
    ensures |t| > 0 && AllDigits(t)
    ensures DecimalValue(t) == n
    ensures t[0] == '0' <==> n == 0
    ensures |t| > 1 ==> t[0] != '0'
  {
    if n < 10 then [DigitChar(n)]
    else
      var t := ShowNat(n / 10) + [DigitChar(n % 10)];
      assert t[..|t| - 1] == ShowNat(n / 10);
      t
  }

  /** Python's `str(n)` for an integer. */
  function ShowInt(n: int): string
  {
    if n < 0 then "-" + ShowNat(-n) else ShowNat(n)
  }

  lemma MulMonotonic(x: int, y: int, c: nat)
    requires x <= y
    ensures x * c <= y * c
  {}

  lemma QuotientOfShift(a: nat, p: nat, b: nat)
    requires 0 <= b < p
    ensures (a * p + b) / p == a
  {
    var q := (a * p + b) / p;
    var r := (a * p + b) % p;
    assert q * p + r == a * p + b;
    if q < a {
      MulMonotonic(q + 1, a, p);
      assert false;
    }
    if q > a {
      MulMonotonic(a + 1, q, p);
      assert false;
    }
  }

  /** The position of the first character of `cs` when it is known. */
  lemma FirstIndexAt(s: string, cs: set<char>, i: nat)
    requires i <= |s|
    requires forall k :: 0 <= k < i ==> s[k] !in cs
    requires i < |s| ==> s[i] in cs
    ensures FirstIndexIn(s, cs) == i
  {}

  /** Python's `str(n)`, followed by `"." + frac` when `point` holds. */
  function Rendering(n: int, point: bool, frac: string): string
  {
    ShowInt(n) + (if point then "." + frac else "")
  }

  /** The text `digits` or `digits "." frac` for a run of plain digits. */
  function Rendered(digits: string, point: bool, frac: string): string
  {
    digits + (if point then "." + frac else "")
  }

  lemma {:induction false} MantissaOfRendered(digits: string, point: bool, frac: string)
    requires |digits| > 0 && AllDigits(digits) && AllDigits(frac) && (!point ==> frac == [])
    ensures AllDigits(digits + frac)
    ensures ParseMantissa(Rendered(digits, point, frac)) == Some(Mantissa(DecimalValue(digits + frac), |frac|))
  {
    AllDigitsAppend(digits, frac);
    var number := Rendered(digits, point, frac);
    assert number[..|digits|] == digits;
    assert point ==> number[|digits|] == '.';
    FirstIndexAt(number, {'.'}, |digits|);
    assert point ==> number[|digits| + 1..] == frac;
    var fracPart := if point then frac else [];
    DigitsArePart(digits);
    if fracPart != [] {
      DigitsArePart(fracPart);
    }
    assert OptionalDigits(digits) == digits;
    assert OptionalDigits(fracPart) == frac;
  }

  lemma {:induction false} NumberOfRendered(digits: string, point: bool, frac: string)
    requires |digits| > 0 && AllDigits(digits) && AllDigits(frac) && (!point ==> frac == [])
    ensures AllDigits(digits + frac)
    ensures ParseNumber(Rendered(digits, point, frac)) == Some(Unsigned(DecimalValue(digits + frac), -(|frac| as int)))
  {
    var body := Rendered(digits, point, frac);
    assert forall k :: 0 <= k < |body| ==> body[k] !in {'e', 'E'} by {
      forall k | 0 <= k < |body| ensures body[k] !in {'e', 'E'} {
        if k < |digits| { assert body[k] == digits[k]; }
        else if k > |digits| { assert body[k] == frac[k - |digits| - 1]; }
      }
    }
    FirstIndexAt(body, {'e', 'E'}, |body|);
    NumberWithoutExponent(body);
    MantissaOfRendered(digits, point, frac);
    var u := ParseNumber(body);
    assert u.Some? && u.value.mantissa == DecimalValue(digits + frac);
    assert u.value.scale == -(|frac| as int);
    assert u.value == Unsigned(DecimalValue(digits + frac), -(|frac| as int));
  }

  /** Without an `e` or `E`, a number is its mantissa with scale minus the fraction length. */
  lemma NumberWithoutExponent(body: string)
    requires FirstIndexIn(body, {'e', 'E'}) == |body|
    ensures ParseMantissa(body).None? ==> ParseNumber(body).None?
    ensures ParseMantissa(body).Some? ==>
              && ParseNumber(body).Some?
              && ParseNumber(body).value.mantissa == ParseMantissa(body).value.digits
              && ParseNumber(body).value.scale == -(ParseMantissa(body).value.fractionDigits as int)
  {
    assert body[..|body|] == body;
  }

  /** An optional minus and a number starting with a digit is a finite literal. */
  lemma SignedNumber(negative: bool, body: string)
    requires |body| > 0 && IsDigit(body[0])
    requires ParseNumber(body).Some?
    ensures ParseSigned((if negative then "-" else "") + body)
         == Some(Finite(negative, ParseNumber(body).value.mantissa, ParseNumber(body).value.scale))
  {
    var t := (if negative then "-" else "") + body;
    if negative {
      assert t[0] == '-' && t[1..] == body;
    } else {
      assert t == body;
    }
    assert ParseSigned(t) == ParseUnsigned(negative, body);
    assert LowerChar(body[0]) == body[0];
    assert !Spells(body, "inf") && !Spells(body, "infinity") && !Spells(body, "nan") by {
      assert "inf"[0] == 'i' && "infinity"[0] == 'i' && "nan"[0] == 'n';
    }
  }

  /** An optional minus and a rendered number neither start nor end with whitespace. */
  lemma RenderedTrimmed(negative: bool, digits: string, point: bool, frac: string)
    requires |digits| > 0 && AllDigits(digits) && AllDigits(frac)
    ensures PyStr.Trimmed((if negative then "-" else "") + Rendered(digits, point, frac), Whitespace)
  {
    var body := Rendered(digits, point, frac);
    var m := (if negative then "-" else "") + body;
    assert m[0] == '-' || m[0] == digits[0];
    assert m[|m| - 1] == body[|body| - 1];
    assert body[|body| - 1] == '.' || IsDigit(body[|body| - 1]) by {
      if point && frac != [] {
        assert body[|body| - 1] == frac[|frac| - 1];
      } else if !point {
        assert body[|body| - 1] == digits[|digits| - 1];
      }
    }
  }

  /** Whitespace around a rendered number is what `float()` strips. */
  lemma StripRendered(negative: bool, digits: string, point: bool, frac: string, w1: string, w2: string)
    requires |digits| > 0 && AllDigits(digits) && AllDigits(frac)
    requires PyStr.AllIn(w1, Whitespace) && PyStr.AllIn(w2, Whitespace)
    ensures PyStr.StripChars(w1 + ((if negative then "-" else "") + Rendered(digits, point, frac)) + w2, Whitespace)
         == (if negative then "-" else "") + Rendered(digits, point, frac)
  {
    var m := (if negative then "-" else "") + Rendered(digits, point, frac);
    RenderedTrimmed(negative, digits, point, frac);
    PyStr.StripCharsUnique(w1 + m + w2, Whitespace, w1, m, w2);
  }

  lemma ParseFloatOfRendered(negative: bool, digits: string, point: bool, frac: string, w1: string, w2: string)
    requires |digits| > 0 && AllDigits(digits) && AllDigits(frac) && (!point ==> frac == [])
    requires PyStr.AllIn(w1, Whitespace) && PyStr.AllIn(w2, Whitespace)
    ensures AllDigits(digits + frac)
    ensures ParseFloat(w1 + ((if negative then "-" else "") + Rendered(digits, point, frac)) + w2)
         == Some(Finite(negative, DecimalValue(digits + frac), -(|frac| as int)))
  {
    StripRendered(negative, digits, point, frac, w1, w2);
    SignedRendered(negative, digits, point, frac);
  }

  lemma SignedRendered(negative: bool, digits: string, point: bool, frac: string)
    requires |digits| > 0 && AllDigits(digits) && AllDigits(frac) && (!point ==> frac == [])
    ensures AllDigits(digits + frac)
    ensures ParseSigned((if negative then "-" else "") + Rendered(digits, point, frac))
         == Some(Finite(negative, DecimalValue(digits + frac), -(|frac| as int)))
  {
    var body := Rendered(digits, point, frac);
    NumberOfRendered(digits, point, frac);
    assert body[0] == digits[0];
    SignedNumber(negative, body);
  }

  /** The digits before the point are what remains once the k digits after it are divided away. */
  lemma DropFraction(digits: string, frac: string)
    requires AllDigits(digits) && AllDigits(frac)
    ensures AllDigits(digits + frac)
    ensures DecimalValue(digits + frac) / Pow10(|frac|) == DecimalValue(digits)
  {
    DecimalValueAppend(digits, frac);
    QuotientOfShift(DecimalValue(digits), Pow10(|frac|), DecimalValue(frac));
  }

  /** `int()` of the float digits "." frac is the value of digits, with the sign kept. */
  lemma ToIntOfDigits(negative: bool, digits: string, frac: string)
    requires AllDigits(digits) && AllDigits(frac)
    ensures AllDigits(digits + frac)
    ensures ToInt(Finite(negative, DecimalValue(digits + frac), -(|frac| as int)))
         == Ok(if negative then -(DecimalValue(digits) as int) else DecimalValue(digits))
  {
    AllDigitsAppend(digits, frac);
    var lit := Finite(negative, DecimalValue(digits + frac), -(|frac| as int));
    var v := Truncate(negative, DecimalValue(digits + frac), -(|frac| as int));
    if |frac| == 0 {
      assert digits + frac == digits;
    } else {
      DropFraction(digits, frac);
    }
    assert v == if negative then -(DecimalValue(digits) as int) else DecimalValue(digits);
    assert ToInt(lit) == Ok(v);
  }

  /**
   * An optional minus, digits, and optionally a point with fraction digits,
   * surrounded by whitespace, is read by `int(float(...))` as the value of
   * the digits before the point: the fraction is cut off whatever its digits.
   */
  lemma IntOfRendered(negative: bool, digits: string, point: bool, frac: string, w1: string, w2: string)
    requires |digits| > 0 && AllDigits(digits) && AllDigits(frac) && (!point ==> frac == [])
    requires PyStr.AllIn(w1, Whitespace) && PyStr.AllIn(w2, Whitespace)
    ensures IntOfFloat(w1 + ((if negative then "-" else "") + Rendered(digits, point, frac)) + w2)
         == Ok(if negative then -(DecimalValue(digits) as int) else DecimalValue(digits))
  {
    ParseFloatOfRendered(negative, digits, point, frac, w1, w2);
    ToIntOfDigits(negative, digits, frac);
  }

  /** Python's `str(n)` is the sign of `n` followed by the digits of its magnitude. */
  lemma RenderingParts(n: int, point: bool, frac: string)
    ensures Rendering(n, point, frac)
         == (if n < 0 then "-" else "") + Rendered(ShowNat(if n < 0 then -n else n), point, frac)
  {}

  /**
   * Python's rendering of an integer `n`, optionally followed by a decimal
   * point and any fraction digits, and surrounded by whitespace, is read back
   * by `int(float(...))` as `n`, also for negative `n`
   * (so "-3.7" gives -3 and " 10012.9" gives 10012).
   */
  lemma IntOfRendering(n: int, point: bool, frac: string, w1: string, w2: string)
    requires AllDigits(frac) && (!point ==> frac == [])
    requires PyStr.AllIn(w1, Whitespace) && PyStr.AllIn(w2, Whitespace)
    ensures IntOfFloat(w1 + Rendering(n, point, frac) + w2) == Ok(n)
  {
    var magnitude: nat := if n < 0 then -n else n;
    RenderingParts(n, point, frac);
    IntOfRendered(n < 0, ShowNat(magnitude), point, frac, w1, w2);
  }

  /** The characters of an unsigned finite literal. */
  predicate NumberChar(c: char)
  {
    IsDigit(c) || c == '_' || c == '.' || c == 'e' || c == 'E' || c == '+' || c == '-'
  }

  /** The characters a string `float()` accepts can contain. */
  predicate LiteralChar(c: char)
  {
    IsSpace(c) || NumberChar(c) || 'a' <= c <= 'z' || 'A' <= c <= 'Z'
  }

  const NumberChars: set<char> := set c: char | NumberChar(c)

  const LiteralChars: set<char> := set c: char | LiteralChar(c)

  /** Python's rendering of an integer with an optional fraction holds number characters only. */
  lemma RenderingAlphabet(n: int, point: bool, frac: string)
    requires AllDigits(frac)
    ensures |Rendering(n, point, frac)| > 0
    ensures PyStr.AllIn(Rendering(n, point, frac), NumberChars)
  {
    var digits := ShowNat(if n < 0 then -n else n);
    var sign := if n < 0 then "-" else "";
    var tail := if point then "." + frac else "";
    RenderingParts(n, point, frac);
    assert Rendering(n, point, frac) == sign + (digits + tail);
    DigitsAlphabet(digits);
    DigitsAlphabet(frac);
    assert PyStr.AllIn(sign, NumberChars);
    assert PyStr.AllIn(tail, NumberChars) by {
      if point {
        assert PyStr.AllIn(".", NumberChars);
        PyStr.AllInAppend(".", frac, NumberChars);
      }
    }
    PyStr.AllInAppend(digits, tail, NumberChars);
    PyStr.AllInAppend(sign, digits + tail, NumberChars);
  }

  /** Digits are number characters. */
  lemma DigitsAlphabet(t: string)
    requires AllDigits(t)
    ensures PyStr.AllIn(t, NumberChars)
  {
  }

  lemma ExponentAlphabet(t: string)
    requires ParseExponent(t).Some?
    ensures PyStr.AllIn(t, NumberChars)
  {
    var signed := |t| > 0 && (t[0] == '+' || t[0] == '-');
    var digits := if signed then t[1..] else t;
    DigitPartChars(digits);
    forall k | 0 <= k < |t| ensures t[k] in NumberChars {
      if signed && k > 0 { assert t[k] == digits[k - 1]; }
    }
  }

  /** An optional digitpart holds digits and underscores only. */
  lemma DigitPartAlphabet(t: string)
    requires t == [] || IsDigitPart(t)
    ensures PyStr.AllIn(t, NumberChars)
  {
    if t != [] {
      DigitPartChars(t);
    }
    forall k | 0 <= k < |t| ensures t[k] in NumberChars {
      assert IsDigit(t[k]) || t[k] == '_';
    }
  }

  lemma MantissaAlphabet(number: string)
    requires ParseMantissa(number).Some?
    ensures PyStr.AllIn(number, NumberChars)
  {
    MantissaPieces(number);
    PointedAlphabet(number, FirstIndexIn(number, {'.'}));
  }

  /** An accepted mantissa has an optional digitpart on each side of its first point. */
  lemma MantissaPieces(number: string)
    requires ParseMantissa(number).Some?
    ensures var dot := FirstIndexIn(number, {'.'});
            && (dot < |number| ==> number[dot] == '.')
            && (number[..dot] == [] || IsDigitPart(number[..dot]))
            && (dot < |number| ==> number[dot + 1..] == [] || IsDigitPart(number[dot + 1..]))
  {
    var dot := FirstIndexIn(number, {'.'});
    var fracPart := if dot < |number| then number[dot + 1..] else [];
    assert NumberShape(dot < |number|, number[..dot], fracPart);
  }

  /** Optional digitparts around a point hold number characters only. */
  lemma PointedAlphabet(number: string, dot: nat)
    requires dot <= |number| && (dot < |number| ==> number[dot] == '.')
    requires number[..dot] == [] || IsDigitPart(number[..dot])
    requires dot < |number| ==> number[dot + 1..] == [] || IsDigitPart(number[dot + 1..])
    ensures PyStr.AllIn(number, NumberChars)
  {
    DigitPartAlphabet(number[..dot]);
    if dot < |number| {
      DigitPartAlphabet(number[dot + 1..]);
      assert number[dot] in NumberChars;
      PyStr.AllInAround(number, dot, NumberChars);
    } else {
      assert number[..dot] == number;
    }
  }

  /** An accepted number splits at its first `e` or `E` into an accepted mantissa and exponent. */
  lemma NumberParts(body: string)
    requires ParseNumber(body).Some?
    ensures ParseMantissa(body[..FirstIndexIn(body, {'e', 'E'})]).Some?
    ensures FirstIndexIn(body, {'e', 'E'}) < |body| ==> ParseExponent(body[FirstIndexIn(body, {'e', 'E'}) + 1..]).Some?
  {}

  /** An unsigned finite literal holds digits, underscores, a point, an exponent mark and signs only. */
  lemma NumberAlphabet(body: string)
    requires ParseNumber(body).Some?
    ensures PyStr.AllIn(body, NumberChars)
  {
    NumberParts(body);
    PartsAlphabet(body, FirstIndexIn(body, {'e', 'E'}));
  }

  /** A mantissa followed by nothing, or by an exponent mark and an exponent, holds number characters only. */
  lemma PartsAlphabet(body: string, e: nat)
    requires e <= |body| && (e < |body| ==> body[e] in {'e', 'E'})
    requires ParseMantissa(body[..e]).Some?
    requires e < |body| ==> ParseExponent(body[e + 1..]).Some?
    ensures PyStr.AllIn(body, NumberChars)
  {
    MantissaAlphabet(body[..e]);
    if e < |body| {
      ExponentAlphabet(body[e + 1..]);
      PyStr.AllInAround(body, e, NumberChars);
    } else {
      assert body[..e] == body;
    }
  }

  lemma LowerLetter(c: char)
    requires 'a' <= LowerChar(c) <= 'z'
    ensures 'a' <= c <= 'z' || 'A' <= c <= 'Z'
  {}

  /** The unsigned part of a literal `float()` accepts holds number characters or letters only. */
  lemma BodyAlphabet(negative: bool, body: string)
    requires ParseUnsigned(negative, body).Some?
    ensures PyStr.AllIn(body, LiteralChars)
  {
    if Spells(body, "inf") || Spells(body, "infinity") || Spells(body, "nan") {
      forall j | 0 <= j < |body| ensures body[j] in LiteralChars {
        assert 'a' <= LowerChar(body[j]) <= 'z';
        LowerLetter(body[j]);
      }
    } else {
      NumberAlphabet(body);
      PyStr.AllInSubset(body, NumberChars, LiteralChars);
    }
  }

  lemma SignedAlphabet(t: string)
    requires ParseSigned(t).Some?
    ensures PyStr.AllIn(t, LiteralChars)
  {
    if |t| > 0 && (t[0] == '+' || t[0] == '-') {
      BodyAlphabet(t[0] == '-', t[1..]);
      assert PyStr.AllIn([t[0]], LiteralChars);
      PyStr.AllInAppend([t[0]], t[1..], LiteralChars);
      assert t == [t[0]] + t[1..];
    } else {
      BodyAlphabet(false, t);
    }
  }

  /** Every character of a string `float()` accepts is whitespace, part of a number, or a letter. */
  lemma AcceptedAlphabet(s: string)
    requires ParseFloat(s).Some?
    ensures PyStr.AllIn(s, LiteralChars)
  {
    var t := PyStr.StripChars(s, Whitespace);
    PyStr.StripCharsShape(s, Whitespace);
    var i := PyStr.LeadingRun(s, Whitespace);
    SignedAlphabet(t);
    PyStr.AllInSubset(s[..i], Whitespace, LiteralChars);
    PyStr.AllInSubset(s[i + |t|..], Whitespace, LiteralChars);
    PyStr.AllInAppend(s[..i], t, LiteralChars);
    PyStr.AllInAppend(s[..i] + t, s[i + |t|..], LiteralChars);
  }
}
