/**
 * The three helpers that guard every handler: `isNonEmptyString`,
 * `isNonNegativeNumber` and `parseId`, together with the part of
 * JavaScript's `Number(string)` conversion that `parseId` depends on.
 */
module Validation {
  import opened Wrappers
  import opened Text

  /**
   * A field of a parsed JSON request body, seen through `typeof`:
   * `Missing` is `undefined` (the key is absent), `Num` a finite number,
   * `NonFinite` NaN or an infinity, `Other` a boolean, object or array.
   */
  datatype Value = Missing | Null | Str(s: string) | Num(x: real) | NonFinite | Other

  /** `isNonEmptyString(v)`: a string that still has a character after trimming. */
  predicate IsNonEmptyString(v: Value)
  {
    v.Str? && |Trim(v.s)| > 0
  }

  /** The values `isNonEmptyString` accepts are the strings with a character that is not whitespace. */
  lemma NonEmptyStringIff(v: Value)
    ensures IsNonEmptyString(v) <==> v.Str? && exists i :: 0 <= i < |v.s| && !IsSpace(v.s[i])
  {
    if v.Str? {
      TrimEmpty(v.s);
    }
  }

  /** `isNonNegativeNumber(v)`: a finite number that is at least zero. */
  predicate IsNonNegativeNumber(v: Value)
  {
    v.Num? && v.x >= 0.0
  }

  /** What `isNonNegativeNumber` refuses: every non-number, NaN and the infinities, and negative numbers. */
  lemma NonNegativeNumberRefuses(v: Value)
    ensures !IsNonNegativeNumber(v) <==>
      v.Missing? || v.Null? || v.Str? || v.NonFinite? || v.Other? || (v.Num? && v.x < 0.0)
  {
  }

  // ---------------------------------------------------------------------
  // Decimal digits

  predicate IsDigit(c: char)
  {
    '0' <= c <= '9'
  }

  predicate AllDigits(s: string)
  {
    forall i :: 0 <= i < |s| ==> IsDigit(s[i])
  }

  /** The number a string of decimal digits denotes, most significant digit first. */
  function DigitsValue(s: string): nat
    requires AllDigits(s)
  {
    if s == [] then 0 else DigitsValue(s[..|s| - 1]) * 10 + (s[|s| - 1] as int - '0' as int)
  }

  function Pow10(k: nat): (p: nat)
    ensures p > 0
  {
    if k == 0 then 1 else 10 * Pow10(k - 1)
  }

  /** Length of the longest all-digit prefix of `s`. */
  function DigitRun(s: string): (n: nat)
    ensures n <= |s| && AllDigits(s[..n])
    ensures n < |s| ==> !IsDigit(s[n])
  {
    if s != [] && IsDigit(s[0]) then 1 + DigitRun(s[1..]) else 0
  }

  /** The digits of `n` in base ten, without leading zeros. */
  function DecimalString(n: nat): (r: string)
    ensures r != [] && AllDigits(r) && DigitsValue(r) == n
    ensures r[0] == '0' ==> n == 0
  {
    var last := ('0' as int + n % 10) as char;
    if n < 10 then [last] else DecimalString(n / 10) + [last]
  }

  // ---------------------------------------------------------------------
  // Number(string) and parseId

  /**
   * The value of an unsigned decimal literal `digits[.digits]` with at least
   * one digit, or `None` for anything else (which `Number` turns into NaN).
   */
  function UnsignedValue(t: string): (r: Option<real>)
    ensures r.Some? ==> r.value >= 0.0
  {
    var n := DigitRun(t);
    var rest := t[n..];
    if rest == [] then
      if n == 0 then None else Some(DigitsValue(t[..n]) as real)
    else if rest[0] == '.' && AllDigits(rest[1..]) && (n > 0 || |rest| > 1) then
      Some(DigitsValue(t[..n]) as real + FractionValue(rest[1..]))
    else
      None
  }

  /** The value of the digits after a decimal point: `0.d1d2...dk`. */
  function FractionValue(digits: string): (x: real)
    requires AllDigits(digits)
    ensures 0.0 <= x
  {
    DigitsValue(digits) as real / Pow10(|digits|) as real
  }

  /** `Number(raw)` for decimal literals with an optional sign; `None` stands for NaN. */
  function ToNumber(raw: string): (r: Option<real>)
    ensures r.Some? && r.value < 0.0 ==> raw != [] && raw[0] == '-'
    ensures r.Some? && raw != [] && raw[0] == '-' ==> r.value <= 0.0
  {
    if raw == [] then Some(0.0)
    else if raw[0] == '-' then
      match UnsignedValue(raw[1..])
      case None => None
      case Some(x) => Some(-x)
    else if raw[0] == '+' then UnsignedValue(raw[1..])
    else UnsignedValue(raw)
  }

  /** `parseId`: the number the id denotes when it is a positive integer, otherwise `None` (`null`). */
  function ParseId(raw: string): (r: Option<nat>)
    ensures r.Some? ==> r.value > 0 && ToNumber(raw) == Some(r.value as real)
  {
    match ToNumber(raw)
    case None => None
    case Some(x) => if x == x.Floor as real && x > 0.0 then Some(x.Floor) else None
  }

  // ---------------------------------------------------------------------
  // The grammar ToNumber reads

  /** `digits[.digits]` with at least one digit in all: the unsigned literals `Number` reads here. */
  ghost predicate IsUnsignedLiteral(t: string)
  {
    || (t != [] && AllDigits(t))
    || exists k :: 0 <= k < |t| && t[k] == '.' && AllDigits(t[..k]) && AllDigits(t[k + 1..]) && |t| > 1
  }

  /** `UnsignedValue` gives a number exactly for the unsigned literals. */
  lemma UnsignedLiteralIff(t: string)
    ensures UnsignedValue(t).Some? <==> IsUnsignedLiteral(t)
  {
    var n := DigitRun(t);
    if UnsignedValue(t).Some? && n < |t| {
      assert t[n] == t[n..][0] && t[n + 1..] == t[n..][1..];
      assert t[n] == '.' && AllDigits(t[..n]) && AllDigits(t[n + 1..]);
    } else if UnsignedValue(t).Some? {
      assert t[..n] == t;
    }
    if IsUnsignedLiteral(t) {
      if t != [] && AllDigits(t) {
        assert t[..|t|] == t;
        DigitRunIs(t, |t|);
      } else {
        var k :| 0 <= k < |t| && t[k] == '.' && AllDigits(t[..k]) && AllDigits(t[k + 1..]) && |t| > 1;
        DigitRunIs(t, k);
        PointedUnsigned(t, k);
      }
    }
  }

  /** An unsigned literal starts with a digit or a point, never with a sign. */
  lemma UnsignedLiteralStart(t: string)
    requires IsUnsignedLiteral(t)
    ensures t[0] == '.' || IsDigit(t[0])
  {
    if !(t != [] && AllDigits(t)) {
      var k :| 0 <= k < |t| && t[k] == '.' && AllDigits(t[..k]) && AllDigits(t[k + 1..]) && |t| > 1;
      if k > 0 {
        assert t[..k][0] == t[0];
      }
    }
  }

  /**
   * `Number(raw)` is a number exactly for the empty string and for an unsigned
   * literal with at most one leading sign; everything else is NaN.
   */
  lemma ToNumberDefined(raw: string)
    ensures ToNumber(raw).Some? <==>
      || raw == []
      || IsUnsignedLiteral(raw)
      || ((raw[0] == '-' || raw[0] == '+') && IsUnsignedLiteral(raw[1..]))
  {
    if raw != [] {
      UnsignedLiteralIff(raw);
      UnsignedLiteralIff(raw[1..]);
      if IsUnsignedLiteral(raw) {
        UnsignedLiteralStart(raw);
      }
    }
  }

  // ---------------------------------------------------------------------
  // What parseId accepts and rejects

  /** A digit string is less than ten to the power of its length. */
  lemma {:induction false} DigitsValueBound(s: string)
    requires AllDigits(s)
    ensures DigitsValue(s) < Pow10(|s|)
  {
    if s != [] {
      DigitsValueBound(s[..|s| - 1]);
    }
  }

  /** A digit string denotes zero exactly when every digit is `0`. */
  lemma {:induction false} DigitsValueZero(s: string)
    requires AllDigits(s)
    ensures DigitsValue(s) == 0 <==> forall i :: 0 <= i < |s| ==> s[i] == '0'
  {
    if s != [] {
      var init := s[..|s| - 1];
      DigitsValueZero(init);
      assert forall i :: 0 <= i < |init| ==> init[i] == s[i];
    }
  }

  /** Conversely to `ParseId`'s contract, every id whose number is a positive integer is accepted. */
  lemma ParseIdAccepts(raw: string, n: nat)
    requires n > 0 && ToNumber(raw) == Some(n as real)
    ensures ParseId(raw) == Some(n)
  {
  }

  /** The id written in decimal is parsed back to itself. */
  lemma ParseIdDecimal(n: nat)
    requires n > 0
    ensures ParseId(DecimalString(n)) == Some(n)
  {
    var s := DecimalString(n);
    assert DigitRun(s) == |s|;
    assert s[..|s|] == s;
  }

  /** The digit run is the all-digit prefix that stops at a non-digit or at the end. */
  lemma {:induction false} DigitRunIs(s: string, k: nat)
    requires k <= |s| && AllDigits(s[..k]) && (k < |s| ==> !IsDigit(s[k]))
    ensures DigitRun(s) == k
  {
    if k > 0 {
      assert s[..k][0] == s[0];
      assert s[1..][..k - 1] == s[1..k];
      DigitRunIs(s[1..], k - 1);
    }
  }

  /** `Number` of `whole.fraction` is the whole part plus the fraction. */
  lemma PointedValue(raw: string, k: nat)
    requires k < |raw| && raw[k] == '.' && AllDigits(raw[..k]) && AllDigits(raw[k + 1..]) && |raw| > 1
    ensures ToNumber(raw) == Some(DigitsValue(raw[..k]) as real + FractionValue(raw[k + 1..]))
  {
    DigitRunIs(raw, k);
    PointedUnsigned(raw, k);
    assert k > 0 ==> raw[..k][0] == raw[0];
    Unsigned(raw);
  }

  /** An unsigned literal with a point right after its digit run. */
  lemma PointedUnsigned(t: string, n: nat)
    requires n == DigitRun(t) && n < |t| && t[n] == '.' && AllDigits(t[n + 1..])
    requires n > 0 || |t| > n + 1
    ensures UnsignedValue(t) == Some(DigitsValue(t[..n]) as real + FractionValue(t[n + 1..]))
  {
    assert t[n..][1..] == t[n + 1..];
  }

  /** Without a sign, `Number` reads the whole string as an unsigned literal. */
  lemma Unsigned(raw: string)
    requires raw != [] && (raw[0] == '.' || IsDigit(raw[0]))
    ensures ToNumber(raw) == UnsignedValue(raw)
  {
  }

  /** A decimal id followed by a fraction of zeros ("2.0", "2.00") is accepted as that integer. */
  lemma ParseIdZeroFraction(raw: string, k: nat)
    requires k < |raw| && raw[k] == '.' && AllDigits(raw[..k]) && DigitsValue(raw[..k]) > 0
    requires forall i :: k < i < |raw| ==> raw[i] == '0'
    ensures ParseId(raw) == Some(DigitsValue(raw[..k]))
  {
    var zeros := raw[k + 1..];
    assert forall i :: 0 <= i < |zeros| ==> zeros[i] == raw[k + 1 + i];
    DigitsValueZero(zeros);
    assert FractionValue(zeros) == 0.0;
    PointedValue(raw, k);
    ParseIdAccepts(raw, DigitsValue(raw[..k]));
  }

  /** Any id with a minus sign (`-1`, `-0`) is rejected. */
  lemma ParseIdNegative(s: string)
    ensures ParseId("-" + s) == None
  {
    assert ("-" + s)[1..] == s;
  }

  /** Zero, however many digits it is written with, is rejected. */
  lemma ParseIdZero(zeros: string)
    requires zeros != []
    requires forall i :: 0 <= i < |zeros| ==> zeros[i] == '0'
    ensures ParseId(zeros) == None
  {
    assert DigitRun(zeros) == |zeros|;
    assert zeros[..|zeros|] == zeros;
    DigitsValueZero(zeros);
  }

  /** A fraction with a non-zero digit ("1.5", ".5") makes the id invalid. */
  lemma ParseIdFraction(raw: string, k: nat)
    requires k < |raw| && raw[k] == '.' && AllDigits(raw[..k]) && AllDigits(raw[k + 1..])
    requires exists i :: k < i < |raw| && raw[i] != '0'
    ensures ParseId(raw) == None
  {
    var frac := raw[k + 1..];
    assert exists i :: 0 <= i < |frac| && frac[i] != '0';
    DigitsValueZero(frac);
    ProperFraction(frac);
    PointedValue(raw, k);
    WholePlusFraction(DigitsValue(raw[..k]), FractionValue(frac));
  }

  /** Digits after the point that are not all zero make a value strictly between 0 and 1. */
  lemma ProperFraction(f: string)
    requires AllDigits(f) && 0 < DigitsValue(f)
    ensures 0.0 < FractionValue(f) < 1.0
  {
    DigitsValueBound(f);
    QuotientBelowOne(DigitsValue(f) as real, Pow10(|f|) as real);
  }

  lemma QuotientBelowOne(num: real, den: real)
    requires 0.0 < num < den
    ensures 0.0 < num / den < 1.0
  {
    var x := num / den;
    assert x * den == num;
    var above := if x >= 1.0 then x else 1.0;
    ScaleMonotone(above, 1.0, den);
    assert above * den >= den;
    assert x >= 1.0 ==> above * den == num;
    assert x < 1.0;
    ScaleMonotone(0.0, if x <= 0.0 then x else 0.0, den);
  }

  lemma ScaleMonotone(a: real, b: real, c: real)
    requires a >= b && c > 0.0
    ensures a * c >= b * c
  {
  }

  /** A whole number plus a proper fraction fails `Number.isInteger`. */
  lemma WholePlusFraction(whole: nat, frac: real)
    requires 0.0 < frac < 1.0
    ensures var x := whole as real + frac; x != x.Floor as real
  {
    assert (whole as real + frac).Floor == whole;
  }

  predicate IsNumberChar(c: char)
  {
    IsDigit(c) || c == '.' || c == '+' || c == '-'
  }

  /** An unsigned literal is made of digits and a point only. */
  lemma UnsignedValueChars(t: string)
    requires UnsignedValue(t).Some?
    ensures forall i :: 0 <= i < |t| ==> IsDigit(t[i]) || t[i] == '.'
  {
    var n := DigitRun(t);
    forall i | 0 <= i < |t| ensures IsDigit(t[i]) || t[i] == '.' {
      if i < n {
        assert t[..n][i] == t[i];
      } else if i > n {
        assert t[n..][1..][i - n - 1] == t[i];
      }
    }
  }

  /**
   * An id holding any character besides digits, a point and a sign ("abc") is
   * rejected. This includes exponent and hex forms such as "1e2" and "0x10",
   * which JavaScript's own `Number` would read as 100 and 16.
   */
  lemma ParseIdForeignChar(raw: string, k: nat)
    requires k < |raw| && !IsNumberChar(raw[k])
    ensures ParseId(raw) == None
  {
    if raw[0] == '-' || raw[0] == '+' {
      if UnsignedValue(raw[1..]).Some? {
        UnsignedValueChars(raw[1..]);
      }
    } else if UnsignedValue(raw).Some? {
      UnsignedValueChars(raw);
    }
  }
}
