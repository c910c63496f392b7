/** Cells of the accident table and `pd.to_numeric(..., errors="coerce")`.
    A raw cell is a number, a piece of text the CSV reader could not read
    as a number, or empty. Coercion keeps numbers, reads numeric text and
    turns everything else into a missing value. The text grammar accepted
    here is an optional sign, decimal digits and an optional fractional
    part after a dot. */
module Numeric {
  import opened Wrappers

  datatype Cell = Num(n: real) | Text(s: string) | Empty {
    /** `notna()`: the cell holds a value of either kind. */
    predicate Present() { !Empty? }
  }

  predicate IsDigit(c: char) { '0' <= c <= '9' }

  function DigitValue(c: char): nat
    requires IsDigit(c)
  {
    (c as int - '0' as int) as nat
  }

  predicate AllDigits(s: string)
  {
    forall i :: 0 <= i < |s| ==> IsDigit(s[i])
  }

  /** The value of a string of decimal digits, most significant first. */
  function DigitsValue(s: string): nat
    requires AllDigits(s)
    decreases |s|
  {
    if |s| == 0 then 0 else DigitsValue(s[..|s| - 1]) * 10 + DigitValue(s[|s| - 1])
  }

  /** The value of the digits after a decimal point: `0.d1 d2 ...`. */
  function FractionValue(s: string): real
    requires AllDigits(s)
    decreases |s|
  {
    if |s| == 0 then 0.0 else (DigitValue(s[0]) as real + FractionValue(s[1..])) / 10.0
  }

  /** The number of leading digits of `s`. */
  function DigitPrefix(s: string): (k: nat)
    ensures k <= |s| && AllDigits(s[..k])
    ensures k < |s| ==> !IsDigit(s[k])
    decreases |s|
  {
    if |s| == 0 || !IsDigit(s[0]) then 0
    else
      1 + DigitPrefix(s[1..])
  }

  /** Unsigned decimal: digits, optionally followed by `.` and digits. */
  function ParseUnsigned(s: string): Option<real>
  {
    var k := DigitPrefix(s);
    if k == 0 then None
    else if k == |s| then Some(DigitsValue(s) as real)
    else if s[k] == '.' && AllDigits(s[k + 1..]) then Some(DigitsValue(s[..k]) as real + FractionValue(s[k + 1..]))
    else None
  }

  /** The numeric reading of a text cell, or `None` when it is not a number. */
  function ParseNumber(s: string): Option<real>
  {
    if |s| > 0 && (s[0] == '-' || s[0] == '+') then
      match ParseUnsigned(s[1..])
      case Some(v) => Some(if s[0] == '-' then -v else v)
      case None => None
    else ParseUnsigned(s)
  }

  /** `pd.to_numeric(errors="coerce")` on one cell, written back to the
      column: numbers are kept, numeric text is read, and anything else
      becomes missing, so no text is left. */
  function Coerce(c: Cell): (r: Cell)
    ensures !r.Text?
    ensures c.Num? ==> r == c
    ensures c.Empty? ==> r == Empty
    ensures c.Text? ==> (r.Num? <==> ParseNumber(c.s).Some?)
    ensures c.Text? && r.Num? ==> ParseNumber(c.s) == Some(r.n)
  {
    match c
    case Num(_) => c
    case Text(s) => (match ParseNumber(s) case Some(v) => Num(v) case None => Empty)
    case Empty => Empty
  }

  // ---------------------------------------------------------------------
  // Printing integers, to state that every printed integer is read back

  function DigitChar(d: nat): char
    requires d < 10
  {
    ('0' as int + d) as char
  }

  /** Decimal digits of a natural number, most significant first. */
  function NatToString(n: nat): (s: string)
    ensures |s| >= 1 && AllDigits(s)
    decreases n
  {
    if n < 10 then [DigitChar(n)] else NatToString(n / 10) + [DigitChar(n % 10)]
  }

  function IntToString(n: int): string
  {
    if n < 0 then "-" + NatToString(-n) else NatToString(n)
  }

  lemma {:induction false} NatToStringValue(n: nat)
    ensures DigitsValue(NatToString(n)) == n
    decreases n
  {
    var s := NatToString(n);
    if n >= 10 {
      NatToStringValue(n / 10);
      assert s[..|s| - 1] == NatToString(n / 10);
    }
  }

  /** A non-empty run of digits is read as its decimal value. */
  lemma ParseDigits(s: string)
    requires |s| >= 1 && AllDigits(s)
    ensures ParseUnsigned(s) == Some(DigitsValue(s) as real)
  {
    assert DigitPrefix(s) == |s|;
  }

  /** Every integer written in decimal is read back as the same number. */
  lemma {:induction false} ParseIntToString(n: int)
    ensures ParseNumber(IntToString(n)) == Some(n as real)
  {
    if n < 0 {
      var digits := NatToString(-n);
      var s := "-" + digits;
      assert s[1..] == digits;
      ParseDigits(digits);
      NatToStringValue(-n);
    } else {
      var s := NatToString(n);
      assert IsDigit(s[0]);
      ParseDigits(s);
      NatToStringValue(n);
    }
  }

  /** Integer text is coerced to that integer. */
  lemma CoerceIntegerText(n: int)
    ensures Coerce(Text(IntToString(n))) == Num(n as real)
  {
    ParseIntToString(n);
  }

  /** Leading digits followed by a non-digit: the digit prefix is exactly them. */
  lemma {:induction false} DigitPrefixOfDigits(a: string, t: string)
    requires AllDigits(a)
    requires |t| > 0 && !IsDigit(t[0])
    ensures DigitPrefix(a + t) == |a|
    decreases |a|
  {
    if |a| == 0 {
      assert a + t == t;
    } else {
      assert (a + t)[1..] == a[1..] + t;
      DigitPrefixOfDigits(a[1..], t);
    }
  }

  /** A decimal comma is not a number to `to_numeric`: digits, a comma and
      digits become missing. */
  lemma {:induction false} DecimalCommaIsMissing(a: string, b: string)
    requires |a| > 0 && AllDigits(a) && AllDigits(b)
    ensures Coerce(Text(a + "," + b)) == Empty
  {
    var comma := a + "," + b;
    assert comma == a + ("," + b);
    DigitPrefixOfDigits(a, "," + b);
    assert comma[0] == a[0] && comma[|a|] == ',';
  }

  /** Text of `k` leading digits, a point and only digits after it is read
      as the integer part plus the fraction. */
  lemma {:induction false} ParseUnsignedPoint(s: string, k: nat)
    requires 0 < k < |s| && DigitPrefix(s) == k && s[k] == '.' && AllDigits(s[k + 1..])
    ensures ParseUnsigned(s) == Some(DigitsValue(s[..k]) as real + FractionValue(s[k + 1..]))
  {
  }

  /** The pieces of `a.b`: its digit prefix is `a`, then the point, then `b`. */
  lemma {:induction false} PointSplit(a: string, b: string)
    requires |a| > 0 && AllDigits(a) && AllDigits(b)
    ensures |a| < |a + "." + b| && (a + "." + b)[|a|] == '.'
    ensures DigitPrefix(a + "." + b) == |a|
    ensures (a + "." + b)[..|a|] == a && (a + "." + b)[|a| + 1..] == b
    ensures IsDigit((a + "." + b)[0])
  {
    var point := a + "." + b;
    assert point == a + ("." + b);
    DigitPrefixOfDigits(a, "." + b);
  }

  /** Text that starts with a digit has no sign to strip. */
  lemma ParseNumberUnsigned(s: string)
    requires |s| > 0 && IsDigit(s[0])
    ensures ParseNumber(s) == ParseUnsigned(s)
  {
  }

  /** The same text with a decimal point is read as its value. */
  lemma {:induction false} DecimalPointIsRead(a: string, b: string)
    requires |a| > 0 && AllDigits(a) && AllDigits(b)
    ensures Coerce(Text(a + "." + b)) == Num(DigitsValue(a) as real + FractionValue(b))
  {
    var point := a + "." + b;
    PointSplit(a, b);
    ParseUnsignedPoint(point, |a|);
    ParseNumberUnsigned(point);
  }
}
