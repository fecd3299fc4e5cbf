/**
 * Configuration ids travel as strings but are stored in a BIGINT column.
 * On the way out the repository renders the key with `fmt.Sprintf("%d", id)`;
 * on the way in the query parameter `$1` is read by Postgres as a bigint
 * literal. This module models both directions and proves they agree.
 */
module ConfigIds {

  const MaxInt64: int := 0x7FFF_FFFF_FFFF_FFFF
  const MinInt64: int := -0x8000_0000_0000_0000

  predicate IsDigit(c: char) {
    '0' <= c <= '9'
  }

  predicate AllDigits(s: string) {
    forall i :: 0 <= i < |s| ==> IsDigit(s[i])
  }

  function DigitValue(c: char): (d: nat)
    requires IsDigit(c)
    ensures d < 10
  {
    (c as int) - ('0' as int)
  }

  function DigitChar(d: nat): (c: char)
    requires d < 10
    ensures IsDigit(c) && DigitValue(c) == d
  {
    (('0' as int) + d) as char
  }

  /** `fmt.Sprintf("%d", n)` for a non-negative n: decimal, no sign, no leading zeros. */
  function FormatId(n: nat): (s: string)
    ensures |s| >= 1 && AllDigits(s)
    ensures |s| > 1 ==> s[0] != '0'
  {
    if n < 10 then [DigitChar(n)] else FormatId(n / 10) + [DigitChar(n % 10)]
  }

  /** `fmt.Sprintf("%d", n)` for any int64: a minus sign in front of a negative value. */
  function FormatInt(n: int): (s: string)
    ensures n >= 0 ==> s == FormatId(n)
  {
    if n < 0 then "-" + FormatId(-n) else FormatId(n)
  }

  /** The value of a string of decimal digits, most significant first. */
  function DigitsValue(s: string): nat
    requires AllDigits(s)
  {
    if |s| == 0 then 0 else DigitsValue(s[..|s| - 1]) * 10 + DigitValue(s[|s| - 1])
  }

  /** How Postgres reads a bigint literal. */
  datatype Parsed = Parsed(value: int) | Malformed | OutOfRange

  /** The digits of a literal: after an optional sign. */
  function Unsigned(s: string): string {
    if |s| > 0 && (s[0] == '-' || s[0] == '+') then s[1..] else s
  }

  /** A bigint literal: an optional sign followed by one or more decimal digits. */
  predicate WellFormedLiteral(s: string) {
    |Unsigned(s)| > 0 && AllDigits(Unsigned(s))
  }

  /** Reads `s` as a bigint: a malformed literal and a value outside 64 bits are both refused. */
  function ParseBigint(s: string): (p: Parsed)
    ensures p.Malformed? <==> !WellFormedLiteral(s)
    ensures p.Parsed? ==> MinInt64 <= p.value <= MaxInt64
    ensures p.Parsed? && 0 < |s| && s[0] == '-' ==> p.value <= 0
    ensures WellFormedLiteral(s) ==>
      var v: int := if s[0] == '-' then 0 - DigitsValue(Unsigned(s)) as int else DigitsValue(Unsigned(s));
      && (p.Parsed? <==> MinInt64 <= v <= MaxInt64)
      && (p.Parsed? ==> p.value == v)
      && (p.OutOfRange? <==> !(MinInt64 <= v <= MaxInt64))
  {
    if !WellFormedLiteral(s) then Malformed
    else
      var magnitude: int := DigitsValue(Unsigned(s));
      var v: int := if s[0] == '-' then -magnitude else magnitude;
      if MinInt64 <= v <= MaxInt64 then Parsed(v) else OutOfRange
  }

  lemma {:induction false} DigitsValueFormat(n: nat)
    ensures DigitsValue(FormatId(n)) == n
  {
    if n >= 10 {
      var s := FormatId(n);
      assert s[..|s| - 1] == FormatId(n / 10);
      DigitsValueFormat(n / 10);
    }
  }

  /** Postgres reads back exactly the number the repository formatted. */
  lemma ParseFormat(n: nat)
    requires n <= MaxInt64
    ensures ParseBigint(FormatId(n)) == Parsed(n)
  {
    DigitsValueFormat(n);
    assert Unsigned(FormatId(n)) == FormatId(n);
  }

  /** `%d` of any int64, negative ones included, reads back as the same number. */
  lemma ParseFormatInt(n: int)
    requires MinInt64 <= n <= MaxInt64
    ensures ParseBigint(FormatInt(n)) == Parsed(n)
  {
    if n < 0 {
      DigitsValueFormat(-n);
      assert Unsigned(FormatInt(n)) == FormatId(-n);
    } else {
      ParseFormat(n);
    }
  }

  /** `n` zero characters. */
  function Zeros(n: nat): (z: string)
    ensures |z| == n && AllDigits(z)
  {
    if n == 0 then "" else "0" + Zeros(n - 1)
  }

  /** A leading zero does not change the value of a string of digits. */
  lemma {:induction false} LeadingZeroValue(s: string)
    requires AllDigits(s)
    ensures DigitsValue("0" + s) == DigitsValue(s)
  {
    if |s| > 0 {
      assert ("0" + s)[..|s|] == "0" + s[..|s| - 1];
      LeadingZeroValue(s[..|s| - 1]);
    }
  }

  lemma {:induction false} LeadingZerosValue(z: nat, s: string)
    requires AllDigits(s)
    ensures AllDigits(Zeros(z) + s) && DigitsValue(Zeros(z) + s) == DigitsValue(s)
  {
    if z == 0 {
      assert Zeros(z) + s == s;
    } else {
      LeadingZerosValue(z - 1, s);
      assert Zeros(z) + s == "0" + (Zeros(z - 1) + s);
      LeadingZeroValue(Zeros(z - 1) + s);
    }
  }

  /** A signed or unsigned literal over `digits` has `digits` as its unsigned part. */
  lemma UnsignedOfSigned(digits: string, sign: string)
    requires |digits| > 0 && AllDigits(digits) && (sign == "" || sign == "+" || sign == "-")
    ensures Unsigned(sign + digits) == digits && WellFormedLiteral(sign + digits)
  {
    if sign == "" {
      assert sign + digits == digits;
      assert !(digits[0] == '-' || digits[0] == '+') by { assert IsDigit(digits[0]); }
    } else {
      assert (sign + digits)[1..] == digits;
    }
  }

  /** A literal of in-range digits reads as their value, negated under a '-' sign. */
  lemma ParseSigned(digits: string, sign: string)
    requires |digits| > 0 && AllDigits(digits) && (sign == "" || sign == "+" || sign == "-")
    requires DigitsValue(digits) <= MaxInt64
    ensures ParseBigint(sign + digits) == Parsed(if sign == "-" then 0 - DigitsValue(digits) as int else DigitsValue(digits))
  {
    UnsignedOfSigned(digits, sign);
    assert (sign + digits)[0] == '-' <==> sign == "-" by {
      if sign == "" { assert (sign + digits)[0] == digits[0] && IsDigit(digits[0]); }
    }
  }

  /**
   * Ids a client may write other than the rendered form: leading zeros and a
   * '+' sign name the same id, and a '-' sign its negation.
   */
  lemma NonCanonicalIds(n: nat, z: nat)
    requires n <= MaxInt64
    ensures ParseBigint(Zeros(z) + FormatId(n)) == Parsed(n)
    ensures ParseBigint("+" + (Zeros(z) + FormatId(n))) == Parsed(n)
    ensures ParseBigint("-" + (Zeros(z) + FormatId(n))) == Parsed(-(n as int))
  {
    var digits := Zeros(z) + FormatId(n);
    LeadingZerosValue(z, FormatId(n));
    DigitsValueFormat(n);
    ParseSigned(digits, "");
    ParseSigned(digits, "+");
    ParseSigned(digits, "-");
    assert "" + digits == digits;
  }

  /** Different keys never share a rendered id. */
  lemma FormatIdInjective(m: nat, n: nat)
    ensures FormatId(m) == FormatId(n) ==> m == n
  {
    DigitsValueFormat(m);
    DigitsValueFormat(n);
  }

  /** A rendered id never contains a '/', so it survives extraction from a request path. */
  lemma FormatIdNoSlash(n: nat)
    ensures '/' !in FormatId(n)
  {
  }
}
