/** Java `long` arithmetic and the decimal numerals of the range header and its responses. */
module Numerals {
  import opened Wrappers

  const LongMin: int := -0x8000_0000_0000_0000
  const LongMax: int := 0x7FFF_FFFF_FFFF_FFFF
  const LongModulus: int := 0x1_0000_0000_0000_0000

  /** The values of a Java `long`. */
  type Long = x: int | LongMin <= x <= LongMax

  /** Two's-complement wrap-around, as Java's `long` addition and subtraction do. */
  function Wrap(x: int): (r: Long)
    ensures LongMin <= x <= LongMax ==> r == x
    ensures (x - r) % LongModulus == 0
  {
    (x - LongMin) % LongModulus + LongMin
  }

  predicate IsDigit(c: char) {
    '0' <= c <= '9'
  }

  predicate IsDigits(s: string) {
    forall k :: 0 <= k < |s| ==> IsDigit(s[k])
  }

  function DigitValue(c: char): (d: nat)
    requires IsDigit(c)
    ensures d < 10
  {
    c as int - '0' as int
  }

  function DigitChar(d: nat): (c: char)
    requires d < 10
    ensures IsDigit(c) && DigitValue(c) == d
  {
    ('0' as int + d) as char
  }

  /** `0`, or a non-empty digit string without a leading zero: the `(0|[1-9]\d*)` of the range pattern. */
  predicate IsCanonical(s: string) {
    |s| > 0 && IsDigits(s) && (s[0] == '0' ==> |s| == 1)
  }

  /** The value of a decimal digit string, most significant digit first. */
  function DecimalValue(s: string): nat
    requires IsDigits(s)
  {
    if |s| == 0 then 0 else 10 * DecimalValue(s[..|s| - 1]) + DigitValue(s[|s| - 1])
  }

  /** The canonical decimal numeral of a natural number (Java's `Long.toString` for non-negative values). */
  function Decimal(n: nat): (s: string)
    ensures IsCanonical(s)
    ensures DecimalValue(s) == n
  {
    if n < 10 then [DigitChar(n)]
    else
      var p := Decimal(n / 10);
      var s := p + [DigitChar(n % 10)];
      assert s[..|s| - 1] == p;
      assert p[0] == '0' ==> p == "0";
      s
  }

  /** Java's `Long.toString`: a minus sign before the magnitude of a negative value. */
  function LongToString(x: Long): (s: string)
    ensures x >= 0 ==> IsCanonical(s) && DecimalValue(s) == x
    ensures x < 0 ==> |s| > 1 && s[0] == '-' && IsCanonical(s[1..]) && DecimalValue(s[1..]) == -(x as int)
  {
    if x < 0 then
      var s := "-" + Decimal(-(x as int));
      assert s[1..] == Decimal(-(x as int));
      s
    else Decimal(x)
  }

  /** A prefix of a digit string never has a larger value than the whole string. */
  lemma {:induction false} PrefixValueAtMost(s: string, k: nat)
    requires IsDigits(s) && k <= |s|
    ensures DecimalValue(s[..k]) <= DecimalValue(s)
    decreases |s|
  {
    if k < |s| {
      var p := s[..|s| - 1];
      PrefixValueAtMost(p, k);
      assert p[..k] == s[..k];
    } else {
      assert s[..k] == s;
    }
  }

  /** A digit string that does not start with `0` has a positive value. */
  lemma LeadingDigitPositive(s: string)
    requires IsDigits(s) && |s| > 0 && s[0] != '0'
    ensures DecimalValue(s) >= 1
  {
    PrefixValueAtMost(s, 1);
    assert s[..1][..0] == [];
  }

  /** Every canonical numeral is the rendering of its own value: the inverse of `Decimal`. */
  lemma {:induction false} CanonicalIsDecimal(s: string)
    requires IsCanonical(s)
    ensures Decimal(DecimalValue(s)) == s
    decreases |s|
  {
    if |s| > 1 {
      var p := s[..|s| - 1];
      LeadingDigitPositive(p);
      CanonicalIsDecimal(p);
      assert s == p + [s[|s| - 1]];
    }
  }

  /**
   * `Long.parseLong` on a string of ASCII digits: its value, or `None` where Java throws
   * `NumberFormatException` (an empty string, a non-digit, a value above `Long.MAX_VALUE`).
   */
  function ParseLong(s: string): (r: Option<Long>)
    ensures r.Some? ==> r.value >= 0 && IsDigits(s) && DecimalValue(s) == r.value
    ensures r.Some? && IsCanonical(s) ==> Decimal(r.value) == s
  {
    if |s| > 0 && IsDigits(s) && DecimalValue(s) <= LongMax then
      if IsCanonical(s) then CanonicalIsDecimal(s); Some(DecimalValue(s))
      else Some(DecimalValue(s))
    else None
  }

  /** `Long.parseLong` reads back every numeral `Decimal` renders for a `long`. */
  lemma ParseLongDecimal(n: nat)
    requires n <= LongMax
    ensures ParseLong(Decimal(n)) == Some(n)
  {
  }

  /** A canonical numeral above `Long.MAX_VALUE` is refused, never wrapped. */
  lemma ParseLongOverflow(s: string)
    requires IsCanonical(s) && DecimalValue(s) > LongMax
    ensures ParseLong(s) == None
  {
  }

  /**
   * The accumulation loop of Java's `Long.parseLong` for an unsigned numeral in radix 10:
   * the value is built as a negative number so that `-Long.MAX_VALUE` bounds it, and the
   * overflow tests run before each multiplication and each subtraction.
   */
  method ParseLongLoop(s: string) returns (r: Option<Long>)
    ensures r == ParseLong(s)
  {
    if |s| == 0 {
      return None;
    }
    var limit := -LongMax;
    var multmin := -922_337_203_685_477_580;  // limit / 10, rounded toward zero as in Java
    var result := 0;
    var i := 0;
    while i < |s|
      invariant 0 <= i <= |s|
      invariant IsDigits(s[..i])
      invariant result + DecimalValue(s[..i]) == 0
      invariant limit <= result <= 0
    {
      if !IsDigit(s[i]) {
        return None;
      }
      var digit := DigitValue(s[i]);
      assert s[..i + 1][..i] == s[..i];
      if result < multmin {
        NumeralPrefixTooLarge(s, i + 1);
        return None;
      }
      result := result * 10;
      if result < limit + digit {
        NumeralPrefixTooLarge(s, i + 1);
        return None;
      }
      result := result - digit;
      i := i + 1;
    }
    assert s[..i] == s;
    return Some(-result);
  }

  /** Once a prefix of a digit string exceeds `Long.MAX_VALUE`, `ParseLong` refuses the string. */
  lemma NumeralPrefixTooLarge(s: string, k: nat)
    requires k <= |s| && IsDigits(s[..k]) && DecimalValue(s[..k]) > LongMax
    ensures ParseLong(s) == None
  {
    if IsDigits(s) {
      PrefixValueAtMost(s, k);
    }
  }
}
