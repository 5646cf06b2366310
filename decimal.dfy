/** Decimal integers as the service reads and writes them: `ParseInt` is
    `strconv.ParseInt(s, 10, 64)` and `FormatInt` is `strconv.FormatInt(n, 10)`.

    `ParseInt` accepts an optional '+' or '-' followed by one or more ASCII
    digits (leading zeros allowed) whose value fits a signed 64-bit integer;
    everything else, the empty string included, is an error. */
module Decimal {
  import opened Basics

  const MaxInt64: int := 0x7FFF_FFFF_FFFF_FFFF
  const MinInt64: int := -0x8000_0000_0000_0000

  const Plus: Byte := 43
  const Minus: Byte := 45
  const Zero: Byte := 48

  predicate IsDigit(c: Byte) {
    48 <= c <= 57
  }

  predicate AllDigits(s: Bytes) {
    forall i :: 0 <= i < |s| ==> IsDigit(s[i])
  }

  /** The value of a string of digits, most significant first. */
  function DigitsValue(s: Bytes): nat
    requires AllDigits(s)
    decreases |s|
  {
    if s == [] then 0 else 10 * DigitsValue(s[..|s| - 1]) + (s[|s| - 1] - Zero)
  }

  /** The shortest decimal spelling of a natural number. */
  function Digits(n: nat): (s: Bytes)
    ensures |s| >= 1 && AllDigits(s)
    ensures s[0] != Zero || n == 0
    ensures DigitsValue(s) == n
    decreases n
  {
    if n < 10 then [Zero + n]
    else
      var s := Digits(n / 10) + [Zero + n % 10];
      assert s[..|s| - 1] == Digits(n / 10);
      s
  }

  /** A spelling with no sign and no redundant leading zero. */
  predicate IsCanonicalNatural(s: Bytes) {
    |s| >= 1 && AllDigits(s) && (s[0] != Zero || |s| == 1)
  }

  /** `strconv.ParseInt(s, 10, 64)`: None for a syntax or a range error. */
  function ParseInt(s: Bytes): (r: Option<int>)
    ensures r.Some? ==> MinInt64 <= r.value <= MaxInt64
    ensures r.Some? ==> |s| >= 1 && AllDigits(if s[0] == Plus || s[0] == Minus then s[1..] else s)
  {
    if s == [] then None
    else
      var negative := s[0] == Minus;
      var body := if s[0] == Plus || s[0] == Minus then s[1..] else s;
      if body == [] || !AllDigits(body) then None
      else
        var magnitude: int := DigitsValue(body);
        if negative then (if magnitude > -MinInt64 then None else Some(-magnitude))
        else (if magnitude > MaxInt64 then None else Some(magnitude))
  }

  /** `strconv.FormatInt(n, 10)`: a '-' for negative numbers, then the shortest digits. */
  function FormatInt(n: int): (s: Bytes)
    ensures |s| >= 1
    ensures s[0] == Minus <==> n < 0
  {
    if n < 0 then [Minus] + Digits(-n) else Digits(n)
  }

  /** The formatted number is canonical: a non-negative number is written
      with no sign and no redundant leading zero, a negative one as '-'
      followed by the canonical digits of its magnitude. */
  lemma FormatIntCanonical(n: int)
    ensures var s := FormatInt(n);
      (n >= 0 ==> IsCanonicalNatural(s) && DigitsValue(s) == n) &&
      (n < 0 ==> |s| >= 2 && s[0] == Minus && IsCanonicalNatural(s[1..]) && DigitsValue(s[1..]) == -n)
  {
    if n < 0 {
      assert FormatInt(n)[1..] == Digits(-n);
    }
  }

  /** Parsing the formatted number gives it back, over the whole 64-bit range. */
  lemma ParseFormat(n: int)
    requires MinInt64 <= n <= MaxInt64
    ensures ParseInt(FormatInt(n)) == Some(n)
  {
    var s := FormatInt(n);
    if n < 0 {
      assert s[1..] == Digits(-n);
    }
  }

  /** A canonical spelling is the only one: two canonical digit strings with
      the same value are equal. */
  lemma {:induction false} CanonicalUnique(s: Bytes)
    requires IsCanonicalNatural(s)
    ensures s == Digits(DigitsValue(s))
    decreases |s|
  {
    var n := DigitsValue(s);
    if |s| > 1 {
      var p := s[..|s| - 1];
      assert IsCanonicalNatural(p) by {
        assert p[0] == s[0];
      }
      LeadingDigitPositive(p);
      CanonicalUnique(p);
      assert n / 10 == DigitsValue(p) && n % 10 == s[|s| - 1] - Zero;
      assert s == p + [s[|s| - 1]];
    } else {
      assert s == [s[0]];
    }
  }

  /** A digit string that starts with a non-zero digit has a positive value. */
  lemma {:induction false} LeadingDigitPositive(s: Bytes)
    requires |s| >= 1 && AllDigits(s) && s[0] != Zero
    ensures DigitsValue(s) > 0
    decreases |s|
  {
    if |s| > 1 {
      var p := s[..|s| - 1];
      assert p[0] == s[0];
      LeadingDigitPositive(p);
    }
  }

  /** Every spelling `ParseInt` accepts is free of line breaks, so it cannot
      blur the boundary of a newline-separated message. */
  lemma ParsedHasNoNewLine(s: Bytes)
    requires ParseInt(s).Some?
    ensures forall i :: 0 <= i < |s| ==> s[i] != NewLine
  {
    var body := if s[0] == Plus || s[0] == Minus then s[1..] else s;
    forall i | 0 <= i < |s| ensures s[i] != NewLine {
      if s[0] == Plus || s[0] == Minus {
        if i > 0 { assert s[i] == body[i - 1]; }
      } else {
        assert s[i] == body[i];
      }
    }
  }

  /** A leading zero does not change the value of a digit string. */
  lemma {:induction false} LeadingZeroIgnored(s: Bytes)
    requires AllDigits(s)
    ensures AllDigits([Zero] + s) && DigitsValue([Zero] + s) == DigitsValue(s)
    decreases |s|
  {
    if s != [] {
      var p := s[..|s| - 1];
      LeadingZeroIgnored(p);
      assert ([Zero] + s)[..|s|] == [Zero] + p;
    }
  }

  /** Several spellings parse to the same number: a leading '+' and leading
      zeros are accepted, so the number alone does not determine the text. */
  lemma NonCanonicalSpellings(s: Bytes)
    requires |s| >= 1 && AllDigits(s)
    ensures ParseInt([Plus] + s) == ParseInt(s)
    ensures ParseInt([Zero] + s) == ParseInt(s)
    ensures [Plus] + s != s && [Zero] + s != s
  {
    assert ([Plus] + s)[1..] == s;
    LeadingZeroIgnored(s);
    assert |[Plus] + s| != |s|;
  }
}
