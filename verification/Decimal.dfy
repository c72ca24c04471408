/** Decimal numerals: strconv.ParseUint and strconv.ParseInt in base 10 with 64 bits, and strconv.FormatUint. */
module Decimal {
  import opened Text

  const TWO_63: int := 0x8000_0000_0000_0000
  const TWO_64: int := 0x1_0000_0000_0000_0000

  predicate IsDigit(c: char) {
    '0' <= c <= '9'
  }

  predicate AllDigits(s: string) {
    forall i | 0 <= i < |s| :: IsDigit(s[i])
  }

  function DigitValue(c: char): nat
    requires IsDigit(c)
  {
    (c - '0') as nat
  }

  function Value(s: string): nat
    requires AllDigits(s)
  {
    if s == "" then 0 else Value(s[..|s| - 1]) * 10 + DigitValue(s[|s| - 1])
  }

  function ParseUint(s: string): Option<nat> {
    if s != "" && AllDigits(s) && Value(s) < TWO_64 then Some(Value(s)) else None
  }

  /** An optional sign, then digits, within the signed 64-bit range. */
  function ParseInt(s: string): Option<int> {
    var negative := s != "" && s[0] == '-';
    var digits := if s != "" && (s[0] == '-' || s[0] == '+') then s[1..] else s;
    if digits == "" || !AllDigits(digits) then None
    else
      var v: int := if negative then 0 - Value(digits) else Value(digits);
      if -TWO_63 <= v < TWO_63 then Some(v) else None
  }

  /** Digits with an optional sign are read as the number they name, when that fits in 64 bits with its sign. */
  lemma SignedReads(digits: string)
    requires digits != "" && AllDigits(digits)
    ensures var n: int := Value(digits);
            && ParseInt(digits) == ParseInt("+" + digits) == (if n < 0x8000_0000_0000_0000 then Some(n) else None)
            && ParseInt("-" + digits) == (if n <= 0x8000_0000_0000_0000 then Some(-n) else None)
  {
    hide Value;
    assert ("+" + digits)[1..] == ("-" + digits)[1..] == digits;
    assert IsDigit(digits[0]);
  }

  function DigitChar(d: nat): (c: char)
    requires d < 10
    ensures IsDigit(c) && DigitValue(c) == d
  {
    '0' + d as char
  }

  function FormatUint(n: nat): (s: string)
    ensures s != "" && AllDigits(s)
  {
    if n < 10 then [DigitChar(n)] else FormatUint(n / 10) + [DigitChar(n % 10)]
  }

  lemma {:induction false} ValueOfFormat(n: nat)
    ensures Value(FormatUint(n)) == n
  {
    var s := FormatUint(n);
    if n < 10 {
      assert s[..0] == "";
    } else {
      ValueOfFormat(n / 10);
      assert s[..|s| - 1] == FormatUint(n / 10);
    }
  }

  lemma ParseUintOfFormat(n: nat)
    ensures ParseUint(FormatUint(n)) == if n < 0x1_0000_0000_0000_0000 then Some(n) else None
  {
    ValueOfFormat(n);
  }

  /** Distinct numbers print as distinct numerals. */
  lemma FormatInjective(m: nat, n: nat)
    requires FormatUint(m) == FormatUint(n)
    ensures m == n
  {
    ValueOfFormat(m);
    ValueOfFormat(n);
  }

  /** A numeral holds no whitespace, so trimming it changes nothing. */
  lemma NumeralIsTrimmed(s: string)
    requires ParseUint(s).Some?
    ensures TrimSpace(s) == s && s != ""
  {
    assert IsDigit(s[0]) && IsDigit(s[|s| - 1]);
    TrimSpaceOfTrimmed(s);
  }
}
