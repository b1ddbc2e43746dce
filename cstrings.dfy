/** The two C library conversions the server relies on: `atoi`, which reads
    the leading decimal integer of a payload, and `snprintf("%d")`, which
    writes the authentication code into the AUTH_CODE payload. */
module CStrings {
  import opened Protocol

  predicate IsDigit(c: CChar) {
    '0' <= c <= '9'
  }

  /** The characters `isspace` accepts in the C locale. */
  predicate IsSpace(c: CChar) {
    c == ' ' || c == '\t' || c == '\n' || c == '\U{000B}' || c == '\U{000C}' || c == '\r'
  }

  predicate AllDigits(s: Text) {
    forall k :: 0 <= k < |s| ==> IsDigit(s[k])
  }

  function DigitValue(c: CChar): (d: int)
    requires IsDigit(c)
    ensures 0 <= d < 10
  {
    c as int - '0' as int
  }

  function DigitChar(d: int): (c: CChar)
    requires 0 <= d < 10
    ensures IsDigit(c) && DigitValue(c) == d
  {
    ('0' as int + d) as char
  }

  /** The leading whitespace `atoi` skips is gone from the result. */
  function SkipSpaces(s: Text): (r: Text)
    ensures |r| <= |s| && r == s[|s| - |r|..]
    ensures forall k :: 0 <= k < |s| - |r| ==> IsSpace(s[k])
    ensures r == [] || !IsSpace(r[0])
  {
    if s != [] && IsSpace(s[0]) then SkipSpaces(s[1..]) else s
  }

  /** The longest prefix of `s` made of decimal digits. */
  function LeadingDigits(s: Text): (r: Text)
    ensures |r| <= |s| && r == s[..|r|]
    ensures AllDigits(r)
    ensures |r| < |s| ==> !IsDigit(s[|r|])
  {
    if s != [] && IsDigit(s[0]) then [s[0]] + LeadingDigits(s[1..]) else []
  }

  /** The value of a digit string, most significant digit first. */
  function DigitsValue(d: Text): nat
    requires AllDigits(d)
  {
    if d == [] then 0 else DigitsValue(d[..|d| - 1]) * 10 + DigitValue(d[|d| - 1])
  }

  /** `atoi`: skip whitespace, take an optional sign, read the digits that
      follow and stop at the first other character; no digits read as 0. */
  function Atoi(s: Text): int {
    var t := SkipSpaces(s);
    if t != [] && t[0] == '-' then 0 - DigitsValue(LeadingDigits(t[1..])) as int
    else if t != [] && t[0] == '+' then DigitsValue(LeadingDigits(t[1..]))
    else DigitsValue(LeadingDigits(t))
  }

  /** `snprintf("%d", n)` for a non-negative `n`: its decimal digits
      with no leading zero. */
  function Decimal(n: nat): (r: Text)
    ensures |r| >= 1 && AllDigits(r) && IsCString(r)
    ensures |r| > 1 ==> r[0] != '0'
  {
    if n < 10 then [DigitChar(n)] else Decimal(n / 10) + [DigitChar(n % 10)]
  }

  lemma {:induction false} DigitsValueDecimal(n: nat)
    ensures DigitsValue(Decimal(n)) == n
  {
    if n >= 10 {
      DigitsValueDecimal(n / 10);
      var r := Decimal(n);
      assert r[..|r| - 1] == Decimal(n / 10);
    }
  }

  /** A digit string followed by anything that is not a digit reads back
      as exactly that digit string. */
  lemma {:induction false} LeadingDigitsStop(d: Text, rest: Text)
    requires AllDigits(d)
    requires rest == [] || !IsDigit(rest[0])
    ensures LeadingDigits(d + rest) == d
  {
    if d != [] {
      LeadingDigitsStop(d[1..], rest);
      assert (d + rest)[1..] == d[1..] + rest;
    }
  }

  /** `atoi` undoes `snprintf("%d")`: the number written at the front of a
      payload is read back, whatever non-digit text follows it. */
  lemma AtoiDecimal(n: nat, rest: Text)
    requires rest == [] || !IsDigit(rest[0])
    ensures Atoi(Decimal(n) + rest) == n
  {
    var d := Decimal(n);
    assert (d + rest)[0] == d[0];
    AtoiDigitStart(d + rest);
    LeadingDigitsStop(d, rest);
    DigitsValueDecimal(n);
  }

  /** Text that starts with a digit is read by its leading digits alone:
      no whitespace to skip and no sign. */
  lemma AtoiDigitStart(s: Text)
    requires s != [] && IsDigit(s[0])
    ensures Atoi(s) == DigitsValue(LeadingDigits(s)) as int
  {
    assert !IsSpace(s[0]);
    assert SkipSpaces(s) == s;
  }

  /** Numbers from 1000 to 9999 print as exactly four digits. */
  lemma FourDigits(n: nat)
    requires 1000 <= n <= 9999
    ensures |Decimal(n)| == 4
  {
    assert |Decimal(n / 1000)| == 1;
    assert |Decimal(n / 100)| == 2;
    assert |Decimal(n / 10)| == 3;
  }
}
