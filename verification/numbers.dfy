/** Decimal printing and reading (std::to_chars and std::from_chars, base ten). */
module Numbers {
  import opened Text
  import opened Arithmetic

  const DIGITS := "0123456789"

  predicate IsDigit(c: char) { '0' <= c <= '9' }

  predicate AllDigits(s: string) { forall i :: 0 <= i < |s| ==> IsDigit(s[i]) }

  function DigitValue(c: char): (v: nat)
    requires IsDigit(c)
    ensures v < 10
  {
    c as nat - '0' as nat
  }

  /** to_string of a non-negative number. */
  function Decimal(n: nat): (s: string)
    ensures s != "" && AllDigits(s)
  {
    if n < 10 then [DIGITS[n]] else Decimal(n / 10) + [DIGITS[n % 10]]
  }

  function ToString(n: int): string {
    if n < 0 then "-" + Decimal(-n) else Decimal(n)
  }

  /** The number that a run of digits denotes. */
  function Value(s: string): nat
    requires AllDigits(s)
  {
    if s == "" then 0 else 10 * Value(s[..|s| - 1]) + DigitValue(s[|s| - 1])
  }

  lemma {:induction false} ValueOfDecimal(n: nat)
    ensures Value(Decimal(n)) == n
    ensures |Decimal(n)| > 1 ==> Decimal(n)[0] != '0'
  {
    var s := Decimal(n);
    if n >= 10 {
      ValueOfDecimal(n / 10);
      assert s[..|s| - 1] == Decimal(n / 10);
      assert n / 10 < 10 ==> Decimal(n / 10)[0] == DIGITS[n / 10];
    }
  }

  lemma {:induction false} ValueOfConcat(a: string, b: string)
    requires AllDigits(a) && AllDigits(b)
    ensures AllDigits(a + b)
    ensures Value(a + b) == Value(a) * Power(10, |b|) + Value(b)
    ensures Value(b) < Power(10, |b|)
  {
    if b == "" {
      assert a + b == a;
    } else {
      var b', d := b[..|b| - 1], b[|b| - 1];
      ValueOfConcat(a, b');
      assert (a + b)[..|a + b| - 1] == a + b';
      var p := Power(10, |b'|);
      Distribute(10, Value(a) * p, Value(b'));
      Reassociate(10, Value(a), p);
      Reassociate(Value(a), 10, p);
    }
  }

  /** The digits that s begins with. */
  function LeadingDigits(s: string): (d: string)
    ensures d <= s && AllDigits(d)
    ensures |d| < |s| ==> !IsDigit(s[|d|])
  {
    if s == "" || !IsDigit(s[0]) then "" else [s[0]] + LeadingDigits(s[1..])
  }

  const INT_MAX := 0x7fff_ffff

  /** from_string<int>: zero when there is no number or it does not fit. */
  function ToInt(s: string): int {
    var negative := s != "" && s[0] == '-';
    var digits := LeadingDigits(if negative then s[1..] else s);
    var v: int := Value(digits);
    if negative then (if v <= INT_MAX + 1 then -v else 0) else (if v <= INT_MAX then v else 0)
  }

  lemma {:induction false} LeadingDigitsOf(digits: string, rest: string)
    requires AllDigits(digits) && (rest == "" || !IsDigit(rest[0]))
    ensures LeadingDigits(digits + rest) == digits
  {
    if digits == "" {
      assert digits + rest == rest;
    } else {
      assert (digits + rest)[1..] == digits[1..] + rest;
      LeadingDigitsOf(digits[1..], rest);
    }
  }

  /** The number read is that of the digits, after a sign or none, up to what is no digit;
      zero when it does not fit in 32 bits, and when there are no digits. */
  lemma {:induction false} ToIntReads(digits: string, rest: string)
    requires AllDigits(digits) && (rest == "" || !IsDigit(rest[0]))
    ensures digits != "" ==>
              ToInt(digits + rest) == if Value(digits) < 0x8000_0000 then Value(digits) else 0
    ensures ToInt("-" + digits + rest) + (if Value(digits) <= 0x8000_0000 then Value(digits) else 0) == 0
    ensures digits == "" && (rest == "" || rest[0] != '-') ==> ToInt(rest) == 0
  {
    LeadingDigitsOf(digits, rest);
    assert digits != "" ==> (digits + rest)[0] == digits[0];
    assert ("-" + digits + rest)[1..] == digits + rest;
    assert digits == "" ==> digits + rest == rest;
  }

  lemma {:induction false} LeadingDigitsAll(s: string)
    requires AllDigits(s)
    ensures LeadingDigits(s) == s
  {
    if s != "" { LeadingDigitsAll(s[1..]); }
  }

  /** Printing a number that fits and reading it back. */
  lemma {:induction false} ToIntOfDecimal(n: nat)
    ensures ToInt(Decimal(n)) == n <==> n <= INT_MAX
  {
    LeadingDigitsAll(Decimal(n));
    ValueOfDecimal(n);
  }

  /** The same of numbers of either sign; only those below zero are printed with one. */
  lemma {:induction false} ToIntOfToString(n: int)
    ensures ToString(n)[0] == '-' <==> n < 0
    ensures ToInt(ToString(n)) == n <==> -0x8000_0000 <= n <= 0x7fff_ffff
  {
    hide ToInt, Value, Decimal;
    if n < 0 {
      var digits := Decimal(-n);
      ValueOfDecimal(-n);
      ToIntReads(digits, "");
      assert "-" + digits + "" == ToString(n);
    } else {
      ToIntOfDecimal(n);
    }
  }

  /** Digit strings of one length are in the order of their values. */
  lemma {:induction false} LessIsNumeric(a: string, b: string)
    requires AllDigits(a) && AllDigits(b) && |a| == |b|
    ensures Less(a, b) <==> Value(a) < Value(b)
  {
    if a != "" {
      var p := Power(10, |a| - 1);
      HeadAndTail(a);
      HeadAndTail(b);
      LessIsNumeric(a[1..], b[1..]);
      var x, y := DigitValue(a[0]), DigitValue(b[0]);
      if x < y { Step(x, y, p); }
      if y < x { Step(y, x, p); }
      hide Value, Power;
      assert a[0] < b[0] <==> x < y;
      assert a[0] == b[0] <==> x == y;
    }
  }

  lemma {:induction false} HeadAndTail(a: string)
    requires a != "" && AllDigits(a)
    ensures AllDigits(a[1..])
    ensures Value(a) == DigitValue(a[0]) * Power(10, |a| - 1) + Value(a[1..])
    ensures Value(a[1..]) < Power(10, |a| - 1)
  {
    assert a == [a[0]] + a[1..];
    assert Value([a[0]]) == DigitValue(a[0]) by { assert [a[0]][..0] == ""; }
    hide Value, Power;
    ValueOfConcat([a[0]], a[1..]);
  }

  lemma {:induction false} Step(x: nat, y: nat, p: nat)
    requires x < y
    ensures x * p + p <= y * p
  {
    Distribute(p, x, 1);
    MulLe(p, x + 1, y);
  }
}
