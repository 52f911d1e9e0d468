/** Decimal text: std::to_string on integers, and reading digits back. */
module Decimal {

  predicate IsDigit(c: char) { '0' <= c <= '9' }

  function DigitChar(d: nat): (c: char)
    requires d < 10
    ensures IsDigit(c)
  {
    (d + '0' as int) as char
  }

  function DigitValue(c: char): nat
    requires IsDigit(c)
  {
    c as int - '0' as int
  }

  function Digits(n: nat): string {
    if n < 10 then [DigitChar(n)] else Digits(n / 10) + [DigitChar(n % 10)]
  }

  function IntText(n: int): string {
    if n < 0 then "-" + Digits(-n) else Digits(n)
  }

  predicate AllDigits(s: string) { forall i :: 0 <= i < |s| ==> IsDigit(s[i]) }

  function Value(s: string): nat
    requires AllDigits(s)
  {
    if s == "" then 0 else Value(s[..|s|-1]) * 10 + DigitValue(s[|s|-1])
  }

  /** How many characters at the front are digits. */
  function LeadingDigits(s: string): (n: nat)
    ensures n <= |s| && AllDigits(s[..n]) && (n < |s| ==> !IsDigit(s[n]))
  {
    if s == "" || !IsDigit(s[0]) then 0 else
    var n := 1 + LeadingDigits(s[1..]);
    assert s[..n] == [s[0]] + s[1..][..n-1];
    n
  }

  lemma DigitAdded(front: string, last: char)
    requires AllDigits(front) && IsDigit(last)
    ensures AllDigits(front + [last]) && Value(front + [last]) == Value(front) * 10 + DigitValue(last)
  {
    assert (front + [last])[..|front|] == front;
  }

  lemma {:induction false} DigitsRead(n: nat)
    ensures AllDigits(Digits(n)) && |Digits(n)| >= 1 && Value(Digits(n)) == n
    ensures Digits(n)[0] == '0' <==> n == 0
  {
    if n < 10 {
      assert [DigitChar(n)][..0] == "";
    } else {
      var front, last := Digits(n / 10), DigitChar(n % 10);
      assert Digits(n) == front + [last] && n / 10 > 0;
      hide Digits;
      DigitsRead(n / 10);
      DigitAdded(front, last);
    }
  }

  lemma {:induction false} LeadingDigitsOf(s: string, rest: string)
    requires AllDigits(s) && (rest == "" || !IsDigit(rest[0]))
    ensures LeadingDigits(s + rest) == |s|
  {
    if s == "" {
      assert s + rest == rest;
    } else {
      assert (s + rest)[1..] == s[1..] + rest;
      LeadingDigitsOf(s[1..], rest);
    }
  }
}
