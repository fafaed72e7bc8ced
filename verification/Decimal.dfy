/** Natural numbers in decimal, as the formatters print them. */
module Decimal {
  predicate IsDigit(c: char)
  {
    '0' <= c <= '9'
  }

  function Digit(d: nat): (c: char)
    requires d < 10
    ensures IsDigit(c) && c as int - '0' as int == d
  {
    ('0' as int + d) as char
  }

  function Print(n: nat): (s: string)
    ensures |s| > 0 && forall k :: 0 <= k < |s| ==> IsDigit(s[k])
  {
    if n < 10 then [Digit(n)] else Print(n / 10) + [Digit(n % 10)]
  }

  function DigitValue(c: char): (d: nat)
    requires IsDigit(c)
  {
    c as int - '0' as int
  }

  function Value(s: string): nat
    requires forall k :: 0 <= k < |s| ==> IsDigit(s[k])
  {
    if s == [] then 0 else 10 * Value(s[..|s| - 1]) + DigitValue(s[|s| - 1])
  }

  /** Printing loses nothing. */
  lemma {:induction false} ValueOfPrint(n: nat)
    ensures Value(Print(n)) == n
  {
    var s := Print(n);
    if n < 10 {
      assert s[..|s| - 1] == [];
    } else {
      ValueOfPrint(n / 10);
      assert s[..|s| - 1] == Print(n / 10);
    }
  }

  predicate AllDigits(s: string)
  {
    forall k :: 0 <= k < |s| ==> IsDigit(s[k])
  }

  /** Digits written after a positive number make a larger one. */
  lemma {:induction false} MoreDigits(a: string, b: string)
    requires AllDigits(a) && AllDigits(b)
    ensures AllDigits(a + b) && Value(a + b) >= Value(a)
    ensures b != [] && Value(a) > 0 ==> Value(a + b) > Value(a)
    decreases |b|
  {
    if b == [] {
      assert a + b == a;
    } else {
      var s := a + b;
      assert s[..|s| - 1] == a + b[..|b| - 1] && s[|s| - 1] == b[|b| - 1];
      MoreDigits(a, b[..|b| - 1]);
    }
  }
}

/** The white space of Python's `\s` and `str.strip`, among ASCII characters. */
module WhiteSpace {
  predicate IsSpace(c: char)
  {
    c == ' ' || 9 <= c as int <= 13 || 28 <= c as int <= 31
  }
}
