/** Decimal numerals: how a number is written, and what a string of digits is worth. */
module Decimal {

  predicate IsDigit(c: char) {
    '0' <= c <= '9'
  }

  predicate AllDigits(s: string) {
    forall k :: 0 <= k < |s| ==> IsDigit(s[k])
  }

  /** A numeral without leading zeros. */
  predicate IsNumeral(s: string) {
    s != [] && AllDigits(s) && (|s| > 1 ==> s[0] != '0')
  }

  function DigitChar(d: nat): (c: char)
    requires d < 10
    ensures IsDigit(c) && c as int == '0' as int + d
  {
    '0' + d as char
  }

  function DigitValue(c: char): (d: nat)
    requires IsDigit(c)
  {
    c as int - '0' as int
  }

  function Value(s: string): nat
    requires AllDigits(s)
  {
    if s == [] then 0 else Value(s[..|s| - 1]) * 10 + DigitValue(s[|s| - 1])
  }

  /** `n` as std::to_string() and QString::number() write it. */
  function Dec(n: nat): string {
    if n < 10 then [DigitChar(n)] else Dec(n / 10) + [DigitChar(n % 10)]
  }

  function Pow10(n: nat): (p: nat)
    ensures p > 0
  {
    if n == 0 then 1 else 10 * Pow10(n - 1)
  }

  lemma {:induction false} DecIsNumeral(n: nat)
    ensures IsNumeral(Dec(n)) && Value(Dec(n)) == n && (n > 0 ==> Dec(n)[0] != '0')
  {
    if n >= 10 {
      DecIsNumeral(n / 10);
      assert Dec(n)[..|Dec(n)| - 1] == Dec(n / 10);
    } else {
      assert Value([]) == 0;
      assert Dec(n)[..0] == [];
    }
  }

  lemma DecIsWritten(n: nat)
    ensures IsNumeral(Dec(n))
  {
    DecIsNumeral(n);
  }

  lemma {:induction false} ValueBounds(s: string)
    requires AllDigits(s)
    ensures Value(s) < Pow10(|s|)
    ensures s != [] && s[0] != '0' ==> Pow10(|s| - 1) <= Value(s)
  {
    if s != [] {
      ValueBounds(s[..|s| - 1]);
    }
  }

  lemma {:induction false} Pow10Grows(m: nat, n: nat)
    requires m <= n
    ensures Pow10(m) <= Pow10(n)
  {
    if m < n {
      Pow10Grows(m, n - 1);
    }
  }

  /** The shorter of two numerals is the smaller number. */
  lemma ShorterIsSmaller(a: string, b: string)
    requires IsNumeral(a) && IsNumeral(b) && |a| < |b|
    ensures Value(a) < Value(b)
  {
    ValueBounds(a);
    ValueBounds(b);
    Pow10Grows(|a|, |b| - 1);
  }

  /** Digit strings of one length, compared digit by digit. */
  predicate Leq(a: string, b: string)
    requires |a| == |b|
  {
    a == [] || a[0] < b[0] || (a[0] == b[0] && Leq(a[1..], b[1..]))
  }

  lemma {:induction false} LeqLast(a: string, b: string)
    requires |a| == |b| > 0
    ensures var m := |a| - 1;
            Leq(a, b) <==> (a[..m] != b[..m] && Leq(a[..m], b[..m])) || (a[..m] == b[..m] && a[m] <= b[m])
  {
    var m := |a| - 1;
    if m > 0 {
      LeqLast(a[1..], b[1..]);
      assert a[1..][..m - 1] == a[..m][1..] && b[1..][..m - 1] == b[..m][1..];
      assert a[..m] == [a[0]] + a[..m][1..] && b[..m] == [b[0]] + b[..m][1..];
    }
  }

  /** Comparing digit by digit is comparing the numbers. */
  lemma {:induction false} LeqIsValueOrder(a: string, b: string)
    requires |a| == |b| && AllDigits(a) && AllDigits(b)
    ensures Leq(a, b) <==> Value(a) <= Value(b)
    ensures Value(a) == Value(b) <==> a == b
  {
    if a != [] {
      var m := |a| - 1;
      LeqIsValueOrder(a[..m], b[..m]);
      LeqLast(a, b);
      assert a == a[..m] + [a[m]] && b == b[..m] + [b[m]];
    }
  }

  /** A number has one numeral. */
  lemma NumeralUnique(a: string, b: string)
    requires IsNumeral(a) && IsNumeral(b)
    ensures a == b <==> Value(a) == Value(b)
  {
    if |a| < |b| {
      ShorterIsSmaller(a, b);
    } else if |b| < |a| {
      ShorterIsSmaller(b, a);
    } else {
      LeqIsValueOrder(a, b);
    }
  }
}
