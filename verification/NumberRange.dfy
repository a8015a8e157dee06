/** The digit-by-digit patterns of numeric ranges (src/display_filter.cpp). */
module NumberRange {
  import opened Options
  import opened Regex
  import opened Decimal

  /** UINT64_MAX, which as an upper end means that there is none. */
  const Unbounded: nat := 0xFFFF_FFFF_FFFF_FFFF

  function Repeat(c: char, n: nat): (s: string)
    ensures |s| == n && forall k :: 0 <= k < n ==> s[k] == c
  {
    seq(n, _ => c)
  }

  function DigitClass(low: char, high: char): Re {
    if low == high then Chars(One(low)) else Chars(Range(low, high))
  }

  predicate AllAre(c: char, s: string) {
    forall k :: 0 <= k < |s| ==> s[k] == c
  }

  /** The pattern of the digit strings from `low` to `high`, both as long. */
  function DigitsRange(low: string, high: string): Re
    requires |low| == |high| && AllDigits(low) && AllDigits(high)
    decreases |low|
  {
    if low == high then Literal(low)
    else if low[0] == high[0] then Then(Chars(One(low[0])), DigitsRange(low[1..], high[1..]))
    else AnyOf(LowPart(low, high) + MiddlePart(low, high) + HighPart(low, high))
  }

  /** The strings that begin with the first digit of `low`, unless they are all in the range. */
  function LowPart(low: string, high: string): seq<Re>
    requires |low| == |high| > 0 && AllDigits(low) && AllDigits(high)
    decreases |low|, 0
  {
    if AllAre('0', low[1..]) then []
    else [Then(Chars(One(low[0])), DigitsRange(low[1..], Repeat('9', |low| - 1)))]
  }

  /** The strings whose first digit alone puts them in the range. */
  function MiddlePart(low: string, high: string): seq<Re>
    requires |low| == |high| > 0 && AllDigits(low) && AllDigits(high)
  {
    var from := if AllAre('0', low[1..]) then low[0] else low[0] + 1 as char;
    var to := if AllAre('9', high[1..]) then high[0] else high[0] - 1 as char;
    if from <= to then [Then(DigitClass(from, to), Times(Chars(Digit), |low| - 1))] else []
  }

  function HighPart(low: string, high: string): seq<Re>
    requires |low| == |high| > 0 && AllDigits(low) && AllDigits(high)
    decreases |low|, 0
  {
    if AllAre('9', high[1..]) then []
    else [Then(Chars(One(high[0])), DigitsRange(Repeat('0', |low| - 1), high[1..]))]
  }

  lemma {:induction false} ZerosAreLeast(zeros: string, w: string)
    requires |zeros| == |w| && AllAre('0', zeros) && AllDigits(w)
    ensures Leq(zeros, w)
    ensures Leq(w, zeros) <==> w == zeros
  {
    if w != [] {
      ZerosAreLeast(zeros[1..], w[1..]);
      assert w == [w[0]] + w[1..] && zeros == [zeros[0]] + zeros[1..];
    }
  }

  lemma {:induction false} NinesAreGreatest(nines: string, w: string)
    requires |nines| == |w| && AllAre('9', nines) && AllDigits(w)
    ensures Leq(w, nines)
    ensures Leq(nines, w) <==> w == nines
  {
    if w != [] {
      NinesAreGreatest(nines[1..], w[1..]);
      assert w == [w[0]] + w[1..] && nines == [nines[0]] + nines[1..];
    }
  }

  /** A first character, then the rest. */
  lemma FirstThen(cs: CharSet, r: Re, s: string, i: nat, j: nat)
    ensures M(Then(Chars(cs), r), s, i, j) <==> i < |s| && Has(cs, s[i]) && M(r, s, i + 1, j)
  {
    if M(Then(Chars(cs), r), s, i, j) {
      var k := ThenSplit(Chars(cs), r, s, i, j);
    }
    if i < |s| && Has(cs, s[i]) && M(r, s, i + 1, j) {
      ThenIntro(Chars(cs), r, s, i, i + 1, j);
    }
  }

  lemma {:induction false} LeqReflexive(a: string)
    ensures Leq(a, a)
  {
    if a != [] {
      LeqReflexive(a[1..]);
    }
  }

  lemma {:induction false} LeqAntisymmetric(a: string, b: string)
    requires |a| == |b| && Leq(a, b) && Leq(b, a)
    ensures a == b
  {
    if a != [] {
      LeqAntisymmetric(a[1..], b[1..]);
      assert a == [a[0]] + a[1..] && b == [b[0]] + b[1..];
    }
  }

  /** `s[i..j]` is a digit string from `low` to `high`, as long as they are. */
  ghost predicate InRange(low: string, high: string, s: string, i: nat, j: nat)
    requires |low| == |high|
  {
    i + |low| == j <= |s| && AllIn(Digit, s, i, j) && Leq(low, s[i..j]) && Leq(s[i..j], high)
  }

  /** The digits-range pattern matches the digit strings of the range and no other. */
  lemma {:induction false} DigitsRangeExact(low: string, high: string, s: string, i: nat, j: nat)
    requires |low| == |high| && AllDigits(low) && AllDigits(high) && Leq(low, high)
    ensures M(DigitsRange(low, high), s, i, j) <==> InRange(low, high, s, i, j)
    decreases |low|
  {
    if low == high {
      LiteralMatches(low, s, i, j);
      LeqReflexive(low);
      if InRange(low, high, s, i, j) {
        LeqAntisymmetric(low, s[i..j]);
      }
    } else if low[0] == high[0] {
      var r := DigitsRange(low[1..], high[1..]);
      FirstThen(One(low[0]), r, s, i, j);
      DigitsRangeExact(low[1..], high[1..], s, i + 1, j);
      Rest(low, s, i, j);
    } else {
      PartsExact(low, high, s, i, j);
      var parts := LowPart(low, high) + MiddlePart(low, high) + HighPart(low, high);
      AnyOfMatches(parts, s, i, j);
    }
  }

  /** `s[i..j]` is its first character and the rest. */
  lemma Rest(low: string, s: string, i: nat, j: nat)
    ensures i < j <= |s| ==> s[i..j] != [] && s[i..j][0] == s[i] && s[i..j][1..] == s[i + 1..j]
  {
  }

  /** `s[i..j]` is a string of `n` digits. */
  ghost predicate DigitsOf(n: nat, s: string, i: nat, j: nat) {
    i + n == j <= |s| && AllIn(Digit, s, i, j)
  }

  lemma LowPartExact(low: string, high: string, s: string, i: nat, j: nat)
    requires |low| == |high| > 0 && AllDigits(low) && AllDigits(high) && low[0] < high[0]
    ensures LowPart(low, high) != [] && M(LowPart(low, high)[0], s, i, j) <==>
            LowPart(low, high) != [] && DigitsOf(|low|, s, i, j) && s[i] == low[0] && Leq(low[1..], s[i + 1..j])
    decreases |low|, 0
  {
    if LowPart(low, high) != [] {
      var nines := Repeat('9', |low| - 1);
      FirstThen(One(low[0]), DigitsRange(low[1..], nines), s, i, j);
      NinesAreGreatest(nines, low[1..]);
      DigitsRangeExact(low[1..], nines, s, i + 1, j);
      if DigitsOf(|low| - 1, s, i + 1, j) {
        NinesAreGreatest(nines, s[i + 1..j]);
      }
    }
  }

  lemma HighPartExact(low: string, high: string, s: string, i: nat, j: nat)
    requires |low| == |high| > 0 && AllDigits(low) && AllDigits(high) && low[0] < high[0]
    ensures HighPart(low, high) != [] && M(HighPart(low, high)[0], s, i, j) <==>
            HighPart(low, high) != [] && DigitsOf(|low|, s, i, j) && s[i] == high[0] && Leq(s[i + 1..j], high[1..])
    decreases |low|, 0
  {
    if HighPart(low, high) != [] {
      var zeros := Repeat('0', |low| - 1);
      FirstThen(One(high[0]), DigitsRange(zeros, high[1..]), s, i, j);
      ZerosAreLeast(zeros, high[1..]);
      DigitsRangeExact(zeros, high[1..], s, i + 1, j);
      if DigitsOf(|low| - 1, s, i + 1, j) {
        ZerosAreLeast(zeros, s[i + 1..j]);
      }
    }
  }

  lemma MiddlePartExact(low: string, high: string, s: string, i: nat, j: nat)
    requires |low| == |high| > 0 && AllDigits(low) && AllDigits(high) && low[0] < high[0]
    ensures MiddlePart(low, high) != [] && M(MiddlePart(low, high)[0], s, i, j) <==>
            && DigitsOf(|low|, s, i, j)
            && (low[0] < s[i] || (AllAre('0', low[1..]) && low[0] == s[i]))
            && (s[i] < high[0] || (AllAre('9', high[1..]) && high[0] == s[i]))
  {
    var from := if AllAre('0', low[1..]) then low[0] else low[0] + 1 as char;
    var to := if AllAre('9', high[1..]) then high[0] else high[0] - 1 as char;
    if from <= to {
      var cs := if from == to then One(from) else Range(from, to);
      FirstThen(cs, Times(Chars(Digit), |low| - 1), s, i, j);
      TimesMatches(Digit, |low| - 1, s, i + 1, j);
    }
  }

  /** The three parts together are the range. */
  lemma PartsExact(low: string, high: string, s: string, i: nat, j: nat)
    requires |low| == |high| > 0 && AllDigits(low) && AllDigits(high) && low[0] < high[0]
    ensures InRange(low, high, s, i, j) <==>
            || (LowPart(low, high) != [] && M(LowPart(low, high)[0], s, i, j))
            || (MiddlePart(low, high) != [] && M(MiddlePart(low, high)[0], s, i, j))
            || (HighPart(low, high) != [] && M(HighPart(low, high)[0], s, i, j))
    decreases |low|, 1
  {
    LowPartExact(low, high, s, i, j);
    MiddlePartExact(low, high, s, i, j);
    HighPartExact(low, high, s, i, j);
    Rest(low, s, i, j);
    if DigitsOf(|low|, s, i, j) {
      var rest := s[i + 1..j];
      if AllAre('0', low[1..]) {
        ZerosAreLeast(low[1..], rest);
      }
      if AllAre('9', high[1..]) {
        NinesAreGreatest(high[1..], rest);
      }
    }
  }

  // ── A range of numbers ──

  /** The pattern of the numbers of `digits` digits in the range. */
  function OfDigits(low: nat, high: nat, digits: nat): Re
    requires low <= high && |Dec(low)| <= digits
    requires high != Unbounded ==> digits <= |Dec(high)|
    requires high == Unbounded ==> digits == |Dec(low)|
  {
    DecIsNumeral(low);
    DecIsNumeral(high);
    DigitsRange(From(low, digits), To(high, digits))
  }

  function From(low: nat, digits: nat): (s: string)
    requires digits > 0
  {
    DecIsNumeral(low);
    if digits == |Dec(low)| then Dec(low) else "1" + Repeat('0', digits - 1)
  }

  function To(high: nat, digits: nat): (s: string) {
    if high != Unbounded && digits == |Dec(high)| then Dec(high) else Repeat('9', digits)
  }

  function Longest(low: nat, high: nat): nat {
    if high == Unbounded then |Dec(low)| else |Dec(high)|
  }

  lemma LongestIsLonger(low: nat, high: nat)
    requires low <= high
    ensures 0 < |Dec(low)| <= Longest(low, high)
  {
    DecIsNumeral(low);
    DecIsNumeral(high);
    if |Dec(high)| < |Dec(low)| {
      ShorterIsSmaller(Dec(high), Dec(low));
    }
  }

  /** The numbers with more digits than `low`: `[1-9]\d{digits,}`. */
  function Longer(digits: nat): Re {
    Then(Chars(Range('1', '9')), Then(Times(Chars(Digit), digits), Star(Chars(Digit))))
  }

  /** The alternatives of the pattern, shortest numbers first. */
  function Parts(low: nat, high: nat): (parts: seq<Re>)
    requires low <= high
    ensures parts != []
  {
    LongestIsLonger(low, high);
    var shortest := |Dec(low)|;
    seq(Longest(low, high) - shortest + 1, k requires 0 <= k <= Longest(low, high) - shortest => OfDigits(low, high, shortest + k))
    + (if high == Unbounded then [Longer(shortest)] else [])
  }

  function NumberRangePattern(low: nat, high: nat): Option<Re> {
    if low > high then None else Some(AnyOf(Parts(low, high)))
  }

  /** Writing the pattern, the numbers of each length in turn. */
  method WriteNumberRange(low: nat, high: nat) returns (pattern: Option<Re>)
    ensures pattern == NumberRangePattern(low, high)
  {
    hide Dec, OfDigits, AnyOf;
    if low > high {
      return None;
    }
    LongestIsLonger(low, high);
    var unbounded := high == Unbounded;
    var lowDigits := |Dec(low)|;
    var highDigits := if unbounded then lowDigits else |Dec(high)|;
    var parts := [];
    for digits := lowDigits to highDigits + 1
      invariant |parts| == digits - lowDigits
      invariant forall k :: 0 <= k < |parts| ==> parts[k] == OfDigits(low, high, lowDigits + k)
    {
      parts := parts + [OfDigits(low, high, digits)];
    }
    if unbounded {
      parts := parts + [Longer(lowDigits)];
    }
    assert parts == Parts(low, high);
    pattern := Some(AnyOf(parts));
  }

  /** `s[i..j]` is a numeral worth a number from `low` to `high`. */
  ghost predicate NumberIn(low: nat, high: nat, s: string, i: nat, j: nat) {
    && i <= j <= |s| && IsNumeral(s[i..j])
    && low <= Value(s[i..j]) && (high == Unbounded || Value(s[i..j]) <= high)
  }

  lemma FromIsLeast(low: nat, digits: nat, w: string)
    requires IsNumeral(w) && |w| == digits && |Dec(low)| <= digits
    ensures AllDigits(From(low, digits)) && |From(low, digits)| == digits
    ensures Leq(From(low, digits), w) <==> low <= Value(w)
  {
    DecIsNumeral(low);
    if digits == |Dec(low)| {
      LeqIsValueOrder(Dec(low), w);
    } else {
      ShorterIsSmaller(Dec(low), w);
      ZerosAreLeast(Repeat('0', digits - 1), w[1..]);
      assert From(low, digits)[1..] == Repeat('0', digits - 1);
    }
  }

  lemma ToIsGreatest(high: nat, digits: nat, w: string)
    requires IsNumeral(w) && |w| == digits && (high == Unbounded || digits <= |Dec(high)|)
    ensures AllDigits(To(high, digits)) && |To(high, digits)| == digits
    ensures Leq(w, To(high, digits)) <==> high == Unbounded || Value(w) <= high
  {
    DecIsNumeral(high);
    if high != Unbounded && digits == |Dec(high)| {
      LeqIsValueOrder(w, Dec(high));
    } else {
      NinesAreGreatest(Repeat('9', digits), w);
      if high != Unbounded {
        ShorterIsSmaller(w, Dec(high));
      }
    }
  }

  lemma OfDigitsExact(low: nat, high: nat, digits: nat, s: string, i: nat, j: nat)
    requires low <= high && |Dec(low)| <= digits
    requires if high == Unbounded then digits == |Dec(low)| else digits <= |Dec(high)|
    ensures M(OfDigits(low, high, digits), s, i, j) <==> j == i + digits && NumberIn(low, high, s, i, j)
  {
    FromToInOrder(low, high, digits);
    var from, to := From(low, digits), To(high, digits);
    DigitsRangeExact(from, to, s, i, j);
    if DigitsOf(digits, s, i, j) {
      var w := s[i..j];
      DecIsNumeral(low);
      if Leq(from, w) {
        assert IsNumeral(w);
      }
      if IsNumeral(w) {
        FromIsLeast(low, digits, w);
        ToIsGreatest(high, digits, w);
      }
    }
    if j == i + digits && NumberIn(low, high, s, i, j) {
      assert forall k :: i <= k < j ==> s[k] == s[i..j][k - i];
      assert DigitsOf(digits, s, i, j);
    }
  }

  lemma FromToInOrder(low: nat, high: nat, digits: nat)
    requires low <= high && |Dec(low)| <= digits
    requires if high == Unbounded then digits == |Dec(low)| else digits <= |Dec(high)|
    ensures AllDigits(From(low, digits)) && AllDigits(To(high, digits))
    ensures |From(low, digits)| == digits == |To(high, digits)|
    ensures Leq(From(low, digits), To(high, digits))
  {
    DecIsNumeral(low);
    DecIsNumeral(high);
    if high != Unbounded && digits == |Dec(high)| {
      FromIsLeast(low, digits, Dec(high));
    } else {
      NinesAreGreatest(To(high, digits), From(low, digits));
    }
  }

  lemma LongerExact(low: nat, s: string, i: nat, j: nat)
    ensures M(Longer(|Dec(low)|), s, i, j) <==> j > i + |Dec(low)| && NumberIn(low, Unbounded, s, i, j)
  {
    DecIsNumeral(low);
    LongerMatches(|Dec(low)|, s, i, j);
    if i <= j <= |s| && IsNumeral(s[i..j]) && j > i + |Dec(low)| {
      ShorterIsSmaller(Dec(low), s[i..j]);
    }
  }

  lemma LongerMatches(digits: nat, s: string, i: nat, j: nat)
    requires digits > 0
    ensures M(Longer(digits), s, i, j) <==> j > i + digits && j <= |s| && IsNumeral(s[i..j])
  {
    var some, more := Times(Chars(Digit), digits), Star(Chars(Digit));
    FirstThen(Range('1', '9'), Then(some, more), s, i, j);
    if M(Longer(digits), s, i, j) {
      var k := ThenSplit(some, more, s, i + 1, j);
      TimesMatches(Digit, digits, s, i + 1, k);
      StarMatches(Digit, s, k, j);
      assert AllIn(Digit, s, i, j);
    }
    if j > i + digits && j <= |s| && IsNumeral(s[i..j]) {
      assert s[i] == s[i..j][0];
      assert forall k :: i <= k < j ==> s[k] == s[i..j][k - i];
      TimesMatches(Digit, digits, s, i + 1, i + 1 + digits);
      StarMatches(Digit, s, i + 1 + digits, j);
      ThenIntro(some, more, s, i + 1, i + 1 + digits, j);
    }
  }

  /** The `k`th alternative matches the numbers of the range that have as many digits as it is for. */
  lemma PartExact(low: nat, high: nat, k: nat, s: string, i: nat, j: nat)
    requires low <= high && k < |Parts(low, high)|
    ensures M(Parts(low, high)[k], s, i, j) <==>
            && NumberIn(low, high, s, i, j)
            && if |Dec(low)| + k <= Longest(low, high) then j == i + |Dec(low)| + k else j > i + Longest(low, high)
  {
    LongestIsLonger(low, high);
    if |Dec(low)| + k <= Longest(low, high) {
      OfDigitsExact(low, high, |Dec(low)| + k, s, i, j);
    } else {
      LongerExact(low, s, i, j);
    }
  }

  /** The pattern of a range matches the numerals of the range and no other text:
    * there is none exactly when the range is empty, and an upper end of UINT64_MAX is no bound. */
  lemma NumberRangeExact(low: nat, high: nat, s: string, i: nat, j: nat)
    ensures NumberRangePattern(low, high).None? <==> high < low
    ensures low <= high ==>
              (M(NumberRangePattern(low, high).value, s, i, j) <==> NumberIn(low, high, s, i, j))
  {
    if low <= high {
      var parts := Parts(low, high);
      AnyOfMatches(parts, s, i, j);
      if M(AnyOf(parts), s, i, j) {
        var k :| 0 <= k < |parts| && M(parts[k], s, i, j);
        PartExact(low, high, k, s, i, j);
      }
      if NumberIn(low, high, s, i, j) {
        LongestIsLonger(low, high);
        LengthInRange(low, high, s[i..j]);
        var k := if j - i <= Longest(low, high) then j - i - |Dec(low)| else |parts| - 1;
        PartExact(low, high, k, s, i, j);
        assert M(parts[k], s, i, j);
      }
    }
  }

  /** A number of the range has at least as many digits as its lower end, and no more than its upper. */
  lemma LengthInRange(low: nat, high: nat, w: string)
    requires low <= high && IsNumeral(w) && low <= Value(w) && (high == Unbounded || Value(w) <= high)
    ensures |Dec(low)| <= |w| && (high != Unbounded ==> |w| <= |Dec(high)|)
  {
    DecIsNumeral(low);
    DecIsNumeral(high);
    if |w| < |Dec(low)| {
      ShorterIsSmaller(w, Dec(low));
    }
    if high != Unbounded && |w| > |Dec(high)| {
      ShorterIsSmaller(Dec(high), w);
    }
  }
}
