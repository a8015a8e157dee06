/** Patterns that match wherever others do, and the words that values are. */
module Patterns {
  import opened Options
  import opened Regex
  import opened NumberRange
  import opened Decimal
  import opened FilterExpression
  import opened FilterTranslation

  // ── Patterns that match wherever others do ──

  ghost predicate Within(a: Re, b: Re, s: string) {
    forall i: nat, j: nat :: M(a, s, i, j) ==> M(b, s, i, j)
  }

  ghost predicate BeginsWithin(a: Re, b: Re, s: string) {
    forall i: nat :: Begins(a, s, i) ==> Begins(b, s, i)
  }

  lemma BeginsThen(a: Re, b: Re, s: string, i: nat)
    ensures Begins(Then(a, b), s, i) <==> exists k: nat :: M(a, s, i, k) && Begins(b, s, k)
  {
    if Begins(Then(a, b), s, i) {
      var j: nat :| i <= j <= |s| && M(Then(a, b), s, i, j);
      var k := ThenSplit(a, b, s, i, j);
    }
    if k: nat :| M(a, s, i, k) && Begins(b, s, k) {
      var j: nat :| k <= j <= |s| && M(b, s, k, j);
      ThenIntro(a, b, s, i, k, j);
    }
  }

  lemma ThenWithin(a: Re, a': Re, b: Re, b': Re, s: string)
    requires Within(a, a', s) && Within(b, b', s)
    ensures Within(Then(a, b), Then(a', b'), s)
  {
    forall i: nat, j: nat | M(Then(a, b), s, i, j)
      ensures M(Then(a', b'), s, i, j)
    {
      var k := ThenSplit(a, b, s, i, j);
      ThenIntro(a', b', s, i, k, j);
    }
  }

  lemma ThenBeginsWithin(a: Re, a': Re, b: Re, b': Re, s: string)
    requires Within(a, a', s) && BeginsWithin(b, b', s)
    ensures BeginsWithin(Then(a, b), Then(a', b'), s)
  {
    forall i: nat | Begins(Then(a, b), s, i)
      ensures Begins(Then(a', b'), s, i)
    {
      BeginsThen(a, b, s, i);
      BeginsThen(a', b', s, i);
    }
  }

  /** A line with particular columns is a packet line. */
  lemma ColumnsWithin(stream: Re, addresses: Re, protocol: Re, length: Re, info: Re, s: string)
    requires Within(stream, Word, s) && Within(addresses, AnyPair, s) && Within(protocol, Word, s)
    requires Within(length, Digits, s)
    ensures Selects(Columns(stream, addresses, protocol, length, info), s) ==> Selects(PacketLine, s)
  {
    var space := Chars(One(' '));
    assert BeginsWithin(info, Empty, s) by {
      forall i: nat | Begins(info, s, i)
        ensures Begins(Empty, s, i)
      {
        assert M(Empty, s, i, i);
      }
    }
    ThenBeginsWithin(space, space, info, Empty, s);
    var p1, q1 := Then(space, info), Then(space, Empty);
    ThenBeginsWithin(length, Digits, p1, q1, s);
    var p2, q2 := Then(length, p1), Then(Digits, q1);
    ThenBeginsWithin(Gap, Gap, p2, q2, s);
    var p3, q3 := Then(Gap, p2), Then(Gap, q2);
    ThenBeginsWithin(protocol, Word, p3, q3, s);
    var p4, q4 := Then(protocol, p3), Then(Word, q3);
    ThenBeginsWithin(Gap, Gap, p4, q4, s);
    var p5, q5 := Then(Gap, p4), Then(Gap, q4);
    ThenBeginsWithin(addresses, AnyPair, p5, q5, s);
    var p6, q6 := Then(addresses, p5), Then(AnyPair, q5);
    ThenBeginsWithin(Optional(RelativeTime), Optional(RelativeTime), p6, q6, s);
    var p7, q7 := Then(Optional(RelativeTime), p6), Then(Optional(RelativeTime), q6);
    ThenBeginsWithin(Optional(UtcTime), Optional(UtcTime), p7, q7, s);
    var p8, q8 := Then(Optional(UtcTime), p7), Then(Optional(UtcTime), q7);
    ThenBeginsWithin(Gap, Gap, p8, q8, s);
    var p9, q9 := Then(Gap, p8), Then(Gap, q8);
    ThenBeginsWithin(stream, Word, p9, q9, s);
    var p10, q10 := Then(stream, p9), Then(Word, q9);
    ThenBeginsWithin(Gap, Gap, p10, q10, s);
    ThenBeginsWithin(Digits, Digits, Then(Gap, p10), Then(Gap, q10), s);
    assert Columns(stream, addresses, protocol, length, info) == Then(Digits, Then(Gap, p10));
    assert PacketLine == Then(Digits, Then(Gap, q10));
  }

  // ── Values are words ──

  lemma DigitsAreAWord(s: string)
    ensures Within(Digits, Word, s)
  {
    forall i: nat, j: nat | M(Digits, s, i, j)
      ensures M(Word, s, i, j)
    {
      PlusMatches(Digit, s, i, j);
      PlusMatches(NonSpace, s, i, j);
    }
  }

  lemma NumbersAreDigits(test: Comparison, values: Re, s: string)
    requires WellFormedTest(test) && !IsAddressField(test.field) && ValuesPattern(test) == Some(values)
    ensures Within(values, Digits, s)
  {
    var n, maximum := test.number, MaximumOf(KindOf(test.field));
    forall i: nat, j: nat | M(values, s, i, j)
      ensures M(Digits, s, i, j)
    {
      PlusMatches(Digit, s, i, j);
      match test.op {
        case Present | NotEqual =>
        case Equal =>
          LiteralMatches(Dec(n), s, i, j);
          DecIsNumeral(n);
          NumeralIsDigits(s, i, j);
        case Less =>
          NumberRangeExact(0, n - 1, s, i, j);
          NumeralIsDigits(s, i, j);
        case LessEqual =>
          NumberRangeExact(0, n, s, i, j);
          NumeralIsDigits(s, i, j);
        case Greater =>
          NumberRangeExact(n + 1, maximum, s, i, j);
          NumeralIsDigits(s, i, j);
        case GreaterEqual =>
          NumberRangeExact(n, maximum, s, i, j);
          NumeralIsDigits(s, i, j);
      }
    }
  }

  lemma NumeralIsDigits(s: string, i: nat, j: nat)
    requires i <= j <= |s| && IsNumeral(s[i..j])
    ensures i < j && AllIn(Digit, s, i, j)
  {
    forall k | i <= k < j
      ensures Has(Digit, s[k])
    {
      assert s[k] == s[i..j][k - i];
    }
  }

  lemma SolidIsAWord(r: Re, s: string)
    requires Solid(r) && Consumes(r)
    ensures Within(r, Word, s)
  {
    forall i: nat, j: nat | M(r, s, i, j)
      ensures M(Word, s, i, j)
    {
      SolidMatches(r, s, i, j);
      ConsumesMatches(r, s, i, j);
      PlusMatches(NonSpace, s, i, j);
    }
  }

  lemma WithinTransitive(a: Re, b: Re, c: Re, s: string)
    requires Within(a, b, s) && Within(b, c, s)
    ensures Within(a, c, s)
  {
  }
}
