/** The pattern of a filter and the filter's meaning, on any line at all: a filter selects the
  * packet lines on which its boolean structure holds, and no other line. */
module FilterMeaning {
  import opened Options
  import opened Regex
  import opened Text
  import opened NumberRange
  import opened FilterExpression
  import opened FilterTranslation
  import opened FilterValues
  import opened Patterns

  /** What an expression says of a line, each test alone read by its own pattern. */
  ghost predicate Holds(e: Expr, line: string)
    requires WellFormed(e)
  {
    match e
    case And(operands) => forall o :: o in operands ==> Holds(o, line)
    case Or(operands) => exists o :: o in operands && Holds(o, line)
    case Not(operand) => !Holds(operand, line)
    case Compare(test) => TestHolds(test, line)
    case Protocol(name) => Selects(ProtocolPattern(name), line)
  }

  /** `!=` says that the field is there and that no value of it is the one compared with. */
  ghost predicate TestHolds(test: Comparison, line: string)
    requires WellFormedTest(test)
  {
    if test.op == NotEqual then
      Selects(TestPattern(test.(op := Present)), line) && !Selects(TestPattern(test.(op := Equal)), line)
    else Selects(TestPattern(test), line)
  }

  // ── Each test alone ──

  lemma PairWithin(a: Re, b: Re, s: string)
    requires Within(a, Word, s) && Within(b, Word, s)
    ensures Within(Pair(a, b), AnyPair, s)
  {
    ThenWithin(Gap, Gap, b, Word, s);
    ThenWithin(a, Word, Then(Gap, b), Then(Gap, Word), s);
  }

  lemma EitherEndWithin(values: Re, s: string)
    requires Within(values, Word, s)
    ensures Within(EitherEnd(values), AnyPair, s)
  {
    PairWithin(values, Word, s);
    PairWithin(Word, values, s);
  }

  lemma NotArpWithin(s: string)
    ensures Within(NotArp, Word, s)
  {
    var look := NotAhead(Literal("ARP "));
    forall i: nat, j: nat | M(NotArp, s, i, j)
      ensures M(Word, s, i, j)
    {
      var k := ThenSplit(look, Word, s, i, j);
    }
  }

  lemma {:induction false} NoCaseWithin(name: string, s: string)
    requires IsName(name)
    ensures Solid(NoCase(name)) && Consumes(NoCase(name))
  {
    EitherCaseIsSolid(name[0]);
    if |name| > 1 {
      NoCaseWithin(name[1..], s);
    } else {
      assert NoCase(name[1..]) == Empty;
    }
  }

  lemma EitherCaseIsSolid(c: char)
    requires !IsSpace(c)
    ensures NoSpaces(Either(One(Lower(c)), One(Upper(c))))
  {
    var lower, upper := One(Lower(c)), One(Upper(c));
    assert NoSpaces(lower) && NoSpaces(upper);
  }

  /** A line that a test selects is a packet line. */
  lemma TestIsPacketLine(test: Comparison, line: string)
    requires WellFormedTest(test)
    ensures Selects(TestPattern(test), line) ==> Selects(PacketLine, line)
  {
    if ValuesPattern(test).Some? {
      var values := ValuesPattern(test).value;
      ValuesAreWords(test, line);
      FieldIsPacketLine(test.field, values, line);
    } else {
      NeverSelects(line);
    }
  }

  lemma NeverSelects(line: string)
    ensures !Selects(Never, line)
  {
    assert M(Empty, line, 0, 0);
  }

  lemma FieldIsPacketLine(field: Field, values: Re, s: string)
    requires Within(values, Word, s) && (!IsAddressField(field) ==> Within(values, Digits, s))
    ensures Selects(FieldPattern(field, values), s) ==> Selects(PacketLine, s)
  {
    PairWithin(values, Word, s);
    PairWithin(Word, values, s);
    EitherEndWithin(values, s);
    NotArpWithin(s);
    var tcp := IsTcp(field);
    match field {
      case IpAddr => ColumnsWithin(Word, EitherEnd(values), NotArp, Digits, Empty, s);
      case IpSrc => ColumnsWithin(Word, Pair(values, Word), NotArp, Digits, Empty, s);
      case IpDst => ColumnsWithin(Word, Pair(Word, values), NotArp, Digits, Empty, s);
      case Ipv6Addr => ColumnsWithin(Word, EitherEnd(values), Word, Digits, Empty, s);
      case Ipv6Src => ColumnsWithin(Word, Pair(values, Word), Word, Digits, Empty, s);
      case Ipv6Dst => ColumnsWithin(Word, Pair(Word, values), Word, Digits, Empty, s);
      case TcpPort | UdpPort =>
        ColumnsWithin(Word, AnyPair, Word, Digits,
                      TransportInfo(tcp, Alt(PortPair(values, Digits), PortPair(Digits, values))), s);
      case TcpSrcPort | UdpSrcPort =>
        ColumnsWithin(Word, AnyPair, Word, Digits, TransportInfo(tcp, PortPair(values, Digits)), s);
      case TcpDstPort | UdpDstPort =>
        ColumnsWithin(Word, AnyPair, Word, Digits, TransportInfo(tcp, PortPair(Digits, values)), s);
      case TcpStream | UdpStream =>
        ColumnsWithin(values, AnyPair, Word, Digits, TransportInfo(tcp, PortPair(Digits, Digits)), s);
      case FrameLen => ColumnsWithin(Word, AnyPair, Word, values, Empty, s);
    }
  }

  lemma ProtocolIsPacketLine(name: string, line: string)
    requires IsName(name)
    ensures Selects(ProtocolPattern(name), line) ==> Selects(PacketLine, line)
  {
    NoCaseWithin(name, line);
    SolidIsAWord(NoCase(name), line);
    ColumnsWithin(Word, AnyPair, NoCase(name), Digits, Empty, line);
  }

  // ── Expressions ──

  /** Assertions consume nothing, and hold where the expression does. */
  lemma {:induction false} AssertionMeans(e: Expr, line: string, j: nat)
    requires WellFormed(e)
    ensures M(Assertion(e), line, 0, j) <==> j == 0 && Holds(e, line)
    decreases e, 0
  {
    match e {
      case And(operands) => ChainMeans(operands, line, j);
      case Or(operands) => AlternativesMean(operands, line, j);
      case Not(operand) =>
        if IsTest(operand) {
          assert Holds(operand, line) <==> Selects(Single(operand), line);
        } else {
          AssertionMeans(operand, line, 0);
          forall k: nat | k <= |line|
            ensures M(Assertion(operand), line, 0, k) <==> k == 0 && Holds(operand, line)
          {
            AssertionMeans(operand, line, k);
          }
        }
      case Compare(test) =>
        if test.op == NotEqual {
          NotEqualMeans(test, line, j);
        }
      case Protocol(_) =>
    }
  }

  lemma NotEqualMeans(test: Comparison, line: string, j: nat)
    requires WellFormedTest(test) && test.op == NotEqual
    ensures M(Assertion(Compare(test)), line, 0, j) <==> j == 0 && TestHolds(test, line)
  {
    var present, equal := TestPattern(test.(op := Present)), TestPattern(test.(op := Equal));
    var all := Then(Ahead(present), NotAhead(equal));
    assert Assertion(Compare(test)) == all;
    if M(all, line, 0, j) {
      var k := ThenSplit(Ahead(present), NotAhead(equal), line, 0, j);
    }
    if j == 0 && TestHolds(test, line) {
      ThenIntro(Ahead(present), NotAhead(equal), line, 0, 0, 0);
    }
  }

  lemma {:induction false} ChainMeans(operands: seq<Expr>, line: string, j: nat)
    requires forall o :: o in operands ==> WellFormed(o)
    ensures M(Chain(operands), line, 0, j) <==> j == 0 && forall o :: o in operands ==> Holds(o, line)
    decreases operands, 1
  {
    if operands != [] {
      var first, rest := operands[0], operands[1..];
      assert Chain(operands) == Then(Assertion(first), Chain(rest));
      if M(Chain(operands), line, 0, j) {
        var k := ThenSplit(Assertion(first), Chain(rest), line, 0, j);
        AssertionMeans(first, line, k);
        ChainMeans(rest, line, j);
      }
      AssertionMeans(first, line, 0);
      ChainMeans(rest, line, 0);
      if j == 0 && forall o :: o in operands ==> Holds(o, line) {
        ThenIntro(Assertion(first), Chain(rest), line, 0, 0, 0);
      }
    }
  }

  lemma {:induction false} AlternativesMean(operands: seq<Expr>, line: string, j: nat)
    requires operands != [] && forall o :: o in operands ==> WellFormed(o)
    ensures M(AnyOf(Assertions(operands)), line, 0, j) <==> j == 0 && exists o :: o in operands && Holds(o, line)
    decreases operands, 1
  {
    var parts := Assertions(operands);
    AnyOfMatches(parts, line, 0, j);
    forall k | 0 <= k < |operands|
      ensures M(parts[k], line, 0, j) <==> j == 0 && Holds(operands[k], line)
    {
      AssertionMeans(operands[k], line, j);
    }
    if M(AnyOf(parts), line, 0, j) {
      var k :| 0 <= k < |parts| && M(parts[k], line, 0, j);
      assert operands[k] in operands;
    }
    if o :| o in operands && Holds(o, line) {
      var k :| 0 <= k < |operands| && operands[k] == o;
      assert j == 0 ==> M(parts[k], line, 0, j);
    }
  }

  /** Where an expression without need of the guard holds, the line is a packet line. */
  lemma {:induction false} GuardIsRedundant(e: Expr, line: string)
    requires WellFormed(e) && SelectsPacketLinesOnly(e) && Holds(e, line)
    ensures Selects(PacketLine, line)
  {
    match e {
      case And(operands) =>
        var o :| o in operands && SelectsPacketLinesOnly(o);
        GuardIsRedundant(o, line);
      case Or(operands) =>
        var o :| o in operands && Holds(o, line);
        GuardIsRedundant(o, line);
      case Compare(test) =>
        if test.op == NotEqual {
          TestIsPacketLine(test.(op := Present), line);
        } else {
          TestIsPacketLine(test, line);
        }
      case Protocol(name) => ProtocolIsPacketLine(name, line);
    }
  }

  /** The pattern of a filter selects the packet lines on which the filter holds, and no other line,
    * whatever the line. */
  lemma FilterSelects(e: Expr, line: string)
    requires WellFormed(e)
    ensures Selects(FilterPattern(e), line) <==> Selects(PacketLine, line) && Holds(e, line)
  {
    if IsTest(e) {
      if e.Compare? {
        TestIsPacketLine(e.test, line);
      } else {
        ProtocolIsPacketLine(e.name, line);
      }
    } else {
      var guard := if SelectsPacketLinesOnly(e) then Empty else Ahead(PacketLine);
      BeginsThen(guard, Assertion(e), line, 0);
      if SelectsPacketLinesOnly(e) && Holds(e, line) {
        GuardIsRedundant(e, line);
      }
      forall j: nat
        ensures M(Assertion(e), line, 0, j) <==> j == 0 && Holds(e, line)
      {
        AssertionMeans(e, line, j);
      }
      if Selects(PacketLine, line) && Holds(e, line) {
        assert M(guard, line, 0, 0) && M(Assertion(e), line, 0, 0);
      }
    }
  }
}
