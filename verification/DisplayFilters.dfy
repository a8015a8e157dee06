/** A display filter from its text to the lines it selects (src/display_filter.cpp). */
module DisplayFilters {
  import opened Options
  import opened Regex
  import opened Text
  import opened Decimal
  import opened Bits
  import opened Ipv4Network
  import opened Ipv4Masks
  import opened Ipv6Texts
  import opened Ipv6Parsers
  import opened AddressTexts
  import opened FilterExpression
  import opened FilterTranslation
  import opened FilterTokens
  import opened FilterTests
  import opened FilterGrammar
  import opened FilterParser
  import opened FilterRoundTrip
  import opened PacketLines
  import opened FilterCorrect

  // ── Text to expression ──

  lemma ReadTokens(filter: string)
    ensures TokensFrom(filter, 0).Accepted? ==>
              AreTokens(TokensFrom(filter, 0).value) && InFilter(TokensFrom(filter, 0).value, |filter|)
    ensures TokensFrom(filter, 0).Rejected? ==> TokensFrom(filter, 0).position < |filter|
  {
    hide TokensFrom, AreTokens, InFilter, Cuts;
    RejectedWhere(filter, 0);
    if TokensFrom(filter, 0).Accepted? {
      FilterIsItsTokens(filter, 0, TokensFrom(filter, 0).value);
      TokensEnd(filter, 0, TokensFrom(filter, 0).value);
    }
  }

  function ParseFilter(filter: string): Outcome<Expr> {
    match TokensFrom(filter, 0)
    case Rejected(position) => Rejected(position)
    case Accepted(tokens) =>
      ReadTokens(filter);
      ParseTokens(tokens)
  }

  method ParseDisplayFilter(filter: string) returns (read: Outcome<Expr>)
    ensures read == ParseFilter(filter)
  {
    hide TokensFrom, ParseTokens;
    var tokens := Tokenize(filter);
    if tokens.Rejected? {
      return Rejected(tokens.position);
    }
    ReadTokens(filter);
    var parser := new Parser(tokens.value);
    read := parser.Parse();
  }

  /** A filter is accepted in normal form and canonical values, or rejected at a position in it. */
  lemma ParsedIsNormal(filter: string)
    ensures match ParseFilter(filter)
            case Accepted(e) => IsNormal(e) && Nesting(e) <= MaxDepth
            case Rejected(position) => position <= |filter|
  {
    hide TokensFrom, ParseTokens, AreTokens, InFilter, IsNormal, Nesting;
    ReadTokens(filter);
    if TokensFrom(filter, 0).Accepted? {
      AcceptedIsNormal(TokensFrom(filter, 0).value, |filter|);
    }
  }

  // ── Expression to text and back ──

  /** `e` as it may be written: its tokens in any of their spellings, with any blanks between them. */
  predicate IsWritten(spellings: seq<Spelling>, e: Expr) {
    && |spellings| == |OrKinds(e)|
    && forall k :: 0 <= k < |spellings| ==> IsSpelling(spellings[k]) && spellings[k].kind == OrKinds(e)[k]
  }

  /** A filter written from an expression is parsed as that expression exactly when it nests no deeper than allowed. */
  lemma WrittenIsParsed(e: Expr, spellings: seq<Spelling>)
    requires IsNormal(e) && IsWritten(spellings, e)
    ensures if Nesting(e) <= MaxDepth then ParseFilter(Written(spellings)) == Accepted(e)
            else ParseFilter(Written(spellings)).Rejected?
  {
    hide TokensFrom, ParseTokens, AreTokens, IsNormal, Nesting, OrKinds, IsSpelling, Written;
    var filter := Written(spellings);
    assert filter[0..] == filter;
    WrittenIsRead(filter, 0, spellings);
    ReadTokens(filter);
    ExpressionIsRead(e, TokensFrom(filter, 0).value);
  }

  function PlainSpelling(kind: TokenKind): Spelling {
    Spelling(kind, if kind.Word? then kind.text else Symbol(kind), " ")
  }

  function Spelled(kinds: seq<TokenKind>): (spellings: seq<Spelling>)
    ensures |spellings| == |kinds| && forall k :: 0 <= k < |kinds| ==> spellings[k] == PlainSpelling(kinds[k])
  {
    seq(|kinds|, k requires 0 <= k < |kinds| => PlainSpelling(kinds[k]))
  }

  /** The expression written in symbols and single spaces. */
  function Printed(e: Expr): string {
    Written(Spelled(OrKinds(e)))
  }

  predicate CanBeSpelled(kinds: seq<TokenKind>) {
    forall k :: 0 <= k < |kinds| ==> kinds[k] != End && IsToken(kinds[k])
  }

  lemma BothCanBeSpelled(a: seq<TokenKind>, b: seq<TokenKind>)
    requires CanBeSpelled(a) && CanBeSpelled(b)
    ensures CanBeSpelled(a + b)
  {
  }

  lemma {:induction false} OperandCanBeSpelled(all: bool, e: Expr)
    requires IsNormal(e)
    ensures CanBeSpelled(OperandKinds(all, e))
    decreases e, 2
  {
    hide ListKinds, UnaryKinds, CanBeSpelled, IsLeaf;
    if !all && e.And? {
      ListCanBeSpelled(true, e.operands);
    } else {
      UnaryCanBeSpelled(e);
    }
  }

  lemma {:induction false} UnaryCanBeSpelled(e: Expr)
    requires IsNormal(e)
    ensures CanBeSpelled(UnaryKinds(e))
    decreases e, 0
  {
    hide ListKinds, CanBeSpelled, IsLeaf, TestKinds;
    SignsCanBeSpelled();
    match e {
      case Not(operand) =>
        UnaryCanBeSpelled(operand);
        BothCanBeSpelled([Negation], UnaryKinds(operand));
      case And(operands) =>
        ListCanBeSpelled(true, operands);
        BothCanBeSpelled([Opening], ListKinds(true, operands));
        BothCanBeSpelled([Opening] + ListKinds(true, operands), [Closing]);
      case Or(operands) =>
        ListCanBeSpelled(false, operands);
        BothCanBeSpelled([Opening], ListKinds(false, operands));
        BothCanBeSpelled([Opening] + ListKinds(false, operands), [Closing]);
      case _ =>
        LeafCanBeSpelled(e);
    }
  }

  lemma SignsCanBeSpelled()
    ensures CanBeSpelled([]) && CanBeSpelled([Negation]) && CanBeSpelled([Opening]) && CanBeSpelled([Closing])
    ensures CanBeSpelled([Conjunction]) && CanBeSpelled([Disjunction])
  {
  }

  lemma LeafCanBeSpelled(e: Expr)
    requires IsLeaf(e)
    ensures CanBeSpelled(TestKinds(e))
  {
    hide IsCanonical, ValueText, NameOf, ShorthandNamed, Spells;
    if e.Compare? {
      FieldWord(e.test.field);
      if e.test.op != Present {
        ValueIsWord(e.test);
      }
    }
  }

  lemma FieldWord(field: Field)
    ensures IsWord(NameOf(field))
  {
    hide NameOf, IsWord, IsLetter;
    FieldNames(field);
    if !IsWord(NameOf(field)) {
      OperatorsAreLetters(NameOf(field));
      assert !IsLetter('.') by {
        DotIsNoLetter();
      }
    }
  }

  lemma DotIsNoLetter()
    ensures !IsLetter('.')
  {
  }

  lemma {:induction false} ListCanBeSpelled(all: bool, operands: seq<Expr>)
    requires forall o :: o in operands ==> IsNormal(o)
    ensures CanBeSpelled(ListKinds(all, operands))
    decreases operands, 1
  {
    hide OperandKinds, CanBeSpelled, IsNormal;
    SignsCanBeSpelled();
    if operands != [] {
      OperandCanBeSpelled(all, operands[0]);
      MoreCanBeSpelled(all, operands[1..]);
      BothCanBeSpelled(OperandKinds(all, operands[0]), MoreKinds(all, operands[1..]));
    }
  }

  lemma {:induction false} MoreCanBeSpelled(all: bool, operands: seq<Expr>)
    requires forall o :: o in operands ==> IsNormal(o)
    ensures CanBeSpelled(MoreKinds(all, operands))
    decreases operands, 0
  {
    hide OperandKinds, CanBeSpelled, IsNormal;
    SignsCanBeSpelled();
    if operands != [] {
      OperandCanBeSpelled(all, operands[0]);
      MoreCanBeSpelled(all, operands[1..]);
      BothCanBeSpelled(OperandKinds(all, operands[0]), MoreKinds(all, operands[1..]));
      BothCanBeSpelled([Separator(all)], OperandKinds(all, operands[0]) + MoreKinds(all, operands[1..]));
    }
  }

  lemma SpelledIsSpelling(kind: TokenKind)
    requires kind != End && IsToken(kind)
    ensures IsSpelling(PlainSpelling(kind))
  {
    hide WordKind;
  }

  /** Printing and parsing again gives the expression back, exactly when it nests no deeper than allowed. */
  lemma RoundTrip(e: Expr)
    requires IsNormal(e)
    ensures ParseFilter(Printed(e)) == Accepted(e) <==> Nesting(e) <= MaxDepth
  {
    hide IsNormal, OrKinds, IsSpelling, Written, Nesting, ParseFilter, ListKinds, AndKinds, UnaryKinds;
    PrintedCanBeSpelled(e);
    forall kind | kind in OrKinds(e)
      ensures IsSpelling(PlainSpelling(kind))
    {
      SpelledIsSpelling(kind);
    }
    WrittenIsParsed(e, Spelled(OrKinds(e)));
  }

  lemma PrintedCanBeSpelled(e: Expr)
    requires IsNormal(e)
    ensures CanBeSpelled(OrKinds(e))
  {
    hide CanBeSpelled, ListKinds, UnaryKinds, IsLeaf;
    if e.Or? {
      ListCanBeSpelled(false, e.operands);
    } else {
      OperandCanBeSpelled(false, e);
    }
  }

  /** The form in which a filter is printed is parsed as the filter itself. */
  lemma PrintedIsTheFilter(filter: string)
    requires ParseFilter(filter).Accepted?
    ensures ParseFilter(Printed(ParseFilter(filter).value)) == ParseFilter(filter)
  {
    hide ParseFilter, Printed, IsNormal, Nesting;
    ParsedIsNormal(filter);
    RoundTrip(ParseFilter(filter).value);
  }

  // ── Text to pattern ──

  lemma Ipv4IsWellFormed(address: string)
    requires IsCanonicalIpv4(address)
    ensures IsIpv4Text(address) && Octets(address) == Ipv4Of(address).value
  {
    hide Split, Value, IsNumeral, Join;
    var octets := Ipv4Of(address).value;
    Ipv4IsFour(address);
    Ipv4TextSplits(octets);
    DecimalTextsAreNumerals(octets);
  }

  lemma HexHas(c: char)
    ensures IsLowerHex(c) || c == ':' ==> Has(HexOrColon, c)
  {
    assert Has(LowerHex, c) <==> Has(Digit, c) || Has(Range('a', 'f'), c);
  }

  lemma Ipv6IsWellFormed(address: string)
    requires IsCanonicalIpv6(address)
    ensures IsIpv6Address(address)
  {
    hide Parse, Ipv6Text, Split;
    ParsedIsGroups(address);
    Ipv6TextLooks(Parse(address).value);
    forall k | 0 <= k < |address|
      ensures Has(HexOrColon, address[k])
    {
      HexHas(address[k]);
    }
  }

  lemma TestIsWellFormed(test: Comparison)
    requires IsCanonical(test)
    ensures WellFormedTest(test)
  {
    hide IsCanonicalIpv4, IsCanonicalIpv6, IsIpv4Text, IsIpv6Address, EndsInZeros, Octets, Ipv4Of;
    if test.op != Present && KindOf(test.field) == Ipv4 {
      Ipv4IsWellFormed(test.address);
    } else if test.op != Present && KindOf(test.field) == Ipv6 {
      Ipv6IsWellFormed(test.address);
    }
  }

  lemma NameIsWellFormed(name: string)
    requires IsProtocolName(name)
    ensures IsName(name)
  {
    hide WordKind, ShorthandNamed;
  }

  /** The translation is defined on every expression in normal form. */
  lemma {:induction false} NormalIsWellFormed(e: Expr)
    requires IsNormal(e)
    ensures WellFormed(e)
  {
    hide IsCanonical, WellFormedTest, IsProtocolName, IsName;
    match e {
      case And(operands) =>
        forall o | o in operands
          ensures WellFormed(o)
        {
          NormalIsWellFormed(o);
        }
      case Or(operands) =>
        forall o | o in operands
          ensures WellFormed(o)
        {
          NormalIsWellFormed(o);
        }
      case Not(operand) => NormalIsWellFormed(operand);
      case Compare(test) => TestIsWellFormed(test);
      case Protocol(name) => NameIsWellFormed(name);
    }
  }

  lemma ParsedIsWellFormed(filter: string)
    ensures ParseFilter(filter).Accepted? ==> WellFormed(ParseFilter(filter).value)
  {
    hide ParseFilter, IsNormal, WellFormed;
    ParsedIsNormal(filter);
    if ParseFilter(filter).Accepted? {
      NormalIsWellFormed(ParseFilter(filter).value);
    }
  }

  method DisplayFilterPattern(filter: string) returns (read: Outcome<Re>)
    ensures read.Accepted? <==> ParseFilter(filter).Accepted?
    ensures read.Accepted? ==> WellFormed(ParseFilter(filter).value) && read.value == FilterPattern(ParseFilter(filter).value)
    ensures read.Rejected? ==> read.position <= |filter|
    ensures read.Accepted? ==> forall p :: WellFormedPacket(p) ==>
              (Selects(read.value, FormatPacketLine(p)) <==> Evaluate(ParseFilter(filter).value, p))
  {
    hide ParseFilter, FilterPattern, WellFormed, WellFormedPacket, Selects, FormatPacketLine, Evaluate, IsNormal, Nesting;
    var parsed := ParseDisplayFilter(filter);
    ParsedIsNormal(filter);
    if parsed.Rejected? {
      return Rejected(parsed.position);
    }
    ParsedIsWellFormed(filter);
    read := Accepted(FilterPattern(parsed.value));
    forall p | WellFormedPacket(p)
      ensures Selects(read.value, FormatPacketLine(p)) <==> Evaluate(parsed.value, p)
    {
      FilterSelectsPackets(parsed.value, p);
    }
  }

  // ── What the operators mean ──

  /** All of the operands, or any of them. */
  predicate Together(all: bool, operands: seq<Expr>, p: PacketRecord)
    requires forall o :: o in operands ==> WellFormed(o)
  {
    if all then forall o :: o in operands ==> Evaluate(o, p) else exists o :: o in operands && Evaluate(o, p)
  }

  lemma TogetherBoth(all: bool, a: seq<Expr>, b: seq<Expr>, p: PacketRecord)
    requires forall o :: o in a + b ==> WellFormed(o)
    ensures (forall o :: o in a ==> WellFormed(o)) && forall o :: o in b ==> WellFormed(o)
    ensures Together(all, a + b, p) <==>
            if all then Together(all, a, p) && Together(all, b, p) else Together(all, a, p) || Together(all, b, p)
  {
    hide Evaluate, WellFormed;
    assert (forall o :: o in a ==> o in a + b) && forall o :: o in b ==> o in a + b;
    if Together(all, a + b, p) && !all {
      var o :| o in a + b && Evaluate(o, p);
      assert o in a || o in b;
    }
  }

  lemma KindMeans(all: bool, e: Expr, p: PacketRecord)
    requires WellFormed(e)
    ensures IsKind(all, e) ==> (forall o :: o in e.operands ==> WellFormed(o)) && (Evaluate(e, p) <==> Together(all, e.operands, p))
    ensures Evaluate(e, p) <==> Together(all, [e], p)
    ensures e.Or? ==> e.operands != []
  {
    hide EvaluateTest, WellFormedTest;
    assert e in [e];
  }

  lemma {:induction false} MergedMeans(all: bool, operands: seq<Expr>, p: PacketRecord)
    requires forall o :: o in operands ==> WellFormed(o)
    ensures forall o :: o in Merged(all, operands) ==> WellFormed(o)
    ensures Together(all, Merged(all, operands), p) <==> Together(all, operands, p)
    ensures !all && operands != [] ==> Merged(all, operands) != []
  {
    hide Evaluate, WellFormed, Together;
    if operands != [] {
      var last, rest := operands[|operands| - 1], operands[..|operands| - 1];
      MergedMeans(all, rest, p);
      KindMeans(all, last, p);
      assert operands == rest + [last];
      TogetherBoth(all, rest, [last], p);
      TogetherBoth(all, Merged(all, rest), if IsKind(all, last) then last.operands else [last], p);
    }
  }

  /** Combining operands, however it merges them, means all of them or any of them. */
  lemma CombineMeans(all: bool, operands: seq<Expr>, p: PacketRecord)
    requires operands != [] && forall o :: o in operands ==> WellFormed(o)
    ensures WellFormed(Combine(all, operands)) && (Evaluate(Combine(all, operands), p) <==> Together(all, operands, p))
  {
    hide EvaluateTest, WellFormedTest, IsName, SameName, Merged;
    if |operands| == 1 {
      KindMeans(all, operands[0], p);
      assert operands == [operands[0]];
    } else {
      MergedMeans(all, operands, p);
    }
  }
}
