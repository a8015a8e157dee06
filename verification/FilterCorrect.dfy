/** The display filter's correctness: on every packet line, the pattern a filter is translated
  * into matches exactly when the filter holds of the packet. */
module FilterCorrect {
  import opened Options
  import opened Regex
  import opened Decimal
  import opened Text
  import opened NumberRange
  import opened FilterExpression
  import opened FilterTranslation
  import opened Patterns
  import opened FilterValues
  import opened FilterMeaning
  import opened PacketLines
  import opened LineColumns
  import opened LineInfo
  import opened LineAddresses
  import opened FilterLines

  // ── Columns ──

  lemma WordCell(s: string, b: nat, e: nat, n: nat)
    requires Cell(s, b, e, n)
    ensures M(Word, s, b, e)
  {
    PlusMatches(NonSpace, s, b, e);
  }

  lemma NothingMore(s: string, i: nat)
    requires i <= |s|
    ensures Begins(Empty, s, i)
  {
    assert M(Empty, s, i, i);
  }

  /** Every pattern of a line's columns reads each column in its place. */
  ghost predicate ReadsColumns(m: Marks, s: string) {
    forall stream, addresses, protocol, length, info {:trigger Columns(stream, addresses, protocol, length, info)} ::
      Within(stream, Word, s) && Columned(addresses, protocol, length, s) ==>
      (Begins(Columns(stream, addresses, protocol, length, info), s, 0) <==>
       && M(stream, s, m.stream, m.streamEnd) && M(addresses, s, m.source, m.destinationEnd)
       && M(protocol, s, m.protocol, m.protocolEnd) && M(length, s, m.length, m.lengthEnd)
       && Begins(info, s, m.lengthEnd + 1))
  }

  /** A line whose columns can be read, and what it shows in them. */
  ghost predicate Legible(p: PacketRecord, m: Marks, s: string) {
    && ReadsColumns(m, s)
    && Cell(s, m.stream, m.streamEnd, m.times) && s[m.stream..m.streamEnd] == StreamText(p)
    && TwoCells(s, m.source, m.sourceEnd, m.destination, m.destinationEnd, m.protocol)
    && s[m.source..m.sourceEnd] == Shown(AddressText(p.source))
    && s[m.destination..m.destinationEnd] == Shown(AddressText(p.destination))
    && Cell(s, m.protocol, m.protocolEnd, m.length) && s[m.protocol..m.protocolEnd] == Shown(p.protocol)
    && Cell(s, m.length, m.lengthEnd, m.body) && s[m.length..m.lengthEnd] == Dec(p.length)
    && TextAt(s, m.body, Body(p)) && |s| == m.body + |Body(p)|
  }

  lemma ShownIsLegible(p: PacketRecord, m: Marks, s: string)
    requires Shows(p, m, s)
    ensures Legible(p, m, s)
  {
    forall stream, addresses, protocol, length, info
      | Within(stream, Word, s) && Columned(addresses, protocol, length, s)
      ensures Begins(Columns(stream, addresses, protocol, length, info), s, 0) <==>
              && M(stream, s, m.stream, m.streamEnd) && M(addresses, s, m.source, m.destinationEnd)
              && M(protocol, s, m.protocol, m.protocolEnd) && M(length, s, m.length, m.lengthEnd)
              && Begins(info, s, m.lengthEnd + 1)
    {
      ColumnsRead(stream, addresses, protocol, length, info, m, s);
    }
  }

  /** The pattern of particular columns, the others any. */
  lemma ColumnsMean(addresses: Re, protocol: Re, length: Re, p: PacketRecord, m: Marks, s: string)
    requires Legible(p, m, s) && Columned(addresses, protocol, length, s)
    ensures Selects(Columns(Word, addresses, protocol, length, Empty), s) <==>
            && M(addresses, s, m.source, m.destinationEnd) && M(protocol, s, m.protocol, m.protocolEnd)
            && M(length, s, m.length, m.lengthEnd)
  {
    hide M, Body, AddressText, StreamText, Dec;
    WordCell(s, m.stream, m.streamEnd, m.times);
    NothingMore(s, m.lengthEnd + 1);
  }

  /** The columns of any packet line. */
  lemma AnyColumns(p: PacketRecord, m: Marks, s: string)
    requires Legible(p, m, s)
    ensures M(AnyPair, s, m.source, m.destinationEnd)
    ensures M(Word, s, m.protocol, m.protocolEnd) && M(Digits, s, m.length, m.lengthEnd)
    ensures Within(Word, Word, s) && Columned(AnyPair, Word, Digits, s)
  {
    hide M, Body, AddressText, StreamText, Dec;
    WordCell(s, m.source, m.sourceEnd, m.destination);
    WordCell(s, m.destination, m.destinationEnd, m.protocol);
    WordCell(s, m.protocol, m.protocolEnd, m.length);
    NumberCellDigits(p.length, s, m.length, m.lengthEnd);
    PairMatches(Word, Word, s, m.source, m.sourceEnd, m.destination, m.destinationEnd, m.protocol);
  }

  lemma NumberCellDigits(n: nat, s: string, b: nat, e: nat)
    requires b <= e <= |s| && s[b..e] == Dec(n)
    ensures M(Digits, s, b, e)
  {
    DecIsWritten(n);
    NumeralIsDigits(s, b, e);
    PlusMatches(Digit, s, b, e);
  }

  /** A line the formatter writes is a packet line. */
  lemma LineIsPacketLine(p: PacketRecord, m: Marks, s: string)
    requires Legible(p, m, s)
    ensures Selects(PacketLine, s)
  {
    hide M, Body, AddressText, StreamText, Dec;
    AnyColumns(p, m, s);
    ColumnsMean(AnyPair, Word, Digits, p, m, s);
  }

  // ── Addresses ──

  lemma NotArpMatches(s: string, b: nat, e: nat, n: nat)
    requires Cell(s, b, e, n)
    ensures M(NotArp, s, b, e) <==> s[b..e] != "ARP"
  {
    WordCell(s, b, e, n);
    var look := NotAhead(Literal("ARP "));
    ArpAhead(s, b, e, n);
    if M(NotArp, s, b, e) {
      var k := ThenSplit(look, Word, s, b, e);
    }
    if s[b..e] != "ARP" {
      assert M(look, s, b, b);
      ThenIntro(look, Word, s, b, b, e);
    }
  }

  lemma ArpAhead(s: string, b: nat, e: nat, n: nat)
    requires Cell(s, b, e, n)
    ensures Begins(Literal("ARP "), s, b) <==> s[b..e] == "ARP"
  {
    if Begins(Literal("ARP "), s, b) {
      var k: nat :| b <= k <= |s| && M(Literal("ARP "), s, b, k);
      LiteralAt("ARP ", s, b, k);
      assert s[b + 3] == ' ';
      assert AllIn(NonSpace, s, b, b + 3) by {
        assert s[b + 0] == 'A' && s[b + 1] == 'R' && s[b + 2] == 'P';
      }
      WordEnd(s, b, e, n, b + 3);
      assert s[b..e] == [s[b + 0], s[b + 1], s[b + 2]];
    }
    if s[b..e] == "ARP" {
      assert Has(One(' '), s[e]);
      assert s[b..b + 4] == s[b..e] + [s[e]];
      LiteralMatches("ARP ", s, b, b + 4);
    }
  }

  /** Each address column, read by the comparison's pattern. */
  lemma EndsMean(test: Comparison, values: Re, p: PacketRecord, m: Marks, s: string)
    requires WellFormedTest(test) && IsAddressField(test.field) && ValuesPattern(test) == Some(values)
    requires Legible(p, m, s) && WellFormedEndpoint(p.source) && WellFormedEndpoint(p.destination)
    ensures Within(values, Word, s)
    ensures M(values, s, m.source, m.sourceEnd) <==> EndSelected(test, p.source, "")
    ensures M(values, s, m.destination, m.destinationEnd) <==> EndSelected(test, p.destination, "")
  {
    hide M, Body, AddressText, StreamText, Dec;
    ValuesAreWords(test, s);
    EndpointMatches(test, p.source, s, m.source, m.sourceEnd);
    EndpointMatches(test, p.destination, s, m.destination, m.destinationEnd);
  }

  /** Source or Destination, as the field says. */
  function AddressColumns(field: Field, values: Re): Re {
    match field
    case IpAddr | Ipv6Addr => EitherEnd(values)
    case IpSrc | Ipv6Src => Pair(values, Word)
    case _ => Pair(Word, values)
  }

  lemma AddressColumnsMatch(field: Field, values: Re, s: string, b1: nat, e1: nat, b2: nat, e2: nat, n: nat)
    requires IsAddressField(field) && Within(values, Word, s) && TwoCells(s, b1, e1, b2, e2, n)
    ensures M(AddressColumns(field, values), s, b1, e2) <==>
            || (field !in {IpDst, Ipv6Dst} && M(values, s, b1, e1))
            || (field !in {IpSrc, Ipv6Src} && M(values, s, b2, e2))
  {
    PairReads(values, Word, s, b1, e1, b2, e2, n);
    PairReads(Word, values, s, b1, e1, b2, e2, n);
    WordCell(s, b1, e1, b2);
    WordCell(s, b2, e2, n);
  }

  lemma PairReads(x: Re, y: Re, s: string, b1: nat, e1: nat, b2: nat, e2: nat, n: nat)
    requires Within(x, Word, s) && Within(y, Word, s) && TwoCells(s, b1, e1, b2, e2, n)
    ensures M(Pair(x, y), s, b1, e2) <==> M(x, s, b1, e1) && M(y, s, b2, e2)
  {
    PairMatches(x, y, s, b1, e1, b2, e2, n);
  }

  lemma AddressColumnsWithin(field: Field, values: Re, s: string)
    requires IsAddressField(field) && Within(values, Word, s)
    ensures Within(AddressColumns(field, values), AnyPair, s)
  {
    PairWithin(values, Word, s);
    PairWithin(Word, values, s);
    EitherEndWithin(values, s);
  }

  lemma AddressTestMeans(test: Comparison, values: Re, p: PacketRecord, m: Marks, s: string)
    requires WellFormedTest(test) && IsAddressField(test.field) && ValuesPattern(test) == Some(values)
    requires Legible(p, m, s) && WellFormedEndpoint(p.source) && WellFormedEndpoint(p.destination)
    ensures Selects(FieldPattern(test.field, values), s) <==> SomeSelected(test, p)
  {
    hide M, Body, AddressText, StreamText, Dec;
    var ipv4 := KindOf(test.field) == Ipv4;
    var addresses := AddressColumns(test.field, values);
    EndsMean(test, values, p, m, s);
    AddressColumnsWithin(test.field, values, s);
    AddressColumnsMatch(test.field, values, s, m.source, m.sourceEnd, m.destination, m.destinationEnd, m.protocol);
    NotArpWithin(s);
    AnyColumns(p, m, s);
    NotArpMatches(s, m.protocol, m.protocolEnd, m.length);
    assert Shown(p.protocol) == "ARP" <==> p.protocol == "ARP";
    if ipv4 {
      ColumnsMean(addresses, NotArp, Digits, p, m, s);
    } else {
      ColumnsMean(addresses, Word, Digits, p, m, s);
    }
    EndsSelected(test, p);
  }

  /** Some column of the field is selected. */
  lemma EndsSelected(test: Comparison, p: PacketRecord)
    requires WellFormedTest(test) && IsAddressField(test.field)
    ensures SomeSelected(test, p) <==>
            && (KindOf(test.field) == Ipv4 ==> p.protocol != "ARP")
            && ((test.field !in {IpDst, Ipv6Dst} && EndSelected(test, p.source, ""))
                || (test.field !in {IpSrc, Ipv6Src} && EndSelected(test, p.destination, "")))
  {
    var ends := Ends(test.field, p);
    if SomeSelected(test, p) {
      var e :| e in ends && EndSelected(test, e, p.protocol);
    }
    if test.field !in {IpDst, Ipv6Dst} && EndSelected(test, p.source, p.protocol) {
      assert p.source in ends;
    }
    if test.field !in {IpSrc, Ipv6Src} && EndSelected(test, p.destination, p.protocol) {
      assert p.destination in ends;
    }
  }

  // ── Numbers ──

  /** A number the line shows is matched exactly if the comparison selects it. */
  lemma NumberMeans(test: Comparison, values: Re, n: nat, s: string, b: nat, e: nat)
    requires WellFormedTest(test) && !IsAddressField(test.field) && ValuesPattern(test) == Some(values)
    requires n <= MaximumOf(KindOf(test.field)) && b <= e <= |s| && s[b..e] == Dec(n)
    ensures M(values, s, b, e) <==> NumberSelected(test, n)
  {
    DecIsNumeral(n);
    NumbersExact(test, s, b, e);
  }

  /** Where a comparison has no pattern, it selects no number its field can hold. */
  lemma NothingSelected(test: Comparison, n: nat)
    requires WellFormedTest(test) && !IsAddressField(test.field) && ValuesPattern(test) == None
    requires n <= MaximumOf(KindOf(test.field))
    ensures !NumberSelected(test, n)
  {
    DecIsNumeral(n);
    assert Dec(n)[0..|Dec(n)|] == Dec(n);
    NumbersExact(test, Dec(n), 0, |Dec(n)|);
  }

  lemma LengthTestMeans(test: Comparison, values: Re, p: PacketRecord, m: Marks, s: string)
    requires WellFormedTest(test) && test.field == FrameLen && ValuesPattern(test) == Some(values)
    requires Legible(p, m, s) && p.length <= MaxUint64
    ensures Selects(FieldPattern(FrameLen, values), s) <==> NumberSelected(test, p.length)
  {
    hide M, Body, AddressText, StreamText, Dec;
    ValuesAreWords(test, s);
    AnyColumns(p, m, s);
    ColumnsMean(AnyPair, Word, values, p, m, s);
    NumberMeans(test, values, p.length, s, m.length, m.lengthEnd);
  }

  // ── Ports and streams ──

  /** What follows the columns decides where the columns may be any. */
  lemma InfoMeans(stream: Re, info: Re, p: PacketRecord, m: Marks, s: string)
    requires Legible(p, m, s) && Within(stream, Word, s)
    ensures Selects(Columns(stream, AnyPair, Word, Digits, info), s) <==>
            M(stream, s, m.stream, m.streamEnd) && Begins(info, s, m.lengthEnd + 1)
  {
    hide M, Body, AddressText, StreamText, Dec;
    AnyColumns(p, m, s);
  }

  /** A pattern that reads the ports of one transport reads that transport's packets by them. */
  lemma TransportMeans(tcp: bool, ports: Re, p: PacketRecord, m: Marks, s: string)
    requires WellFormedPacket(p) && Legible(p, m, s) && Within(ports, PortPair(Digits, Digits), s)
    ensures p.info.Ports? ==>
            (Begins(TransportInfo(tcp, ports), s, m.lengthEnd + 1) <==>
             tcp == p.info.tcp && M(ports, s, PortsBegin(p, m.body), PortsEnd(p, m.body)))
    ensures p.info.Other? ==> !Begins(TransportInfo(tcp, ports), s, m.lengthEnd + 1)
  {
    hide M, Body, AddressText, StreamText, Dec;
    var a := m.lengthEnd + 1;
    assert AllIn(One(' '), s, a, m.body);
    if p.info.Ports? {
      TransportRead(tcp, ports, p, s, a, m.body);
    } else {
      NoTransport(tcp, ports, p, s, a, m.body);
    }
  }

  /** The ports a line shows. */
  lemma PortsShown(p: PacketRecord, m: Marks, s: string)
    requires WellFormedPacket(p) && p.info.Ports? && Legible(p, m, s)
    ensures var q, x, j := PortsBegin(p, m.body), ArrowBegin(p, m.body), PortsEnd(p, m.body);
            ArrowAt(s, q, x, j) && s[q..x] == Dec(p.info.source) && s[x + 3..j] == Dec(p.info.destination)
  {
    hide M, AddressText, StreamText, Dec, TunnelsText, MarkersText, ArrowAt, Body, Cell, ReadsColumns;
    BodyParts(p, m.body, s);
    InfoShown(p.tunnels, p.info, TunnelsBegin(p, m.body), s,
              PortsBegin(p, m.body), ArrowBegin(p, m.body), PortsEnd(p, m.body));
  }

  lemma PortPairWithin(a: Re, b: Re, s: string)
    requires Within(a, Digits, s) && Within(b, Digits, s)
    ensures Within(PortPair(a, b), PortPair(Digits, Digits), s)
  {
    ThenWithin(Literal(Arrow), Literal(Arrow), b, Digits, s);
    ThenWithin(a, Digits, Then(Literal(Arrow), b), Then(Literal(Arrow), Digits), s);
  }

  /** The source or destination port, or either. */
  function PortColumns(field: Field, values: Re): Re {
    match field
    case TcpSrcPort | UdpSrcPort => PortPair(values, Digits)
    case TcpDstPort | UdpDstPort => PortPair(Digits, values)
    case _ => Alt(PortPair(values, Digits), PortPair(Digits, values))
  }

  lemma PortColumnsMatch(field: Field, values: Re, s: string, q: nat, x: nat, j: nat)
    requires Within(values, Digits, s) && ArrowAt(s, q, x, j)
    ensures M(PortColumns(field, values), s, q, j) <==>
            || (field !in {TcpDstPort, UdpDstPort} && M(values, s, q, x))
            || (field !in {TcpSrcPort, UdpSrcPort} && M(values, s, x + 3, j))
  {
    PortPairMatches(values, Digits, s, q, x, j);
    PortPairMatches(Digits, values, s, q, x, j);
    ArrowDigits(s, q, x, j);
  }

  lemma PortColumnsWithin(field: Field, values: Re, s: string)
    requires Within(values, Digits, s)
    ensures Within(PortColumns(field, values), PortPair(Digits, Digits), s)
  {
    PortPairWithin(values, Digits, s);
    PortPairWithin(Digits, values, s);
  }

  lemma ArrowDigits(s: string, q: nat, x: nat, j: nat)
    requires ArrowAt(s, q, x, j)
    ensures M(Digits, s, q, x) && M(Digits, s, x + 3, j)
  {
    PlusMatches(Digit, s, q, x);
    PlusMatches(Digit, s, x + 3, j);
  }

  /** The port pattern of a field reads the ports a line shows. */
  lemma PortsMean(test: Comparison, values: Re, p: PacketRecord, m: Marks, s: string)
    requires WellFormedTest(test) && KindOf(test.field) == Port && ValuesPattern(test) == Some(values)
    requires WellFormedPacket(p) && p.info.Ports? && Legible(p, m, s) && Within(values, Digits, s)
    ensures M(PortColumns(test.field, values), s, PortsBegin(p, m.body), PortsEnd(p, m.body)) <==>
            || (test.field !in {TcpDstPort, UdpDstPort} && NumberSelected(test, p.info.source))
            || (test.field !in {TcpSrcPort, UdpSrcPort} && NumberSelected(test, p.info.destination))
  {
    hide M, Body, AddressText, StreamText, Dec, Legible, Within, PortColumns, PortsBegin, ArrowBegin, PortsEnd,
         NumberSelected, PortsAt, Whole;
    var q, x, j := PortsBegin(p, m.body), ArrowBegin(p, m.body), PortsEnd(p, m.body);
    PortsShown(p, m, s);
    PortColumnsMatch(test.field, values, s, q, x, j);
    NumberMeans(test, values, p.info.source, s, q, x);
    NumberMeans(test, values, p.info.destination, s, x + 3, j);
  }

  lemma PortTestMeans(test: Comparison, values: Re, p: PacketRecord, m: Marks, s: string)
    requires WellFormedTest(test) && KindOf(test.field) == Port && ValuesPattern(test) == Some(values)
    requires WellFormedPacket(p) && Legible(p, m, s)
    ensures Selects(FieldPattern(test.field, values), s) <==> SomeSelected(test, p)
  {
    hide M, Body, AddressText, StreamText, Dec;
    var ports := PortColumns(test.field, values);
    ValuesAreWords(test, s);
    PortColumnsWithin(test.field, values, s);
    TransportMeans(IsTcp(test.field), ports, p, m, s);
    if p.info.Ports? {
      PortsMean(test, values, p, m, s);
    }
    PortsSelected(test, p);
    PortPatternMeans(test.field, values, TransportInfo(IsTcp(test.field), ports), p, m, s);
  }

  lemma PortPatternMeans(field: Field, values: Re, info: Re, p: PacketRecord, m: Marks, s: string)
    requires KindOf(field) == Port && info == TransportInfo(IsTcp(field), PortColumns(field, values)) && Legible(p, m, s)
    ensures Selects(FieldPattern(field, values), s) <==> Begins(info, s, m.lengthEnd + 1)
  {
    hide M, Body, AddressText, StreamText, Dec;
    assert FieldPattern(field, values) == Columns(Word, AnyPair, Word, Digits, info);
    InfoMeans(Word, info, p, m, s);
    WordCell(s, m.stream, m.streamEnd, m.times);
  }

  /** Some port of the field is selected. */
  lemma PortsSelected(test: Comparison, p: PacketRecord)
    requires WellFormedTest(test) && KindOf(test.field) == Port
    ensures SomeSelected(test, p) <==>
            && p.info.Ports? && p.info.tcp == IsTcp(test.field)
            && ((test.field !in {TcpDstPort, UdpDstPort} && NumberSelected(test, p.info.source))
                || (test.field !in {TcpSrcPort, UdpSrcPort} && NumberSelected(test, p.info.destination)))
  {
    var numbers := Numbers(test.field, p);
    if p.info.Ports? && p.info.tcp == IsTcp(test.field) {
      match test.field {
        case TcpPort | UdpPort => assert p.info.source == numbers[0] && p.info.destination == numbers[1];
        case TcpSrcPort | UdpSrcPort => assert p.info.source == numbers[0];
        case TcpDstPort | UdpDstPort => assert p.info.destination == numbers[0];
      }
    }
  }

  lemma StreamTestMeans(test: Comparison, values: Re, p: PacketRecord, m: Marks, s: string)
    requires WellFormedTest(test) && KindOf(test.field) == Stream && ValuesPattern(test) == Some(values)
    requires WellFormedPacket(p) && Legible(p, m, s)
    ensures Selects(FieldPattern(test.field, values), s) <==> SomeSelected(test, p)
  {
    hide M, Body, AddressText, StreamText, Dec;
    ValuesAreWords(test, s);
    AnyPortsMean(IsTcp(test.field), p, m, s);
    StreamMeans(test, values, p, m, s);
    StreamSelected(test, p);
    StreamPatternMeans(test.field, values, TransportInfo(IsTcp(test.field), PortPair(Digits, Digits)), p, m, s);
  }

  lemma StreamPatternMeans(field: Field, values: Re, info: Re, p: PacketRecord, m: Marks, s: string)
    requires KindOf(field) == Stream && info == TransportInfo(IsTcp(field), PortPair(Digits, Digits))
    requires Within(values, Word, s) && Legible(p, m, s)
    ensures Selects(FieldPattern(field, values), s) <==>
            M(values, s, m.stream, m.streamEnd) && Begins(info, s, m.lengthEnd + 1)
  {
    hide M, Body, AddressText, StreamText, Dec;
    assert FieldPattern(field, values) == Columns(values, AnyPair, Word, Digits, info);
    InfoMeans(values, info, p, m, s);
  }

  lemma AnyPortsMean(tcp: bool, p: PacketRecord, m: Marks, s: string)
    requires WellFormedPacket(p) && Legible(p, m, s)
    ensures Begins(TransportInfo(tcp, PortPair(Digits, Digits)), s, m.lengthEnd + 1) <==> p.info.Ports? && p.info.tcp == tcp
  {
    hide M, Body, AddressText, StreamText, Dec;
    TransportMeans(tcp, PortPair(Digits, Digits), p, m, s);
    if p.info.Ports? {
      var q, x, j := PortsBegin(p, m.body), ArrowBegin(p, m.body), PortsEnd(p, m.body);
      PortsShown(p, m, s);
      ArrowDigits(s, q, x, j);
      PortPairMatches(Digits, Digits, s, q, x, j);
    }
  }

  lemma StreamSelected(test: Comparison, p: PacketRecord)
    requires WellFormedTest(test) && KindOf(test.field) == Stream
    ensures SomeSelected(test, p) <==>
            && p.info.Ports? && p.info.tcp == IsTcp(test.field)
            && p.stream.Numbered? && NumberSelected(test, p.stream.id)
  {
    var numbers := Numbers(test.field, p);
    if p.info.Ports? && p.info.tcp == IsTcp(test.field) && p.stream.Numbered? {
      assert p.stream.id in numbers;
    }
  }

  lemma StreamMeans(test: Comparison, values: Re, p: PacketRecord, m: Marks, s: string)
    requires WellFormedTest(test) && KindOf(test.field) == Stream && ValuesPattern(test) == Some(values)
    requires Legible(p, m, s) && (p.stream.Numbered? ==> p.stream.id <= MaxUint64)
    ensures M(values, s, m.stream, m.streamEnd) <==> p.stream.Numbered? && NumberSelected(test, p.stream.id)
  {
    if p.stream.Numbered? {
      NumberMeans(test, values, p.stream.id, s, m.stream, m.streamEnd);
    } else if M(values, s, m.stream, m.streamEnd) {
      var first := s[m.stream..m.streamEnd][0];
      ValuesAreWords(test, s);
      PlusMatches(Digit, s, m.stream, m.streamEnd);
      assert false;
    }
  }

  // ── Protocols ──

  lemma {:induction false} NoCaseMatches(name: string, s: string, i: nat, j: nat)
    requires i <= j <= |s|
    ensures M(NoCase(name), s, i, j) <==> SameName(name, s[i..j])
  {
    if name != [] {
      var first, rest := Either(One(Lower(name[0])), One(Upper(name[0]))), NoCase(name[1..]);
      FirstThen(first, rest, s, i, j);
      if i < j {
        NoCaseMatches(name[1..], s, i + 1, j);
        assert s[i..j][0] == s[i] && s[i..j][1..] == s[i + 1..j];
        SameNameStep(name, s[i..j]);
        EitherCase(name[0], s[i]);
      }
    }
  }

  lemma SameNameStep(a: string, b: string)
    requires a != [] && b != []
    ensures SameName(a, b) <==> Lower(a[0]) == Lower(b[0]) && SameName(a[1..], b[1..])
  {
    if Lower(a[0]) == Lower(b[0]) && SameName(a[1..], b[1..]) {
      forall k | 0 <= k < |a|
        ensures Lower(a[k]) == Lower(b[k])
      {
        assert k > 0 ==> a[k] == a[1..][k - 1] && b[k] == b[1..][k - 1];
      }
    }
  }

  lemma EitherCase(n: char, c: char)
    ensures Has(Either(One(Lower(n)), One(Upper(n))), c) <==> Lower(n) == Lower(c)
  {
  }

  lemma ProtocolMeans(name: string, p: PacketRecord, m: Marks, s: string)
    requires IsName(name) && Legible(p, m, s)
    ensures Selects(ProtocolPattern(name), s) <==> SameName(name, Shown(p.protocol))
  {
    hide M, Body, AddressText, StreamText, Dec;
    NoCaseWithin(name, s);
    SolidIsAWord(NoCase(name), s);
    AnyColumns(p, m, s);
    ColumnsMean(AnyPair, NoCase(name), Digits, p, m, s);
    NoCaseMatches(name, s, m.protocol, m.protocolEnd);
  }

  // ── The whole filter ──

  /** Each test selects the packets it holds of. */
  lemma TestMeans(test: Comparison, p: PacketRecord, m: Marks, s: string)
    requires WellFormedTest(test) && WellFormedPacket(p) && Legible(p, m, s)
    ensures Selects(TestPattern(test), s) <==> SomeSelected(test, p)
  {
    hide M, Body, AddressText, StreamText, Dec;
    if ValuesPattern(test) == None {
      NeverSelects(s);
      NoneSelected(test, p);
    } else {
      var values := ValuesPattern(test).value;
      match KindOf(test.field) {
        case Ipv4 | Ipv6 => AddressTestMeans(test, values, p, m, s);
        case Port => PortTestMeans(test, values, p, m, s);
        case Stream => StreamTestMeans(test, values, p, m, s);
        case Length =>
          LengthTestMeans(test, values, p, m, s);
          assert p.length in Numbers(test.field, p);
      }
    }
  }

  lemma NoneSelected(test: Comparison, p: PacketRecord)
    requires WellFormedTest(test) && WellFormedPacket(p) && ValuesPattern(test) == None
    ensures !SomeSelected(test, p)
  {
    forall n | n in Numbers(test.field, p)
      ensures !NumberSelected(test, n)
    {
      NothingSelected(test, n);
    }
  }

  lemma {:induction false} HoldsIsEvaluate(e: Expr, p: PacketRecord, m: Marks, s: string)
    requires WellFormed(e) && WellFormedPacket(p) && Legible(p, m, s)
    ensures Holds(e, s) <==> Evaluate(e, p)
  {
    hide M, Body, AddressText, StreamText, Dec;
    match e {
      case And(operands) =>
        forall o | o in operands
          ensures Holds(o, s) <==> Evaluate(o, p)
        {
          HoldsIsEvaluate(o, p, m, s);
        }
      case Or(operands) =>
        forall o | o in operands
          ensures Holds(o, s) <==> Evaluate(o, p)
        {
          HoldsIsEvaluate(o, p, m, s);
        }
      case Not(operand) => HoldsIsEvaluate(operand, p, m, s);
      case Compare(test) =>
        if test.op == NotEqual {
          TestMeans(test.(op := Present), p, m, s);
          TestMeans(test.(op := Equal), p, m, s);
        } else {
          TestMeans(test, p, m, s);
        }
      case Protocol(name) => ProtocolMeans(name, p, m, s);
    }
  }

  /** Compiler correctness: of every packet, the line the formatter writes is matched by the
    * pattern of a filter exactly when the filter holds of the packet. */
  lemma FilterSelectsPackets(e: Expr, p: PacketRecord)
    requires WellFormed(e) && WellFormedPacket(p)
    ensures Selects(FilterPattern(e), FormatPacketLine(p)) <==> Evaluate(e, p)
  {
    hide M, Body, AddressText, StreamText, Dec;
    var m := LineShows(p);
    var s := FormatPacketLine(p);
    FilterSelects(e, s);
    ShownIsLegible(p, m, s);
    LineIsPacketLine(p, m, s);
    HoldsIsEvaluate(e, p, m, s);
  }
}
