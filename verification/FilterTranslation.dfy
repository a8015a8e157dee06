/** Translating a display filter into one regular expression (src/display_filter.cpp, src/regex_lab.cpp). */
module FilterTranslation {
  import opened Options
  import opened Regex
  import opened NumberRange
  import opened Text
  import opened Decimal
  import opened Bits
  import opened Ipv4Network
  import opened FilterExpression

  // ── The columns of a packet line ──

  const Gap := Plus(Chars(One(' ')))
  const Word := Plus(Chars(NonSpace))
  const Digits := Plus(Chars(Digit))

  /** `[+-]?\d{4,}-\d\d-\d\d` */
  const DateWord :=
    Then(Optional(Chars(Either(One('+'), One('-')))),
    Then(Times(Chars(Digit), 4), Then(Star(Chars(Digit)),
    Then(Chars(One('-')), Then(Times(Chars(Digit), 2),
    Then(Chars(One('-')), Times(Chars(Digit), 2)))))))

  /** `\d\d:\d\d:\d\d\.\d+Z` */
  const ClockWord :=
    Then(Times(Chars(Digit), 2), Then(Chars(One(':')),
    Then(Times(Chars(Digit), 2), Then(Chars(One(':')),
    Then(Times(Chars(Digit), 2), Then(Chars(One('.')), Then(Digits, Chars(One('Z')))))))))

  /** `-?\d+\.\d+` */
  const SecondsWord := Then(Optional(Chars(One('-'))), Then(Digits, Then(Chars(One('.')), Digits)))

  const UtcTime := Then(DateWord, Then(Chars(One(' ')), Then(ClockWord, Gap)))
  const RelativeTime := Then(SecondsWord, Gap)

  /** A packet line's columns up to Length, then `info`; either time column may be left out. */
  function Columns(stream: Re, addresses: Re, protocol: Re, length: Re, info: Re): Re {
    Then(Digits, Then(Gap, Then(stream, Then(Gap,
    Then(Optional(UtcTime), Then(Optional(RelativeTime), AddressesOn(addresses, protocol, length, info)))))))
  }

  function AddressesOn(addresses: Re, protocol: Re, length: Re, info: Re): Re {
    Then(addresses, Then(Gap, Then(protocol, Then(Gap, Then(length, Then(Chars(One(' ')), info))))))
  }

  function Pair(source: Re, destination: Re): Re {
    Then(source, Then(Gap, destination))
  }

  /** Either of the two columns as `values`. */
  function EitherEnd(values: Re): Re {
    Alt(Pair(values, Word), Pair(Word, values))
  }

  const AnyPair := Pair(Word, Word)

  /** Any packet line. */
  const PacketLine := Columns(Word, AnyPair, Word, Digits, Empty)

  // ── The start of a TCP or UDP packet's Info ──

  const Arrow := " \U{2192} "
  const LowerHex := Either(Digit, Range('a', 'f'))
  const UpperHex := Either(Digit, Range('A', 'F'))

  function Mac(): Re {
    Alt(Then(Times(Chars(LowerHex), 2), Times(Then(Chars(One(':')), Times(Chars(LowerHex), 2)), 5)), Chars(One('-')))
  }

  function TunnelName(): Re {
    AnyOf([Then(Literal("IPv"), Then(Chars(Either(One('4'), One('6'))), Then(Literal("-in-"), Word))),
           Then(Literal("GRE"), Optional(Then(Literal(" key=0x"), Plus(Chars(UpperHex))))),
           Then(Literal("VXLAN"), Optional(Then(Literal(" VNI "), Digits)))])
  }

  const TunnelPart := Then(TunnelName(), Literal(" | "))
  const MarkerPart := Then(Literal("[TCP "), Then(Star(Chars(Except(']'))), Literal("] ")))
  const MacColumns := Then(Mac(), Then(Gap, Then(Mac(), Gap)))

  function TransportInfo(tcp: bool, ports: Re): Re {
    Then(Star(Chars(One(' '))), Then(Optional(MacColumns), Then(Star(TunnelPart), Then(Star(MarkerPart), PortsThen(tcp, ports)))))
  }

  /** The ports, then the TCP flags or the UDP payload length. */
  function PortsThen(tcp: bool, ports: Re): Re {
    Then(ports, Then(Chars(One(' ')), if tcp then Chars(One('[')) else Literal("Len=")))
  }

  function PortPair(source: Re, destination: Re): Re {
    Then(source, Then(Literal(Arrow), destination))
  }

  // ── The values of a field ──

  /** Four patterns with dots between them. */
  function Dotted(a: Re, b: Re, c: Re, d: Re): Re {
    var dot := Chars(One('.'));
    Then(a, Then(dot, Then(b, Then(dot, Then(c, Then(dot, d))))))
  }

  /** `\d+\.\d+\.\d+\.\d+` */
  const AnyIpv4 := Dotted(Digits, Digits, Digits, Digits)

  const HexOrColon := Either(LowerHex, One(':'))

  /** One to four hexadecimal digits. */
  function HexGroup(): Re {
    Then(Chars(LowerHex), Times(Optional(Chars(LowerHex)), 3))
  }

  /** An IPv6 address, which its `::` or its eight groups tell from a MAC address. */
  function AnyIpv6(): Re {
    Alt(Then(Star(Chars(HexOrColon)), Then(Literal("::"), Star(Chars(HexOrColon)))),
        Then(HexGroup(), Times(Then(Chars(One(':')), HexGroup()), 7)))
  }

  const NameCharacter := Either(Either(Range('A', 'Z'), Range('a', 'z')),
                                Either(Digit, Either(One('_'), Either(One('.'), One('-')))))

  /** The name a DNS answer gave an address, in parentheses behind it. */
  const NameSuffix := Optional(Then(Chars(One('(')), Then(Plus(Chars(NameCharacter)), Chars(One(')')))))

  /** Whether `address` is four numbers in dotted decimal, as formatIpv4() writes an address. */
  predicate IsIpv4Text(address: string) {
    AreOctetTexts(Split(address, '.'))
  }

  predicate AreOctetTexts(parts: seq<string>) {
    |parts| == 4 && forall k :: 0 <= k < 4 ==> IsNumeral(parts[k]) && Value(parts[k]) < 256
  }

  function OctetsOf(parts: seq<string>): (octets: seq<nat>)
    requires AreOctetTexts(parts)
    ensures |octets| == 4 && AreOctets(octets)
  {
    [Value(parts[0]), Value(parts[1]), Value(parts[2]), Value(parts[3])]
  }

  function Octets(address: string): (octets: seq<nat>)
    requires IsIpv4Text(address)
    ensures |octets| == 4 && AreOctets(octets)
  {
    OctetsOf(Split(address, '.'))
  }

  function OctetPattern(octets: seq<nat>, prefixLength: nat, i: nat): Re
    requires i < |octets|
  {
    match NumberRangePattern(octets[i], LastWithPrefix(octets[i], BitsIn(prefixLength, i)))
    case Some(pattern) => pattern
    case None => Empty
  }

  function Ipv4Pattern(address: string, prefixLength: int): Re
    requires IsIpv4Text(address)
  {
    if prefixLength < 0 then Literal(address)
    else
      var octets := Octets(address);
      Dotted(OctetPattern(octets, prefixLength, 0), OctetPattern(octets, prefixLength, 1),
             OctetPattern(octets, prefixLength, 2), OctetPattern(octets, prefixLength, 3))
  }

  /** Whether `address` is the first of its network: no bit is set behind the prefix. */
  predicate IsNetwork(address: string, prefixLength: int)
    requires IsIpv4Text(address)
  {
    prefixLength <= 32 &&
    (prefixLength >= 0 ==> forall k :: 0 <= k < 4 ==> EndsInZeros(Octets(address)[k], 8 - BitsIn(prefixLength, k)))
  }

  /** The value of a comparison is one its field can be compared with. */
  predicate WellFormedTest(test: Comparison) {
    match KindOf(test.field)
    case Ipv4 => test.op in {Present, Equal, NotEqual} && (test.op != Present ==> IsIpv4Text(test.address) && IsNetwork(test.address, test.prefixLength))
    case Ipv6 => test.op in {Present, Equal, NotEqual} && (test.op != Present ==> IsIpv6Address(test.address))
    case _ => test.number <= MaximumOf(KindOf(test.field))
  }

  /** An address as formatIpv6() writes it: hexadecimal groups and colons. */
  predicate IsIpv6Text(address: string) {
    address != [] && forall k :: 0 <= k < |address| ==> Has(HexOrColon, address[k])
  }

  /** An IPv6 address has a `::` or eight groups of hexadecimal digits. */
  predicate IsIpv6Address(address: string) {
    && IsIpv6Text(address)
    && ((exists k :: 0 <= k < |address| - 1 && address[k] == address[k + 1] == ':')
        || EightGroups(Split(address, ':')))
  }

  predicate EightGroups(groups: seq<string>) {
    |groups| == 8 && forall g :: 0 <= g < 8 ==> 1 <= |groups[g]| <= 4
  }

  /** The values a comparison selects, none for no value; those of any value for Present and NotEqual. */
  function ValuesPattern(test: Comparison): Option<Re>
    requires WellFormedTest(test)
  {
    var kind := KindOf(test.field);
    if IsAddressField(test.field) then
      var address := if test.op != Equal then (if kind == Ipv4 then AnyIpv4 else AnyIpv6())
                     else if kind == Ipv4 then Ipv4Pattern(test.address, test.prefixLength)
                     else Literal(test.address);
      Some(Then(address, NameSuffix))
    else
      var n, maximum := test.number, MaximumOf(kind);
      match test.op
      case Equal => Some(Literal(Dec(n)))
      case Less => if n == 0 then None else NumberRangePattern(0, n - 1)
      case LessEqual => NumberRangePattern(0, n)
      case Greater => if n >= maximum then None else NumberRangePattern(n + 1, maximum)
      case GreaterEqual => NumberRangePattern(n, maximum)
      case _ => Some(Digits)
  }

  /** The Protocol column of a packet that is not ARP's, whose lines show IPv4 addresses too. */
  const NotArp := Then(NotAhead(Literal("ARP ")), Word)

  /** The lines in which a field has one of `values`. */
  function FieldPattern(field: Field, values: Re): Re {
    match field
    case IpAddr => Columns(Word, EitherEnd(values), NotArp, Digits, Empty)
    case IpSrc => Columns(Word, Pair(values, Word), NotArp, Digits, Empty)
    case IpDst => Columns(Word, Pair(Word, values), NotArp, Digits, Empty)
    case Ipv6Addr => Columns(Word, EitherEnd(values), Word, Digits, Empty)
    case Ipv6Src => Columns(Word, Pair(values, Word), Word, Digits, Empty)
    case Ipv6Dst => Columns(Word, Pair(Word, values), Word, Digits, Empty)
    case TcpPort | UdpPort =>
      Columns(Word, AnyPair, Word, Digits,
              TransportInfo(IsTcp(field), Alt(PortPair(values, Digits), PortPair(Digits, values))))
    case TcpSrcPort | UdpSrcPort =>
      Columns(Word, AnyPair, Word, Digits, TransportInfo(IsTcp(field), PortPair(values, Digits)))
    case TcpDstPort | UdpDstPort =>
      Columns(Word, AnyPair, Word, Digits, TransportInfo(IsTcp(field), PortPair(Digits, values)))
    case TcpStream | UdpStream =>
      Columns(values, AnyPair, Word, Digits, TransportInfo(IsTcp(field), PortPair(Digits, Digits)))
    case FrameLen => Columns(Word, AnyPair, Word, values, Empty)
  }

  /** `text`, ASCII case aside: `(?i:text)`. */
  function NoCase(text: string): Re {
    if text == [] then Empty
    else Then(Chars(Either(One(Lower(text[0])), One(Upper(text[0])))), NoCase(text[1..]))
  }

  predicate IsName(name: string) {
    name != [] && forall k :: 0 <= k < |name| ==> !IsSpace(name[k])
  }

  function ProtocolPattern(name: string): Re {
    Columns(Word, AnyPair, NoCase(name), Digits, Empty)
  }

  function TestPattern(test: Comparison): Re
    requires WellFormedTest(test)
  {
    match ValuesPattern(test)
    case Some(values) => FieldPattern(test.field, values)
    case None => Never
  }

  // ── Expressions ──

  predicate WellFormed(e: Expr) {
    match e
    case And(operands) => forall o :: o in operands ==> WellFormed(o)
    case Or(operands) => operands != [] && forall o :: o in operands ==> WellFormed(o)
    case Not(operand) => WellFormed(operand)
    case Compare(test) => WellFormedTest(test)
    case Protocol(name) => IsName(name)
  }

  predicate IsTest(e: Expr) {
    (e.Compare? && e.test.op != NotEqual) || e.Protocol?
  }

  /** The lines a single test selects, read from their start. */
  function Single(e: Expr): Re
    requires WellFormed(e) && IsTest(e)
  {
    if e.Compare? then TestPattern(e.test) else ProtocolPattern(e.name)
  }

  /** An expression as assertions at the start of the line. */
  function Assertion(e: Expr): Re
    requires WellFormed(e)
    decreases e, 0
  {
    match e
    case And(operands) => Chain(operands)
    case Or(operands) => AnyOf(Assertions(operands))
    case Not(operand) => NotAhead(if IsTest(operand) then Single(operand) else Assertion(operand))
    case Compare(test) =>
      if test.op == NotEqual then
        Then(Ahead(TestPattern(test.(op := Present))), NotAhead(TestPattern(test.(op := Equal))))
      else Ahead(Single(e))
    case Protocol(_) => Ahead(Single(e))
  }

  function Assertions(operands: seq<Expr>): (parts: seq<Re>)
    requires forall o :: o in operands ==> WellFormed(o)
    ensures |parts| == |operands|
    ensures forall k :: 0 <= k < |operands| ==> parts[k] == Assertion(operands[k])
    decreases operands, 1
  {
    if operands == [] then [] else [Assertion(operands[0])] + Assertions(operands[1..])
  }

  /** Assertions one after the other, which all have to hold. */
  function Chain(operands: seq<Expr>): Re
    requires forall o :: o in operands ==> WellFormed(o)
    decreases operands, 1
  {
    if operands == [] then Empty else Then(Assertion(operands[0]), Chain(operands[1..]))
  }

  /** Whether a line the expression selects is a packet line anyway. */
  predicate SelectsPacketLinesOnly(e: Expr) {
    match e
    case And(operands) => exists o :: o in operands && SelectsPacketLinesOnly(o)
    case Or(operands) => forall o :: o in operands ==> SelectsPacketLinesOnly(o)
    case Not(_) => false
    case _ => true
  }

  function FilterPattern(e: Expr): Re
    requires WellFormed(e)
  {
    if IsTest(e) then Single(e)
    else Then(if SelectsPacketLinesOnly(e) then Empty else Ahead(PacketLine), Assertion(e))
  }

  /** The pattern, anchored with `^`, matches `line`. */
  ghost predicate Selects(pattern: Re, line: string) {
    Begins(pattern, line, 0)
  }
}
