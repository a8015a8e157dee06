/** The packet lines a filter's pattern reads, as the Packet Formatter writes them
  * (src/packet_formatter.cpp, src/pcap_parser.cpp). */
module PacketLines {
  import opened Options
  import opened Regex
  import opened Decimal
  import opened Text
  import opened NumberRange
  import opened Bits
  import opened Ipv4Network
  import opened FilterExpression
  import opened FilterTranslation
  import opened FilterValues

  /** What a Source or Destination column shows: an IP address, with the name host names add
    * to it, or the MAC address of a packet without one (empty if it has none either). */
  datatype Endpoint =
    | V4(address: string, name: Option<string>)
    | V6(address: string, name: Option<string>)
    | Link(mac: string)

  datatype Tunnel =
    | IpInIp(inner: char, network: string)
    | Gre(key: Option<string>)
    | Vxlan(vni: Option<nat>)

  /** The Info column: that of a TCP or UDP packet begins with its ports. */
  datatype Info =
    | Ports(tcp: bool, markers: seq<string>, source: nat, destination: nat, more: string)
    | Other(text: string)

  /** A stream's number, or why a packet has none: past the stream cap, or of no stream. */
  datatype StreamId = Numbered(id: nat) | Unnumbered | NoStream

  datatype PacketRecord = PacketRecord(
    number: nat,
    stream: StreamId,
    nanoseconds: bool,
    utc: Option<(string, string)>,
    relative: Option<string>,
    source: Endpoint, destination: Endpoint,
    protocol: string,
    length: nat,
    macs: Option<(string, string)>,
    tunnels: seq<Tunnel>,
    info: Info)

  // ── Writing a line ──

  /** A column's value, an empty one as `-`. */
  function Shown(value: string): (shown: string)
    ensures shown != []
  {
    if value == "" then "-" else value
  }

  /** The spaces after it: up to the column's width, at least one. */
  function PadOf(value: string, width: nat): (pad: nat)
    ensures pad > 0
  {
    if |Shown(value)| < width then width - |Shown(value)| else 1
  }

  function Column(value: string, width: nat): string {
    Shown(value) + Spaces(PadOf(value, width))
  }

  function AddressText(e: Endpoint): string {
    match e
    case V4(address, name) => Named(address, name)
    case V6(address, name) => Named(address, name)
    case Link(mac) => mac
  }

  function Named(address: string, name: Option<string>): string {
    match name
    case Some(host) => address + ("(" + host + ")")
    case None => address
  }

  function StreamText(p: PacketRecord): string {
    match p.stream
    case Numbered(id) => Dec(id)
    case Unnumbered => "?"
    case NoStream => "-"
  }

  function TunnelText(t: Tunnel): string {
    match t
    case IpInIp(inner, network) => "IPv" + [inner] + "-in-" + network
    case Gre(Some(key)) => "GRE" + " key=0x" + key
    case Gre(None) => "GRE"
    case Vxlan(Some(vni)) => "VXLAN" + " VNI " + Dec(vni)
    case Vxlan(None) => "VXLAN"
  }

  function TunnelsText(tunnels: seq<Tunnel>): string {
    if tunnels == [] then "" else TunnelText(tunnels[0]) + " | " + TunnelsText(tunnels[1..])
  }

  function MarkersText(markers: seq<string>): string {
    if markers == [] then "" else "[TCP " + markers[0] + "] " + MarkersText(markers[1..])
  }

  function InfoText(info: Info): string {
    match info
    case Ports(tcp, markers, source, destination, more) =>
      MarkersText(markers) + Dec(source) + Arrow + Dec(destination) + " " + (if tcp then "[" else "Len=") + more
    case Other(text) => text
  }

  function UtcColumn(p: PacketRecord): string {
    match p.utc
    case Some((date, clock)) => Column(date + " " + clock, if p.nanoseconds then 32 else 29)
    case None => ""
  }

  function RelativeColumn(p: PacketRecord): string {
    match p.relative
    case Some(seconds) => Column(seconds, if p.nanoseconds then 18 else 15)
    case None => ""
  }

  function MacColumnsText(p: PacketRecord): string {
    match p.macs
    case Some((source, destination)) => Column(source, 19) + Column(destination, 19)
    case None => ""
  }

  function Body(p: PacketRecord): string {
    MacColumnsText(p) + (TunnelsText(p.tunnels) + InfoText(p.info))
  }

  /** The columns of a line in order, then the rest of it. */
  function FormatPacketLine(p: PacketRecord): string {
    Column(Dec(p.number), 7) + (Column(StreamText(p), 8) + (UtcColumn(p) + (RelativeColumn(p)
    + (Column(AddressText(p.source), 40) + (Column(AddressText(p.destination), 40)
    + (Column(p.protocol, 10) + (Column(Dec(p.length), 7) + Body(p))))))))
  }

  // ── What a packet can hold ──

  predicate IsHostName(name: string) {
    name != [] && forall k :: 0 <= k < |name| ==> Has(NameCharacter, name[k])
  }

  predicate IsMacText(mac: string) {
    |mac| == 17 && forall k :: 0 <= k < 17 ==> if k % 3 == 2 then mac[k] == ':' else Has(LowerHex, mac[k])
  }

  predicate WellFormedEndpoint(e: Endpoint) {
    match e
    case V4(address, name) => IsIpv4Text(address) && (name.Some? ==> IsHostName(name.value))
    case V6(address, name) => IsIpv6Address(address) && (name.Some? ==> IsHostName(name.value))
    case Link(mac) => mac == "" || IsMacText(mac)
  }

  predicate WellFormedTunnel(t: Tunnel) {
    match t
    case IpInIp(inner, network) => inner in {'4', '6'} && IsName(network)
    case Gre(Some(key)) => key != [] && forall k :: 0 <= k < |key| ==> Has(UpperHex, key[k])
    case _ => true
  }

  /** Two ports with an arrow between them, and what a TCP or a UDP packet's Info shows next, at `k`. */
  ghost predicate PortsAt(tcp: bool, s: string, k: nat) {
    Begins(PortsThen(tcp, PortPair(Digits, Digits)), s, k)
  }

  ghost predicate WellFormedPacket(p: PacketRecord) {
    && (p.stream.Numbered? ==> p.stream.id <= MaxUint64)
    && (p.utc.Some? ==> Whole(DateWord, p.utc.value.0) && Whole(ClockWord, p.utc.value.1))
    && (p.relative.Some? ==> Whole(SecondsWord, p.relative.value))
    && WellFormedEndpoint(p.source) && WellFormedEndpoint(p.destination)
    && (p.protocol == "" || (IsName(p.protocol) && !AllDigits(p.protocol)))
    && p.length <= MaxUint64
    && (p.macs.Some? ==> (p.macs.value.0 == "" || IsMacText(p.macs.value.0))
                         && (p.macs.value.1 == "" || IsMacText(p.macs.value.1)))
    && (forall t :: t in p.tunnels ==> WellFormedTunnel(t))
    && match p.info
       case Ports(_, markers, source, destination, _) =>
         source <= 65535 && destination <= 65535 && forall m :: m in markers ==> ']' !in m
       case Other(_) => forall tcp, k: nat :: !PortsAt(tcp, Body(p), k)
  }

  /** `r` matches all of `text`. */
  ghost predicate Whole(r: Re, text: string) {
    M(r, text, 0, |text|)
  }

  // ── What a filter says of a packet ──

  /** The source and destination port of a TCP packet. */
  function TcpPorts(p: PacketRecord): seq<nat> {
    if p.info.Ports? && p.info.tcp then [p.info.source, p.info.destination] else []
  }

  /** Those of a UDP packet. */
  function UdpPorts(p: PacketRecord): seq<nat> {
    if p.info.Ports? && !p.info.tcp then [p.info.source, p.info.destination] else []
  }

  /** The numbers a field has in a packet: none if the packet lacks the field. */
  function Numbers(field: Field, p: PacketRecord): seq<nat> {
    match field
    case TcpPort => TcpPorts(p)
    case UdpPort => UdpPorts(p)
    case TcpSrcPort => if TcpPorts(p) == [] then [] else TcpPorts(p)[..1]
    case UdpSrcPort => if UdpPorts(p) == [] then [] else UdpPorts(p)[..1]
    case TcpDstPort => if TcpPorts(p) == [] then [] else TcpPorts(p)[1..]
    case UdpDstPort => if UdpPorts(p) == [] then [] else UdpPorts(p)[1..]
    case TcpStream => if TcpPorts(p) != [] && p.stream.Numbered? then [p.stream.id] else []
    case UdpStream => if UdpPorts(p) != [] && p.stream.Numbered? then [p.stream.id] else []
    case FrameLen => [p.length]
    case _ => []
  }

  /** The columns an address field reads. */
  function Ends(field: Field, p: PacketRecord): seq<Endpoint> {
    match field
    case IpAddr | Ipv6Addr => [p.source, p.destination]
    case IpSrc | Ipv6Src => [p.source]
    case IpDst | Ipv6Dst => [p.destination]
    case _ => []
  }

  /** Whether a column shows an address of the kind, one the comparison selects. */
  predicate EndSelected(test: Comparison, e: Endpoint, protocol: string)
    requires WellFormedTest(test) && IsAddressField(test.field)
  {
    match test.field
    case IpAddr | IpSrc | IpDst => e.V4? && protocol != "ARP" && (test.op == Equal ==> InNetwork(e.address, test.address, test.prefixLength))
    case _ => e.V6? && (test.op == Equal ==> e.address == test.address)
  }

  /** Whether some value of the field is one the comparison, not a `!=`, selects. */
  predicate SomeSelected(test: Comparison, p: PacketRecord)
    requires WellFormedTest(test)
  {
    match test.field
    case IpAddr | IpSrc | IpDst | Ipv6Addr | Ipv6Src | Ipv6Dst =>
      exists e :: e in Ends(test.field, p) && EndSelected(test, e, p.protocol)
    case _ => exists n :: n in Numbers(test.field, p) && NumberSelected(test, n)
  }

  /** `!=` says that the packet has the field, and no value of it is the one compared with. */
  predicate EvaluateTest(test: Comparison, p: PacketRecord)
    requires WellFormedTest(test)
  {
    if test.op == NotEqual then
      SomeSelected(test.(op := Present), p) && !SomeSelected(test.(op := Equal), p)
    else SomeSelected(test, p)
  }

  /** ASCII case aside. */
  predicate SameName(a: string, b: string) {
    |a| == |b| && forall k :: 0 <= k < |a| ==> Lower(a[k]) == Lower(b[k])
  }

  predicate Evaluate(e: Expr, p: PacketRecord)
    requires WellFormed(e)
  {
    match e
    case And(operands) => forall o :: o in operands ==> Evaluate(o, p)
    case Or(operands) => exists o :: o in operands && Evaluate(o, p)
    case Not(operand) => !Evaluate(operand, p)
    case Compare(test) => EvaluateTest(test, p)
    case Protocol(name) => SameName(name, Shown(p.protocol))
  }
}
