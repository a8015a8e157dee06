/** A parsed display filter (src/display_filter.h). */
module FilterExpression {

  datatype Field =
    | IpAddr | IpSrc | IpDst
    | Ipv6Addr | Ipv6Src | Ipv6Dst
    | TcpPort | TcpSrcPort | TcpDstPort
    | UdpPort | UdpSrcPort | UdpDstPort
    | TcpStream | UdpStream
    | FrameLen

  datatype Operator = Present | Equal | NotEqual | Less | Greater | LessEqual | GreaterEqual

  /** One field compared with a value, or alone: `number` is the value of a port, stream or
    * length, `address` that of an address, `prefixLength` an IPv4 network's or -1. */
  datatype Comparison = Comparison(field: Field, op: Operator, number: nat, address: string, prefixLength: int)

  datatype Expr =
    | And(operands: seq<Expr>)
    | Or(operands: seq<Expr>)
    | Not(operand: Expr)
    | Compare(test: Comparison)
    | Protocol(name: string)

  datatype ValueKind = Ipv4 | Ipv6 | Port | Stream | Length

  function KindOf(field: Field): ValueKind {
    match field
    case IpAddr | IpSrc | IpDst => Ipv4
    case Ipv6Addr | Ipv6Src | Ipv6Dst => Ipv6
    case TcpPort | TcpSrcPort | TcpDstPort | UdpPort | UdpSrcPort | UdpDstPort => Port
    case TcpStream | UdpStream => Stream
    case FrameLen => Length
  }

  const MaxUint64: nat := 0xFFFF_FFFF_FFFF_FFFF

  /** The largest value of a field; UINT64_MAX stands for none worth a bound. */
  function MaximumOf(kind: ValueKind): nat {
    if kind == Port then 65535 else MaxUint64
  }

  predicate IsAddressField(field: Field) {
    KindOf(field) in {Ipv4, Ipv6}
  }

  predicate IsTcp(field: Field) {
    field in {TcpPort, TcpSrcPort, TcpDstPort, TcpStream}
  }
}
