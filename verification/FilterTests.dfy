/** The tests of a display filter: a field alone or compared with a value, or a protocol name
  * (src/display_filter.cpp). */
module FilterTests {
  import opened Options
  import opened Text
  import opened Decimal
  import opened Ipv4Network
  import opened Ipv4Masks
  import opened Ipv6Texts
  import opened Ipv6Parsers
  import opened AddressTexts
  import opened FilterExpression
  import opened FilterTokens

  // ── Fields ──

  function NameOf(field: Field): string {
    match field
    case IpAddr => "ip.addr"
    case IpSrc => "ip.src"
    case IpDst => "ip.dst"
    case Ipv6Addr => "ipv6.addr"
    case Ipv6Src => "ipv6.src"
    case Ipv6Dst => "ipv6.dst"
    case TcpPort => "tcp.port"
    case TcpSrcPort => "tcp.srcport"
    case TcpDstPort => "tcp.dstport"
    case UdpPort => "udp.port"
    case UdpSrcPort => "udp.srcport"
    case UdpDstPort => "udp.dstport"
    case TcpStream => "tcp.stream"
    case UdpStream => "udp.stream"
    case FrameLen => "frame.len"
  }

  const Fields: seq<Field> :=
    [IpAddr, IpSrc, IpDst, Ipv6Addr, Ipv6Src, Ipv6Dst, TcpPort, TcpSrcPort, TcpDstPort,
     UdpPort, UdpSrcPort, UdpDstPort, TcpStream, UdpStream, FrameLen]

  function FieldAmong(name: string, fields: seq<Field>): Option<Field> {
    if fields == [] then None
    else if name == NameOf(fields[0]) then Some(fields[0])
    else FieldAmong(name, fields[1..])
  }

  function FieldNamed(name: string): Option<Field> {
    FieldAmong(name, Fields)
  }

  method FindField(name: string) returns (field: Option<Field>)
    ensures field == FieldNamed(name)
  {
    hide NameOf;
    assert Fields[0..] == Fields;
    for i := 0 to |Fields|
      invariant FieldNamed(name) == FieldAmong(name, Fields[i..])
    {
      assert Fields[i..][1..] == Fields[i + 1..];
      if name == NameOf(Fields[i]) {
        return Some(Fields[i]);
      }
    }
    assert Fields[|Fields|..] == [];
    return None;
  }

  lemma NamesDiffer(f: Field, g: Field)
    ensures NameOf(f) == NameOf(g) ==> f == g
  {
    var a, b := NameOf(f), NameOf(g);
    if a == b {
      assert |a| == |b| && a[0] == b[0] && a[3] == b[3] && a[4] == b[4] && a[5] == b[5];
    }
  }

  lemma {:induction false} FieldIsAmong(field: Field, fields: seq<Field>)
    requires field in fields
    ensures FieldAmong(NameOf(field), fields) == Some(field)
  {
    hide NameOf;
    NamesDiffer(field, fields[0]);
    if field != fields[0] {
      FieldIsAmong(field, fields[1..]);
    }
  }

  lemma {:induction false} AmongIsName(name: string, fields: seq<Field>)
    ensures FieldAmong(name, fields).Some? ==> NameOf(FieldAmong(name, fields).value) == name
  {
    hide NameOf;
    if fields != [] {
      AmongIsName(name, fields[1..]);
    }
  }

  lemma AllFields(field: Field)
    ensures field in Fields
  {
    assert Fields[0] == IpAddr && Fields[1] == IpSrc && Fields[2] == IpDst && Fields[3] == Ipv6Addr && Fields[4] == Ipv6Src
        && Fields[5] == Ipv6Dst && Fields[6] == TcpPort && Fields[7] == TcpSrcPort && Fields[8] == TcpDstPort
        && Fields[9] == UdpPort && Fields[10] == UdpSrcPort && Fields[11] == UdpDstPort && Fields[12] == TcpStream
        && Fields[13] == UdpStream && Fields[14] == FrameLen;
  }

  /** Every field has one name, and each name one field. */
  lemma FieldHasName(name: string, field: Field)
    ensures FieldNamed(name) == Some(field) <==> name == NameOf(field)
  {
    hide NameOf;
    AllFields(field);
    FieldIsAmong(field, Fields);
    AmongIsName(name, Fields);
  }

  // ── Values ──

  predicate IsHexText(text: string) {
    |text| >= 2 && text[0] == '0' && Lower(text[1]) == 'x'
  }

  predicate AllOf(hex: bool, s: string) {
    if hex then AllHex(s) else AllDigits(s)
  }

  /** A number in decimal or, behind `0x`, in hexadecimal, if it fits in 64 bits. */
  function NumberValue(text: string): Option<nat> {
    var digits := if IsHexText(text) then text[2..] else text;
    if digits == "" || !AllOf(IsHexText(text), digits) then None
    else
      var number := if IsHexText(text) then HexValue(digits) else Value(digits);
      if number <= MaxUint64 then Some(number) else None
  }

  lemma NoDigits(hex: bool)
    ensures AllOf(hex, "")
  {
  }

  lemma DigitsMore(hex: bool, s: string, c: char)
    ensures AllOf(hex, s + [c]) <==> AllOf(hex, s) && if hex then IsHexDigit(c) else IsDigit(c)
  {
    var t := s + [c];
    assert t[|s|] == c && t[..|s|] == s;
    if AllOf(hex, t) {
      assert forall k :: 0 <= k < |s| ==> t[k] == s[k];
    }
  }

  method ParseNumber(text: string, kind: ValueKind) returns (number: Option<nat>)
    ensures number == if NumberValue(text).Some? && NumberValue(text).value <= MaximumOf(kind) then NumberValue(text) else None
  {
    hide Value, HexValue;
    var hex := IsHexText(text);
    var from := if hex then 2 else 0;
    var digits := |text| > from;
    NoDigits(hex);
    assert text[from..from] == "";
    for i := from to |text|
      invariant digits == (|text| > from && AllOf(hex, text[from..i]))
    {
      assert text[from..i + 1] == text[from..i] + [text[i]];
      DigitsMore(hex, text[from..i], text[i]);
      digits := digits && if hex then IsHexDigit(text[i]) else IsDigit(text[i]);
    }
    assert text[from..|text|] == if hex then text[2..] else text;
    if !digits {
      return None;
    }
    var value := if hex then HexValue(text[2..]) else Value(text);
    if value > MaxUint64 || value > MaximumOf(kind) {
      return None;
    }
    return Some(value);
  }

  datatype Address = Address(text: string, prefixLength: int)

  predicate IsPrefixLength(text: string) {
    text != "" && AllDigits(text) && Value(text) <= 32
  }

  /** The first address of an IPv4 network in dotted decimal; a prefix of all 32 bits is none. */
  function NetworkAddress(octets: seq<nat>, prefixLength: nat): Address
    requires |octets| == 4 && AreOctets(octets) && prefixLength <= 32
  {
    if prefixLength < 32 then Address(Ipv4Text(FirstOfNetwork(octets, prefixLength)), prefixLength)
    else Address(Ipv4Text(octets), -1)
  }

  /** The address a text is, in its canonical form, or where in the text it is wrong. */
  function AddressValue(text: string, v6: bool): (read: Outcome<Address>)
    ensures read.Rejected? ==> read.position <= |text|
  {
    var slash := IndexOf(text, '/', 0);
    if slash < |text| && v6 then Rejected(slash)
    else if slash < |text| && !IsPrefixLength(text[slash + 1..]) then Rejected(slash + 1)
    else
      var prefixLength := if slash < |text| then Value(text[slash + 1..]) else 32;
      var ipv4, ipv6 := Ipv4Of(text[..slash]), Parse(text[..slash]);
      if !v6 && ipv4.Some? then
        Ipv4IsFour(text[..slash]);
        Accepted(NetworkAddress(ipv4.value, prefixLength))
      else if v6 && ipv4 == None && ipv6.Some? then Accepted(Address(Ipv6Text(ipv6.value), -1))
      else Rejected(0)
  }

  lemma GroupsOfBytes(groups: seq<nat>)
    requires |groups| == 8
    ensures |BytesOf(groups)| == 16 && BytesGroups(BytesOf(groups)) == groups
  {
    hide BytesOf;
    BytesAt(groups, 0);
    forall k | 0 <= k < 8
      ensures BytesGroups(BytesOf(groups))[k] == groups[k]
    {
      BytesAt(groups, k);
    }
  }

  method ParseAddress(text: string, v6: bool) returns (read: Outcome<Address>)
    ensures read == AddressValue(text, v6)
  {
    hide Ipv4Of, Parse, Value, Ipv6Text, Ipv4Text, Number, Masked, FourOctets, BytesOf;
    var address: string, prefixLength: int := text, -1;
    var slash := IndexOf(text, '/', 0);
    if slash < |text| {
      if v6 {
        return Rejected(slash);
      }
      if !IsPrefixLength(text[slash + 1..]) {
        return Rejected(slash + 1);
      }
      prefixLength := Value(text[slash + 1..]);
      address := text[..slash];
    }
    assert address == text[..slash];
    var ipv4 := ParseIpv4(address);
    var ipv6: Option<seq<nat>> := None;
    if ipv4 == None {
      ipv6 := ParseIpv6(address);
    }
    if !v6 {
      if ipv4 == None {
        return Rejected(0);
      }
      Ipv4IsFour(address);
      OctetsOfNumber(Ipv4Of(address).value);
      var number: nat, kept: int := ipv4.value, -1;
      if 0 <= prefixLength < 32 {
        number := Masked(number, 32 - prefixLength);
        kept := prefixLength;
      }
      var canonical := FormatIpv4(FourOctets(number));
      return Accepted(Address(canonical, kept));
    }
    if ipv6 == None {
      return Rejected(0);
    }
    EightGroups(address);
    GroupsOfBytes(Parse(address).value);
    var canonical := FormatIpv6(ipv6.value);
    return Accepted(Address(canonical, -1));
  }

  // ── Tests ──

  /** What was read, and the token behind it. */
  datatype Part = Part(expression: Expr, next: nat)

  /** A field alone: whether the packet has it. */
  function Presence(field: Field): Comparison {
    Comparison(field, Present, 0, "", -1)
  }

  /** `field` compared: the operator at `next`, then a value. */
  function ReadComparison(field: Field, tokens: seq<Token>, next: nat): (read: Outcome<Part>)
    requires AreTokens(tokens) && next < |tokens| && tokens[next].kind.Comparing?
    ensures read.Accepted? ==> next < read.value.next < |tokens|
  {
    var op, value := tokens[next].kind.op, tokens[next + 1];
    if !value.kind.Word? || FieldNamed(LowerText(value.kind.text)).Some? then Rejected(value.position)
    else if IsAddressField(field) then
      if op != Equal && op != NotEqual then Rejected(tokens[next].position)
      else
        match AddressValue(value.kind.text, KindOf(field) == Ipv6)
        case Rejected(offset) => Rejected(value.position + offset)
        case Accepted(address) =>
          Accepted(Part(Compare(Comparison(field, op, 0, address.text, address.prefixLength)), next + 2))
    else
      var number := NumberValue(value.kind.text);
      if number.Some? && number.value <= MaximumOf(KindOf(field)) then
        Accepted(Part(Compare(Comparison(field, op, number.value, "", -1)), next + 2))
      else Rejected(value.position)
  }

  /** The field a protocol's packets have, for those that are told by it and not by the Protocol column. */
  function ShorthandNamed(lower: string): Option<Field> {
    if lower == "tcp" then Some(TcpPort)
    else if lower == "udp" then Some(UdpPort)
    else if lower == "ip" then Some(IpAddr)
    else if lower == "ipv6" then Some(Ipv6Addr)
    else None
  }

  function ReadTest(tokens: seq<Token>, next: nat): (read: Outcome<Part>)
    requires AreTokens(tokens) && next < |tokens| && tokens[next].kind.Word?
    ensures read.Accepted? ==> next < read.value.next < |tokens|
  {
    var word, position, compared := tokens[next].kind.text, tokens[next].position, tokens[next + 1].kind.Comparing?;
    var lower := LowerText(word);
    if !IsLetter(word[0]) then Rejected(position)
    else if '.' in lower then
      match FieldNamed(lower)
      case None => Rejected(position)
      case Some(field) =>
        if compared then ReadComparison(field, tokens, next + 1) else Accepted(Part(Compare(Presence(field)), next + 1))
    else if compared then Rejected(tokens[next + 1].position)
    else
      match ShorthandNamed(lower)
      case Some(field) => Accepted(Part(Compare(Presence(field)), next + 1))
      case None => Accepted(Part(Protocol(word), next + 1))
  }

  // ── Tests as they are parsed ──

  predicate IsProtocolName(name: string) {
    IsWord(name) && IsLetter(name[0]) && '.' !in name && ShorthandNamed(LowerText(name)) == None
  }

  predicate IsCanonicalIpv4(address: string) {
    Ipv4Of(address).Some? && address == Ipv4Text(Ipv4Of(address).value)
  }

  predicate IsCanonicalIpv6(address: string) {
    Parse(address).Some? && address == Ipv6Text(Parse(address).value)
  }

  /** The value is one of the field's, and what the comparison does not need is unset. */
  predicate IsCanonical(test: Comparison) {
    if test.op == Present then test == Presence(test.field)
    else if IsAddressField(test.field) then
      && (test.op == Equal || test.op == NotEqual) && test.number == 0
      && if KindOf(test.field) == Ipv4 then
           && IsCanonicalIpv4(test.address) && -1 <= test.prefixLength < 32
           && (test.prefixLength >= 0 ==> ZeroBehind(Ipv4Of(test.address).value, test.prefixLength))
         else IsCanonicalIpv6(test.address) && test.prefixLength == -1
    else test.address == "" && test.prefixLength == -1 && test.number <= MaximumOf(KindOf(test.field))
  }

  predicate IsLeaf(e: Expr) {
    (e.Compare? && IsCanonical(e.test)) || (e.Protocol? && IsProtocolName(e.name))
  }

  lemma NetworkIsCanonical(octets: seq<nat>, prefixLength: nat)
    requires |octets| == 4 && AreOctets(octets) && prefixLength <= 32
    ensures var address := NetworkAddress(octets, prefixLength);
            && IsCanonicalIpv4(address.text) && -1 <= address.prefixLength < 32
            && (address.prefixLength >= 0 ==> ZeroBehind(Ipv4Of(address.text).value, address.prefixLength))
  {
    hide Ipv4Of, Ipv4Text, ZeroBehind, FirstOfNetwork;
    FirstIsOfNetwork(octets, prefixLength);
    Ipv4TextIsRead(octets);
    Ipv4TextIsRead(FirstOfNetwork(octets, prefixLength));
  }

  lemma {:induction false} HexValueBound(s: string)
    requires AllHex(s)
    ensures HexValue(s) < if |s| == 0 then 1 else if |s| == 1 then 16 else if |s| == 2 then 256 else if |s| == 3 then 4096 else if |s| == 4 then 65536 else HexValue(s) + 1
  {
    if s != [] {
      HexValueBound(s[..|s| - 1]);
    }
  }

  lemma ItemIsGroups(item: string, mayBeIpv4: bool)
    requires ItemGroups(item, mayBeIpv4).Some?
    ensures AreGroups(ItemGroups(item, mayBeIpv4).value)
  {
    hide HexValue, Ipv4Of;
    if mayBeIpv4 && '.' in item {
      Ipv4IsFour(item);
    } else {
      HexValueBound(item);
    }
  }

  lemma {:induction false} ItemsAreGroups(items: seq<string>, ipv4Last: bool)
    requires ItemsGroups(items, ipv4Last).Some?
    ensures AreGroups(ItemsGroups(items, ipv4Last).value)
  {
    hide ItemGroups;
    if items != [] {
      ItemIsGroups(items[0], ipv4Last && |items| == 1);
      ItemsAreGroups(items[1..], ipv4Last);
    }
  }

  lemma ParsedIsGroups(text: string)
    requires Parse(text).Some?
    ensures |Parse(text).value| == 8 && AreGroups(Parse(text).value)
  {
    hide GapAt, ItemsGroups, Split;
    forall part, ipv4Last | GroupsOf(part, ipv4Last).Some?
      ensures AreGroups(GroupsOf(part, ipv4Last).value)
    {
      if part != "" {
        ItemsAreGroups(Split(part, ':'), ipv4Last);
      }
    }
    EightGroups(text);
  }

  lemma AddressIsCanonical(text: string, v6: bool)
    ensures AddressValue(text, v6).Accepted? ==>
              var address := AddressValue(text, v6).value;
              if v6 then IsCanonicalIpv6(address.text) && address.prefixLength == -1
              else && IsCanonicalIpv4(address.text) && -1 <= address.prefixLength < 32
                   && (address.prefixLength >= 0 ==> ZeroBehind(Ipv4Of(address.text).value, address.prefixLength))
  {
    hide Ipv4Of, Parse, Ipv6Text, NetworkAddress, Value, ZeroBehind;
    var slash := IndexOf(text, '/', 0);
    if AddressValue(text, v6).Accepted? {
      if v6 {
        ParsedIsGroups(text[..slash]);
        Ipv6TextIsRead(Parse(text[..slash]).value);
      } else {
        Ipv4IsFour(text[..slash]);
        NetworkIsCanonical(Ipv4Of(text[..slash]).value, if slash < |text| then Value(text[slash + 1..]) else 32);
      }
    }
  }

  lemma ComparisonIsCanonical(field: Field, tokens: seq<Token>, next: nat)
    requires AreTokens(tokens) && next < |tokens| && tokens[next].kind.Comparing?
    ensures ReadComparison(field, tokens, next).Accepted? ==>
              IsLeaf(ReadComparison(field, tokens, next).value.expression)
  {
    hide FieldNamed, AddressValue, NumberValue, LowerText, Ipv4Of, Parse, Ipv4Text, Ipv6Text, ZeroBehind, IsWord;
    var value := tokens[next + 1].kind;
    if value.Word? {
      AddressIsCanonical(value.text, KindOf(field) == Ipv6);
    }
  }

  /** Every test that is accepted is in canonical form. */
  lemma TestIsLeaf(tokens: seq<Token>, next: nat)
    requires AreTokens(tokens) && next < |tokens| && tokens[next].kind.Word?
    ensures ReadTest(tokens, next).Accepted? ==> IsLeaf(ReadTest(tokens, next).value.expression)
  {
    hide FieldNamed, ReadComparison, LowerText, ShorthandNamed, IsWord;
    var word := tokens[next].kind.text;
    var lower := LowerText(word);
    forall k | 0 <= k < |word|
      ensures lower[k] == '.' <==> word[k] == '.'
    {
    }
    if FieldNamed(lower).Some? && tokens[next + 1].kind.Comparing? {
      ComparisonIsCanonical(FieldNamed(lower).value, tokens, next + 1);
    }
  }

  // ── Tests written and read back ──

  function ValueText(test: Comparison): string {
    if !IsAddressField(test.field) then Dec(test.number)
    else if test.prefixLength < 0 then test.address
    else test.address + "/" + Dec(test.prefixLength)
  }

  /** The tokens a test is written in. */
  function TestKinds(e: Expr): (kinds: seq<TokenKind>)
    requires e.Compare? || e.Protocol?
    ensures kinds != [] && kinds[0].Word?
  {
    if e.Protocol? then [Word(e.name)]
    else if e.test.op == Present then [Word(NameOf(e.test.field))]
    else [Word(NameOf(e.test.field)), Comparing(e.test.op), Word(ValueText(e.test))]
  }

  predicate AllLetters(s: string) {
    forall k :: 0 <= k < |s| ==> IsLetter(s[k])
  }

  /** Only words of letters are operators. */
  lemma OperatorsAreLetters(word: string)
    requires word != "" && AllWordCharacters(word) && !IsWord(word)
    ensures AllLetters(word)
  {
    var lower := LowerText(word);
    assert lower in ["and", "or", "not", "eq", "ne", "lt", "gt", "le", "ge",
                     "contains", "matches", "in", "bitand", "any", "all", "xor"];
    assert AllLetters(lower);
    forall k | 0 <= k < |word|
      ensures IsLetter(word[k])
    {
      assert IsLetter(lower[k]);
    }
  }

  lemma FieldNames(field: Field)
    ensures var name := NameOf(field);
            name != "" && IsLetter(name[0]) && '.' in name && ':' !in name && AllWordCharacters(name) && LowerText(name) == name
  {
    match field {
      case IpAddr => NameIs("ip.addr", 2);
      case IpSrc => NameIs("ip.src", 2);
      case IpDst => NameIs("ip.dst", 2);
      case Ipv6Addr => NameIs("ipv6.addr", 4);
      case Ipv6Src => NameIs("ipv6.src", 4);
      case Ipv6Dst => NameIs("ipv6.dst", 4);
      case TcpPort => NameIs("tcp.port", 3);
      case TcpSrcPort => NameIs("tcp.srcport", 3);
      case TcpDstPort => NameIs("tcp.dstport", 3);
      case UdpPort => NameIs("udp.port", 3);
      case UdpSrcPort => NameIs("udp.srcport", 3);
      case UdpDstPort => NameIs("udp.dstport", 3);
      case TcpStream => NameIs("tcp.stream", 3);
      case UdpStream => NameIs("udp.stream", 3);
      case FrameLen => NameIs("frame.len", 5);
    }
  }

  predicate IsFieldLetter(c: char) {
    'a' <= c <= 'z' || c == '.' || c == '6'
  }

  lemma NameIs(name: string, dot: nat)
    requires 0 < dot < |name| && name[dot] == '.' && IsLetter(name[0])
    requires forall k :: 0 <= k < |name| ==> IsFieldLetter(name[k])
    ensures '.' in name && ':' !in name && AllWordCharacters(name) && LowerText(name) == name
  {
  }

  /** A text that is no field's name: it does not begin with a letter, or has a colon. */
  lemma NoFieldName(text: string)
    requires text != "" && (!IsLetter(text[0]) || ':' in text)
    ensures FieldNamed(LowerText(text)) == None
  {
    hide NameOf, FieldNamed;
    var lower := LowerText(text);
    if FieldNamed(lower).Some? {
      var field := FieldNamed(lower).value;
      FieldHasName(lower, field);
      FieldNames(field);
    }
  }

  /** A word that is a value. */
  predicate IsValueWord(text: string) {
    IsWord(text) && FieldNamed(LowerText(text)) == None
  }

  lemma ValueWord(text: string)
    requires text != "" && AllWordCharacters(text) && (IsDigit(text[0]) || ':' in text)
    ensures IsValueWord(text)
  {
    hide FieldNamed, IsWord;
    if !IsWord(text) {
      OperatorsAreLetters(text);
    }
    NoFieldName(text);
  }

  lemma NumberReads(n: nat)
    requires n <= MaxUint64
    ensures NumberValue(Dec(n)) == Some(n) && IsValueWord(Dec(n))
  {
    hide Dec, Value, HexValue, IsValueWord;
    DecIsNumeral(n);
    ValueWord(Dec(n));
  }

  lemma NoSlash(text: string)
    requires '/' !in text
    ensures IndexOf(text, '/', 0) == |text| && text[..|text|] == text
  {
  }

  lemma Ipv6Reads(address: string)
    requires IsCanonicalIpv6(address)
    ensures AddressValue(address, true) == Accepted(Address(address, -1)) && IsValueWord(address)
  {
    hide Parse, Ipv6Text, Ipv4Of, IsValueWord;
    var groups := Parse(address).value;
    ParsedIsGroups(address);
    Ipv6TextLooks(groups);
    NoSlash(address);
    ValueWord(address);
    NoIpv4(address);
  }

  lemma NoIpv4(text: string)
    requires ':' in text
    ensures Ipv4Of(text) == None
  {
    hide Ipv4Of;
    if Ipv4Of(text).Some? {
      NoColonInParts(text);
    }
  }

  lemma Ipv4Reads(address: string, prefixLength: int)
    requires IsCanonicalIpv4(address) && -1 <= prefixLength < 32
    requires prefixLength >= 0 ==> ZeroBehind(Ipv4Of(address).value, prefixLength)
    ensures var text := if prefixLength < 0 then address else address + "/" + Dec(prefixLength);
            AddressValue(text, false) == Accepted(Address(address, prefixLength)) && IsValueWord(text)
  {
    hide Ipv4Of, Ipv4Text, Parse, Dec, Value, ZeroBehind, FirstOfNetwork, IsValueWord;
    var octets := Ipv4Of(address).value;
    Ipv4IsFour(address);
    Ipv4TextLooks(octets);
    if prefixLength < 0 {
      NoSlash(address);
      ValueWord(address);
    } else {
      DecIsNumeral(prefixLength);
      FirstIsOfNetwork(octets, prefixLength);
      SlashIsFound(address, Dec(prefixLength));
      ValueWord(address + "/" + Dec(prefixLength));
    }
  }

  lemma SlashIsFound(address: string, prefix: string)
    requires '/' !in address
    ensures var text := address + "/" + prefix;
            IndexOf(text, '/', 0) == |address| < |text| && text[..|address|] == address && text[|address| + 1..] == prefix
  {
    var text := address + "/" + prefix;
    assert text[|address|] == '/';
    assert forall k :: 0 <= k < |address| ==> text[k] == address[k];
  }

  /** The tokens at `next` are these. */
  predicate StandAt(tokens: seq<Token>, next: nat, kinds: seq<TokenKind>) {
    next + |kinds| <= |tokens| && forall k :: 0 <= k < |kinds| ==> tokens[next + k].kind == kinds[k]
  }

  lemma ComparisonReads(test: Comparison, tokens: seq<Token>, next: nat)
    requires AreTokens(tokens) && IsCanonical(test) && test.op != Present
    requires next + 1 < |tokens| && tokens[next].kind == Comparing(test.op) && tokens[next + 1].kind == Word(ValueText(test))
    ensures ReadComparison(test.field, tokens, next) == Accepted(Part(Compare(test), next + 2))
  {
    hide FieldNamed, AddressValue, NumberValue, Ipv4Of, Parse, Ipv4Text, Ipv6Text, ZeroBehind, Dec, IsWord;
    if !IsAddressField(test.field) {
      NumberReads(test.number);
    } else if KindOf(test.field) == Ipv4 {
      Ipv4Reads(test.address, test.prefixLength);
    } else {
      Ipv6Reads(test.address);
    }
  }

  /** A test written is read as that test, if no comparison follows it. */
  lemma TestReads(e: Expr, tokens: seq<Token>, next: nat)
    requires AreTokens(tokens) && IsLeaf(e) && StandAt(tokens, next, TestKinds(e))
    requires next + |TestKinds(e)| < |tokens| && !tokens[next + |TestKinds(e)|].kind.Comparing?
    ensures ReadTest(tokens, next) == Accepted(Part(e, next + |TestKinds(e)|))
  {
    hide FieldNamed, ReadComparison, IsCanonical, ValueText, NameOf, ShorthandNamed, IsWord;
    assert tokens[next + 0].kind == TestKinds(e)[0];
    match e {
      case Protocol(name) =>
        assert forall k :: 0 <= k < |name| ==> (LowerText(name)[k] == '.' <==> name[k] == '.');
      case Compare(test) =>
        FieldNames(test.field);
        FieldHasName(NameOf(test.field), test.field);
        if test.op != Present {
          assert tokens[next + 1].kind == TestKinds(e)[1] && tokens[next + 2].kind == TestKinds(e)[2];
          ComparisonReads(test, tokens, next + 1);
        } else {
          PresenceIs(test);
        }
    }
  }

  lemma PresenceIs(test: Comparison)
    requires IsCanonical(test) && test.op == Present
    ensures test == Presence(test.field)
  {
  }

  /** A test is rejected at a position in the filter. */
  lemma TestRejects(tokens: seq<Token>, next: nat, length: nat)
    requires AreTokens(tokens) && InFilter(tokens, length) && next < |tokens| && tokens[next].kind.Word?
    ensures ReadTest(tokens, next).Rejected? ==> ReadTest(tokens, next).position <= length
  {
    hide FieldNamed, AddressValue, NumberValue, LowerText, ShorthandNamed, IsWord;
    assert tokens[next].position <= length && tokens[next + 1].position <= length;
    if tokens[next + 1].kind.Comparing? {
      assert tokens[next + 2].position + (if tokens[next + 2].kind.Word? then |tokens[next + 2].kind.text| else 0) <= length;
    }
  }

  /** The value of a comparison is one word. */
  lemma ValueIsWord(test: Comparison)
    requires IsCanonical(test) && test.op != Present
    ensures IsWord(ValueText(test))
  {
    hide FieldNamed, AddressValue, NumberValue, Ipv4Of, Parse, Ipv4Text, Ipv6Text, ZeroBehind, Dec, IsWord;
    if !IsAddressField(test.field) {
      NumberReads(test.number);
    } else if KindOf(test.field) == Ipv4 {
      Ipv4Reads(test.address, test.prefixLength);
    } else {
      Ipv6Reads(test.address);
    }
  }
}
