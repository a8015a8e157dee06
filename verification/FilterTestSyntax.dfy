/** What the words of a test say, told without the parser (src/display_filter.h): the parser accepts these
  * tests and no others. */
module FilterTestSyntax {
  import opened Options
  import opened Text
  import opened Decimal
  import opened Bits
  import opened Ipv4Network
  import opened Ipv4Masks
  import opened Ipv6Texts
  import opened Ipv6Parsers
  import opened AddressTexts
  import opened FilterExpression
  import opened FilterTokens
  import opened FilterTests

  // ── Numbers ──

  /** A number in decimal, or in hexadecimal behind 0x. */
  predicate IsNumberText(text: string, n: nat) {
    || (text != "" && AllDigits(text) && Value(text) == n)
    || (|text| > 2 && text[0] == '0' && (text[1] == 'x' || text[1] == 'X') && AllHex(text[2..]) && HexValue(text[2..]) == n)
  }

  /** Hexadecimal digits are read in either case. */
  lemma {:induction false} HexIgnoresCase(s: string)
    requires AllHex(s)
    ensures AllHex(LowerText(s)) && HexValue(LowerText(s)) == HexValue(s)
  {
    var lower := LowerText(s);
    assert forall k :: 0 <= k < |s| ==> IsHexDigit(lower[k]) && HexDigit(lower[k]) == HexDigit(s[k]);
    if s != "" {
      HexIgnoresCase(s[..|s| - 1]);
      assert lower[..|s| - 1] == LowerText(s[..|s| - 1]);
    }
  }

  predicate IsPort(field: Field) {
    match field
    case TcpPort | TcpSrcPort | TcpDstPort | UdpPort | UdpSrcPort | UdpDstPort => true
    case _ => false
  }

  /** A port is at most 65535, any other number at most 2^64 - 1. */
  predicate FitsField(field: Field, n: nat) {
    if IsPort(field) then n < 0x1_0000 else n < 0x1_0000_0000_0000_0000
  }

  lemma NumberIsRead(field: Field, text: string, n: nat)
    requires !IsAddressField(field)
    ensures IsNumberText(text, n) && FitsField(field, n) <==> NumberValue(text) == Some(n) && n <= MaximumOf(KindOf(field))
  {
    hide Value, HexValue;
    if |text| > 2 && IsHexText(text) {
      assert !IsDigit(text[1]);
    }
  }

  // ── Addresses ──

  /** The first address of the network, written canonically; no prefix for one address alone. */
  predicate IsNetworkOf(octets: seq<nat>, prefix: nat, address: Address)
    requires |octets| == 4 && AreOctets(octets) && prefix <= 32
  {
    && address.prefixLength == (if prefix == 32 then -1 else prefix)
    && Ipv4Of(address.text).Some? && address.text == Ipv4Text(Ipv4Of(address.text).value)
    && var first := Ipv4Of(address.text).value;
       |first| == 4 && AreOctets(first) && ZeroBehind(first, prefix) && SameNetwork(first, octets, prefix)
  }

  /** The text is an IPv4 address, with a prefix length of up to 32 bits behind a slash or without. */
  ghost predicate IsIpv4Value(text: string, address: Address) {
    exists typed, prefix ::
      && IsTyped(text, typed, prefix) && prefix <= 32 && Ipv4Of(typed).Some?
      && |Ipv4Of(typed).value| == 4 && AreOctets(Ipv4Of(typed).value) && IsNetworkOf(Ipv4Of(typed).value, prefix, address)
  }

  predicate IsTyped(text: string, typed: string, prefix: nat) {
    && prefix <= 32
    && if '/' !in text then text == typed && prefix == 32
       else '/' !in typed && typed + "/" <= text && text[|typed| + 1..] != "" && AllDigits(text[|typed| + 1..])
            && Value(text[|typed| + 1..]) == prefix
  }

  /** The text is an IPv6 address; the value is that address, written canonically. */
  predicate IsIpv6Value(text: string, address: Address) {
    Parse(text).Some? && address == Address(Ipv6Text(Parse(text).value), -1)
  }

  /** The first address of a network is the only one with no bit behind the prefix. */
  lemma FirstIsUnique(first: seq<nat>, octets: seq<nat>, prefix: nat)
    requires |first| == |octets| == 4 && AreOctets(first) && AreOctets(octets) && prefix <= 32
    requires ZeroBehind(first, prefix) && SameNetwork(first, octets, prefix)
    ensures first == FirstOfNetwork(octets, prefix)
  {
    hide ZeroBehind, Number, ShiftRight, FourOctets;
    FirstIsOfNetwork(first, prefix);
  }

  lemma WholeIsItself(octets: seq<nat>)
    requires |octets| == 4 && AreOctets(octets)
    ensures FirstOfNetwork(octets, 32) == octets
  {
    hide FirstOfNetwork;
    forall k | 0 <= k < 4
      ensures EndsInZeros(octets[k], 8 - BitsIn(32, k))
    {
    }
    FirstIsOfNetwork(octets, 32);
  }

  lemma NetworkIsOf(octets: seq<nat>, prefix: nat, address: Address)
    requires |octets| == 4 && AreOctets(octets) && prefix <= 32
    ensures IsNetworkOf(octets, prefix, address) <==> address == NetworkAddress(octets, prefix)
  {
    hide Ipv4Of, Ipv4Text, ZeroBehind, FirstOfNetwork, SameNetwork;
    WholeIsItself(octets);
    FirstIsOfNetwork(octets, prefix);
    var first := FirstOfNetwork(octets, prefix);
    Ipv4TextIsRead(first);
    if IsNetworkOf(octets, prefix, address) {
      FirstIsUnique(Ipv4Of(address.text).value, octets, prefix);
    }
  }

  lemma TypedIs(text: string, typed: string, prefix: nat)
    ensures IsTyped(text, typed, prefix) <==>
            var slash := IndexOf(text, '/', 0);
            && typed == text[..slash] && prefix <= 32
            && if slash == |text| then prefix == 32
               else IsPrefixLength(text[slash + 1..]) && prefix == Value(text[slash + 1..])
  {
    hide Value;
    var slash := IndexOf(text, '/', 0);
    if slash == |text| {
      assert text[..slash] == text;
    } else {
      assert '/' in text;
      if IsTyped(text, typed, prefix) {
        assert text[|typed|] == (typed + "/")[|typed|] == '/';
        assert forall k :: 0 <= k < |typed| ==> text[k] == (typed + "/")[k] == typed[k];
        IndexIs(text, '/', 0, |typed|);
        assert text[..slash] == typed;
      }
      if typed == text[..slash] {
        assert typed + "/" == text[..slash + 1];
      }
    }
  }

  lemma Ipv4IsRead(text: string, address: Address)
    ensures AddressValue(text, false) == Accepted(address) <==> IsIpv4Value(text, address)
  {
    hide Ipv4Of, Parse, Value, IsNetworkOf, NetworkAddress, IsTyped, AreOctets;
    var slash := IndexOf(text, '/', 0);
    if AddressValue(text, false) == Accepted(address) {
      var typed := text[..slash];
      var prefix := if slash < |text| then Value(text[slash + 1..]) else 32;
      PrefixIsSmall(text, slash);
      TypedIs(text, typed, prefix);
      Ipv4IsFour(typed);
      NetworkIsOf(Ipv4Of(typed).value, prefix, address);
      assert IsTyped(text, typed, prefix);
    }
    if IsIpv4Value(text, address) {
      var typed, prefix :| IsTyped(text, typed, prefix) && prefix <= 32 && Ipv4Of(typed).Some?
        && |Ipv4Of(typed).value| == 4 && AreOctets(Ipv4Of(typed).value) && IsNetworkOf(Ipv4Of(typed).value, prefix, address);
      TypedIs(text, typed, prefix);
      NetworkIsOf(Ipv4Of(typed).value, prefix, address);
    }
  }

  lemma PrefixIsSmall(text: string, slash: nat)
    requires slash <= |text|
    ensures slash < |text| && IsPrefixLength(text[slash + 1..]) ==> Value(text[slash + 1..]) <= 32
  {
  }

  lemma NoSlashInIpv4(item: string)
    requires '/' in item
    ensures Ipv4Of(item) == None
  {
    hide Value, Split;
    if Ipv4Of(item).Some? {
      OctetsAreDigits(Split(item, '.'));
      PartsHave(item, '.', '/');
    }
  }

  lemma {:induction false} ItemFails(items: seq<string>, ipv4Last: bool, k: nat)
    requires k < |items| && '/' in items[k]
    ensures ItemsGroups(items, ipv4Last) == None
  {
    hide Ipv4Of, HexValue;
    NoSlashInIpv4(items[k]);
    if k > 0 {
      ItemFails(items[1..], ipv4Last, k - 1);
    }
  }

  lemma SideFails(part: string, ipv4Last: bool)
    requires '/' in part
    ensures GroupsOf(part, ipv4Last) == None
  {
    hide Split, ItemsGroups;
    PartsHave(part, ':', '/');
    var k :| 0 <= k < |Split(part, ':')| && '/' in Split(part, ':')[k];
    ItemFails(Split(part, ':'), ipv4Last, k);
  }

  lemma NoSlashIn(text: string)
    requires Parse(text).Some?
    ensures '/' !in text
  {
    hide GroupsOf, GapAt;
    var gap := GapAt(text, 0);
    if '/' in text {
      if gap == |text| {
        SideFails(text, true);
      } else if '/' in text[..gap] {
        SideFails(text[..gap], false);
      } else {
        assert text == text[..gap] + "::" + text[gap + 2..];
        SideFails(text[gap + 2..], true);
      }
    }
  }

  lemma NoIpv4In(text: string)
    requires Ipv4Of(text).Some?
    ensures Parse(text) == None
  {
    hide Ipv4Of, GapAt, Split, HexValue;
    NoColonInParts(text);
    NoGap(text);
    SplitFirst(text, "", ':');
    OneItem(text);
  }

  lemma OneItem(item: string)
    ensures ItemsGroups([item], true).Some? ==> |ItemsGroups([item], true).value| <= 2
  {
    hide ItemGroups;
    assert [item][1..] == [] && ItemsGroups([], true) == Some([]);
  }

  lemma NoGap(text: string)
    requires ':' !in text
    ensures GapAt(text, 0) == |text|
  {
    var gap := GapAt(text, 0);
  }

  lemma Ipv6IsRead(text: string, address: Address)
    ensures AddressValue(text, true) == Accepted(address) <==> IsIpv6Value(text, address)
  {
    hide Ipv4Of, Parse, Ipv6Text;
    var slash := IndexOf(text, '/', 0);
    assert slash == |text| ==> text[..slash] == text;
    if Parse(text).Some? {
      NoSlashIn(text);
      if Ipv4Of(text).Some? {
        NoIpv4In(text);
      }
    }
  }

  // ── Tests ──

  function ProtocolOf(field: Field): string {
    match field
    case IpAddr | IpSrc | IpDst => "ip"
    case Ipv6Addr | Ipv6Src | Ipv6Dst => "ipv6"
    case TcpPort | TcpSrcPort | TcpDstPort | TcpStream => "tcp"
    case UdpPort | UdpSrcPort | UdpDstPort | UdpStream => "udp"
    case FrameLen => "frame"
  }

  function PartOf(field: Field): string {
    match field
    case IpAddr | Ipv6Addr => "addr"
    case IpSrc | Ipv6Src => "src"
    case IpDst | Ipv6Dst => "dst"
    case TcpPort | UdpPort => "port"
    case TcpSrcPort | UdpSrcPort => "srcport"
    case TcpDstPort | UdpDstPort => "dstport"
    case TcpStream | UdpStream => "stream"
    case FrameLen => "len"
  }

  /** A field is named by its protocol and what it is of it, in any case, and no other text names it. */
  lemma NamesTell(field: Field, word: string)
    ensures FieldNamed(LowerText(word)) == Some(field) <==> LowerText(word) == ProtocolOf(field) + "." + PartOf(field)
  {
    hide FieldNamed, NameOf, ProtocolOf, PartOf;
    FieldHasName(LowerText(word), field);
    NameTells(field);
  }

  lemma NameTells(field: Field)
    ensures NameOf(field) == ProtocolOf(field) + "." + PartOf(field)
  {
    match field {
      case IpAddr => assert "ip.addr" == "ip" + "." + "addr";
      case IpSrc => assert "ip.src" == "ip" + "." + "src";
      case IpDst => assert "ip.dst" == "ip" + "." + "dst";
      case Ipv6Addr => assert "ipv6.addr" == "ipv6" + "." + "addr";
      case Ipv6Src => assert "ipv6.src" == "ipv6" + "." + "src";
      case Ipv6Dst => assert "ipv6.dst" == "ipv6" + "." + "dst";
      case TcpPort => assert "tcp.port" == "tcp" + "." + "port";
      case TcpSrcPort => assert "tcp.srcport" == "tcp" + "." + "srcport";
      case TcpDstPort => assert "tcp.dstport" == "tcp" + "." + "dstport";
      case UdpPort => assert "udp.port" == "udp" + "." + "port";
      case UdpSrcPort => assert "udp.srcport" == "udp" + "." + "srcport";
      case UdpDstPort => assert "udp.dstport" == "udp" + "." + "dstport";
      case TcpStream => assert "tcp.stream" == "tcp" + "." + "stream";
      case UdpStream => assert "udp.stream" == "udp" + "." + "stream";
      case FrameLen => assert "frame.len" == "frame" + "." + "len";
    }
  }

  ghost predicate IsFieldName(word: string) {
    exists field :: LowerText(word) == NameOf(field)
  }

  /** A field alone, by its name or by the protocol's that has it, or a protocol. */
  predicate IsSingle(word: string, e: Expr) {
    match e
    case Compare(test) =>
      && test == Comparison(test.field, Present, 0, "", -1)
      && var lower := LowerText(word);
         || lower == NameOf(test.field) || (lower == "tcp" && test.field == TcpPort) || (lower == "udp" && test.field == UdpPort)
         || (lower == "ip" && test.field == IpAddr) || (lower == "ipv6" && test.field == Ipv6Addr)
    case Protocol(name) =>
      && name == word && word != "" && IsLetter(word[0]) && '.' !in word && LowerText(word) !in ["tcp", "udp", "ip", "ipv6"]
    case _ => false
  }

  /** A field compared with a value of its own, which is no field. */
  ghost predicate IsCompared(word: string, op: Operator, value: string, e: Expr) {
    && e.Compare? && LowerText(word) == NameOf(e.test.field) && e.test.op == op && !IsFieldName(value)
    && match e.test.field
       case IpAddr | IpSrc | IpDst =>
         (op == Equal || op == NotEqual) && e.test.number == 0 && IsIpv4Value(value, Address(e.test.address, e.test.prefixLength))
       case Ipv6Addr | Ipv6Src | Ipv6Dst =>
         (op == Equal || op == NotEqual) && e.test.number == 0 && IsIpv6Value(value, Address(e.test.address, e.test.prefixLength))
       case _ => e.test.address == "" && e.test.prefixLength == -1 && IsNumberText(value, e.test.number) && FitsField(e.test.field, e.test.number)
  }

  lemma FieldNameMeans(name: string)
    ensures FieldNamed(name).Some? <==> exists field :: name == NameOf(field)
  {
    hide NameOf, FieldNamed;
    if FieldNamed(name).Some? {
      FieldHasName(name, FieldNamed(name).value);
    }
    if field :| name == NameOf(field) {
      FieldHasName(name, field);
    }
  }

  lemma ComparisonMeans(field: Field, tokens: seq<Token>, next: nat, e: Expr, word: string)
    requires AreTokens(tokens) && next < |tokens| && tokens[next].kind.Comparing? && LowerText(word) == NameOf(field)
    ensures ReadComparison(field, tokens, next) == Accepted(Part(e, next + 2)) <==>
            tokens[next + 1].kind.Word? && IsCompared(word, tokens[next].kind.op, tokens[next + 1].kind.text, e)
    ensures ReadComparison(field, tokens, next).Accepted? ==> ReadComparison(field, tokens, next).value.next == next + 2
  {
    hide FieldNamed, AddressValue, NumberValue, IsIpv4Value, IsIpv6Value, IsNumberText, FitsField, LowerText, IsWord, NameOf;
    if tokens[next + 1].kind.Word? && e.Compare? {
      var value := tokens[next + 1].kind.text;
      FieldNameMeans(LowerText(value));
      NamesDiffer(field, e.test.field);
      var address := Address(e.test.address, e.test.prefixLength);
      Ipv4IsRead(value, address);
      Ipv6IsRead(value, address);
      if !IsAddressField(e.test.field) {
        NumberIsRead(e.test.field, value, e.test.number);
      }
    }
  }

  lemma ShorthandMeans(word: string, field: Field)
    ensures ShorthandNamed(LowerText(word)) == Some(field) ==> IsSingle(word, Compare(Presence(field)))
    ensures ShorthandNamed(LowerText(word)) == None <==> LowerText(word) !in ["tcp", "udp", "ip", "ipv6"]
    ensures '.' in word ==> ShorthandNamed(LowerText(word)) == None
  {
    hide NameOf;
    DotStays(word);
  }

  lemma DotStays(word: string)
    ensures '.' in LowerText(word) <==> '.' in word
  {
    var lower := LowerText(word);
    if '.' in word {
      var k :| 0 <= k < |word| && word[k] == '.';
      assert lower[k] == '.';
    }
    if '.' in lower {
      var k :| 0 <= k < |lower| && lower[k] == '.';
      assert word[k] == '.';
    }
  }

  lemma FirstLetterStays(word: string)
    requires word != ""
    ensures IsLetter(LowerText(word)[0]) <==> IsLetter(word[0])
  {
  }

  /** What a word alone is read as. */
  lemma SingleMeans(tokens: seq<Token>, next: nat, e: Expr)
    requires AreTokens(tokens) && next < |tokens| && tokens[next].kind.Word? && !tokens[next + 1].kind.Comparing?
    ensures ReadTest(tokens, next) == Accepted(Part(e, next + 1)) <==> IsSingle(tokens[next].kind.text, e)
    ensures ReadTest(tokens, next).Accepted? ==> ReadTest(tokens, next).value.next == next + 1
  {
    hide FieldNamed, NameOf, ShorthandNamed, LowerText, ReadComparison;
    var word := tokens[next].kind.text;
    var lower := LowerText(word);
    DotStays(word);
    FirstLetterStays(word);
    FieldNameMeans(lower);
    if e.Compare? {
      FieldHasName(lower, e.test.field);
      FieldNames(e.test.field);
      ShorthandMeans(word, e.test.field);
      if IsSingle(word, e) && lower != NameOf(e.test.field) {
        ShorthandsHaveNoDot(word, e.test.field);
      }
    }
    if FieldNamed(lower).Some? {
      FieldHasName(lower, FieldNamed(lower).value);
    }
    ShorthandMeans(word, IpAddr);
    if ShorthandNamed(lower).Some? {
      ShorthandMeans(word, ShorthandNamed(lower).value);
    }
  }

  lemma ShorthandsHaveNoDot(word: string, field: Field)
    requires IsSingle(word, Compare(Presence(field))) && LowerText(word) != NameOf(field)
    ensures ShorthandNamed(LowerText(word)) == Some(field) && '.' !in LowerText(word) && word != "" && IsLetter(LowerText(word)[0])
  {
    hide NameOf;
  }

  /** A test in one word or in three. */
  ghost predicate IsTestOf(kinds: seq<TokenKind>, e: Expr) {
    || (|kinds| == 1 && kinds[0].Word? && IsSingle(kinds[0].text, e))
    || (|kinds| == 3 && kinds[0].Word? && kinds[1].Comparing? && kinds[2].Word?
        && IsCompared(kinds[0].text, kinds[1].op, kinds[2].text, e))
  }

  function KindsIn(tokens: seq<Token>, from: nat, to: nat): (kinds: seq<TokenKind>)
    requires from <= to <= |tokens|
    ensures |kinds| == to - from && forall k :: 0 <= k < to - from ==> kinds[k] == tokens[from + k].kind
  {
    seq(to - from, k requires 0 <= k < to - from => tokens[from + k].kind)
  }

  /** A word that is compared is read as its field. */
  lemma ComparedMeans(tokens: seq<Token>, next: nat, e: Expr)
    requires AreTokens(tokens) && next < |tokens| && tokens[next].kind.Word? && tokens[next + 1].kind.Comparing?
    ensures ReadTest(tokens, next) == Accepted(Part(e, next + 3)) <==>
            tokens[next + 2].kind.Word? && IsCompared(tokens[next].kind.text, tokens[next + 1].kind.op, tokens[next + 2].kind.text, e)
    ensures ReadTest(tokens, next).Accepted? ==> ReadTest(tokens, next).value.next == next + 3
  {
    hide FieldNamed, NameOf, ShorthandNamed, LowerText, ReadComparison;
    var word := tokens[next].kind.text;
    var lower := LowerText(word);
    FirstLetterStays(word);
    FieldNameMeans(lower);
    if FieldNamed(lower).Some? {
      var field := FieldNamed(lower).value;
      FieldHasName(lower, field);
      FieldNames(field);
      ComparisonMeans(field, tokens, next + 1, e, word);
    }
    if e.Compare? {
      FieldHasName(lower, e.test.field);
    }
  }

  /** The tests the parser reads are these, and no others. */
  lemma TestMeans(tokens: seq<Token>, next: nat, e: Expr, end: nat)
    requires AreTokens(tokens) && next < |tokens| && tokens[next].kind.Word?
    ensures ReadTest(tokens, next) == Accepted(Part(e, end)) <==>
            && next < end < |tokens| && IsTestOf(KindsIn(tokens, next, end), e)
            && (end == next + 1 ==> !tokens[end].kind.Comparing?)
  {
    hide ReadTest, IsSingle, IsCompared, IsWord;
    if tokens[next + 1].kind.Comparing? {
      ComparedMeans(tokens, next, e);
      if next < end < |tokens| {
        SingleIsOne(KindsIn(tokens, next, end), e);
      }
    } else {
      SingleMeans(tokens, next, e);
    }
    if tokens[next + 1].kind.Comparing? && tokens[next + 2].kind.Word? {
      assert next + 3 < |tokens|;
    }
  }

  lemma SingleIsOne(kinds: seq<TokenKind>, e: Expr)
    ensures IsTestOf(kinds, e) ==> |kinds| == 1 || |kinds| == 3
  {
  }
}
