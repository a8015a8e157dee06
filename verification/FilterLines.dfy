/** A filter and the packet lines it selects: on every line the Packet Formatter writes, the
  * pattern matches exactly when the filter holds of the packet. */
module FilterLines {
  import opened Options
  import opened Regex
  import opened Decimal
  import opened Text
  import opened NumberRange
  import opened FilterExpression
  import opened FilterTranslation
  import opened Patterns
  import opened FilterValues
  import opened FilterMeaning
  import opened PacketLines
  import opened LineColumns
  import opened LineInfo
  import opened LineTransport
  import opened LineAddresses

  // ── Where the columns of a line lie ──

  lemma ColumnCell(value: string, width: nat, s: string, i: nat)
    requires TextAt(s, i, Column(value, width)) && forall k :: 0 <= k < |Shown(value)| ==> !IsSpace(Shown(value)[k])
    ensures Cell(s, i, i + |Shown(value)|, i + |Column(value, width)|)
    ensures s[i..i + |Shown(value)|] == Shown(value)
  {
    TextSplits(s, i, Shown(value), Spaces(PadOf(value, width)));
    TextIn(NonSpace, Shown(value), s, i);
    TextIn(One(' '), Spaces(PadOf(value, width)), s, i + |Shown(value)|);
  }

  /** A pattern that matches all of a text matches it where it stands. */
  lemma WholeAt(r: Re, text: string, s: string, i: nat)
    requires Plain(r) && Whole(r, text) && TextAt(s, i, text)
    ensures M(r, s, i, i + |text|)
  {
    assert text[0..|text|] == text;
    MatchMoves(r, text, 0, |text|, s, i);
  }

  lemma WholeIsAWord(r: Re, text: string)
    requires Solid(r) && Consumes(r) && Whole(r, text)
    ensures text != [] && forall k :: 0 <= k < |text| ==> !IsSpace(text[k])
  {
    SolidMatches(r, text, 0, |text|);
    ConsumesMatches(r, text, 0, |text|);
  }

  lemma NumberCell(n: nat, width: nat, s: string, i: nat)
    requires TextAt(s, i, Column(Dec(n), width))
    ensures Cell(s, i, i + |Dec(n)|, i + |Column(Dec(n), width)|)
    ensures s[i..i + |Dec(n)|] == Dec(n) && M(Digits, s, i, i + |Dec(n)|)
  {
    DecIsNumeral(n);
    ColumnCell(Dec(n), width, s, i);
    NumeralIsDigits(s, i, i + |Dec(n)|);
    PlusMatches(Digit, s, i, i + |Dec(n)|);
  }

  lemma UtcAt(date: string, clock: string, width: nat, s: string, i: nat, n: nat)
    requires Whole(DateWord, date) && Whole(ClockWord, clock) && TextAt(s, i, Column(date + " " + clock, width))
    requires n == i + |Column(date + " " + clock, width)|
    ensures var d := i + |date|;
            && Cell(s, i, d, d + 1) && Cell(s, d + 1, d + 1 + |clock|, n)
            && M(DateWord, s, i, d) && M(ClockWord, s, d + 1, d + 1 + |clock|)
  {
    DateIsAWord(date);
    ClockIsAWord(clock);
    UtcText(date, clock, width, s, i);
    WholeAt(DateWord, date, s, i);
    WholeAt(ClockWord, clock, s, i + |date| + 1);
  }

  lemma DateIsAWord(date: string)
    requires Whole(DateWord, date)
    ensures date != [] && (forall k :: 0 <= k < |date| ==> !IsSpace(date[k])) && Plain(DateWord)
  {
    assert Solid(DateWord) && Consumes(DateWord) && Plain(DateWord);
    WholeIsAWord(DateWord, date);
  }

  lemma ClockIsAWord(clock: string)
    requires Whole(ClockWord, clock)
    ensures clock != [] && (forall k :: 0 <= k < |clock| ==> !IsSpace(clock[k])) && Plain(ClockWord)
  {
    assert Solid(ClockWord) && Consumes(ClockWord) && Plain(ClockWord);
    WholeIsAWord(ClockWord, clock);
  }

  lemma UtcText(date: string, clock: string, width: nat, s: string, i: nat)
    requires date != [] && clock != [] && TextAt(s, i, Column(date + " " + clock, width))
    requires forall k :: 0 <= k < |date| ==> !IsSpace(date[k])
    requires forall k :: 0 <= k < |clock| ==> !IsSpace(clock[k])
    ensures var d := i + |date|;
            && Cell(s, i, d, d + 1) && Cell(s, d + 1, d + 1 + |clock|, i + |Column(date + " " + clock, width)|)
            && TextAt(s, i, date) && TextAt(s, d + 1, clock)
  {
    hide PadOf, TextAt, Spaces, Cell;
    TwoWords(date, clock, Spaces(PadOf(date + " " + clock, width)), s, i);
  }

  lemma TwoWords(date: string, clock: string, pad: string, s: string, i: nat)
    requires date != [] && clock != [] && pad != [] && TextAt(s, i, date + " " + clock + pad)
    requires forall k :: 0 <= k < |date| ==> !IsSpace(date[k])
    requires forall k :: 0 <= k < |clock| ==> !IsSpace(clock[k])
    requires forall k :: 0 <= k < |pad| ==> pad[k] == ' '
    ensures var d, e := i + |date|, i + |date| + 1 + |clock|;
            && Cell(s, i, d, d + 1) && Cell(s, d + 1, e, e + |pad|) && TextAt(s, i, date) && TextAt(s, d + 1, clock)
  {
    hide TextAt, AllIn;
    TextSplits(s, i, date + " " + clock, pad);
    TextSplits(s, i, date + " ", clock);
    TextSplits(s, i, date, " ");
    TextIn(NonSpace, date, s, i);
    TextIn(One(' '), " ", s, i + |date|);
    TextIn(NonSpace, clock, s, i + |date| + 1);
    TextIn(One(' '), pad, s, i + |date| + 1 + |clock|);
    CharsAt(s, i + |date| + 1 + |clock|, pad);
  }

  // ── No column slips ──

  lemma OnePoint(s: string, i: nat, j: nat, x: nat, y: nat)
    requires i <= x < y < j <= |s| && s[x] == s[y] == '.'
    ensures !M(SecondsWord, s, i, j)
  {
    if M(SecondsWord, s, i, j) {
      var minus, point := Optional(Chars(One('-'))), Then(Chars(One('.')), Digits);
      var k := ThenSplit(minus, Then(Digits, point), s, i, j);
      assert M(Chars(One('-')), s, i, k) || M(Empty, s, i, k);
      var l := ThenSplit(Digits, point, s, k, j);
      PlusMatches(Digit, s, k, l);
      FirstThen(One('.'), Digits, s, l, j);
      PlusMatches(Digit, s, l + 1, j);
      assert false;
    }
  }

  /** What an address column shows holds no space. */
  lemma EndpointIsAWord(e: Endpoint)
    requires WellFormedEndpoint(e)
    ensures forall k :: 0 <= k < |Shown(AddressText(e))| ==> !IsSpace(Shown(AddressText(e))[k])
  {
    match e {
      case V4(address, name) =>
        assert address[0..|address|] == address;
        Ipv4TextIsAWord(address, 0, |address|);
        NameIsAWord(name);
      case V6(address, name) =>
        forall k | 0 <= k < |address|
          ensures !IsSpace(address[k])
        {
          NoSpacesHas(HexOrColon, address[k]);
        }
        NameIsAWord(name);
      case Link(mac) =>
        if mac != "" {
          MacIsAWord(mac);
        }
    }
  }

  lemma NameIsAWord(name: Option<string>)
    requires name.Some? ==> IsHostName(name.value)
    ensures name.Some? ==> forall k :: 0 <= k < |name.value| ==> !IsSpace(name.value[k])
  {
    if name.Some? {
      forall k | 0 <= k < |name.value|
        ensures !IsSpace(name.value[k])
      {
        NoSpacesHas(NameCharacter, name.value[k]);
      }
    }
  }

  lemma MacIsAWord(mac: string)
    requires IsMacText(mac)
    ensures forall k :: 0 <= k < |mac| ==> !IsSpace(mac[k])
  {
    forall k | 0 <= k < |mac|
      ensures !IsSpace(mac[k])
    {
      if k % 3 != 2 {
        NoSpacesHas(LowerHex, mac[k]);
      }
    }
  }

  /** A word with a character none of them has is no number, no number of seconds and no date. */
  lemma NotATime(c: char, s: string, b: nat, e: nat, k: nat)
    requires c in {':', '('} && b <= k < e <= |s| && s[k] == c
    ensures !M(Digits, s, b, e) && !M(SecondsWord, s, b, e) && !M(DateWord, s, b, e)
  {
    assert Avoids(Digits, ':') && Avoids(SecondsWord, ':') && Avoids(DateWord, ':');
    assert Avoids(Digits, '(') && Avoids(SecondsWord, '(') && Avoids(DateWord, '(');
    if M(Digits, s, b, e) {
      AvoidsMatches(Digits, c, s, b, e);
    }
    if M(SecondsWord, s, b, e) {
      AvoidsMatches(SecondsWord, c, s, b, e);
    }
    if M(DateWord, s, b, e) {
      AvoidsMatches(DateWord, c, s, b, e);
    }
  }

  /** What an address column shows never reads as a time or a number. */
  lemma EndpointNeverSlips(end: Endpoint, s: string, b: nat, e: nat)
    requires WellFormedEndpoint(end) && b < e <= |s| && s[b..e] == Shown(AddressText(end))
    ensures !M(Digits, s, b, e) && !M(SecondsWord, s, b, e) && !M(DateWord, s, b, e)
  {
    match end {
      case V4(address, name) => V4NeverSlips(address, name, s, b, e);
      case V6(address, name) =>
        var c := ColonIn(address);
        assert s[b + c] == s[b..e][c];
        NotATime(':', s, b, e, b + c);
      case Link(mac) =>
        if mac == "" {
          DashNeverSlips(s, b, e);
        } else {
          MacCharacter(s, b, e, 2);
          NotATime(':', s, b, e, b + 2);
        }
    }
  }

  lemma V4NeverSlips(address: string, name: Option<string>, s: string, b: nat, e: nat)
    requires WellFormedEndpoint(V4(address, name)) && b < e <= |s| && s[b..e] == Named(address, name)
    ensures !M(Digits, s, b, e) && !M(SecondsWord, s, b, e) && !M(DateWord, s, b, e)
  {
    if name.Some? {
      assert s[b + |address|] == s[b..e][|address|] == '(';
      NotATime('(', s, b, e, b + |address|);
    } else {
      var x, y := Ipv4TextShape(s, b, e);
      OnePoint(s, b, e, x, y);
      NotDate(s, b, e, x);
    }
  }

  lemma NotDate(s: string, b: nat, e: nat, x: nat)
    requires b <= x < e <= |s| && s[x] == '.'
    ensures !M(Digits, s, b, e) && !M(DateWord, s, b, e)
  {
    assert Avoids(DateWord, '.') && Avoids(Digits, '.');
    if M(Digits, s, b, e) {
      AvoidsMatches(Digits, '.', s, b, e);
    }
    if M(DateWord, s, b, e) {
      AvoidsMatches(DateWord, '.', s, b, e);
    }
  }

  lemma DashNeverSlips(s: string, b: nat, e: nat)
    requires b < e <= |s| && s[b..e] == "-"
    ensures !M(Digits, s, b, e) && !M(SecondsWord, s, b, e) && !M(DateWord, s, b, e)
  {
    assert s[b] == s[b..e][0];
    assert Needs(Digits, Digit) && Needs(SecondsWord, Digit) && Needs(DateWord, Digit);
    if M(Digits, s, b, e) {
      var k := NeedsMatches(Digits, Digit, s, b, e);
    }
    if M(SecondsWord, s, b, e) {
      var k := NeedsMatches(SecondsWord, Digit, s, b, e);
    }
    if M(DateWord, s, b, e) {
      var k := NeedsMatches(DateWord, Digit, s, b, e);
    }
  }

  lemma EndpointCell(end: Endpoint, s: string, i: nat)
    requires WellFormedEndpoint(end) && TextAt(s, i, Column(AddressText(end), 40))
    ensures var e := i + |Shown(AddressText(end))|;
            Cell(s, i, e, i + |Column(AddressText(end), 40)|) && s[i..e] == Shown(AddressText(end))
  {
    EndpointIsAWord(end);
    ColumnCell(AddressText(end), 40, s, i);
  }

  lemma ProtocolCell(protocol: string, s: string, i: nat)
    requires protocol == "" || (IsName(protocol) && !AllDigits(protocol))
    requires TextAt(s, i, Column(protocol, 10))
    ensures var e := i + |Shown(protocol)|;
            Cell(s, i, e, i + |Column(protocol, 10)|) && s[i..e] == Shown(protocol) && !M(Digits, s, i, e)
  {
    var e := i + |Shown(protocol)|;
    ColumnCell(protocol, 10, s, i);
    if M(Digits, s, i, e) {
      PlusMatches(Digit, s, i, e);
      DigitsHaveNoDot(s, i, e);
      assert false;
    }
  }

  // ── The marks of a line ──

  ghost predicate NumberPlaced(p: PacketRecord, m: Marks, s: string) {
    && TextAt(s, 0, Column(Dec(p.number), 7))
    && m.numberEnd == |Dec(p.number)| && m.stream == |Column(Dec(p.number), 7)|
  }

  ghost predicate StreamPlaced(p: PacketRecord, m: Marks, s: string) {
    && TextAt(s, m.stream, Column(StreamText(p), 8))
    && m.streamEnd == m.stream + |StreamText(p)| && m.times == m.stream + |Column(StreamText(p), 8)|
  }

  ghost predicate UtcPlaced(p: PacketRecord, m: Marks, s: string) {
    && TextAt(s, m.times, UtcColumn(p)) && AfterUtc(m) == m.times + |UtcColumn(p)|
    && m.utc == (match p.utc
                 case Some((date, clock)) =>
                   Some((m.times + |date|, m.times + |date| + 1, m.times + |date| + 1 + |clock|))
                 case None => None)
  }

  ghost predicate RelativePlaced(p: PacketRecord, m: Marks, s: string) {
    && TextAt(s, AfterUtc(m), RelativeColumn(p)) && m.source == AfterUtc(m) + |RelativeColumn(p)|
    && (m.relative.Some? <==> p.relative.Some?)
    && (p.relative.Some? ==> m.relative.value.1 == AfterUtc(m) + |p.relative.value|)
  }

  ghost predicate SourcePlaced(p: PacketRecord, m: Marks, s: string) {
    && TextAt(s, m.source, Column(AddressText(p.source), 40))
    && m.sourceEnd == m.source + |Shown(AddressText(p.source))|
    && m.destination == m.source + |Column(AddressText(p.source), 40)|
  }

  ghost predicate DestinationPlaced(p: PacketRecord, m: Marks, s: string) {
    && TextAt(s, m.destination, Column(AddressText(p.destination), 40))
    && m.destinationEnd == m.destination + |Shown(AddressText(p.destination))|
    && m.protocol == m.destination + |Column(AddressText(p.destination), 40)|
  }

  ghost predicate ProtocolPlaced(p: PacketRecord, m: Marks, s: string) {
    && TextAt(s, m.protocol, Column(p.protocol, 10))
    && m.protocolEnd == m.protocol + |Shown(p.protocol)| && m.length == m.protocol + |Column(p.protocol, 10)|
  }

  ghost predicate LengthPlaced(p: PacketRecord, m: Marks, s: string) {
    && TextAt(s, m.length, Column(Dec(p.length), 7))
    && m.lengthEnd == m.length + |Dec(p.length)| && m.body == m.length + |Column(Dec(p.length), 7)|
  }

  /** The line shows the packet's columns at its marks, then the rest of it. */
  ghost predicate Placed(p: PacketRecord, m: Marks, s: string) {
    && NumberPlaced(p, m, s) && StreamPlaced(p, m, s) && UtcPlaced(p, m, s) && RelativePlaced(p, m, s)
    && SourcePlaced(p, m, s) && DestinationPlaced(p, m, s) && ProtocolPlaced(p, m, s) && LengthPlaced(p, m, s)
    && TextAt(s, m.body, Body(p)) && |s| == m.body + |Body(p)|
  }

  function UtcMark(p: PacketRecord, times: nat): Option<(nat, nat, nat)> {
    match p.utc
    case Some((date, clock)) => Some((times + |date|, times + |date| + 1, times + |date| + 1 + |clock|))
    case None => None
  }

  function RelativeMark(p: PacketRecord, at: nat): Option<(nat, nat)> {
    match p.relative
    case Some(seconds) => Some((at, at + |seconds|))
    case None => None
  }

  /** Five texts one after the other, from `i` on. */
  lemma FiveTexts(s: string, i: nat, a: string, b: string, c: string, d: string, e: string)
    returns (ib: nat, ic: nat, id: nat, ie: nat)
    requires TextAt(s, i, a + (b + (c + (d + e))))
    ensures TextAt(s, i, a) && TextAt(s, ib, b) && TextAt(s, ic, c) && TextAt(s, id, d) && TextAt(s, ie, e)
    ensures ib == i + |a| && ic == ib + |b| && id == ic + |c| && ie == id + |d|
    ensures ie + |e| == i + |a + (b + (c + (d + e)))|
  {
    ib, ic, id, ie := i + |a|, i + |a| + |b|, i + |a| + |b| + |c|, i + |a| + |b| + |c| + |d|;
    TextSplits(s, i, a, b + (c + (d + e)));
    TextSplits(s, ib, b, c + (d + e));
    TextSplits(s, ic, c, d + e);
    TextSplits(s, id, d, e);
  }

  /** The columns from Source on, and the rest of the line. */
  function FromSource(p: PacketRecord): string {
    Column(AddressText(p.source), 40) + (Column(AddressText(p.destination), 40)
    + (Column(p.protocol, 10) + (Column(Dec(p.length), 7) + Body(p))))
  }

  lemma LinePlaced(p: PacketRecord) returns (m: Marks)
    ensures Placed(p, m, FormatPacketLine(p))
  {
    var s := FormatPacketLine(p);
    assert s[0..|s|] == s;
    var a1, a2, a3, a4 :=
      FiveTexts(s, 0, Column(Dec(p.number), 7), Column(StreamText(p), 8), UtcColumn(p), RelativeColumn(p), FromSource(p));
    m := MarksBehind(p, s, a1, a2, a3, a4);
  }

  lemma MarksBehind(p: PacketRecord, s: string, a1: nat, a2: nat, a3: nat, a4: nat) returns (m: Marks)
    requires TextAt(s, 0, Column(Dec(p.number), 7)) && a1 == |Column(Dec(p.number), 7)|
    requires TextAt(s, a1, Column(StreamText(p), 8)) && a2 == a1 + |Column(StreamText(p), 8)|
    requires TextAt(s, a2, UtcColumn(p)) && a3 == a2 + |UtcColumn(p)|
    requires TextAt(s, a3, RelativeColumn(p)) && a4 == a3 + |RelativeColumn(p)|
    requires TextAt(s, a4, FromSource(p)) && |s| == a4 + |FromSource(p)|
    ensures Placed(p, m, s)
  {
    var a5, a6, a7, a8 := FiveTexts(s, a4, Column(AddressText(p.source), 40), Column(AddressText(p.destination), 40),
                                    Column(p.protocol, 10), Column(Dec(p.length), 7), Body(p));
    m := Marks(|Dec(p.number)|, a1, a1 + |StreamText(p)|, a2, UtcMark(p, a2), RelativeMark(p, a3),
               a4, a4 + |Shown(AddressText(p.source))|, a5, a5 + |Shown(AddressText(p.destination))|,
               a6, a6 + |Shown(p.protocol)|, a7, a7 + |Dec(p.length)|, a8);
  }

  // ── What the line shows at its marks ──

  lemma UtcShown(p: PacketRecord, m: Marks, s: string)
    requires UtcPlaced(p, m, s) && (p.utc.Some? ==> Whole(DateWord, p.utc.value.0) && Whole(ClockWord, p.utc.value.1))
    ensures UtcMarked(m, s)
  {
    if p.utc.Some? {
      UtcAt(p.utc.value.0, p.utc.value.1, if p.nanoseconds then 32 else 29, s, m.times, AfterUtc(m));
    }
  }

  lemma RelativeShown(p: PacketRecord, m: Marks, s: string)
    requires RelativePlaced(p, m, s) && (p.relative.Some? ==> Whole(SecondsWord, p.relative.value))
    ensures RelativeMarked(m, s)
  {
    if p.relative.Some? {
      SecondsAt(p.relative.value, if p.nanoseconds then 18 else 15, s, AfterUtc(m));
    }
  }

  lemma SecondsAt(seconds: string, width: nat, s: string, i: nat)
    requires Whole(SecondsWord, seconds) && TextAt(s, i, Column(seconds, width))
    ensures Cell(s, i, i + |seconds|, i + |Column(seconds, width)|) && M(SecondsWord, s, i, i + |seconds|)
  {
    assert Solid(SecondsWord) && Consumes(SecondsWord) && Plain(SecondsWord);
    WholeIsAWord(SecondsWord, seconds);
    ColumnCell(seconds, width, s, i);
    WholeAt(SecondsWord, seconds, s, i);
  }

  lemma FrontShown(p: PacketRecord, m: Marks, s: string)
    requires NumberPlaced(p, m, s) && StreamPlaced(p, m, s)
    ensures FrontMarked(m, s) && s[m.stream..m.streamEnd] == StreamText(p)
  {
    NumberCell(p.number, 7, s, 0);
    StreamIsAWord(p);
    ColumnCell(StreamText(p), 8, s, m.stream);
  }

  lemma StreamIsAWord(p: PacketRecord)
    ensures StreamText(p) != "" && forall k :: 0 <= k < |StreamText(p)| ==> !IsSpace(StreamText(p)[k])
  {
    if p.stream.Numbered? {
      DecIsWritten(p.stream.id);
    }
  }

  lemma EndsShown(p: PacketRecord, m: Marks, s: string)
    requires WellFormedEndpoint(p.source) && WellFormedEndpoint(p.destination)
    requires SourcePlaced(p, m, s) && DestinationPlaced(p, m, s)
    ensures TwoCells(s, m.source, m.sourceEnd, m.destination, m.destinationEnd, m.protocol)
    ensures s[m.source..m.sourceEnd] == Shown(AddressText(p.source))
    ensures s[m.destination..m.destinationEnd] == Shown(AddressText(p.destination))
  {
    EndpointCell(p.source, s, m.source);
    EndpointCell(p.destination, s, m.destination);
  }

  lemma ProtocolShown(p: PacketRecord, m: Marks, s: string)
    requires p.protocol == "" || (IsName(p.protocol) && !AllDigits(p.protocol))
    requires ProtocolPlaced(p, m, s)
    ensures Cell(s, m.protocol, m.protocolEnd, m.length) && s[m.protocol..m.protocolEnd] == Shown(p.protocol)
    ensures !M(Digits, s, m.protocol, m.protocolEnd)
  {
    ProtocolCell(p.protocol, s, m.protocol);
  }

  lemma LengthShown(p: PacketRecord, m: Marks, s: string)
    requires LengthPlaced(p, m, s)
    ensures Cell(s, m.length, m.lengthEnd, m.body) && M(Digits, s, m.length, m.lengthEnd)
    ensures s[m.length..m.lengthEnd] == Dec(p.length)
  {
    NumberCell(p.length, 7, s, m.length);
  }

  /** The columns of a packet's line, each where the formatter wrote it, and what it shows there. */
  ghost predicate Shows(p: PacketRecord, m: Marks, s: string) {
    && At(m, s) && NoSlip(m, s)
    && s[m.stream..m.streamEnd] == StreamText(p)
    && s[m.source..m.sourceEnd] == Shown(AddressText(p.source))
    && s[m.destination..m.destinationEnd] == Shown(AddressText(p.destination))
    && s[m.protocol..m.protocolEnd] == Shown(p.protocol)
    && s[m.length..m.lengthEnd] == Dec(p.length)
    && TextAt(s, m.body, Body(p)) && |s| == m.body + |Body(p)|
  }

  lemma LineShows(p: PacketRecord) returns (m: Marks)
    requires WellFormedPacket(p)
    ensures Shows(p, m, FormatPacketLine(p))
  {
    var s := FormatPacketLine(p);
    m := LinePlaced(p);
    FrontShown(p, m, s);
    UtcShown(p, m, s);
    RelativeShown(p, m, s);
    EndsShown(p, m, s);
    ProtocolShown(p, m, s);
    LengthShown(p, m, s);
    EndpointNeverSlips(p.source, s, m.source, m.sourceEnd);
    EndpointNeverSlips(p.destination, s, m.destination, m.destinationEnd);
  }

  // ── The rest of the line ──

  /** Where the MAC columns end and the tunnels begin. */
  function TunnelsBegin(p: PacketRecord, body: nat): nat {
    body + |MacColumnsText(p)|
  }

  function PortsBegin(p: PacketRecord, body: nat): nat
    requires p.info.Ports?
  {
    TunnelsBegin(p, body) + |TunnelsText(p.tunnels)| + |MarkersText(p.info.markers)|
  }

  function ArrowBegin(p: PacketRecord, body: nat): nat
    requires p.info.Ports?
  {
    PortsBegin(p, body) + |Dec(p.info.source)|
  }

  function PortsEnd(p: PacketRecord, body: nat): nat
    requires p.info.Ports?
  {
    ArrowBegin(p, body) + 3 + |Dec(p.info.destination)|
  }

  lemma InfoTexts(s: string, i: nat, tunnels: string, markers: string, source: string, destination: string, last: string, more: string)
    requires TextAt(s, i, tunnels + (markers + source + Arrow + destination + " " + last + more))
    ensures var q := i + |tunnels| + |markers|;
            var x := q + |source|;
            var j := x + 3 + |destination|;
            && TextAt(s, i, tunnels) && TextAt(s, i + |tunnels|, markers) && TextAt(s, q, source) && TextAt(s, x, Arrow)
            && TextAt(s, x + 3, destination) && TextAt(s, j, " ") && TextAt(s, j + 1, last)
  {
    TextSplits(s, i, tunnels, markers + source + Arrow + destination + " " + last + more);
    var k := i + |tunnels|;
    TextSplits(s, k, markers + source + Arrow + destination + " " + last, more);
    TextSplits(s, k, markers + source + Arrow + destination + " ", last);
    TextSplits(s, k, markers + source + Arrow + destination, " ");
    TextSplits(s, k, markers + source + Arrow, destination);
    TextSplits(s, k, markers + source, Arrow);
    TextSplits(s, k, markers, source);
  }

  lemma PortsArrow(s: string, i: nat, tunnels: string, markers: string, source: string, destination: string,
                   last: string, more: string, q: nat, x: nat, j: nat)
    requires TextAt(s, i, tunnels + (markers + source + Arrow + destination + " " + last + more))
    requires IsNumeral(source) && IsNumeral(destination)
    requires q == i + |tunnels| + |markers| && x == q + |source| && j == x + 3 + |destination|
    ensures TextAt(s, i, tunnels) && TextAt(s, i + |tunnels|, markers) && TextAt(s, q, source)
    ensures TextAt(s, x + 3, destination) && TextAt(s, j + 1, last) && ArrowAt(s, q, x, j)
  {
    InfoTexts(s, i, tunnels, markers, source, destination, last, more);
    TextIn(Digit, source, s, q);
    TextIn(Digit, destination, s, x + 3);
    CharsAt(s, j, " ");
  }

  lemma InfoShown(tunnels: seq<Tunnel>, info: Info, i: nat, s: string, q: nat, x: nat, j: nat)
    requires info.Ports? && TextAt(s, i, TunnelsText(tunnels) + InfoText(info))
    requires WellFormedPrefix(tunnels, info.markers)
    requires q == i + |TunnelsText(tunnels)| + |MarkersText(info.markers)|
    requires x == q + |Dec(info.source)| && j == x + 3 + |Dec(info.destination)|
    ensures InfoAt(s, i, tunnels, info.markers, info.tcp, q, x, j)
    ensures TextAt(s, q, Dec(info.source)) && TextAt(s, x + 3, Dec(info.destination))
  {
    hide TextAt, ArrowAt, TunnelsText, MarkersText, Dec, WellFormedPrefix;
    DecIsWritten(info.source);
    DecIsWritten(info.destination);
    PortsArrow(s, i, TunnelsText(tunnels), MarkersText(info.markers), Dec(info.source), Dec(info.destination),
               if info.tcp then "[" else "Len=", info.more, q, x, j);
  }

  lemma BodyParts(p: PacketRecord, body: nat, s: string)
    requires TextAt(s, body, Body(p))
    ensures TextAt(s, body, MacColumnsText(p))
    ensures TextAt(s, TunnelsBegin(p, body), TunnelsText(p.tunnels) + InfoText(p.info))
  {
    TextSplits(s, body, MacColumnsText(p), TunnelsText(p.tunnels) + InfoText(p.info));
  }

  // ── The ports of a TCP or UDP packet ──

  lemma MacsShown(m1: string, m2: string, b: nat, s: string)
    requires (m1 == "" || IsMacText(m1)) && (m2 == "" || IsMacText(m2))
    requires TextAt(s, b, Column(m1, 19) + Column(m2, 19))
    ensures var n1 := b + |Column(m1, 19)|;
            && TwoCells(s, b, b + |Shown(m1)|, n1, n1 + |Shown(m2)|, b + |Column(m1, 19) + Column(m2, 19)|)
            && MacAt(s, b, b + |Shown(m1)|) && MacAt(s, n1, n1 + |Shown(m2)|)
  {
    TextSplits(s, b, Column(m1, 19), Column(m2, 19));
    OneMac(m1, s, b);
    OneMac(m2, s, b + |Column(m1, 19)|);
  }

  lemma OneMac(mac: string, s: string, i: nat)
    requires (mac == "" || IsMacText(mac)) && TextAt(s, i, Column(mac, 19))
    ensures Cell(s, i, i + |Shown(mac)|, i + |Column(mac, 19)|) && MacAt(s, i, i + |Shown(mac)|)
  {
    if mac != "" {
      MacIsAWord(mac);
    }
    ColumnCell(mac, 19, s, i);
  }

  /** The first character behind the MAC columns. */
  lemma InfoFirst(s: string, i: nat, tunnels: seq<Tunnel>, markers: seq<string>, own: bool, q: nat, x: nat, j: nat)
    requires InfoAt(s, i, tunnels, markers, own, q, x, j)
    ensures i < |s| && (s[i] in {'I', 'G', 'V', '['} || (Has(Digit, s[i]) && i + 2 < |s| && s[i + 2] != ':'))
  {
    hide M, TextAt, TunnelsText, MarkersText, WellFormedTunnel;
    if tunnels != [] {
      var n := FirstTunnel(tunnels, s, i);
    } else {
      NoTunnels();
      if markers != [] {
        MarkersFirst(markers, s, i);
      } else {
        NoMarkers();
        PortsFirst(s, i, x, j);
      }
    }
  }

  lemma NoTunnels()
    ensures TunnelsText([]) == ""
  {
  }

  lemma NoMarkers()
    ensures MarkersText([]) == ""
  {
  }

  lemma PortsFirst(s: string, i: nat, x: nat, j: nat)
    requires ArrowAt(s, i, x, j)
    ensures i < |s| && Has(Digit, s[i]) && i + 2 < |s| && s[i + 2] != ':'
  {
    CharsAt(s, x, Arrow);
    assert s[x + 0] == ' ' && s[x + 1] == '\U{2192}';
    assert i + 2 < x ==> Has(Digit, s[i + 2]);
  }

  lemma PrefixIsWellFormed(p: PacketRecord)
    requires WellFormedPacket(p) && p.info.Ports?
    ensures WellFormedPrefix(p.tunnels, p.info.markers)
    ensures p.macs.Some? ==> (p.macs.value.0 == "" || IsMacText(p.macs.value.0))
                             && (p.macs.value.1 == "" || IsMacText(p.macs.value.1))
  {
    hide PortsAt, Whole, WellFormedEndpoint, WellFormedTunnel, IsMacText, IsName;
  }

  /** Of a TCP or UDP packet's line, the pattern reads the packet's own ports. */
  lemma TransportRead(tcp: bool, ports: Re, p: PacketRecord, s: string, a: nat, body: nat)
    requires WellFormedPacket(p) && p.info.Ports? && TextAt(s, body, Body(p)) && AllIn(One(' '), s, a, body)
    requires Within(ports, PortPair(Digits, Digits), s)
    ensures Begins(TransportInfo(tcp, ports), s, a) <==>
            tcp == p.info.tcp && M(ports, s, PortsBegin(p, body), PortsEnd(p, body))
  {
    hide M, Begins, TextAt, Within, Body, TunnelsText, MarkersText, MacColumnsText, Dec, InfoAt, InfoText, PortsAt, Whole,
         WellFormedPacket, WellFormedPrefix, IsMacText;
    PrefixIsWellFormed(p);
    var i, q, x, j := TunnelsBegin(p, body), PortsBegin(p, body), ArrowBegin(p, body), PortsEnd(p, body);
    BodyParts(p, body, s);
    InfoShown(p.tunnels, p.info, i, s, q, x, j);
    InfoFirst(s, i, p.tunnels, p.info.markers, p.info.tcp, q, x, j);
    MacPart(tcp, ports, p, s, body);
    FromPadding(tcp, ports, p.tunnels, p.info.markers, p.info.tcp, s, a, body, i, q, x, j);
  }

  lemma FromPadding(tcp: bool, ports: Re, tunnels: seq<Tunnel>, markers: seq<string>, own: bool,
                    s: string, a: nat, body: nat, i: nat, q: nat, x: nat, j: nat)
    requires InfoAt(s, i, tunnels, markers, own, q, x, j) && Within(ports, PortPair(Digits, Digits), s)
    requires a <= body < |s| && AllIn(One(' '), s, a, body) && s[body] != ' '
    requires Begins(Then(Optional(MacColumns), FromTunnels(tcp, ports)), s, body) <==> Begins(FromTunnels(tcp, ports), s, i)
    ensures Begins(TransportInfo(tcp, ports), s, a) <==> tcp == own && M(ports, s, q, j)
  {
    InfoRead(tcp, ports, s, i, tunnels, markers, own, q, x, j);
    MacStartsWord(tcp, ports, s);
    PaddingRead(Then(Optional(MacColumns), FromTunnels(tcp, ports)), s, a, body);
  }

  lemma MacPart(tcp: bool, ports: Re, p: PacketRecord, s: string, body: nat)
    requires TextAt(s, body, Body(p)) && Within(ports, PortPair(Digits, Digits), s)
    requires p.macs.Some? ==> (p.macs.value.0 == "" || IsMacText(p.macs.value.0))
                              && (p.macs.value.1 == "" || IsMacText(p.macs.value.1))
    requires var i := TunnelsBegin(p, body);
             i < |s| && (s[i] in {'I', 'G', 'V', '['} || (Has(Digit, s[i]) && i + 2 < |s| && s[i + 2] != ':'))
    ensures body < |s| && s[body] != ' '
    ensures Begins(Then(Optional(MacColumns), FromTunnels(tcp, ports)), s, body)
            <==> Begins(FromTunnels(tcp, ports), s, TunnelsBegin(p, body))
  {
    hide M, Dec, TunnelsText, InfoText, Spaces;
    BodyParts(p, body, s);
    if p.macs.Some? {
      MacsPassed(tcp, ports, p.macs.value.0, p.macs.value.1, s, body);
    } else {
      NoMacsRead(tcp, ports, s, body);
    }
  }

  lemma MacsPassed(tcp: bool, ports: Re, m1: string, m2: string, s: string, b: nat)
    requires (m1 == "" || IsMacText(m1)) && (m2 == "" || IsMacText(m2))
    requires TextAt(s, b, Column(m1, 19) + Column(m2, 19)) && Within(ports, PortPair(Digits, Digits), s)
    requires var n := b + |Column(m1, 19) + Column(m2, 19)|; n < |s| && s[n] != ' '
    ensures s[b] != ' '
    ensures Begins(Then(Optional(MacColumns), FromTunnels(tcp, ports)), s, b)
            <==> Begins(FromTunnels(tcp, ports), s, b + |Column(m1, 19) + Column(m2, 19)|)
  {
    hide M, TextAt, IsMacText, MacAt, Shown, Spaces, Within;
    MacsShown(m1, m2, b, s);
    var n1 := b + |Column(m1, 19)|;
    MacsRead(tcp, ports, s, b, b + |Shown(m1)|, n1, n1 + |Shown(m2)|, b + |Column(m1, 19) + Column(m2, 19)|);
    assert Has(NonSpace, s[b]);
  }

  lemma NoBlankHex(s: string, i: nat)
    ensures i < |s| && Has(LowerHex, s[i]) ==> s[i] != ' '
  {
    if i < |s| {
      assert Has(LowerHex, s[i]) <==> Has(Digit, s[i]) || Has(Range('a', 'f'), s[i]);
    }
  }

  lemma MacStartsWord(tcp: bool, ports: Re, s: string)
    requires Within(ports, PortPair(Digits, Digits), s)
    ensures StartsWord(Then(Optional(MacColumns), FromTunnels(tcp, ports)), s)
  {
    hide FromTunnels, Mac, Has;
    var r := FromTunnels(tcp, ports);
    TunnelsStart(tcp, ports, s);
    forall i: nat | Begins(Then(Optional(MacColumns), r), s, i)
      ensures i < |s| && s[i] != ' '
    {
      NoBlankHex(s, i);
      OptionalStep(MacColumns, r, s, i);
      MacGroup(r, s, i);
      if Begins(Then(MacColumns, r), s, i) {
        BeginsThen(Mac(), Then(Gap, Then(Mac(), Then(Gap, r))), s, i);
        var k: nat :| M(Mac(), s, i, k);
        MacStarts(s, i, k);
      }
    }
  }

  // ── Other packets ──

  /** Where the pattern of a transport's Info matches, it reads two ports somewhere behind Length. */
  lemma PortsSomewhere(tcp: bool, ports: Re, s: string, i: nat) returns (k: nat)
    requires Begins(TransportInfo(tcp, ports), s, i)
    ensures k >= i && Begins(PortsThen(tcp, ports), s, k)
  {
    var r3 := FromTunnels(tcp, ports);
    var r4 := Then(Optional(MacColumns), r3);
    BeginsThen(Star(Chars(One(' '))), r4, s, i);
    var k4: nat :| i <= k4 && Begins(r4, s, k4);
    BeginsThen(Optional(MacColumns), r3, s, k4);
    var k3: nat :| k4 <= k3 && Begins(r3, s, k3);
    BeginsThen(Star(TunnelPart), FromMarkers(tcp, ports), s, k3);
    var k2: nat :| k3 <= k2 && Begins(FromMarkers(tcp, ports), s, k2);
    BeginsThen(Star(MarkerPart), PortsThen(tcp, ports), s, k2);
    k :| k2 <= k && Begins(PortsThen(tcp, ports), s, k);
  }

  /** No other packet is taken for one of TCP or UDP. */
  lemma NoTransport(tcp: bool, ports: Re, p: PacketRecord, s: string, a: nat, body: nat)
    requires WellFormedPacket(p) && p.info.Other? && TextAt(s, body, Body(p)) && |s| == body + |Body(p)|
    requires AllIn(One(' '), s, a, body) && Within(ports, PortPair(Digits, Digits), s)
    ensures !Begins(TransportInfo(tcp, ports), s, a)
  {
    hide M, Whole, WellFormedEndpoint, WellFormedTunnel, IsMacText, IsName, Body;
    if Begins(TransportInfo(tcp, ports), s, a) {
      var k := PortsSomewhere(tcp, ports, s, a);
      PortsStart(tcp, ports, s);
      var atK := s[k];
      assert k < body ==> Has(One(' '), atK);
      var rest := Then(Chars(One(' ')), AfterPorts(tcp));
      ThenBeginsWithin(ports, PortPair(Digits, Digits), rest, rest, s);
      assert Body(p) == s[body..];
      PortsMove(tcp, s, k, Body(p), body);
      assert false;
    }
  }

  lemma TailSlice(s: string, b: nat, k: nat, j: nat)
    requires b <= k <= j <= |s|
    ensures s[k..j] == s[b..][k - b..j - b]
  {
  }

  lemma PortsMove(tcp: bool, s: string, k: nat, t: string, b: nat)
    requires b <= k && b <= |s| && t == s[b..] && PortsAt(tcp, s, k)
    ensures PortsAt(tcp, t, k - b)
  {
    var r := PortsThen(tcp, PortPair(Digits, Digits));
    var j: nat :| k <= j <= |s| && M(r, s, k, j);
    assert Plain(Literal(Arrow)) by {
      LiteralIsPlain(Arrow);
    }
    LiteralIsPlain("Len=");
    assert Plain(PortPair(Digits, Digits));
    assert Plain(r);
    TailSlice(s, b, k, j);
    MatchMoves(r, s, k, j, t, k - b);
  }

  lemma {:induction false} LiteralIsPlain(text: string)
    ensures Plain(Literal(text))
  {
    if text != [] {
      LiteralIsPlain(text[1..]);
    }
  }
}
