/** Reading the start of Info: the MAC columns, tunnels and TCP markers before the ports are
  * passed over one by one, so that the ports read are the packet's own. */
module LineInfo {
  import opened Options
  import opened Regex
  import opened Decimal
  import opened Text
  import opened NumberRange
  import opened FilterTranslation
  import opened Patterns
  import opened PacketLines
  import opened LineColumns

  lemma TextIn(cs: CharSet, w: string, s: string, i: nat)
    requires TextAt(s, i, w) && forall k :: 0 <= k < |w| ==> Has(cs, w[k])
    ensures AllIn(cs, s, i, i + |w|)
  {
    forall k | i <= k < i + |w|
      ensures Has(cs, s[k])
    {
      assert s[k] == s[i..i + |w|][k - i];
    }
  }

  // ── Repetitions ──

  /** A repetition that can only go on one way here. */
  lemma StarStep(body: Re, r: Re, s: string, i: nat, k: nat)
    requires i < k && M(body, s, i, k) && !Begins(r, s, i)
    requires forall m: nat :: M(body, s, i, m) ==> m == k
    ensures Begins(Then(Star(body), r), s, i) <==> Begins(Then(Star(body), r), s, k)
  {
    var star := Star(body);
    BeginsThen(star, r, s, i);
    BeginsThen(star, r, s, k);
    if Begins(Then(star, r), s, i) {
      var n: nat :| M(star, s, i, n) && Begins(r, s, n);
      assert i < n;
      var m := StarSplit(body, s, i, n);
    }
    if Begins(Then(star, r), s, k) {
      var n: nat :| M(star, s, k, n) && Begins(r, s, n);
      assert M(star, s, i, n);
    }
  }

  /** A repetition that cannot go on. */
  lemma StarEnds(body: Re, r: Re, s: string, i: nat)
    requires forall m: nat :: !M(body, s, i, m)
    ensures Begins(Then(Star(body), r), s, i) <==> i <= |s| && Begins(r, s, i)
  {
    BeginsThen(Star(body), r, s, i);
    if i <= |s| {
      assert M(Star(body), s, i, i);
    }
  }

  lemma PaddingRead(r: Re, s: string, a: nat, b: nat)
    requires a <= b < |s| && AllIn(One(' '), s, a, b) && s[b] != ' ' && StartsWord(r, s)
    ensures Begins(Then(Star(Chars(One(' '))), r), s, a) <==> Begins(r, s, b)
  {
    var spaces := Star(Chars(One(' ')));
    BeginsThen(spaces, r, s, a);
    StarMatches(One(' '), s, a, b);
    if Begins(Then(spaces, r), s, a) {
      var k: nat :| M(spaces, s, a, k) && Begins(r, s, k);
      StarMatches(One(' '), s, a, k);
      var atB, atK := s[b], s[k];
      assert k < b ==> Has(One(' '), atK);
      assert b < k ==> Has(One(' '), atB);
    }
  }

  // ── Tunnels ──

  lemma LiteralAt(text: string, s: string, i: nat, j: nat)
    requires M(Literal(text), s, i, j)
    ensures j == i + |text| && TextAt(s, i, text)
    ensures forall k :: 0 <= k < |text| ==> s[i + k] == text[k]
  {
    LiteralMatches(text, s, i, j);
    CharsAt(s, i, text);
  }

  const IpName := Then(Literal("IPv"), Then(Chars(Either(One('4'), One('6'))), Then(Literal("-in-"), Word)))
  const KeyPart := Then(Literal(" key=0x"), Plus(Chars(UpperHex)))
  const GreName := Then(Literal("GRE"), Optional(KeyPart))
  const VniPart := Then(Literal(" VNI "), Digits)
  const VxlanName := Then(Literal("VXLAN"), Optional(VniPart))

  /** A tunnel's name is one of the three forms, which its first letter tells. */
  lemma TunnelForms(s: string, i: nat, m: nat) returns (n: nat)
    requires M(TunnelPart, s, i, m)
    ensures n + 3 == m && i < n && TextAt(s, n, " | ") && s[n] == ' ' && s[n + 1] == '|'
    ensures i < |s|
    ensures || (s[i] == 'I' && M(IpName, s, i, n))
            || (s[i] == 'G' && M(GreName, s, i, n))
            || (s[i] == 'V' && M(VxlanName, s, i, n))
  {
    n := ThenSplit(TunnelName(), Literal(" | "), s, i, m);
    LiteralAt(" | ", s, n, m);
    hide M;
    var forms := [IpName, GreName, VxlanName];
    assert TunnelName() == AnyOf(forms);
    AnyOfMatches(forms, s, i, n);
    var f :| 0 <= f < 3 && M(forms[f], s, i, n);
    if f == 0 {
      var k := ThenSplit(Literal("IPv"), IpName.rest, s, i, n);
      LiteralAt("IPv", s, i, k);
    } else if f == 1 {
      var k := ThenSplit(Literal("GRE"), GreName.rest, s, i, n);
      LiteralAt("GRE", s, i, k);
    } else {
      var k := ThenSplit(Literal("VXLAN"), VxlanName.rest, s, i, n);
      LiteralAt("VXLAN", s, i, k);
    }
  }

  lemma TunnelIntro(name: Re, s: string, i: nat, n: nat)
    requires name in [IpName, GreName, VxlanName] && M(name, s, i, n) && TextAt(s, n, " | ")
    ensures M(TunnelPart, s, i, n + 3)
  {
    var forms := [IpName, GreName, VxlanName];
    assert TunnelName() == AnyOf(forms);
    AnyOfMatches(forms, s, i, n);
    LiteralMatches(" | ", s, n, n + 3);
    ThenIntro(TunnelName(), Literal(" | "), s, i, n, n + 3);
  }

  /** A run of characters that a pattern reads up to the space behind it. */
  lemma RunToSpace(cs: CharSet, s: string, i: nat, e: nat, n: nat)
    requires !Has(cs, ' ') && i < e < |s| && AllIn(cs, s, i, e) && s[e] == ' '
    requires M(Plus(Chars(cs)), s, i, n) && n < |s| && s[n] == ' '
    ensures n == e
  {
    PlusMatches(cs, s, i, n);
    var atE, atN := s[e], s[n];
    assert e < n ==> Has(cs, atE);
    assert n < e ==> Has(cs, atN);
  }

  /** A fixed text, then a pattern. */
  lemma LiteralThen(text: string, r: Re, s: string, i: nat, j: nat)
    ensures M(Then(Literal(text), r), s, i, j) <==> TextAt(s, i, text) && M(r, s, i + |text|, j)
  {
    if M(Then(Literal(text), r), s, i, j) {
      var k := ThenSplit(Literal(text), r, s, i, j);
      LiteralAt(text, s, i, k);
    }
    if TextAt(s, i, text) && M(r, s, i + |text|, j) {
      LiteralMatches(text, s, i, i + |text|);
      ThenIntro(Literal(text), r, s, i, i + |text|, j);
    }
  }

  /** `s[i..e]` is a word of characters in `cs`, and a space follows it. */
  ghost predicate WordAt(cs: CharSet, s: string, i: nat, e: nat) {
    !Has(cs, ' ') && i < e < |s| && AllIn(cs, s, i, e) && s[e] == ' '
  }

  lemma WordTextAt(cs: CharSet, w: string, s: string, i: nat)
    requires TextAt(s, i, w + " | ") && w != [] && !Has(cs, ' ') && forall k :: 0 <= k < |w| ==> Has(cs, w[k])
    ensures WordAt(cs, s, i, i + |w|) && TextAt(s, i + |w|, " | ")
  {
    TextSplits(s, i, w, " | ");
    CharsAt(s, i + |w|, " | ");
    TextIn(cs, w, s, i);
  }

  lemma IpTunnel(inner: char, s: string, i: nat, e: nat)
    requires inner in {'4', '6'} && i + 8 <= |s|
    requires TextAt(s, i, "IPv") && s[i + 3] == inner && TextAt(s, i + 4, "-in-") && WordAt(NonSpace, s, i + 8, e)
    ensures M(IpName, s, i, e)
    ensures forall n: nat :: M(IpName, s, i, n) && n < |s| && s[n] == ' ' ==> n == e
  {
    var afterDigit := Then(Literal("-in-"), Word);
    var digit := Either(One('4'), One('6'));
    PlusMatches(NonSpace, s, i + 8, e);
    forall n: nat
      ensures M(IpName, s, i, n) <==> M(Word, s, i + 8, n)
    {
      LiteralThen("IPv", Then(Chars(digit), afterDigit), s, i, n);
      FirstThen(digit, afterDigit, s, i + 3, n);
      LiteralThen("-in-", Word, s, i + 4, n);
    }
    forall n: nat | M(IpName, s, i, n) && n < |s| && s[n] == ' '
      ensures n == e
    {
      RunToSpace(NonSpace, s, i + 8, e, n);
    }
  }

  /** A name with an optional word behind it, in a text without the word. */
  lemma NameAlone(name: string, lead: string, cs: CharSet, s: string, i: nat, e: nat)
    requires |lead| > 1 && lead[0] == ' ' && lead[1] != '|'
    requires e == i + |name| && e + 1 < |s| && TextAt(s, i, name) && s[e] == ' ' && s[e + 1] == '|'
    ensures var r := Then(Literal(name), Optional(Then(Literal(lead), Plus(Chars(cs)))));
            M(r, s, i, e) && forall n: nat :: M(r, s, i, n) ==> n == e
  {
    var part := Then(Literal(lead), Plus(Chars(cs)));
    forall n: nat
      ensures M(Then(Literal(name), Optional(part)), s, i, n) <==> n == e
    {
      LiteralThen(name, Optional(part), s, i, n);
      LiteralThen(lead, Plus(Chars(cs)), s, e, n);
      if TextAt(s, e, lead) {
        CharsAt(s, e, lead);
      }
    }
  }

  /** A name with an optional word behind it, in a text with the word. */
  lemma NameAndWord(name: string, lead: string, cs: CharSet, s: string, i: nat, x: nat, e: nat)
    requires |lead| > 1 && lead[0] == ' ' && lead[1] != '|'
    requires x == i + |name| + |lead| && TextAt(s, i, name) && TextAt(s, i + |name|, lead) && WordAt(cs, s, x, e)
    ensures var r := Then(Literal(name), Optional(Then(Literal(lead), Plus(Chars(cs)))));
            && M(r, s, i, e)
            && forall n: nat :: M(r, s, i, n) && n + 1 < |s| && s[n] == ' ' && s[n + 1] == '|' ==> n == e
  {
    var part := Then(Literal(lead), Plus(Chars(cs)));
    var r := Then(Literal(name), Optional(part));
    PlusMatches(cs, s, x, e);
    CharsAt(s, i + |name|, lead);
    forall n: nat
      ensures M(r, s, i, n) <==> n == i + |name| || M(Plus(Chars(cs)), s, x, n)
    {
      LiteralThen(name, Optional(part), s, i, n);
      LiteralThen(lead, Plus(Chars(cs)), s, i + |name|, n);
    }
    forall n: nat | M(r, s, i, n) && n + 1 < |s| && s[n] == ' ' && s[n + 1] == '|'
      ensures n == e
    {
      assert s[i + |name| + 1] == lead[1];
      RunToSpace(cs, s, x, e, n);
    }
  }

  /** Where the letter of a text is one of a tunnel's, the pattern of tunnels reads it in one way. */
  ghost predicate TunnelAt(s: string, i: nat, e: nat) {
    && i < e && e + 3 <= |s| && s[i] in {'I', 'G', 'V'} && M(TunnelPart, s, i, e + 3)
    && forall m: nat :: M(TunnelPart, s, i, m) ==> m == e + 3
  }

  lemma OneForm(name: Re, s: string, i: nat, e: nat)
    requires i < |s| && i < e && e + 3 <= |s| && TextAt(s, e, " | ") && M(name, s, i, e)
    requires (s[i] == 'I' && name == IpName) || (s[i] == 'G' && name == GreName) || (s[i] == 'V' && name == VxlanName)
    requires forall n: nat :: M(name, s, i, n) && n + 1 < |s| && s[n] == ' ' && s[n + 1] == '|' ==> n == e
    ensures TunnelAt(s, i, e)
  {
    TunnelIntro(name, s, i, e);
    forall m: nat | M(TunnelPart, s, i, m)
      ensures m == e + 3
    {
      var n := TunnelForms(s, i, m);
    }
  }

  lemma IpRead(inner: char, network: string, s: string, i: nat)
    requires inner in {'4', '6'} && IsName(network)
    requires TextAt(s, i, "IPv" + [inner] + "-in-" + network) && TextAt(s, i + 8 + |network|, " | ")
    ensures TunnelAt(s, i, i + 8 + |network|)
  {
    hide M, TunnelAt;
    TextSplits(s, i, "IPv" + [inner] + "-in-", network);
    TextSplits(s, i, "IPv" + [inner], "-in-");
    TextSplits(s, i, "IPv", [inner]);
    CharsAt(s, i, "IPv");
    CharsAt(s, i + 3, [inner]);
    TextSplits(s, i + 8, network, " | ");
    WordTextAt(NonSpace, network, s, i + 8);
    IpTunnel(inner, s, i, i + 8 + |network|);
    OneForm(IpName, s, i, i + 8 + |network|);
  }

  lemma GreRead(key: Option<string>, s: string, i: nat)
    requires WellFormedTunnel(Gre(key))
    requires var e := i + |TunnelText(Gre(key))|; TextAt(s, i, TunnelText(Gre(key))) && TextAt(s, e, " | ")
    ensures TunnelAt(s, i, i + |TunnelText(Gre(key))|)
  {
    hide M, TunnelAt;
    var e := i + |TunnelText(Gre(key))|;
    CharsAt(s, e, " | ");
    match key {
      case None =>
        CharsAt(s, i, "GRE");
        NameAlone("GRE", " key=0x", UpperHex, s, i, e);
      case Some(word) =>
        TextSplits(s, i, "GRE" + " key=0x", word);
        TextSplits(s, i, "GRE", " key=0x");
        CharsAt(s, i, "GRE");
        TextSplits(s, i + 10, word, " | ");
        WordTextAt(UpperHex, word, s, i + 10);
        NameAndWord("GRE", " key=0x", UpperHex, s, i, i + 10, e);
    }
    OneForm(GreName, s, i, e);
  }

  lemma VniRead(word: string, s: string, i: nat)
    requires word != [] && forall k :: 0 <= k < |word| ==> Has(Digit, word[k])
    requires TextAt(s, i, "VXLAN" + " VNI " + word) && TextAt(s, i + 10 + |word|, " | ")
    ensures TunnelAt(s, i, i + 10 + |word|)
  {
    hide M, TextAt, TunnelAt;
    var e := i + 10 + |word|;
    TextSplits(s, i, "VXLAN" + " VNI ", word);
    TextSplits(s, i, "VXLAN", " VNI ");
    CharsAt(s, i, "VXLAN");
    CharsAt(s, e, " | ");
    TextSplits(s, i + 10, word, " | ");
    WordTextAt(Digit, word, s, i + 10);
    NameAndWord("VXLAN", " VNI ", Digit, s, i, i + 10, e);
    OneForm(VxlanName, s, i, e);
  }

  lemma VxlanRead(vni: Option<nat>, s: string, i: nat)
    requires var e := i + |TunnelText(Vxlan(vni))|; TextAt(s, i, TunnelText(Vxlan(vni))) && TextAt(s, e, " | ")
    ensures TunnelAt(s, i, i + |TunnelText(Vxlan(vni))|)
  {
    match vni {
      case None =>
        CharsAt(s, i, "VXLAN");
        CharsAt(s, i + 5, " | ");
        NameAlone("VXLAN", " VNI ", Digit, s, i, i + 5);
        OneForm(VxlanName, s, i, i + 5);
      case Some(n) =>
        DecIsNumeral(n);
        VniRead(Dec(n), s, i);
    }
  }

  lemma TunnelRead(t: Tunnel, s: string, i: nat)
    requires WellFormedTunnel(t) && TextAt(s, i, TunnelText(t) + " | ")
    ensures TunnelAt(s, i, i + |TunnelText(t)|)
  {
    TextSplits(s, i, TunnelText(t), " | ");
    match t {
      case IpInIp(inner, network) => IpRead(inner, network, s, i);
      case Gre(key) => GreRead(key, s, i);
      case Vxlan(vni) => VxlanRead(vni, s, i);
    }
  }

  ghost predicate NeverAtTunnel(r: Re, s: string) {
    forall i: nat :: Begins(r, s, i) ==> i < |s| && s[i] !in {'I', 'G', 'V'}
  }

  lemma NoTunnelAt(s: string, i: nat)
    requires i < |s| && s[i] !in {'I', 'G', 'V'}
    ensures forall m: nat :: !M(TunnelPart, s, i, m)
  {
    forall m: nat
      ensures !M(TunnelPart, s, i, m)
    {
      if M(TunnelPart, s, i, m) {
        var n := TunnelForms(s, i, m);
        assert false;
      }
    }
  }

  /** All the tunnels, up to `e`, are passed over. */
  lemma {:induction false} TunnelsRead(tunnels: seq<Tunnel>, r: Re, s: string, i: nat, e: nat)
    requires (forall t :: t in tunnels ==> WellFormedTunnel(t)) && TextAt(s, i, TunnelsText(tunnels))
    requires NeverAtTunnel(r, s)
    requires e == i + |TunnelsText(tunnels)| && e < |s| && s[e] !in {'I', 'G', 'V'}
    ensures Begins(Then(Star(TunnelPart), r), s, i) <==> Begins(r, s, e)
  {
    if tunnels == [] {
      NoTunnelAt(s, i);
      StarEnds(TunnelPart, r, s, i);
    } else {
      var n := FirstTunnel(tunnels, s, i);
      StarStep(TunnelPart, r, s, i, n);
      TunnelsRead(tunnels[1..], r, s, n, e);
    }
  }

  lemma FirstTunnel(tunnels: seq<Tunnel>, s: string, i: nat) returns (n: nat)
    requires tunnels != [] && WellFormedTunnel(tunnels[0]) && TextAt(s, i, TunnelsText(tunnels))
    ensures n >= 3 && TunnelAt(s, i, n - 3)
    ensures n + |TunnelsText(tunnels[1..])| == i + |TunnelsText(tunnels)| && TextAt(s, n, TunnelsText(tunnels[1..]))
  {
    hide M, TextAt, TunnelText, TunnelAt, WellFormedTunnel;
    var first, rest := TunnelText(tunnels[0]) + " | ", TunnelsText(tunnels[1..]);
    n := i + |first|;
    assert TunnelsText(tunnels) == first + rest;
    TextSplits(s, i, first, rest);
    TunnelRead(tunnels[0], s, i);
  }

  // ── TCP markers ──

  lemma MarkerRead(w: string, s: string, i: nat)
    requires TextAt(s, i, "[TCP " + w + "] ") && ']' !in w
    ensures M(MarkerPart, s, i, i + |w| + 7)
    ensures forall m: nat :: M(MarkerPart, s, i, m) ==> m == i + |w| + 7
  {
    hide M, TextAt;
    var e := i + 5 + |w|;
    TextSplits(s, i, "[TCP " + w, "] ");
    TextSplits(s, i, "[TCP ", w);
    CharsAt(s, i + 5, w);
    CharsAt(s, e, "] ");
    var run := Star(Chars(Except(']')));
    assert forall k :: i + 5 <= k < e ==> s[k] == w[k - (i + 5)];
    StarMatches(Except(']'), s, i + 5, e);
    LiteralMatches("] ", s, e, e + 2);
    ThenIntro(run, Literal("] "), s, i + 5, e, e + 2);
    LiteralThen("[TCP ", Then(run, Literal("] ")), s, i, e + 2);
    forall m: nat | M(MarkerPart, s, i, m)
      ensures m == e + 2
    {
      LiteralThen("[TCP ", Then(run, Literal("] ")), s, i, m);
      var n := ThenSplit(run, Literal("] "), s, i + 5, m);
      StarMatches(Except(']'), s, i + 5, n);
      LiteralAt("] ", s, n, m);
      var atE, atN := s[e], s[n];
      assert e < n ==> Has(Except(']'), atE);
      assert n < e ==> Has(Except(']'), atN);
    }
  }

  ghost predicate NeverAtMarker(r: Re, s: string) {
    forall i: nat :: Begins(r, s, i) ==> i < |s| && s[i] != '['
  }

  lemma NoMarkerAt(s: string, i: nat)
    requires i < |s| && s[i] != '['
    ensures forall m: nat :: !M(MarkerPart, s, i, m)
  {
    forall m: nat
      ensures !M(MarkerPart, s, i, m)
    {
      if M(MarkerPart, s, i, m) {
        LiteralThen("[TCP ", MarkerPart.rest, s, i, m);
        CharsAt(s, i, "[TCP ");
        assert false;
      }
    }
  }

  /** All the markers, up to `e`, are passed over. */
  lemma {:induction false} MarkersRead(markers: seq<string>, r: Re, s: string, i: nat, e: nat)
    requires (forall m :: m in markers ==> ']' !in m) && TextAt(s, i, MarkersText(markers))
    requires NeverAtMarker(r, s)
    requires e == i + |MarkersText(markers)| && e < |s| && s[e] != '['
    ensures Begins(Then(Star(MarkerPart), r), s, i) <==> Begins(r, s, e)
  {
    if markers == [] {
      NoMarkerAt(s, i);
      StarEnds(MarkerPart, r, s, i);
    } else {
      var n := FirstMarker(markers, s, i);
      StarStep(MarkerPart, r, s, i, n);
      MarkersRead(markers[1..], r, s, n, e);
    }
  }

  lemma FirstMarker(markers: seq<string>, s: string, i: nat) returns (n: nat)
    requires markers != [] && ']' !in markers[0] && TextAt(s, i, MarkersText(markers))
    ensures i < n && i < |s| && s[i] == '[' && M(MarkerPart, s, i, n)
    ensures forall m: nat :: M(MarkerPart, s, i, m) ==> m == n
    ensures n + |MarkersText(markers[1..])| == i + |MarkersText(markers)| && TextAt(s, n, MarkersText(markers[1..]))
  {
    var first := "[TCP " + markers[0] + "] ";
    n := i + |first|;
    assert MarkersText(markers) == first + MarkersText(markers[1..]);
    TextSplits(s, i, first, MarkersText(markers[1..]));
    CharsAt(s, i, first);
    MarkerRead(markers[0], s, i);
  }

  // ── Ports ──

  /** Two numbers with the arrow between them, and a space behind them. */
  ghost predicate ArrowAt(s: string, i: nat, x: nat, j: nat) {
    && i < x && x + 3 < j < |s| && AllIn(Digit, s, i, x) && TextAt(s, x, Arrow)
    && AllIn(Digit, s, x + 3, j) && s[j] == ' '
  }

  /** A pattern of two ports reads both whole. */
  lemma PortPairMatches(a: Re, b: Re, s: string, i: nat, x: nat, j: nat)
    requires ArrowAt(s, i, x, j) && Within(a, Digits, s) && Within(b, Digits, s)
    ensures M(PortPair(a, b), s, i, j) <==> M(a, s, i, x) && M(b, s, x + 3, j)
  {
    var arrowThen := Then(Literal(Arrow), b);
    CharsAt(s, x, Arrow);
    LiteralThen(Arrow, b, s, x, j);
    if M(PortPair(a, b), s, i, j) {
      var k := ThenSplit(a, arrowThen, s, i, j);
      LiteralThen(Arrow, b, s, k, j);
      CharsAt(s, k, Arrow);
      RunToSpace(Digit, s, i, x, k);
    }
    if M(a, s, i, x) && M(b, s, x + 3, j) {
      ThenIntro(a, arrowThen, s, i, x, j);
    }
  }

  lemma PortPairEnds(s: string, i: nat, x: nat, j: nat, k: nat)
    requires ArrowAt(s, i, x, j) && M(PortPair(Digits, Digits), s, i, k) && k < |s| && s[k] == ' '
    ensures k == j
  {
    CharsAt(s, x, Arrow);
    var y := ThenSplit(Digits, Then(Literal(Arrow), Digits), s, i, k);
    LiteralThen(Arrow, Digits, s, y, k);
    CharsAt(s, y, Arrow);
    RunToSpace(Digit, s, i, x, y);
    RunToSpace(Digit, s, x + 3, j, k);
  }

  function AfterPorts(tcp: bool): Re {
    if tcp then Chars(One('[')) else Literal("Len=")
  }

  /** The ports of a TCP packet are not read as UDP's, nor the other way round. */
  lemma PortsRead(tcp: bool, ports: Re, own: bool, s: string, i: nat, x: nat, j: nat)
    requires ArrowAt(s, i, x, j) && Within(ports, PortPair(Digits, Digits), s)
    requires TextAt(s, j + 1, if own then "[" else "Len=")
    ensures Begins(PortsThen(tcp, ports), s, i) <==> tcp == own && M(ports, s, i, j)
  {
    var space := Chars(One(' '));
    var last := AfterPorts(tcp);
    BeginsThen(ports, Then(space, last), s, i);
    if Begins(PortsThen(tcp, ports), s, i) {
      var k: nat :| M(ports, s, i, k) && Begins(Then(space, last), s, k);
      LastBegins(tcp, own, s, i, x, j, k);
    }
    if tcp == own && M(ports, s, i, j) {
      LastMatches(own, s, j);
    }
  }

  lemma LastBegins(tcp: bool, own: bool, s: string, i: nat, x: nat, j: nat, k: nat)
    requires ArrowAt(s, i, x, j) && TextAt(s, j + 1, if own then "[" else "Len=")
    requires M(PortPair(Digits, Digits), s, i, k) && Begins(Then(Chars(One(' ')), AfterPorts(tcp)), s, k)
    ensures k == j && tcp == own
  {
    var l: nat :| k <= l <= |s| && M(Then(Chars(One(' ')), AfterPorts(tcp)), s, k, l);
    FirstThen(One(' '), AfterPorts(tcp), s, k, l);
    PortPairEnds(s, i, x, j, k);
    LastRead(tcp, own, s, j + 1, l);
  }

  lemma LastMatches(own: bool, s: string, j: nat)
    requires j < |s| && s[j] == ' ' && TextAt(s, j + 1, if own then "[" else "Len=")
    ensures Begins(Then(Chars(One(' ')), AfterPorts(own)), s, j)
  {
    var w := if own then "[" else "Len=";
    CharsAt(s, j + 1, w);
    LiteralMatches(w, s, j + 1, j + 1 + |w|);
    FirstThen(One(' '), AfterPorts(own), s, j, j + 1 + |w|);
  }

  lemma LastRead(tcp: bool, own: bool, s: string, i: nat, l: nat)
    requires TextAt(s, i, if own then "[" else "Len=") && M(AfterPorts(tcp), s, i, l)
    ensures tcp == own
  {
    CharsAt(s, i, if own then "[" else "Len=");
    if !tcp {
      LiteralAt("Len=", s, i, l);
    }
  }

  // ── The whole start of Info ──

  function FromMarkers(tcp: bool, ports: Re): Re {
    Then(Star(MarkerPart), PortsThen(tcp, ports))
  }

  function FromTunnels(tcp: bool, ports: Re): Re {
    Then(Star(TunnelPart), FromMarkers(tcp, ports))
  }

  lemma PortsStart(tcp: bool, ports: Re, s: string)
    requires Within(ports, PortPair(Digits, Digits), s)
    ensures forall i: nat :: Begins(PortsThen(tcp, ports), s, i) ==> i < |s| && Has(Digit, s[i])
  {
    forall i: nat | Begins(PortsThen(tcp, ports), s, i)
      ensures i < |s| && Has(Digit, s[i])
    {
      BeginsThen(ports, Then(Chars(One(' ')), AfterPorts(tcp)), s, i);
      var k: nat :| M(ports, s, i, k) && Begins(Then(Chars(One(' ')), AfterPorts(tcp)), s, k);
      var x := ThenSplit(Digits, Then(Literal(Arrow), Digits), s, i, k);
      PlusMatches(Digit, s, i, x);
    }
  }

  lemma MarkersStart(tcp: bool, ports: Re, s: string)
    requires Within(ports, PortPair(Digits, Digits), s)
    ensures forall i: nat :: Begins(FromMarkers(tcp, ports), s, i) ==>
                               i < |s| && (s[i] == '[' || (Has(Digit, s[i]) && Begins(PortsThen(tcp, ports), s, i)))
  {
    PortsStart(tcp, ports, s);
    forall i: nat | Begins(FromMarkers(tcp, ports), s, i)
      ensures i < |s| && (s[i] == '[' || (Has(Digit, s[i]) && Begins(PortsThen(tcp, ports), s, i)))
    {
      BeginsThen(Star(MarkerPart), PortsThen(tcp, ports), s, i);
      var k: nat :| M(Star(MarkerPart), s, i, k) && Begins(PortsThen(tcp, ports), s, k);
      if i < k {
        var m := StarSplit(MarkerPart, s, i, k);
        LiteralThen("[TCP ", MarkerPart.rest, s, i, m);
        CharsAt(s, i, "[TCP ");
      }
    }
  }

  lemma TunnelsStart(tcp: bool, ports: Re, s: string)
    requires Within(ports, PortPair(Digits, Digits), s)
    ensures forall i: nat :: Begins(FromTunnels(tcp, ports), s, i) ==>
                               i < |s| && (s[i] in {'I', 'G', 'V', '['}
                                           || (Has(Digit, s[i]) && Begins(PortsThen(tcp, ports), s, i)))
    ensures StartsWord(FromTunnels(tcp, ports), s)
  {
    MarkersStart(tcp, ports, s);
    forall i: nat | Begins(FromTunnels(tcp, ports), s, i)
      ensures i < |s| && (s[i] in {'I', 'G', 'V', '['} || (Has(Digit, s[i]) && Begins(PortsThen(tcp, ports), s, i)))
    {
      BeginsThen(Star(TunnelPart), FromMarkers(tcp, ports), s, i);
      var k: nat :| M(Star(TunnelPart), s, i, k) && Begins(FromMarkers(tcp, ports), s, k);
      if i < k {
        var m := StarSplit(TunnelPart, s, i, k);
        var n := TunnelForms(s, i, m);
      }
    }
  }

  predicate WellFormedPrefix(tunnels: seq<Tunnel>, markers: seq<string>) {
    (forall t :: t in tunnels ==> WellFormedTunnel(t)) && (forall m :: m in markers ==> ']' !in m)
  }

  /** `s` shows a packet's tunnels, markers and ports from `i` on: its ports from `q` to `j`. */
  ghost predicate InfoAt(s: string, i: nat, tunnels: seq<Tunnel>, markers: seq<string>, own: bool, q: nat, x: nat, j: nat) {
    && WellFormedPrefix(tunnels, markers)
    && TextAt(s, i, TunnelsText(tunnels)) && TextAt(s, i + |TunnelsText(tunnels)|, MarkersText(markers))
    && q == i + |TunnelsText(tunnels)| + |MarkersText(markers)|
    && ArrowAt(s, q, x, j) && TextAt(s, j + 1, if own then "[" else "Len=")
  }

  lemma MarkersFirst(markers: seq<string>, s: string, i: nat)
    requires markers != [] && TextAt(s, i, MarkersText(markers))
    ensures i < |s| && s[i] == '['
  {
    CharsAt(s, i, MarkersText(markers));
    assert MarkersText(markers)[0] == '[';
  }

  lemma NoOtherStart(tcp: bool, ports: Re, s: string)
    requires Within(ports, PortPair(Digits, Digits), s)
    ensures NeverAtTunnel(FromMarkers(tcp, ports), s) && NeverAtMarker(PortsThen(tcp, ports), s)
  {
    hide FromMarkers, PortsThen, Within, Begins;
    MarkersStart(tcp, ports, s);
    PortsStart(tcp, ports, s);
  }

  lemma ArrowDigit(s: string, q: nat, x: nat, j: nat)
    requires ArrowAt(s, q, x, j)
    ensures q < |s| && s[q] !in {'I', 'G', 'V', '['}
  {
    assert Has(Digit, s[q]);
  }

  /** Behind the tunnels and the markers, the packet's own ports are read. */
  lemma InfoRead(tcp: bool, ports: Re, s: string, i: nat, tunnels: seq<Tunnel>, markers: seq<string>,
                 own: bool, q: nat, x: nat, j: nat)
    requires InfoAt(s, i, tunnels, markers, own, q, x, j) && Within(ports, PortPair(Digits, Digits), s)
    ensures Begins(FromTunnels(tcp, ports), s, i) <==> tcp == own && M(ports, s, q, j)
  {
    hide M, Begins, TextAt, ArrowAt, TunnelsText, MarkersText, NeverAtTunnel, NeverAtMarker, PortsThen, Within, WellFormedTunnel;
    var k := i + |TunnelsText(tunnels)|;
    NoOtherStart(tcp, ports, s);
    ArrowDigit(s, q, x, j);
    if markers == [] {
      NoMarkers(markers);
    } else {
      MarkersFirst(markers, s, k);
    }
    TunnelsRead(tunnels, FromMarkers(tcp, ports), s, i, k);
    MarkersRead(markers, PortsThen(tcp, ports), s, k, q);
    PortsRead(tcp, ports, own, s, q, x, j);
  }

  lemma NoMarkers(markers: seq<string>)
    requires markers == []
    ensures MarkersText(markers) == ""
  {
  }
}
