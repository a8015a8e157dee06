/** Reading the ports of a packet line behind the columns up to Length. */
module LineTransport {
  import opened Options
  import opened Regex
  import opened Decimal
  import opened Text
  import opened NumberRange
  import opened FilterTranslation
  import opened Patterns
  import opened PacketLines
  import opened LineColumns
  import opened LineInfo

  // ── The MAC columns ──

  ghost predicate MacAt(s: string, b: nat, e: nat) {
    b < e <= |s| && (s[b..e] == "-" || IsMacText(s[b..e]))
  }

  const ColonPair := Then(Chars(One(':')), Times(Chars(LowerHex), 2))

  /** Of a MAC address's text, the character at `k`. */
  lemma MacCharacter(s: string, b: nat, e: nat, k: nat)
    requires b < e <= |s| && IsMacText(s[b..e]) && k < 17
    ensures e == b + 17 && if k % 3 == 2 then s[b + k] == ':' else Has(LowerHex, s[b + k])
  {
    assert s[b + k] == s[b..e][k];
  }

  lemma {:induction false} MacPairs(s: string, b: nat, n: nat)
    requires b + 17 <= |s| && n <= 5 && IsMacText(s[b..b + 17])
    ensures M(Times(ColonPair, n), s, b + 17 - 3 * n, b + 17)
  {
    if n > 0 {
      var i := b + 17 - 3 * n;
      MacPairs(s, b, n - 1);
      MacCharacter(s, b, b + 17, 17 - 3 * n);
      MacCharacter(s, b, b + 17, 18 - 3 * n);
      MacCharacter(s, b, b + 17, 19 - 3 * n);
      TimesMatches(LowerHex, 2, s, i + 1, i + 3);
      FirstThen(One(':'), Times(Chars(LowerHex), 2), s, i, i + 3);
      assert Times(ColonPair, n) == Then(ColonPair, Times(ColonPair, n - 1));
      ThenIntro(ColonPair, Times(ColonPair, n - 1), s, i, i + 3, b + 17);
    }
  }

  lemma MacMatches(s: string, b: nat, e: nat)
    requires MacAt(s, b, e)
    ensures M(Mac(), s, b, e)
  {
    if s[b..e] == "-" {
      assert s[b] == s[b..e][0];
    } else {
      MacCharacter(s, b, e, 0);
      MacCharacter(s, b, e, 1);
      TimesMatches(LowerHex, 2, s, b, b + 2);
      MacPairs(s, b, 5);
      ThenIntro(Times(Chars(LowerHex), 2), Times(ColonPair, 5), s, b, b + 2, e);
    }
  }

  /** What a MAC address begins with. */
  lemma MacStarts(s: string, b: nat, e: nat)
    requires M(Mac(), s, b, e)
    ensures b < |s| && (s[b] == '-' || (b + 2 < |s| && Has(LowerHex, s[b]) && Has(LowerHex, s[b + 1]) && s[b + 2] == ':'))
  {
    if !M(Chars(One('-')), s, b, e) {
      var k := ThenSplit(Times(Chars(LowerHex), 2), Times(ColonPair, 5), s, b, e);
      TimesMatches(LowerHex, 2, s, b, k);
      var rest := Times(ColonPair, 4);
      assert Times(ColonPair, 5) == Then(ColonPair, rest);
      var m := ThenSplit(ColonPair, rest, s, k, e);
      FirstThen(One(':'), Times(Chars(LowerHex), 2), s, k, m);
    }
  }

  lemma MacGroup(r: Re, s: string, i: nat)
    ensures Begins(Then(MacColumns, r), s, i) <==> Begins(Then(Mac(), Then(Gap, Then(Mac(), Then(Gap, r)))), s, i)
  {
    Regroup(Mac(), Then(Gap, Then(Mac(), Gap)), r, s, i);
    forall k: nat
      ensures Begins(Then(Then(Gap, Then(Mac(), Gap)), r), s, k) <==> Begins(Then(Gap, Then(Mac(), Then(Gap, r))), s, k)
    {
      Regroup(Gap, Then(Mac(), Gap), r, s, k);
      forall l: nat
        ensures Begins(Then(Then(Mac(), Gap), r), s, l) <==> Begins(Then(Mac(), Then(Gap, r)), s, l)
      {
        Regroup(Mac(), Gap, r, s, l);
      }
      BeginsThen(Gap, Then(Then(Mac(), Gap), r), s, k);
      BeginsThen(Gap, Then(Mac(), Then(Gap, r)), s, k);
    }
    BeginsThen(Mac(), Then(Then(Gap, Then(Mac(), Gap)), r), s, i);
    BeginsThen(Mac(), Then(Gap, Then(Mac(), Then(Gap, r))), s, i);
  }

  lemma MacIsAWord(s: string)
    ensures Within(Mac(), Word, s)
  {
    hide M;
    assert Solid(Mac()) && Consumes(Mac());
    SolidIsAWord(Mac(), s);
  }

  /** The MAC columns a line shows are passed over, and never taken for ports. */
  lemma MacsRead(tcp: bool, ports: Re, s: string, b: nat, e1: nat, n1: nat, e2: nat, n2: nat)
    requires Within(ports, PortPair(Digits, Digits), s)
    requires TwoCells(s, b, e1, n1, e2, n2) && n2 < |s| && s[n2] != ' ' && MacAt(s, b, e1) && MacAt(s, n1, e2)
    ensures Begins(Then(Optional(MacColumns), FromTunnels(tcp, ports)), s, b) <==> Begins(FromTunnels(tcp, ports), s, n2)
  {
    hide M, Within, MacAt, Mac, Solid, Consumes;
    var r := FromTunnels(tcp, ports);
    TunnelsStart(tcp, ports, s);
    MacIsAWord(s);
    MacMatches(s, b, e1);
    MacMatches(s, n1, e2);
    OptionalStep(MacColumns, r, s, b);
    MacGroup(r, s, b);
    WordStarts(Mac(), Then(Gap, r), s);
    assert Has(NonSpace, s[n1]);
    CellStep(Mac(), Then(Gap, Then(Mac(), Then(Gap, r))).rest, s, b, e1, n1);
    CellStep(Mac(), r, s, n1, e2, n2);
    NoPortsInMac(tcp, ports, s, b, e1);
  }

  /** Ports begin with digits, then an arrow. */
  lemma PortsAhead(tcp: bool, ports: Re, s: string, b: nat) returns (x: nat)
    requires Within(ports, PortPair(Digits, Digits), s) && Begins(PortsThen(tcp, ports), s, b)
    ensures b < x < |s| && AllIn(Digit, s, b, x) && s[x] == ' '
  {
    var rest := Then(Chars(One(' ')), AfterPorts(tcp));
    BeginsThen(ports, rest, s, b);
    var k: nat :| M(ports, s, b, k) && Begins(rest, s, k);
    x := ThenSplit(Digits, Then(Literal(Arrow), Digits), s, b, k);
    PlusMatches(Digit, s, b, x);
    LiteralThen(Arrow, Digits, s, x, k);
    CharsAt(s, x, Arrow);
  }

  lemma NoPortsInMac(tcp: bool, ports: Re, s: string, b: nat, e: nat)
    requires Within(ports, PortPair(Digits, Digits), s) && MacAt(s, b, e)
    ensures !Begins(FromTunnels(tcp, ports), s, b)
  {
    hide M;
    TunnelsStart(tcp, ports, s);
    if s[b..e] == "-" {
      assert s[b] == s[b..e][0];
    } else {
      MacCharacter(s, b, e, 0);
      MacCharacter(s, b, e, 1);
      MacCharacter(s, b, e, 2);
    }
    if Begins(FromTunnels(tcp, ports), s, b) {
      var x := PortsAhead(tcp, ports, s, b);
      assert false;
    }
  }

  /** Where no MAC column is shown, none is read. */
  lemma NoMacsRead(tcp: bool, ports: Re, s: string, b: nat)
    requires b < |s| && (s[b] in {'I', 'G', 'V', '['} || (Has(Digit, s[b]) && b + 2 < |s| && s[b + 2] != ':'))
    ensures Begins(Then(Optional(MacColumns), FromTunnels(tcp, ports)), s, b) <==> Begins(FromTunnels(tcp, ports), s, b)
  {
    var r := FromTunnels(tcp, ports);
    OptionalStep(MacColumns, r, s, b);
    MacGroup(r, s, b);
    BeginsThen(Mac(), Then(Gap, Then(Mac(), Then(Gap, r))), s, b);
    if k: nat :| M(Mac(), s, b, k) {
      MacStarts(s, b, k);
    }
  }
}
