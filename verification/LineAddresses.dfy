/** What the patterns of addresses match in a Source or Destination column: the addresses they
  * are for, with or without the name a DNS answer gave them, and nothing else a column shows. */
module LineAddresses {
  import opened Options
  import opened Regex
  import opened Decimal
  import opened Text
  import opened NumberRange
  import opened Bits
  import opened Ipv4Network
  import opened FilterExpression
  import opened FilterTranslation
  import opened Patterns
  import opened FilterValues
  import opened PacketLines
  import opened LineInfo
  import opened LineTransport

  // ── The name behind an address ──

  /** Nothing `r` matches has a `c` in it. */
  ghost predicate NeverHas(r: Re, c: char, s: string) {
    forall i: nat, j: nat :: M(r, s, i, j) ==> AllIn(Except(c), s, i, j)
  }

  lemma AvoidedNever(r: Re, c: char, s: string)
    requires Avoids(r, c)
    ensures NeverHas(r, c, s)
  {
    forall i: nat, j: nat | M(r, s, i, j)
      ensures AllIn(Except(c), s, i, j)
    {
      AvoidsMatches(r, c, s, i, j);
    }
  }

  ghost predicate NoParenthesis(w: string) {
    forall k :: 0 <= k < |w| ==> w[k] != '('
  }

  lemma NameMatches(name: string, s: string, i: nat)
    requires IsHostName(name) && TextAt(s, i, "(" + name + ")")
    ensures M(NameSuffix, s, i, i + |name| + 2)
  {
    var e := i + |name| + 2;
    TextSplits(s, i, "(" + name, ")");
    TextSplits(s, i, "(", name);
    CharsAt(s, i, "(");
    CharsAt(s, e - 1, ")");
    TextIn(NameCharacter, name, s, i + 1);
    PlusMatches(NameCharacter, s, i + 1, e - 1);
    var close := Chars(One(')'));
    assert M(close, s, e - 1, e);
    ThenIntro(Plus(Chars(NameCharacter)), close, s, i + 1, e - 1, e);
    FirstThen(One('('), Then(Plus(Chars(NameCharacter)), close), s, i, e);
  }

  /** An address, then its name or nothing: the pattern of addresses reads the address alone. */
  lemma NamedMatches(r: Re, address: string, name: Option<string>, s: string, b: nat, e: nat)
    requires NeverHas(r, '(', s) && NoParenthesis(address) && address != []
    requires name.Some? ==> IsHostName(name.value)
    requires b <= e <= |s| && s[b..e] == Named(address, name)
    ensures M(Then(r, NameSuffix), s, b, e) <==> M(r, s, b, b + |address|)
  {
    NamedForward(r, address, name, s, b, e);
    NamedBackward(r, address, name, s, b, e);
  }

  lemma NamedForward(r: Re, address: string, name: Option<string>, s: string, b: nat, e: nat)
    requires NeverHas(r, '(', s) && NoParenthesis(address) && b <= e <= |s| && s[b..e] == Named(address, name)
    ensures M(Then(r, NameSuffix), s, b, e) ==> M(r, s, b, b + |address|)
  {
    hide M;
    forall k: nat | b <= k <= e && AllIn(Except('('), s, b, k) && M(NameSuffix, s, k, e)
      ensures k == b + |address|
    {
      AddressEnds(address, name, s, b, e, k);
    }
    NamedEnds(r, NameSuffix, s, b, b + |address|, e);
  }

  lemma NamedBackward(r: Re, address: string, name: Option<string>, s: string, b: nat, e: nat)
    requires name.Some? ==> IsHostName(name.value)
    requires b <= e <= |s| && s[b..e] == Named(address, name)
    ensures M(r, s, b, b + |address|) ==> M(Then(r, NameSuffix), s, b, e)
  {
    if M(r, s, b, b + |address|) {
      if name.Some? {
        var tail := "(" + name.value + ")";
        assert TextAt(s, b + |address|, tail) by {
          TextSplits(s, b, address, tail);
        }
        WithName(r, name.value, s, b, b + |address|, e);
      } else {
        WithoutName(r, s, b, e);
      }
    }
  }

  /** The name can only begin at `x`. */
  lemma NamedEnds(r: Re, suffix: Re, s: string, b: nat, x: nat, e: nat)
    requires NeverHas(r, '(', s)
    requires forall k: nat :: b <= k <= e && AllIn(Except('('), s, b, k) && M(suffix, s, k, e) ==> k == x
    ensures M(Then(r, suffix), s, b, e) ==> M(r, s, b, x)
  {
    if M(Then(r, suffix), s, b, e) {
      var k := ThenSplit(r, suffix, s, b, e);
      assert AllIn(Except('('), s, b, k);
    }
  }

  lemma WithName(r: Re, host: string, s: string, b: nat, k: nat, e: nat)
    requires IsHostName(host) && TextAt(s, k, "(" + host + ")") && e == k + |host| + 2 && M(r, s, b, k)
    ensures M(Then(r, NameSuffix), s, b, e)
  {
    NameMatches(host, s, k);
    ThenIntro(r, NameSuffix, s, b, k, e);
  }

  lemma WithoutName(r: Re, s: string, b: nat, e: nat)
    requires M(r, s, b, e)
    ensures M(Then(r, NameSuffix), s, b, e)
  {
    assert M(Empty, s, e, e);
    ThenIntro(r, NameSuffix, s, b, e, e);
  }

  lemma AddressEnds(address: string, name: Option<string>, s: string, b: nat, e: nat, k: nat)
    requires NoParenthesis(address) && b <= k <= e <= |s| && s[b..e] == Named(address, name)
    requires AllIn(Except('('), s, b, k) && M(NameSuffix, s, k, e)
    ensures k == b + |address|
  {
    var x := b + |address|;
    CharsAt(s, b, Named(address, name));
    if k < e {
      FirstThen(One('('), NameSuffix.left.rest, s, k, e);
      assert s[k] == s[b + (k - b)] == Named(address, name)[k - b];
    }
    if name.Some? {
      assert s[b + |address|] == '(';
      var atX := s[x];
      assert x < k ==> Has(Except('('), atX);
    }
  }

  // ── IPv4 ──

  lemma AnyIpv4Exact(s: string, i: nat, j: nat)
    requires i <= j <= |s| && IsIpv4Text(s[i..j])
    ensures M(AnyIpv4, s, i, j)
  {
    hide M, Split;
    var x, y, z := FourParts(s, i, j);
    var parts := Split(s[i..j], '.');
    assert IsNumeral(parts[0]) && IsNumeral(parts[1]) && IsNumeral(parts[2]) && IsNumeral(parts[3]);
    NumeralIsDigits(s, i, x);
    NumeralIsDigits(s, x + 1, y);
    NumeralIsDigits(s, y + 1, z);
    NumeralIsDigits(s, z + 1, j);
    PlusMatches(Digit, s, i, x);
    PlusMatches(Digit, s, x + 1, y);
    PlusMatches(Digit, s, y + 1, z);
    PlusMatches(Digit, s, z + 1, j);
    DottedIntro(Digits, Digits, Digits, Digits, s, i, x, y, z, j);
  }

  lemma Ipv4TextShape(s: string, i: nat, j: nat) returns (x: nat, y: nat)
    requires i <= j <= |s| && IsIpv4Text(s[i..j])
    ensures i < x < y < j && s[x] == s[y] == '.' && Has(Digit, s[i])
    ensures forall k :: i <= k < j ==> Has(Either(Digit, One('.')), s[k])
  {
    hide Split;
    var z: nat;
    x, y, z := FourParts(s, i, j);
    var parts := Split(s[i..j], '.');
    assert IsNumeral(parts[0]) && IsNumeral(parts[1]) && IsNumeral(parts[2]) && IsNumeral(parts[3]);
    NumeralIsDigits(s, i, x);
    NumeralIsDigits(s, x + 1, y);
    NumeralIsDigits(s, y + 1, z);
    NumeralIsDigits(s, z + 1, j);
  }

  // ── IPv6 ──

  lemma HexGroupMatches(s: string, i: nat, j: nat)
    requires i < j <= i + 4 && AllIn(LowerHex, s, i, j)
    ensures M(HexGroup(), s, i, j)
  {
    SomeHex(3, s, i + 1, j);
    FirstThen(LowerHex, Times(Optional(Chars(LowerHex)), 3), s, i, j);
  }

  lemma {:induction false} SomeHex(n: nat, s: string, i: nat, j: nat)
    requires i <= j <= i + n && AllIn(LowerHex, s, i, j)
    ensures M(Times(Optional(Chars(LowerHex)), n), s, i, j)
  {
    if n > 0 {
      var one, rest := Optional(Chars(LowerHex)), Times(Optional(Chars(LowerHex)), n - 1);
      assert Times(one, n) == Then(one, rest);
      if i < j {
        SomeHex(n - 1, s, i + 1, j);
        assert M(Chars(LowerHex), s, i, i + 1);
        assert M(one, s, i, i + 1);
        ThenIntro(one, rest, s, i, i + 1, j);
      } else {
        SomeHex(n - 1, s, i, j);
        assert M(one, s, i, i);
        ThenIntro(one, rest, s, i, i, j);
      }
    }
  }

  lemma {:induction false} HexGroupShape(n: nat, s: string, i: nat, j: nat)
    requires M(Times(Optional(Chars(LowerHex)), n), s, i, j)
    ensures AllIn(LowerHex, s, i, j)
  {
    if n > 0 {
      var one, rest := Optional(Chars(LowerHex)), Times(Optional(Chars(LowerHex)), n - 1);
      assert Times(one, n) == Then(one, rest);
      var k := ThenSplit(one, rest, s, i, j);
      HexGroupShape(n - 1, s, k, j);
      if M(Chars(LowerHex), s, i, k) {
      } else {
        assert M(Empty, s, i, k);
      }
    }
  }

  const ColonGroup := Then(Chars(One(':')), HexGroup())

  lemma HexNotColon(c: char)
    requires Has(HexOrColon, c) && c != ':'
    ensures Has(LowerHex, c)
  {
  }

  /** `s[i..j]` is these groups of hexadecimal digits, with colons between them. */
  ghost predicate GroupsAt(groups: seq<string>, s: string, i: nat, j: nat) {
    && i <= j <= |s| && groups == Split(s[i..j], ':')
    && (forall g :: 0 <= g < |groups| ==> 1 <= |groups[g]| <= 4)
    && forall k :: i <= k < j ==> Has(HexOrColon, s[k])
  }

  /** The first group, where it ends, and those behind it. */
  lemma FirstGroup(groups: seq<string>, s: string, i: nat, j: nat) returns (x: nat)
    requires GroupsAt(groups, s, i, j)
    ensures i < x <= i + 4 && x <= j && AllIn(LowerHex, s, i, x)
    ensures if |groups| == 1 then x == j else x < j && s[x] == ':' && GroupsAt(groups[1..], s, x + 1, j)
  {
    var w := s[i..j];
    var at := IndexOf(w, ':', 0);
    x := i + at;
    assert |groups[0]| == at;
    forall k | i <= k < x
      ensures Has(LowerHex, s[k])
    {
      assert s[k] == w[k - i];
      HexNotColon(s[k]);
    }
    if at < |w| {
      assert w[at + 1..] == s[x + 1..j];
    }
  }

  /** Groups of hexadecimal digits with colons between them, read one by one. */
  lemma {:induction false} GroupsMatch(n: nat, groups: seq<string>, s: string, i: nat, j: nat)
    requires GroupsAt(groups, s, i, j) && |groups| == n + 1
    ensures M(Then(HexGroup(), Times(ColonGroup, n)), s, i, j)
  {
    hide M, Split;
    var x := FirstGroup(groups, s, i, j);
    HexGroupMatches(s, i, x);
    if n == 0 {
      NoGroups(s, j);
    } else {
      GroupsMatch(n - 1, groups[1..], s, x + 1, j);
      ColonThenGroups(n, s, x, j);
    }
    ThenIntro(HexGroup(), Times(ColonGroup, n), s, i, x, j);
  }

  lemma NoGroups(s: string, j: nat)
    requires j <= |s|
    ensures M(Times(ColonGroup, 0), s, j, j)
  {
  }

  lemma ColonThenGroups(n: nat, s: string, x: nat, j: nat)
    requires n > 0 && x < |s| && s[x] == ':' && M(Then(HexGroup(), Times(ColonGroup, n - 1)), s, x + 1, j)
    ensures M(Times(ColonGroup, n), s, x, j)
  {
    var k := ThenSplit(HexGroup(), Times(ColonGroup, n - 1), s, x + 1, j);
    FirstThen(One(':'), HexGroup(), s, x, k);
    assert Times(ColonGroup, n) == Then(ColonGroup, Times(ColonGroup, n - 1));
    ThenIntro(ColonGroup, Times(ColonGroup, n - 1), s, x, k, j);
  }

  lemma AnyIpv6Matches(s: string, i: nat, j: nat)
    requires i <= j <= |s| && IsIpv6Address(s[i..j])
    ensures M(AnyIpv6(), s, i, j)
  {
    var w := s[i..j];
    assert forall k :: i <= k < j ==> s[k] == w[k - i];
    if k :| 0 <= k < |w| - 1 && w[k] == w[k + 1] == ':' {
      var run, x := Star(Chars(HexOrColon)), i + k;
      StarMatches(HexOrColon, s, i, x);
      StarMatches(HexOrColon, s, x + 2, j);
      assert s[x..x + 2] == "::";
      LiteralMatches("::", s, x, x + 2);
      ThenIntro(Literal("::"), run, s, x, x + 2, j);
      ThenIntro(run, Then(Literal("::"), run), s, i, x, j);
    } else {
      GroupsMatch(7, Split(w, ':'), s, i, j);
    }
  }

  /** A MAC address has too few groups, and no `::`. */
  lemma MacIsNoIpv6(s: string, b: nat, e: nat)
    requires b < e <= |s| && IsMacText(s[b..e])
    ensures !M(AnyIpv6(), s, b, e)
  {
    MacCharacter(s, b, e, 0);
    var run := Star(Chars(HexOrColon));
    var gap, groups := Then(run, Then(Literal("::"), run)), Then(HexGroup(), Times(ColonGroup, 7));
    if M(gap, s, b, e) {
      var x := ThenSplit(run, Then(Literal("::"), run), s, b, e);
      var y := ThenSplit(Literal("::"), run, s, x, e);
      LiteralAt("::", s, x, y);
      assert s[x + 0] == ':' && s[x + 1] == ':';
      MacCharacter(s, b, e, x - b);
      MacCharacter(s, b, e, x - b + 1);
      assert false;
    }
    if M(groups, s, b, e) {
      var x := ThenSplit(HexGroup(), Times(ColonGroup, 7), s, b, e);
      if x < e {
        GroupsStart(7, s, x, e);
      }
      MacGroup1(s, b, e, b, x);
      MacGroups(7, s, b, e, x);
      assert false;
    }
  }

  /** A group of a MAC address, before a colon or at its end, is two digits long. */
  lemma MacGroup1(s: string, b: nat, e: nat, i: nat, x: nat)
    requires b <= i < e <= |s| && IsMacText(s[b..e]) && (i - b) % 3 == 0 && M(HexGroup(), s, i, x) && x <= e
    requires x == e || s[x] == ':'
    ensures x == i + 2
  {
    FirstThen(LowerHex, Times(Optional(Chars(LowerHex)), 3), s, i, x);
    HexGroupShape(3, s, i + 1, x);
    MacCharacter(s, b, e, i - b);
    MacCharacter(s, b, e, i - b + 1);
    if x > i + 2 {
      MacCharacter(s, b, e, i - b + 2);
    }
  }

  lemma {:induction false} MacGroups(n: nat, s: string, b: nat, e: nat, i: nat)
    requires b <= i <= e <= |s| && IsMacText(s[b..e]) && (i - b) % 3 == 2 && M(Times(ColonGroup, n), s, i, e)
    ensures e == i + 3 * n
  {
    if n > 0 {
      var rest := Times(ColonGroup, n - 1);
      assert Times(ColonGroup, n) == Then(ColonGroup, rest);
      var k := ThenSplit(ColonGroup, rest, s, i, e);
      FirstThen(One(':'), HexGroup(), s, i, k);
      if k < e {
        GroupsStart(n - 1, s, k, e);
      }
      MacGroup1(s, b, e, i + 1, k);
      MacGroups(n - 1, s, b, e, k);
    }
  }

  lemma GroupsStart(n: nat, s: string, k: nat, e: nat)
    requires k < e && M(Times(ColonGroup, n), s, k, e)
    ensures s[k] == ':'
  {
    if n > 0 {
      var rest := Times(ColonGroup, n - 1);
      assert Times(ColonGroup, n) == Then(ColonGroup, rest);
      var x := ThenSplit(ColonGroup, rest, s, k, e);
      FirstThen(One(':'), HexGroup(), s, k, x);
    }
  }

  // ── A column's endpoint ──

  /** What an address pattern never matches. */
  lemma AddressCharacters(test: Comparison, s: string)
    requires WellFormedTest(test) && IsAddressField(test.field)
    ensures NeverHas(AddressPattern(test), '(', s) && NeverHas(AddressPattern(test), '-', s)
    ensures KindOf(test.field) == Ipv4 ==> NeverHas(AddressPattern(test), ':', s)
    ensures KindOf(test.field) == Ipv6 ==> NeverHas(AddressPattern(test), '.', s)
  {
    if test.op == Equal {
      EqualNever(test, AddressPattern(test), s);
    } else if KindOf(test.field) == Ipv4 {
      AnyIpv4Characters(s);
    } else {
      AnyIpv6Characters(s);
    }
  }

  lemma AnyIpv4Characters(s: string)
    ensures NeverHas(AnyIpv4, '(', s) && NeverHas(AnyIpv4, '-', s) && NeverHas(AnyIpv4, ':', s)
  {
    assert Avoids(AnyIpv4, '(') && Avoids(AnyIpv4, '-') && Avoids(AnyIpv4, ':');
    AvoidedNever(AnyIpv4, '(', s);
    AvoidedNever(AnyIpv4, '-', s);
    AvoidedNever(AnyIpv4, ':', s);
  }

  lemma AnyIpv6Characters(s: string)
    ensures NeverHas(AnyIpv6(), '(', s) && NeverHas(AnyIpv6(), '-', s) && NeverHas(AnyIpv6(), '.', s)
  {
    assert Avoids(AnyIpv6(), '(') && Avoids(AnyIpv6(), '-') && Avoids(AnyIpv6(), '.');
    AvoidedNever(AnyIpv6(), '(', s);
    AvoidedNever(AnyIpv6(), '-', s);
    AvoidedNever(AnyIpv6(), '.', s);
  }

  lemma EqualNever(test: Comparison, r: Re, s: string)
    requires WellFormedTest(test) && IsAddressField(test.field) && test.op == Equal && r == AddressPattern(test)
    ensures NeverHas(r, '(', s) && NeverHas(r, '-', s)
    ensures NeverHas(r, if KindOf(test.field) == Ipv4 then ':' else '.', s)
  {
    forall i: nat, j: nat | M(r, s, i, j)
      ensures AllIn(Except('('), s, i, j) && AllIn(Except('-'), s, i, j)
      ensures AllIn(if KindOf(test.field) == Ipv4 then Except(':') else Except('.'), s, i, j)
    {
      EqualCharacters(test, s, i, j);
    }
  }

  lemma EqualCharacters(test: Comparison, s: string, i: nat, j: nat)
    requires WellFormedTest(test) && IsAddressField(test.field) && test.op == Equal && M(AddressPattern(test), s, i, j)
    ensures AllIn(Except('('), s, i, j) && AllIn(Except('-'), s, i, j)
    ensures AllIn(if KindOf(test.field) == Ipv4 then Except(':') else Except('.'), s, i, j)
  {
    hide M, Split;
    if KindOf(test.field) == Ipv4 {
      Ipv4Exact(test.address, test.prefixLength, s, i, j);
      var x, y := Ipv4TextShape(s, i, j);
    } else {
      LiteralMatches(test.address, s, i, j);
      assert forall k :: i <= k < j ==> s[k] == test.address[k - i];
    }
  }

  /** A word with a character neither an address pattern nor a name has is no such address. */
  lemma NotThatAddress(r: Re, c: char, s: string, b: nat, e: nat, k: nat)
    requires NeverHas(r, c, s) && Avoids(NameSuffix, c) && b <= k < e <= |s| && s[k] == c
    ensures !M(Then(r, NameSuffix), s, b, e)
  {
    if M(Then(r, NameSuffix), s, b, e) {
      var x := ThenSplit(r, NameSuffix, s, b, e);
      AvoidsMatches(NameSuffix, c, s, x, e);
      assert false;
    }
  }

  /** An address pattern, with the name that may follow, matches a column exactly if the column
    * shows an address it is for. */
  lemma EndpointMatches(test: Comparison, end: Endpoint, s: string, b: nat, e: nat)
    requires WellFormedTest(test) && IsAddressField(test.field) && WellFormedEndpoint(end)
    requires b < e <= |s| && s[b..e] == Shown(AddressText(end))
    ensures M(Then(AddressPattern(test), NameSuffix), s, b, e) <==> EndSelected(test, end, "")
  {
    AddressCharacters(test, s);
    match end {
      case V4(address, name) => V4Matches(test, address, name, s, b, e);
      case V6(address, name) => V6Matches(test, address, name, s, b, e);
      case Link(mac) =>
        if mac == "" {
          DashMatches(test, s, b, e);
        } else {
          MacColumnMatches(test, s, b, e);
        }
    }
  }

  lemma V4Matches(test: Comparison, address: string, name: Option<string>, s: string, b: nat, e: nat)
    requires WellFormedTest(test) && IsAddressField(test.field) && WellFormedEndpoint(V4(address, name))
    requires b < e <= |s| && s[b..e] == Named(address, name)
    ensures M(Then(AddressPattern(test), NameSuffix), s, b, e) <==> EndSelected(test, V4(address, name), "")
  {
    hide M, Split;
    AddressCharacters(test, s);
    var k := b + |address|;
    assert s[b..k] == address by {
      assert s[b..e][..|address|] == address;
    }
    var x, y := Ipv4TextShape(s, b, k);
    forall i | 0 <= i < |address|
      ensures address[i] != '('
    {
      assert address[i] == s[b..k][i] == s[b + i];
    }
    NamedMatches(AddressPattern(test), address, name, s, b, e);
    if KindOf(test.field) == Ipv4 {
      AnyIpv4Exact(s, b, k);
      if test.op == Equal {
        Ipv4Exact(test.address, test.prefixLength, s, b, k);
      }
    } else if M(AddressPattern(test), s, b, k) {
      assert false;
    }
  }

  lemma ColonIn(address: string) returns (k: nat)
    requires IsIpv6Address(address)
    ensures k < |address| && address[k] == ':'
  {
    if i :| 0 <= i < |address| - 1 && address[i] == address[i + 1] == ':' {
      k := i;
    } else {
      k := IndexOf(address, ':', 0);
    }
  }

  lemma V6Matches(test: Comparison, address: string, name: Option<string>, s: string, b: nat, e: nat)
    requires WellFormedTest(test) && IsAddressField(test.field) && WellFormedEndpoint(V6(address, name))
    requires b < e <= |s| && s[b..e] == Named(address, name)
    ensures M(Then(AddressPattern(test), NameSuffix), s, b, e) <==> EndSelected(test, V6(address, name), "")
  {
    hide M, Split;
    AddressCharacters(test, s);
    var k := b + |address|;
    assert s[b..k] == address by {
      assert s[b..e][..|address|] == address;
    }
    if KindOf(test.field) == Ipv4 {
      var c := ColonIn(address);
      assert s[b + c] == s[b..k][c];
      assert Avoids(NameSuffix, ':');
      NotThatAddress(AddressPattern(test), ':', s, b, e, b + c);
    } else {
      NamedMatches(AddressPattern(test), address, name, s, b, e);
      AnyIpv6Matches(s, b, k);
      if test.op == Equal {
        LiteralMatches(test.address, s, b, k);
      }
    }
  }

  lemma DashMatches(test: Comparison, s: string, b: nat, e: nat)
    requires WellFormedTest(test) && IsAddressField(test.field) && b < e <= |s| && s[b..e] == "-"
    ensures !M(Then(AddressPattern(test), NameSuffix), s, b, e)
  {
    var r := AddressPattern(test);
    AddressCharacters(test, s);
    AddressesAreWords(test, s);
    assert s[b] == s[b..e][0];
    if M(Then(r, NameSuffix), s, b, e) {
      var x := ThenSplit(r, NameSuffix, s, b, e);
      PlusMatches(NonSpace, s, b, x);
      assert false;
    }
  }

  lemma MacColumnMatches(test: Comparison, s: string, b: nat, e: nat)
    requires WellFormedTest(test) && IsAddressField(test.field) && b < e <= |s| && IsMacText(s[b..e])
    ensures !M(Then(AddressPattern(test), NameSuffix), s, b, e)
  {
    AddressCharacters(test, s);
    MacCharacter(s, b, e, 2);
    if KindOf(test.field) == Ipv4 {
      assert Avoids(NameSuffix, ':');
      NotThatAddress(AddressPattern(test), ':', s, b, e, b + 2);
    } else {
      MacIsNoIpv6(s, b, e);
      assert NoParenthesis(s[b..e]) by {
        forall k | 0 <= k < 17
          ensures s[b..e][k] != '('
        {
          MacCharacter(s, b, e, k);
          assert s[b..e][k] == s[b + k];
        }
      }
      NamedMatches(AddressPattern(test), s[b..e], None, s, b, e);
      if test.op == Equal {
        LiteralMatches(test.address, s, b, e);
        if s[b..e] == test.address {
          AnyIpv6Matches(s, b, e);
        }
      }
    }
  }
}
