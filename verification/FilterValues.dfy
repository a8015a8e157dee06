/** What the patterns of a field's values match: the numbers and addresses a comparison selects. */
module FilterValues {
  import opened Options
  import opened Regex
  import opened NumberRange
  import opened Decimal
  import opened Text
  import opened Bits
  import opened Ipv4Network
  import opened FilterExpression
  import opened FilterTranslation
  import opened Patterns

  // ── Numbers ──

  /** Whether a number compares as the comparison says. */
  predicate NumberSelected(test: Comparison, n: nat) {
    match test.op
    case Equal => n == test.number
    case Less => n < test.number
    case LessEqual => n <= test.number
    case Greater => n > test.number
    case GreaterEqual => n >= test.number
    case _ => true
  }

  /** The pattern of a number field's values matches exactly the numerals the comparison selects,
    * of the numbers the field can hold. */
  lemma NumbersExact(test: Comparison, s: string, i: nat, j: nat)
    requires WellFormedTest(test) && !IsAddressField(test.field) && i <= j <= |s|
    requires IsNumeral(s[i..j])
    requires Value(s[i..j]) <= MaximumOf(KindOf(test.field))
    ensures NumberSelected(test, Value(s[i..j])) <==>
            ValuesPattern(test).Some? && M(ValuesPattern(test).value, s, i, j)
  {
    var n, maximum := test.number, MaximumOf(KindOf(test.field));
    match test.op {
      case Present | NotEqual =>
        PlusMatches(Digit, s, i, j);
        NumeralIsDigits(s, i, j);
      case Equal =>
        LiteralMatches(Dec(n), s, i, j);
        DecIsNumeral(n);
        NumeralUnique(Dec(n), s[i..j]);
      case Less =>
        if n > 0 {
          NumberRangeExact(0, n - 1, s, i, j);
        }
      case LessEqual =>
        NumberRangeExact(0, n, s, i, j);
      case Greater =>
        if n < maximum {
          NumberRangeExact(n + 1, maximum, s, i, j);
        }
      case GreaterEqual =>
        NumberRangeExact(n, maximum, s, i, j);
    }
  }

  // ── Dotted decimal ──

  /** The parts of a text: the first one, then those of the rest. */
  ghost predicate FirstThenRest(parts: seq<string>, first: string, rest: seq<string>) {
    && |parts| == |rest| + 1 && parts[0] == first
    && forall k :: 0 <= k < |rest| ==> parts[k + 1] == rest[k]
  }

  /** The first part of `s[i..j]` ends at `x`. */
  lemma SplitAt(s: string, i: nat, x: nat, j: nat)
    requires i <= x < j <= |s| && s[x] == '.' && '.' !in s[i..x]
    ensures FirstThenRest(Split(s[i..j], '.'), s[i..x], Split(s[x + 1..j], '.'))
  {
    CutText(s, i, x, j);
    SplitOff(s[i..j], s[i..x], s[x + 1..j]);
  }

  lemma CutText(s: string, i: nat, x: nat, j: nat)
    requires i <= x < j <= |s|
    ensures s[i..j] == s[i..x] + [s[x]] + s[x + 1..j]
  {
  }

  lemma SplitOff(w: string, first: string, rest: string)
    requires w == first + ['.'] + rest && '.' !in first
    ensures FirstThenRest(Split(w, '.'), first, Split(rest, '.'))
  {
    SplitFirst(first, rest, '.');
  }

  /** Where the first part of `s[i..j]` ends, if it is not the only one. */
  lemma CutAt(s: string, i: nat, j: nat) returns (x: nat)
    requires i <= j <= |s| && |Split(s[i..j], '.')| > 1
    ensures i <= x < j && s[x] == '.'
    ensures FirstThenRest(Split(s[i..j], '.'), s[i..x], Split(s[x + 1..j], '.'))
  {
    var w := s[i..j];
    var k := IndexOf(w, '.', 0);
    x := i + k;
    assert w[..k] == s[i..x] && w[k + 1..] == s[x + 1..j];
  }

  lemma DigitsHaveNoDot(s: string, i: nat, j: nat)
    requires AllIn(Digit, s, i, j)
    ensures '.' !in s[i..j] && AllDigits(s[i..j])
  {
  }

  /** Where the parts of a dotted text lie. */
  ghost predicate DottedAt(a: Re, b: Re, c: Re, d: Re, s: string, i: nat, x: nat, y: nat, z: nat, j: nat) {
    && i <= x < y < z < j <= |s| && s[x] == s[y] == s[z] == '.'
    && M(a, s, i, x) && M(b, s, x + 1, y) && M(c, s, y + 1, z) && M(d, s, z + 1, j)
  }

  lemma DottedMatches(a: Re, b: Re, c: Re, d: Re, s: string, i: nat, j: nat) returns (x: nat, y: nat, z: nat)
    requires Within(a, Digits, s) && Within(b, Digits, s) && Within(c, Digits, s) && Within(d, Digits, s)
    requires M(Dotted(a, b, c, d), s, i, j)
    ensures DottedAt(a, b, c, d, s, i, x, y, z, j)
  {
    var dot := Chars(One('.'));
    var after2 := Then(c, Then(dot, d));
    var after1 := Then(b, Then(dot, after2));
    x := ThenSplit(a, Then(dot, after1), s, i, j);
    FirstThen(One('.'), after1, s, x, j);
    y := ThenSplit(b, Then(dot, after2), s, x + 1, j);
    FirstThen(One('.'), after2, s, y, j);
    z := ThenSplit(c, Then(dot, d), s, y + 1, j);
    FirstThen(One('.'), d, s, z, j);
    PlusMatches(Digit, s, i, x);
    PlusMatches(Digit, s, x + 1, y);
    PlusMatches(Digit, s, y + 1, z);
    PlusMatches(Digit, s, z + 1, j);
  }

  /** The four parts of a text, with its dots at `x`, `y` and `z`. */
  ghost predicate PartsAt(parts: seq<string>, s: string, i: nat, x: nat, y: nat, z: nat, j: nat) {
    && i <= x < y < z < j <= |s| && s[x] == s[y] == s[z] == '.' && |parts| == 4
    && parts[0] == s[i..x] && parts[1] == s[x + 1..y] && parts[2] == s[y + 1..z] && parts[3] == s[z + 1..j]
  }

  lemma FourPartsAt(s: string, i: nat, x: nat, y: nat, z: nat, j: nat)
    requires i <= x < y < z < j <= |s| && s[x] == s[y] == s[z] == '.'
    requires '.' !in s[i..x] && '.' !in s[x + 1..y] && '.' !in s[y + 1..z] && '.' !in s[z + 1..j]
    ensures PartsAt(Split(s[i..j], '.'), s, i, x, y, z, j)
  {
    hide Split;
    SplitAt(s, i, x, j);
    SplitAt(s, x + 1, y, j);
    SplitAt(s, y + 1, z, j);
    SplitFirst(s[z + 1..j], "", '.');
    InARow(Split(s[i..j], '.'), Split(s[x + 1..j], '.'), Split(s[y + 1..j], '.'), Split(s[z + 1..j], '.'),
           s[i..x], s[x + 1..y], s[y + 1..z]);
  }

  lemma InARow(four: seq<string>, three: seq<string>, two: seq<string>, one: seq<string>, a: string, b: string, c: string)
    requires FirstThenRest(four, a, three) && FirstThenRest(three, b, two) && FirstThenRest(two, c, one) && |one| == 1
    ensures |four| == 4 && four[0] == a && four[1] == b && four[2] == c && four[3] == one[0]
  {
    assert four[3] == three[2] == two[1];
  }

  lemma DottedIntro(a: Re, b: Re, c: Re, d: Re, s: string, i: nat, x: nat, y: nat, z: nat, j: nat)
    requires DottedAt(a, b, c, d, s, i, x, y, z, j)
    ensures M(Dotted(a, b, c, d), s, i, j)
  {
    var dot := Chars(One('.'));
    var p3 := Then(dot, d);
    FirstThen(One('.'), d, s, z, j);
    var p2 := Then(c, p3);
    ThenIntro(c, p3, s, y + 1, z, j);
    FirstThen(One('.'), p2, s, y, j);
    var p1 := Then(b, Then(dot, p2));
    ThenIntro(b, Then(dot, p2), s, x + 1, y, j);
    FirstThen(One('.'), p1, s, x, j);
    ThenIntro(a, Then(dot, p1), s, i, x, j);
  }

  /** A text of four parts has its dots somewhere. */
  lemma FourParts(s: string, i: nat, j: nat) returns (x: nat, y: nat, z: nat)
    requires i <= j <= |s| && |Split(s[i..j], '.')| == 4
    ensures PartsAt(Split(s[i..j], '.'), s, i, x, y, z, j)
  {
    hide Split;
    x := CutAt(s, i, j);
    y := CutAt(s, x + 1, j);
    z := CutAt(s, y + 1, j);
    OnePart(s[z + 1..j]);
    InARow(Split(s[i..j], '.'), Split(s[x + 1..j], '.'), Split(s[y + 1..j], '.'), Split(s[z + 1..j], '.'),
           s[i..x], s[x + 1..y], s[y + 1..z]);
  }

  lemma OnePart(w: string)
    requires |Split(w, '.')| == 1
    ensures Split(w, '.')[0] == w
  {
  }

  // ── IPv4 addresses ──

  /** The prefix an address is compared by; a whole address is one of 32 bits. */
  function PrefixOf(prefixLength: int): nat {
    if 0 <= prefixLength <= 32 then prefixLength else 32
  }

  /** `s[i..j]` is an octet with the same first `bits` bits as `octet`. */
  ghost predicate OctetText(octet: nat, bits: nat, s: string, i: nat, j: nat)
    requires bits <= 8
  {
    i <= j <= |s| && IsNumeral(s[i..j]) && SameBits(Value(s[i..j]), octet, bits) && Value(s[i..j]) < 256
  }

  /** `r` matches the octets with the bits of `octet`, and no other text. */
  ghost predicate ReadsOctet(r: Re, octet: nat, bits: nat, s: string)
    requires bits <= 8
  {
    forall i: nat, j: nat :: M(r, s, i, j) <==> OctetText(octet, bits, s, i, j)
  }

  lemma OctetExact(octets: seq<nat>, prefixLength: nat, k: nat, s: string)
    requires |octets| == 4 && AreOctets(octets) && k < 4
    requires EndsInZeros(octets[k], 8 - BitsIn(prefixLength, k))
    ensures ReadsOctet(OctetPattern(octets, prefixLength, k), octets[k], BitsIn(prefixLength, k), s)
  {
    var bits := BitsIn(prefixLength, k);
    var low, high := octets[k], LastWithPrefix(octets[k], bits);
    LastIsAnOctet(low, bits);
    var r := OctetPattern(octets, prefixLength, k);
    forall i: nat, j: nat
      ensures M(r, s, i, j) <==> OctetText(low, bits, s, i, j)
    {
      NumberRangeExact(low, high, s, i, j);
      if i <= j <= |s| && IsNumeral(s[i..j]) {
        OctetsOfNetwork(Value(s[i..j]), low, bits);
      }
    }
  }

  lemma LastIsAnOctet(octet: nat, bits: nat)
    requires bits <= 8 && octet < 256
    ensures octet <= LastWithPrefix(octet, bits) < 256
  {
    Pow2Eight();
    Pow2Sum(bits, 8 - bits);
    ShiftDivides(octet, 8 - bits);
    LastOfBlock(octet, Pow2(8 - bits), Pow2(bits));
  }

  lemma LastOfBlock(x: nat, d: nat, e: nat)
    requires d > 0 && x < e * d
    ensures x <= x / d * d + d - 1 < e * d
  {
    var q := x / d;
    assert x == q * d + x % d;
    if q >= e {
      MultiplyBoth(e, q, d);
    }
    MultiplyBoth(q + 1, e, d);
    Distribute(q, 1, d);
  }

  lemma OctetsAreDigits(r: Re, octet: nat, bits: nat, s: string)
    requires bits <= 8 && ReadsOctet(r, octet, bits, s)
    ensures Within(r, Digits, s)
  {
    forall i: nat, j: nat | M(r, s, i, j)
      ensures M(Digits, s, i, j)
    {
      NumeralIsDigits(s, i, j);
      PlusMatches(Digit, s, i, j);
    }
  }

  /** Whether the text is an address of the network a comparison names. */
  predicate InNetwork(w: string, address: string, prefixLength: int)
    requires IsIpv4Text(address)
  {
    IsIpv4Text(w) && SameNetwork(Octets(w), Octets(address), PrefixOf(prefixLength))
  }

  /** The IPv4 pattern matches the addresses of the network, written as formatIpv4() does, and no other text. */
  lemma Ipv4Exact(address: string, prefixLength: int, s: string, i: nat, j: nat)
    requires IsIpv4Text(address) && IsNetwork(address, prefixLength)
    ensures M(Ipv4Pattern(address, prefixLength), s, i, j) <==>
            i <= j <= |s| && InNetwork(s[i..j], address, prefixLength)
  {
    hide M, Split;
    if prefixLength < 0 {
      LiteralMatches(address, s, i, j);
      if i <= j <= |s| && IsIpv4Text(s[i..j]) {
        WholeAddress(s[i..j], address);
      }
    } else {
      var octets := Octets(address);
      OctetExact(octets, prefixLength, 0, s);
      OctetExact(octets, prefixLength, 1, s);
      OctetExact(octets, prefixLength, 2, s);
      OctetExact(octets, prefixLength, 3, s);
      DottedNetwork(OctetPattern(octets, prefixLength, 0), OctetPattern(octets, prefixLength, 1),
                    OctetPattern(octets, prefixLength, 2), OctetPattern(octets, prefixLength, 3),
                    octets, prefixLength, s, i, j);
    }
  }

  /** One text, one address. */
  lemma WholeAddress(a: string, b: string)
    requires IsIpv4Text(a) && IsIpv4Text(b)
    ensures a == b <==> SameNetwork(Octets(a), Octets(b), 32)
  {
    NetworkByOctets(Octets(a), Octets(b), 32);
    forall k | 0 <= k < 4
      ensures SameBits(Octets(a)[k], Octets(b)[k], BitsIn(32, k)) <==> Split(a, '.')[k] == Split(b, '.')[k]
    {
      WholeOctet(Octets(a)[k], Octets(b)[k]);
      NumeralUnique(Split(a, '.')[k], Split(b, '.')[k]);
    }
    JoinSplit(a, '.');
    JoinSplit(b, '.');
    if SameNetwork(Octets(a), Octets(b), 32) {
      assert Split(a, '.') == Split(b, '.');
    }
  }

  /** Four octet patterns with dots between them read the addresses of the network. */
  lemma DottedNetwork(a: Re, b: Re, c: Re, d: Re, octets: seq<nat>, prefixLength: nat, s: string, i: nat, j: nat)
    requires |octets| == 4 && AreOctets(octets) && prefixLength <= 32
    requires ReadsOctet(a, octets[0], BitsIn(prefixLength, 0), s) && ReadsOctet(b, octets[1], BitsIn(prefixLength, 1), s)
    requires ReadsOctet(c, octets[2], BitsIn(prefixLength, 2), s) && ReadsOctet(d, octets[3], BitsIn(prefixLength, 3), s)
    ensures M(Dotted(a, b, c, d), s, i, j) <==>
            i <= j <= |s| && IsIpv4Text(s[i..j]) && SameNetwork(Octets(s[i..j]), octets, prefixLength)
  {
    OctetsAreDigits(a, octets[0], BitsIn(prefixLength, 0), s);
    OctetsAreDigits(b, octets[1], BitsIn(prefixLength, 1), s);
    OctetsAreDigits(c, octets[2], BitsIn(prefixLength, 2), s);
    OctetsAreDigits(d, octets[3], BitsIn(prefixLength, 3), s);
    if M(Dotted(a, b, c, d), s, i, j) {
      var x, y, z := DottedMatches(a, b, c, d, s, i, j);
      var parts := [s[i..x], s[x + 1..y], s[y + 1..z], s[z + 1..j]];
      PartsInNetwork(parts, octets, prefixLength);
      TextOfParts(s, i, x, y, z, j, parts);
    }
    if i <= j <= |s| && IsIpv4Text(s[i..j]) && SameNetwork(Octets(s[i..j]), octets, prefixLength) {
      var x, y, z := FourParts(s, i, j);
      PartsMatch(a, b, c, d, octets, prefixLength, s, i, x, y, z, j, Split(s[i..j], '.'));
    }
  }

  lemma PartsMatch(a: Re, b: Re, c: Re, d: Re, octets: seq<nat>, prefixLength: nat,
                   s: string, i: nat, x: nat, y: nat, z: nat, j: nat, parts: seq<string>)
    requires |octets| == 4 && AreOctets(octets) && prefixLength <= 32
    requires ReadsOctet(a, octets[0], BitsIn(prefixLength, 0), s) && ReadsOctet(b, octets[1], BitsIn(prefixLength, 1), s)
    requires ReadsOctet(c, octets[2], BitsIn(prefixLength, 2), s) && ReadsOctet(d, octets[3], BitsIn(prefixLength, 3), s)
    requires PartsAt(parts, s, i, x, y, z, j) && AreOctetTexts(parts)
    requires SameNetwork(OctetsOf(parts), octets, prefixLength)
    ensures M(Dotted(a, b, c, d), s, i, j)
  {
    NetworkOfFour(OctetsOf(parts), octets, prefixLength);
    DottedIntro(a, b, c, d, s, i, x, y, z, j);
  }

  /** A text of four octets is an IPv4 address. */
  lemma TextOfParts(s: string, i: nat, x: nat, y: nat, z: nat, j: nat, parts: seq<string>)
    requires PartsAt(parts, s, i, x, y, z, j) && AreOctetTexts(parts)
    ensures IsIpv4Text(s[i..j]) && Octets(s[i..j]) == OctetsOf(parts)
  {
    NumeralHasNoDot(parts[0]);
    NumeralHasNoDot(parts[1]);
    NumeralHasNoDot(parts[2]);
    NumeralHasNoDot(parts[3]);
    FourPartsAt(s, i, x, y, z, j);
    assert Split(s[i..j], '.') == parts;
  }

  lemma NumeralHasNoDot(w: string)
    requires IsNumeral(w)
    ensures '.' !in w
  {
  }

  lemma PartsInNetwork(parts: seq<string>, octets: seq<nat>, prefixLength: nat)
    requires |parts| == 4 && |octets| == 4 && AreOctets(octets) && prefixLength <= 32
    requires IsNumeral(parts[0]) && Value(parts[0]) < 256 && SameBits(Value(parts[0]), octets[0], BitsIn(prefixLength, 0))
    requires IsNumeral(parts[1]) && Value(parts[1]) < 256 && SameBits(Value(parts[1]), octets[1], BitsIn(prefixLength, 1))
    requires IsNumeral(parts[2]) && Value(parts[2]) < 256 && SameBits(Value(parts[2]), octets[2], BitsIn(prefixLength, 2))
    requires IsNumeral(parts[3]) && Value(parts[3]) < 256 && SameBits(Value(parts[3]), octets[3], BitsIn(prefixLength, 3))
    ensures AreOctetTexts(parts) && SameNetwork(OctetsOf(parts), octets, prefixLength)
  {
    NetworkOfFour(OctetsOf(parts), octets, prefixLength);
  }

  lemma Ipv4TextIsAWord(s: string, i: nat, j: nat)
    requires i <= j <= |s| && IsIpv4Text(s[i..j])
    ensures i < j && AllIn(NonSpace, s, i, j)
  {
    hide Split, Value;
    var x, y, z := FourParts(s, i, j);
    var parts := Split(s[i..j], '.');
    assert IsNumeral(parts[0]) && IsNumeral(parts[1]) && IsNumeral(parts[2]) && IsNumeral(parts[3]);
    NumeralIsDigits(s, i, x);
    NumeralIsDigits(s, x + 1, y);
    NumeralIsDigits(s, y + 1, z);
    NumeralIsDigits(s, z + 1, j);
  }

  // ── The values of an address field ──

  /** The pattern of the addresses a comparison selects, without the name that may follow. */
  function AddressPattern(test: Comparison): Re
    requires WellFormedTest(test) && IsAddressField(test.field)
  {
    if test.op != Equal then (if KindOf(test.field) == Ipv4 then AnyIpv4 else AnyIpv6())
    else if KindOf(test.field) == Ipv4 then Ipv4Pattern(test.address, test.prefixLength)
    else Literal(test.address)
  }

  lemma AddressesAreWords(test: Comparison, s: string)
    requires WellFormedTest(test) && IsAddressField(test.field)
    ensures Within(AddressPattern(test), Word, s)
  {
    if test.op != Equal {
      assert Solid(AnyIpv4) && Consumes(AnyIpv4);
      assert Solid(AnyIpv6()) && Consumes(AnyIpv6());
      SolidIsAWord(AddressPattern(test), s);
    } else if KindOf(test.field) == Ipv6 {
      forall k | 0 <= k < |test.address|
        ensures !IsSpace(test.address[k])
      {
        NoSpacesHas(HexOrColon, test.address[k]);
      }
      LiteralIsSolid(test.address);
      SolidIsAWord(Literal(test.address), s);
    } else {
      forall i: nat, j: nat | M(AddressPattern(test), s, i, j)
        ensures M(Word, s, i, j)
      {
        Ipv4Exact(test.address, test.prefixLength, s, i, j);
        Ipv4TextIsAWord(s, i, j);
        PlusMatches(NonSpace, s, i, j);
      }
    }
  }

  /** The values a comparison selects are words, those of a number field numbers. */
  lemma ValuesAreWords(test: Comparison, s: string)
    requires WellFormedTest(test) && ValuesPattern(test).Some?
    ensures Within(ValuesPattern(test).value, Word, s)
    ensures !IsAddressField(test.field) ==> Within(ValuesPattern(test).value, Digits, s)
  {
    var values := ValuesPattern(test).value;
    if IsAddressField(test.field) {
      AddressesAreWords(test, s);
      assert values == Then(AddressPattern(test), NameSuffix);
      SuffixedIsAWord(AddressPattern(test), s);
    } else {
      NumbersAreDigits(test, values, s);
      DigitsAreAWord(s);
    }
  }

  lemma SuffixedIsAWord(address: Re, s: string)
    requires Within(address, Word, s)
    ensures Within(Then(address, NameSuffix), Word, s)
  {
    assert Solid(NameSuffix);
    forall i: nat, j: nat | M(Then(address, NameSuffix), s, i, j)
      ensures M(Word, s, i, j)
    {
      var k := ThenSplit(address, NameSuffix, s, i, j);
      PlusMatches(NonSpace, s, i, k);
      SolidMatches(NameSuffix, s, k, j);
      PlusMatches(NonSpace, s, i, j);
    }
  }
}
