/** The parsers of IPv6 addresses as they run (src/describe_sip.cpp, src/display_filter.cpp), proved
  * against what they read. */
module Ipv6Parsers {
  import opened Options
  import opened Decimal
  import opened Text
  import opened Ipv4Network
  import opened Ipv6Texts

  /** The 16 bytes of eight groups. */
  function BytesOf(groups: seq<nat>): seq<nat> {
    if groups == [] then [] else BytesOf(groups[..|groups| - 1]) + [groups[|groups| - 1] / 256, groups[|groups| - 1] % 256]
  }

  lemma {:induction false} BytesAt(groups: seq<nat>, k: nat)
    requires k < |groups|
    ensures |BytesOf(groups)| == 2 * |groups| && BytesOf(groups)[2 * k] == groups[k] / 256 && BytesOf(groups)[2 * k + 1] == groups[k] % 256
  {
    var n := |groups| - 1;
    if k < n {
      BytesAt(groups[..n], k);
    } else if n > 0 {
      BytesAt(groups[..n], 0);
    }
  }

  function AddressOf(groups: Option<seq<nat>>): Option<seq<nat>> {
    if groups.Some? then Some(BytesOf(groups.value)) else None
  }

  // ── Scanning ──

  /** Where the decimal digits from `start` on end, up to three of them. */
  method DigitsEnd(t: string, start: nat) returns (end: nat)
    requires start <= |t|
    ensures end == start + DigitRun(t, start, 3)
  {
    end := start;
    while end < |t| && IsDigit(t[end]) && end - start < 3
      invariant start <= end <= |t| && end - start <= 3
      invariant DigitRun(t, start, 3) == end - start + DigitRun(t, end, 3 - (end - start))
    {
      end := end + 1;
    }
  }

  method Ipv4Address(t: string) returns (octets: Option<seq<nat>>)
    ensures octets == Ipv4Of(t)
  {
    hide Ipv4Of, Value, DigitRun;
    FromIsOf(t);
    var read: seq<nat>, i := [], 0;
    while |read| < 4
      invariant |read| <= 4 && i <= |t|
      invariant Ipv4Of(t) == if |read| < 4 then Ipv4From(t, i, read) else if i == |t| then Some(read) else None
      decreases 4 - |read|
    {
      var start := i;
      i := DigitsEnd(t, start);
      if i == start || Value(t[start..i]) > 255 {
        return None;
      }
      read := read + [Value(t[start..i])];
      if |read| < 4 {
        if i >= |t| || t[i] != '.' {
          return None;
        }
        i := i + 1;
      }
    }
    return if i == |t| then Some(read) else None;
  }

  lemma HexMore(t: string, start: nat, end: nat)
    requires start <= end < |t| && AllHex(t[start..end]) && IsHexDigit(t[end])
    ensures AllHex(t[start..end + 1]) && HexValue(t[start..end + 1]) == 16 * HexValue(t[start..end]) + HexDigit(t[end])
  {
    assert t[start..end + 1] == t[start..end] + [t[end]];
  }

  lemma HexRunMore(t: string, i: nat, n: nat)
    requires i < |t| && IsHexDigit(t[i]) && n > 0
    ensures HexRun(t, i, n) == 1 + HexRun(t, i + 1, n - 1)
  {
  }

  lemma HexRunEnds(t: string, i: nat, n: nat)
    requires i <= |t| && (i == |t| || !IsHexDigit(t[i]) || n == 0)
    ensures HexRun(t, i, n) == 0
  {
  }

  /** The hexadecimal number from `start` on, of up to four digits, and where it ends. */
  method ReadHex(t: string, start: nat) returns (value: nat, end: nat)
    requires start <= |t|
    ensures end == start + HexRun(t, start, 4) && value == HexValue(t[start..end])
  {
    assert t[start..start] == "" && AllHex("");
    hide HexRun, HexDigit, AllHex;
    end, value := start, 0;
    while end < |t| && IsHexDigit(t[end]) && end - start < 4
      invariant start <= end <= |t| && end - start <= 4
      invariant HexRun(t, start, 4) == end - start + HexRun(t, end, 4 - (end - start))
      invariant AllHex(t[start..end]) && value == HexValue(t[start..end])
    {
      hide HexValue;
      HexMore(t, start, end);
      HexRunMore(t, end, 4 - (end - start));
      value := value * 16 + HexDigit(t[end]);
      end := end + 1;
    }
    HexRunEnds(t, end, 4 - (end - start));
  }

  method Ipv6Address(t: string) returns (address: Option<seq<nat>>)
    ensures address == AddressOf(Scan(t))
  {
    hide HexRun, HexValue, Ipv4Of, Ipv4From, Finish, BytesOf;
    var groups: seq<nat>, gap: Option<nat>, i := [], None, 0;
    if "::" <= t {
      gap, i := Some(0), 2;
    }
    ghost var scanned := ScanFrom(t, i, [], gap);
    FinishedNone();
    while i < |t|
      invariant i <= |t| && |groups| <= 8 && (gap.Some? ==> gap.value <= |groups|)
      invariant scanned == ScanFrom(t, i, groups, gap)
      decreases |t| - i
    {
      if |groups| == 8 {
        return None;
      }
      var value, e := ReadHex(t, i);
      if e < |t| && t[e] == '.' && |groups| <= 6 {
        var octets := Ipv4Address(t[i..]);
        FromIsOf(t[i..]);
        if octets == None {
          return None;
        }
        groups := groups + Two(octets.value);
        i := |t|;
        break;
      }
      if e == i {
        return None;
      }
      groups := groups + [value];
      i := e;
      if i == |t| {
        break;
      }
      if t[i] != ':' {
        return None;
      }
      i := i + 1;
      if i < |t| && t[i] == ':' {
        if gap.Some? {
          return None;
        }
        gap := Some(|groups|);
        i := i + 1;
      } else if i == |t| {
        return None; // a single trailing colon
      }
    }
    if if gap.Some? then |groups| > 7 else |groups| != 8 {
      FinishedShort(groups, gap);
      return None;
    }
    var bytes := Place(groups, gap);
    return Some(bytes);
  }

  lemma FinishedNone()
    ensures AddressOf(Finish(None)) == None
  {
  }

  lemma FinishedShort(groups: seq<nat>, gap: Option<nat>)
    requires if gap.Some? then |groups| > 7 else |groups| != 8
    ensures Finish(Some(Scanned(groups, gap))) == None
  {
  }

  lemma FromIsOf(t: string)
    ensures Ipv4From(t, 0, []) == Ipv4Of(t) && (Ipv4Of(t).Some? ==> |Ipv4Of(t).value| == 4)
  {
    Ipv4Agrees(t, 0, []);
    FourIsIpv4(t);
    OctetsCount(Split(t, '.'));
    assert t[0..] == t;
  }

  /** Write the groups to the address, those behind the gap at its end. */
  method Place(groups: seq<nat>, gap: Option<nat>) returns (address: seq<nat>)
    requires if gap.Some? then |groups| <= 7 && gap.value <= |groups| else |groups| == 8
    ensures Finish(Some(Scanned(groups, gap))).Some?
    ensures address == BytesOf(Finish(Some(Scanned(groups, gap))).value)
  {
    ghost var whole := Finish(Some(Scanned(groups, gap))).value;
    assert |whole| == 8;
    var bytes := new nat[16](_ => 0);
    var zeros, out := 8 - |groups|, 0;
    for g := 0 to |groups|
      invariant out == if gap.Some? && g > gap.value then g + zeros else g
      invariant forall k :: 0 <= k < out ==> bytes[2 * k] == whole[k] / 256 && bytes[2 * k + 1] == whole[k] % 256
      invariant forall k :: 2 * out <= k < 16 ==> bytes[k] == 0
    {
      if gap.Some? && g == gap.value {
        out := out + zeros;
      }
      assert whole[out] == groups[g];
      bytes[2 * out] := groups[g] / 256;
      bytes[2 * out + 1] := groups[g] % 256;
      out := out + 1;
    }
    address := bytes[..];
    forall k | 0 <= k < 8
      ensures bytes[2 * k] == whole[k] / 256 && bytes[2 * k + 1] == whole[k] % 256
    {
    }
    AreBytes(address, whole);
  }

  lemma AreBytes(address: seq<nat>, groups: seq<nat>)
    requires |address| == 2 * |groups|
    requires forall k :: 0 <= k < |groups| ==> address[2 * k] == groups[k] / 256 && address[2 * k + 1] == groups[k] % 256
    ensures address == BytesOf(groups)
  {
    forall j | 0 <= j < |address|
      ensures |BytesOf(groups)| == |address| && address[j] == BytesOf(groups)[j]
    {
      BytesAt(groups, j / 2);
    }
    if groups == [] {
      assert address == [];
    } else {
      BytesAt(groups, 0);
    }
  }

  // ── Splitting ──

  lemma {:induction false} OctetsBehind(parts: seq<string>, i: nat)
    requires i <= |parts|
    ensures OctetsFrom(parts).Some? <==> OctetsFrom(parts[..i]).Some? && OctetsFrom(parts[i..]).Some?
    ensures OctetsFrom(parts).Some? ==> OctetsFrom(parts).value == OctetsFrom(parts[..i]).value + OctetsFrom(parts[i..]).value
  {
    if i == 0 {
      assert parts[..0] == [] && parts[0..] == parts;
      assert OctetsFrom(parts).Some? ==> [] + OctetsFrom(parts).value == OctetsFrom(parts).value;
    } else {
      OctetsBehind(parts[1..], i - 1);
      assert parts[..i][1..] == parts[1..][..i - 1] && parts[i..] == parts[1..][i - 1..];
      if OctetsFrom(parts).Some? {
        var first := [Value(parts[0])];
        assert first + (OctetsFrom(parts[..i][1..]).value + OctetsFrom(parts[i..]).value)
            == first + OctetsFrom(parts[..i][1..]).value + OctetsFrom(parts[i..]).value;
      }
    }
  }

  method ParseIpv4(text: string) returns (address: Option<nat>)
    ensures address.Some? <==> Ipv4Of(text).Some?
    ensures address.Some? ==> address.value == Number(Ipv4Of(text).value)
  {
    hide Split, Value;
    var parts := Split(text, '.');
    if |parts| != 4 {
      return None;
    }
    var number := 0;
    for i := 0 to 4
      invariant OctetsFrom(parts[..i]).Some? && number == Number(OctetsFrom(parts[..i]).value)
    {
      OctetsBehind(parts, i + 1);
      OctetMore(parts, i);
      if |parts[i]| == 0 || |parts[i]| > 3 || !AllDigits(parts[i]) {
        return None;
      }
      var octet := Value(parts[i]);
      if octet > 255 {
        return None;
      }
      number := number * 256 + octet;
    }
    assert parts[..4] == parts;
    return Some(number);
  }

  lemma OctetMore(parts: seq<string>, i: nat)
    requires i < |parts| && OctetsFrom(parts[..i]).Some?
    ensures OctetsFrom(parts[..i + 1]).Some? <==> IsOctetText(parts[i])
    ensures IsOctetText(parts[i]) ==>
              && OctetsFrom(parts[..i + 1]).value == OctetsFrom(parts[..i]).value + [Value(parts[i])]
              && Number(OctetsFrom(parts[..i + 1]).value) == Number(OctetsFrom(parts[..i]).value) * 256 + Value(parts[i])
  {
    hide Value, Number;
    OctetsBehind(parts[..i + 1], i);
    assert parts[..i + 1][..i] == parts[..i] && parts[..i + 1][i..] == [parts[i]];
    OneOctet(parts[i]);
    if IsOctetText(parts[i]) {
      NumberMore(OctetsFrom(parts[..i]).value, Value(parts[i]));
    }
  }

  lemma OneOctet(part: string)
    ensures OctetsFrom([part]) == if IsOctetText(part) then Some([Value(part)]) else None
  {
    hide Value;
    assert [part][1..] == [] && OctetsFrom([]) == Some([]);
    assert IsOctetText(part) ==> [Value(part)] + [] == [Value(part)];
  }

  /** The two groups of an IPv4 address. */
  lemma TwoHalves(octets: seq<nat>)
    requires |octets| == 4 && AreOctets(octets)
    ensures [Number(octets) / 65536 % 65536, Number(octets) % 65536] == Two(octets)
  {
    NumberOfFour(octets);
  }

  lemma {:induction false} OctetsAreSmall(parts: seq<string>)
    requires OctetsFrom(parts).Some?
    ensures |OctetsFrom(parts).value| == |parts| && AreOctets(OctetsFrom(parts).value)
  {
    if parts != [] {
      OctetsAreSmall(parts[1..]);
    }
  }

  method ParseIpv6Groups(part: string, ipv4Last: bool) returns (groups: Option<seq<nat>>)
    ensures groups == GroupsOf(part, ipv4Last)
  {
    hide Split, HexValue, Ipv4Of;
    if part == "" {
      return Some([]);
    }
    var items := Split(part, ':');
    var read: seq<nat> := [];
    ItemsBehind([], items, ipv4Last);
    assert items[0..] == items;
    for i := 0 to |items|
      invariant GroupsOf(part, ipv4Last) == After(read, ItemsGroups(items[i..], ipv4Last))
    {
      var item := items[i];
      assert items[i..][0] == item && items[i..][1..] == items[i + 1..];
      AfterItem(read, items[i..], ipv4Last);
      if ipv4Last && i == |items| - 1 && '.' in item {
        var ipv4 := ParseIpv4(item);
        if ipv4 == None {
          return None;
        }
        Ipv4IsFour(item);
        TwoHalves(Ipv4Of(item).value);
        ghost var before := read;
        read := read + [ipv4.value / 65536 % 65536];
        read := read + [ipv4.value % 65536];
        assert read == before + Two(Ipv4Of(item).value);
        continue;
      }
      if item == "" || |item| > 4 || !AllHex(item) {
        return None;
      }
      read := read + [HexValue(item)];
    }
    assert items[|items|..] == [];
    assert read + [] == read;
    return Some(read);
  }

  lemma Ipv4IsFour(item: string)
    requires Ipv4Of(item).Some?
    ensures |Ipv4Of(item).value| == 4 && AreOctets(Ipv4Of(item).value)
  {
    OctetsAreSmall(Split(item, '.'));
  }

  /** Groups before others. */
  function After(groups: seq<nat>, more: Option<seq<nat>>): Option<seq<nat>> {
    if more.Some? then Some(groups + more.value) else None
  }

  lemma ItemsBehind(groups: seq<nat>, items: seq<string>, ipv4Last: bool)
    ensures After([], ItemsGroups(items, ipv4Last)) == ItemsGroups(items, ipv4Last)
  {
    if ItemsGroups(items, ipv4Last).Some? {
      assert [] + ItemsGroups(items, ipv4Last).value == ItemsGroups(items, ipv4Last).value;
    }
  }

  lemma AfterItem(groups: seq<nat>, items: seq<string>, ipv4Last: bool)
    requires items != []
    ensures After(groups, ItemsGroups(items, ipv4Last)) ==
            match ItemGroups(items[0], ipv4Last && |items| == 1)
            case None => None
            case Some(first) => After(groups + first, ItemsGroups(items[1..], ipv4Last))
  {
    var first := ItemGroups(items[0], ipv4Last && |items| == 1);
    if first.Some? && ItemsGroups(items[1..], ipv4Last).Some? {
      assert groups + first.value + ItemsGroups(items[1..], ipv4Last).value == groups + (first.value + ItemsGroups(items[1..], ipv4Last).value);
    }
  }

  method ParseIpv6(text: string) returns (address: Option<seq<nat>>)
    ensures address == AddressOf(Parse(text))
  {
    hide GroupsOf, BytesOf;
    var gap := GapAt(text, 0);
    if gap < |text| && GapAt(text, gap + 1) < |text| {
      return None;
    }
    var head: Option<seq<nat>>, tail: Option<seq<nat>> := None, Some([]);
    if gap == |text| {
      head := ParseIpv6Groups(text, true);
      if head == None || |head.value| != 8 {
        return None;
      }
    } else {
      head := ParseIpv6Groups(text[..gap], false);
      if head == None {
        return None;
      }
      tail := ParseIpv6Groups(text[gap + 2..], true);
      if tail == None || |head.value| + |tail.value| > 7 {
        return None;
      }
    }
    var groups := head.value + Zeros(8 - |head.value| - |tail.value|) + tail.value;
    assert gap == |text| ==> groups == head.value;
    var bytes := new nat[16](_ => 0);
    for i := 0 to 8
      invariant forall k :: 0 <= k < i ==> bytes[2 * k] == groups[k] / 256 && bytes[2 * k + 1] == groups[k] % 256
    {
      bytes[2 * i] := groups[i] / 256;
      bytes[2 * i + 1] := groups[i] % 256;
    }
    AreBytes(bytes[..], groups);
    return Some(bytes[..]);
  }

  /** Both give the same answer on every text. */
  method ParseBoth(text: string) returns (scanned: Option<seq<nat>>, split: Option<seq<nat>>)
    ensures scanned == split && (scanned.Some? ==> |scanned.value| == 16)
  {
    scanned := Ipv6Address(text);
    split := ParseIpv6(text);
    ParsersAgree(text);
    if Parse(text).Some? {
      EightGroups(text);
      BytesAt(Parse(text).value, 0);
    }
  }

  lemma EightGroups(text: string)
    requires Parse(text).Some?
    ensures |Parse(text).value| == 8
  {
  }
}
