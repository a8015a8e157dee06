/** Addresses in their one canonical text (src/wire_bytes.h): IPv4 in dotted decimal, IPv6 as section 4
  * of RFC 5952 has it. Each is read back as the address it was written for. */
module AddressTexts {
  import opened Options
  import opened Text
  import opened Decimal
  import opened Ipv4Network
  import opened Ipv6Texts

  // ── IPv4 ──

  function DecimalTexts(octets: seq<nat>): (texts: seq<string>)
    ensures |texts| == |octets| && forall k :: 0 <= k < |octets| ==> texts[k] == Dec(octets[k])
  {
    seq(|octets|, k requires 0 <= k < |octets| => Dec(octets[k]))
  }

  function Ipv4Text(octets: seq<nat>): string {
    Join(DecimalTexts(octets), ".")
  }

  /** One to three digits, written by hand. */
  method FormatOctet(v: nat) returns (text: string)
    requires v < 256
    ensures text == Dec(v)
  {
    text := "";
    if v >= 100 {
      text := text + [DigitChar(v / 100)];
    }
    if v >= 10 {
      text := text + [DigitChar(v / 10 % 10)];
    }
    text := text + [DigitChar(v % 10)];
    assert v >= 100 ==> Dec(v / 10) == Dec(v / 100) + [DigitChar(v / 10 % 10)] && v / 10 / 10 == v / 100;
  }

  method FormatIpv4(octets: seq<nat>) returns (text: string)
    requires |octets| == 4 && AreOctets(octets)
    ensures text == Ipv4Text(octets)
  {
    hide Dec;
    text := "";
    for i := 0 to 4
      invariant text == Join(DecimalTexts(octets)[..i], ".")
    {
      if i > 0 {
        text := text + ".";
      }
      var octet := FormatOctet(octets[i]);
      JoinMore(DecimalTexts(octets), i, ".");
      text := text + octet;
    }
    assert DecimalTexts(octets)[..4] == DecimalTexts(octets);
  }

  lemma {:induction false} JoinMore(parts: seq<string>, n: nat, sep: string)
    requires n < |parts|
    ensures Join(parts[..n + 1], sep) == (if n == 0 then "" else Join(parts[..n], sep) + sep) + parts[n]
  {
    if n > 0 {
      JoinMore(parts[1..], n - 1, sep);
      assert parts[..n + 1][1..] == parts[1..][..n] && parts[..n][1..] == parts[1..][..n - 1];
    }
  }

  lemma {:induction false} OctetTextsRead(octets: seq<nat>)
    requires AreOctets(octets)
    ensures OctetsFrom(DecimalTexts(octets)) == Some(octets)
  {
    hide Dec, Value;
    if octets != [] {
      OctetTextsRead(octets[1..]);
      OctetTextIsRead(octets[0]);
      assert DecimalTexts(octets)[1..] == DecimalTexts(octets[1..]);
      assert [octets[0]] + octets[1..] == octets;
    }
  }

  lemma OctetTextIsRead(octet: nat)
    requires octet < 256
    ensures IsOctetText(Dec(octet)) && Value(Dec(octet)) == octet
  {
    DecIsNumeral(octet);
    ValueBounds(Dec(octet));
    assert Pow10(3) == 1000;
    if |Dec(octet)| > 3 {
      Pow10Grows(3, |Dec(octet)| - 1);
    }
  }

  lemma NoSeparator(texts: seq<string>, sep: char)
    requires !IsDigit(sep) && forall k :: 0 <= k < |texts| ==> AllDigits(texts[k])
    ensures forall k :: 0 <= k < |texts| ==> sep !in texts[k]
  {
  }

  lemma DecimalTextsAreNumerals(octets: seq<nat>)
    ensures forall k :: 0 <= k < |octets| ==> IsNumeral(DecimalTexts(octets)[k]) && Value(DecimalTexts(octets)[k]) == octets[k]
  {
    forall k | 0 <= k < |octets|
      ensures IsNumeral(DecimalTexts(octets)[k]) && Value(DecimalTexts(octets)[k]) == octets[k]
    {
      DecIsNumeral(octets[k]);
    }
  }

  lemma Ipv4TextSplits(octets: seq<nat>)
    requires octets != []
    ensures Split(Ipv4Text(octets), '.') == DecimalTexts(octets)
  {
    hide Split, Join, Dec, Value;
    DecimalTextsAreNumerals(octets);
    NoSeparator(DecimalTexts(octets), '.');
    SplitJoin(DecimalTexts(octets), '.');
  }

  /** An address written is read as that address. */
  lemma Ipv4TextIsRead(octets: seq<nat>)
    requires |octets| == 4 && AreOctets(octets)
    ensures Ipv4Of(Ipv4Text(octets)) == Some(octets)
  {
    hide Split, Dec;
    Ipv4TextSplits(octets);
    OctetTextsRead(octets);
  }

  // ── IPv6 ──

  predicate IsLowerHex(c: char) {
    '0' <= c <= '9' || 'a' <= c <= 'f'
  }

  function HexChar(d: nat): (c: char)
    requires d < 16
    ensures IsLowerHex(c) && HexDigit(c) == d
  {
    if d < 10 then '0' + d as char else 'a' + (d - 10) as char
  }

  /** `n` in hexadecimal, as printf's %x writes it. */
  function Hex(n: nat): (s: string)
    ensures s != "" && AllHex(s) && forall k :: 0 <= k < |s| ==> IsLowerHex(s[k])
  {
    if n < 16 then [HexChar(n)] else Hex(n / 16) + [HexChar(n % 16)]
  }

  lemma {:induction false} HexIsRead(n: nat)
    ensures HexValue(Hex(n)) == n
  {
    if n >= 16 {
      HexIsRead(n / 16);
      assert Hex(n)[..|Hex(n)| - 1] == Hex(n / 16);
    } else {
      assert HexValue([HexChar(n)][..0]) == 0;
    }
  }

  lemma HexIsGroup(n: nat)
    requires n < 65536
    ensures IsGroup(Hex(n))
  {
    var a, b, c := n / 16, n / 16 / 16, n / 16 / 16 / 16;
    assert c < 16 && |Hex(c)| == 1;
    assert |Hex(b)| <= 2;
    assert |Hex(a)| <= 3;
  }

  predicate AreGroups(groups: seq<nat>) {
    forall k :: 0 <= k < |groups| ==> groups[k] < 65536
  }

  function HexTexts(groups: seq<nat>): (texts: seq<string>)
    ensures |texts| == |groups| && forall k :: 0 <= k < |groups| ==> texts[k] == Hex(groups[k])
  {
    seq(|groups|, k requires 0 <= k < |groups| => Hex(groups[k]))
  }

  /** How many groups from `i` on are zero. */
  function ZeroRun(groups: seq<nat>, i: nat): (run: nat)
    requires i <= |groups|
    ensures i + run <= |groups| && forall k :: i <= k < i + run ==> groups[k] == 0
    ensures i + run < |groups| ==> groups[i + run] != 0
    decreases |groups| - i
  {
    if i < |groups| && groups[i] == 0 then 1 + ZeroRun(groups, i + 1) else 0
  }

  /** Where the longest run of zero groups behind `i` begins, the leftmost on a tie. */
  function LongestRun(groups: seq<nat>, i: nat): (start: nat)
    requires i <= |groups|
    ensures i <= start <= |groups|
    ensures forall k :: i <= k <= |groups| ==> ZeroRun(groups, k) <= ZeroRun(groups, start)
    ensures forall k :: i <= k < start ==> ZeroRun(groups, k) < ZeroRun(groups, start)
    decreases |groups| - i
  {
    if i == |groups| then i
    else
      var start := LongestRun(groups, i + 1);
      if ZeroRun(groups, i) >= ZeroRun(groups, start) then i else start
  }

  /** Groups in hexadecimal with colons between them, the longest run of two or more zero groups as `::`. */
  function Ipv6Text(groups: seq<nat>): string {
    var start := LongestRun(groups, 0);
    var run := ZeroRun(groups, start);
    if run < 2 then Join(HexTexts(groups), ":")
    else Join(HexTexts(groups[..start]), ":") + "::" + Join(HexTexts(groups[start + run..]), ":")
  }

  lemma RunIsLongest(groups: seq<nat>, start: nat)
    requires start <= |groups|
    requires forall k :: 0 <= k <= |groups| ==> ZeroRun(groups, k) <= ZeroRun(groups, start)
    requires forall k :: 0 <= k < start ==> ZeroRun(groups, k) < ZeroRun(groups, start)
    ensures LongestRun(groups, 0) == start
  {
    var longest := LongestRun(groups, 0);
    assert ZeroRun(groups, start) <= ZeroRun(groups, longest) <= ZeroRun(groups, start);
  }

  lemma {:induction false} RunGoesOn(groups: seq<nat>, i: nat, k: nat)
    requires i <= k <= |groups| && k <= i + ZeroRun(groups, i)
    ensures ZeroRun(groups, k) == i + ZeroRun(groups, i) - k
    decreases k - i
  {
    if i < k {
      RunGoesOn(groups, i + 1, k);
    }
  }

  /** The longest run of two or more zero groups: where it begins and its length, or -1 and 1. */
  method FindLongestRun(groups: seq<nat>) returns (runStart: int, runLength: nat)
    ensures runStart == (if ZeroRun(groups, LongestRun(groups, 0)) < 2 then -1 else LongestRun(groups, 0))
    ensures runStart >= 0 ==> runLength == ZeroRun(groups, runStart)
  {
    runStart, runLength := -1, 1;
    var i := 0;
    while i < |groups|
      invariant 0 <= i <= |groups| && runStart < i && runLength >= 1
      invariant runStart == -1 ==> runLength == 1
      invariant runStart != -1 ==> runStart >= 0 && runLength == ZeroRun(groups, runStart) >= 2
      invariant forall k :: 0 <= k < i ==> ZeroRun(groups, k) <= runLength
      invariant forall k :: 0 <= k < runStart ==> ZeroRun(groups, k) < runLength
    {
      var j := i;
      while j < |groups| && groups[j] == 0
        invariant i <= j <= |groups| && ZeroRun(groups, i) == j - i + ZeroRun(groups, j)
      {
        j := j + 1;
      }
      forall k | i <= k < j
        ensures ZeroRun(groups, k) <= j - i
      {
        RunGoesOn(groups, i, k);
      }
      if j - i > runLength {
        runStart, runLength := i, j - i;
      }
      i := if j > i then j else i + 1;
    }
    if runStart >= 0 {
      RunIsLongest(groups, runStart);
    }
  }

  function BytesGroups(bytes: seq<nat>): (groups: seq<nat>)
    requires |bytes| == 16
    ensures |groups| == 8
  {
    seq(8, k requires 0 <= k < 8 => 256 * bytes[2 * k] + bytes[2 * k + 1])
  }

  lemma JoinNothing(sep: string)
    ensures Join([], sep) == ""
  {
  }

  lemma HexTextsMore(groups: seq<nat>, from: nat, i: nat)
    requires from <= i < |groups|
    ensures Join(HexTexts(groups[from..i + 1]), ":") ==
            (if i == from then "" else Join(HexTexts(groups[from..i]), ":") + ":") + Hex(groups[i])
  {
    hide Join, Hex;
    var texts := HexTexts(groups[from..i + 1]);
    JoinMore(texts, i - from, ":");
    assert texts[..i + 1 - from] == texts && texts[..i - from] == HexTexts(groups[from..i]);
  }

  /** Texts with colons between them begin and end in a digit, and have no two colons in a row. */
  lemma {:induction false} NoDoubleColon(groups: seq<nat>)
    ensures var text := Join(HexTexts(groups), ":");
            && (text == "" <==> groups == [])
            && (groups != [] ==> IsLowerHex(text[0]) && IsLowerHex(text[|text| - 1]))
            && (forall k :: 0 <= k < |text| - 1 ==> !(text[k] == text[k + 1] == ':'))
            && (forall k :: 0 <= k < |text| ==> IsLowerHex(text[k]) || text[k] == ':')
    decreases |groups|
  {
    hide Join, Hex;
    if groups == [] {
      JoinNothing(":");
      assert HexTexts(groups) == [];
    } else {
      var n := |groups| - 1;
      HexTextsMore(groups, 0, n);
      assert groups[0..n + 1] == groups && groups[0..n] == groups[..n];
      NoDoubleColon(groups[..n]);
    }
  }

  /** The text of the groups before `i`, those from `start` to `end` written as `::`. */
  function TextUpTo(groups: seq<nat>, start: nat, end: nat, i: nat): string
    requires start <= end <= i <= |groups|
  {
    Join(HexTexts(groups[..start]), ":") + "::" + Join(HexTexts(groups[end..i]), ":")
  }

  lemma TextGoesOn(groups: seq<nat>, start: nat, end: nat, i: nat)
    requires start <= end <= i < |groups|
    ensures TextUpTo(groups, start, end, i + 1) ==
            TextUpTo(groups, start, end, i) + (if i == end then "" else ":") + Hex(groups[i])
    ensures TextUpTo(groups, start, end, i) != "" && (TextUpTo(groups, start, end, i)[|TextUpTo(groups, start, end, i)| - 1] == ':' <==> i == end)
  {
    hide Join, Hex;
    HexTextsMore(groups, end, i);
    NoDoubleColon(groups[end..i]);
  }

  lemma TextBegins(groups: seq<nat>, i: nat)
    requires i < |groups|
    ensures var text := Join(HexTexts(groups[..i]), ":");
            && (text == "" <==> i == 0) && (text != "" ==> text[|text| - 1] != ':')
            && Join(HexTexts(groups[..i + 1]), ":") == (if i == 0 then "" else text + ":") + Hex(groups[i])
  {
    hide Join, Hex;
    HexTextsMore(groups, 0, i);
    NoDoubleColon(groups[..i]);
    assert groups[0..i] == groups[..i] && groups[0..i + 1] == groups[..i + 1];
  }

  lemma TextStarts(groups: seq<nat>, start: nat, end: nat)
    requires start <= end <= |groups|
    ensures TextUpTo(groups, start, end, end) == Join(HexTexts(groups[..start]), ":") + "::"
  {
    hide Join, Hex;
    assert HexTexts(groups[end..end]) == [];
    JoinNothing(":");
  }

  method FormatIpv6(bytes: seq<nat>) returns (text: string)
    requires |bytes| == 16
    ensures text == Ipv6Text(BytesGroups(bytes))
  {
    hide Join, Hex, TextUpTo, ZeroRun, LongestRun, BytesGroups;
    var groups := BytesGroups(bytes);
    var runStart, runLength := FindLongestRun(groups);
    text := "";
    var i := 0;
    JoinNothing(":");
    assert HexTexts(groups[..0]) == [];
    while i < 8
      invariant 0 <= i <= 8
      invariant runStart < 0 || i <= runStart ==> text == Join(HexTexts(groups[..i]), ":")
      invariant 0 <= runStart < i ==> runStart + runLength <= i && text == TextUpTo(groups, runStart, runStart + runLength, i)
    {
      if i == runStart {
        TextStarts(groups, runStart, runStart + runLength);
        text := text + "::";
        i := i + runLength;
      } else {
        if 0 <= runStart < i {
          TextGoesOn(groups, runStart, runStart + runLength, i);
        } else {
          TextBegins(groups, i);
        }
        if text != "" && text[|text| - 1] != ':' {
          text := text + ":";
        }
        text := text + Hex(groups[i]);
        i := i + 1;
      }
    }
    assert groups[..8] == groups;
    TextIsWhole(groups, runStart, runLength);
  }

  lemma TextIsWhole(groups: seq<nat>, runStart: int, runLength: nat)
    requires runStart == if ZeroRun(groups, LongestRun(groups, 0)) < 2 then -1 else LongestRun(groups, 0)
    requires runStart >= 0 ==> runLength == ZeroRun(groups, runStart)
    ensures Ipv6Text(groups) == if runStart < 0 then Join(HexTexts(groups), ":")
                                else TextUpTo(groups, runStart, runStart + runLength, |groups|)
  {
    hide Join, Hex, ZeroRun, LongestRun;
    if runStart >= 0 {
      assert groups[runStart + runLength..|groups|] == groups[runStart + runLength..];
    }
  }

  // ── IPv6 text is read back ──

  lemma HexTextIsRead(group: nat, mayBeIpv4: bool)
    requires group < 65536
    ensures ItemGroups(Hex(group), mayBeIpv4) == Some([group])
  {
    hide Hex, HexValue;
    HexIsRead(group);
    HexIsGroup(group);
  }

  lemma {:induction false} HexTextsRead(groups: seq<nat>, ipv4Last: bool)
    requires AreGroups(groups)
    ensures ItemsGroups(HexTexts(groups), ipv4Last) == Some(groups)
  {
    hide Hex, ItemGroups;
    if groups != [] {
      HexTextIsRead(groups[0], ipv4Last && |groups| == 1);
      HexTextsRead(groups[1..], ipv4Last);
      assert HexTexts(groups)[1..] == HexTexts(groups[1..]);
      assert [groups[0]] + groups[1..] == groups;
    }
  }

  lemma HexTextsSplit(groups: seq<nat>)
    requires groups != []
    ensures Split(Join(HexTexts(groups), ":"), ':') == HexTexts(groups)
  {
    hide Hex, Join, Split;
    forall k | 0 <= k < |groups|
      ensures ':' !in HexTexts(groups)[k]
    {
      assert AllHex(Hex(groups[k]));
    }
    SplitJoin(HexTexts(groups), ':');
  }

  lemma SideIsRead(groups: seq<nat>, ipv4Last: bool)
    requires AreGroups(groups)
    ensures GroupsOf(Join(HexTexts(groups), ":"), ipv4Last) == Some(groups)
  {
    hide Hex, Join, Split, ItemsGroups;
    NoDoubleColon(groups);
    if groups != [] {
      HexTextsSplit(groups);
      HexTextsRead(groups, ipv4Last);
    }
  }

  lemma GapIs(t: string, from: nat, gap: nat)
    requires from <= gap <= |t| && (gap < |t| ==> gap + 1 < |t| && t[gap] == t[gap + 1] == ':')
    requires forall k :: from <= k < gap && k + 1 < |t| ==> !(t[k] == t[k + 1] == ':')
    ensures GapAt(t, from) == gap
  {
    var found := GapAt(t, from);
  }

  /** The gap is where `::` was written, and there is no other. */
  lemma GapIsWritten(head: seq<nat>, tail: seq<nat>)
    ensures var before, behind := Join(HexTexts(head), ":"), Join(HexTexts(tail), ":");
            var t := before + "::" + behind;
            GapAt(t, 0) == |before| && GapAt(t, |before| + 1) == |t| && t[..|before|] == before && t[|before| + 2..] == behind
  {
    hide Hex, Join, HexTexts, GapAt;
    var before, behind := Join(HexTexts(head), ":"), Join(HexTexts(tail), ":");
    NoDoubleColon(head);
    NoDoubleColon(tail);
    OneGap(before, behind);
  }

  predicate NoColons(s: string) {
    forall k :: 0 <= k < |s| - 1 ==> !(s[k] == s[k + 1] == ':')
  }

  lemma OneGap(before: string, behind: string)
    requires NoColons(before) && NoColons(behind)
    requires (before != "" ==> before[|before| - 1] != ':') && (behind != "" ==> behind[0] != ':')
    ensures var t := before + "::" + behind;
            GapAt(t, 0) == |before| && GapAt(t, |before| + 1) == |t| && t[..|before|] == before && t[|before| + 2..] == behind
  {
    hide GapAt;
    var t, n := before + "::" + behind, |before|;
    forall k | 0 <= k < n
      ensures !(t[k] == t[k + 1] == ':')
    {
      assert k < n - 1 ==> !(before[k] == before[k + 1] == ':');
    }
    GapIs(t, 0, n);
    forall k | n + 1 <= k < |t| - 1
      ensures !(t[k] == t[k + 1] == ':')
    {
      assert t[k + 1] == behind[k - n - 1];
      assert k > n + 1 ==> t[k] == behind[k - n - 2] && !(behind[k - n - 2] == behind[k - n - 1] == ':');
    }
    GapIs(t, n + 1, |t|);
  }

  /** An address written is read as that address. */
  lemma Ipv6TextIsRead(groups: seq<nat>)
    requires |groups| == 8 && AreGroups(groups)
    ensures Parse(Ipv6Text(groups)) == Some(groups)
  {
    hide Hex, Join, HexTexts, GapAt, LongestRun, ZeroRun, GroupsOf;
    var start := LongestRun(groups, 0);
    var run := ZeroRun(groups, start);
    if run < 2 {
      NoDoubleColon(groups);
      GapIs(Ipv6Text(groups), 0, |Ipv6Text(groups)|);
      SideIsRead(groups, true);
    } else {
      var head, tail := groups[..start], groups[start + run..];
      GapIsWritten(head, tail);
      SideIsRead(head, false);
      SideIsRead(tail, true);
      assert head + Zeros(8 - |head| - |tail|) + tail == groups;
    }
  }

  // ── What canonical texts look like ──

  lemma Ipv4TextLooks(octets: seq<nat>)
    requires |octets| == 4
    ensures var text := Ipv4Text(octets);
            text != "" && IsDigit(text[0]) && forall k :: 0 <= k < |text| ==> IsDigit(text[k]) || text[k] == '.'
  {
    hide Dec, Join;
    DecimalTextsAreNumerals(octets);
    DigitsJoined(DecimalTexts(octets));
  }

  lemma {:induction false} DigitsJoined(texts: seq<string>)
    requires texts != [] && forall k :: 0 <= k < |texts| ==> IsNumeral(texts[k])
    ensures var text := Join(texts, ".");
            text != "" && IsDigit(text[0]) && forall k :: 0 <= k < |text| ==> IsDigit(text[k]) || text[k] == '.'
  {
    if |texts| > 1 {
      DigitsJoined(texts[1..]);
    }
  }

  /** A gap, or eight groups of up to four digits; colons, and otherwise only digits. */
  lemma Ipv6TextLooks(groups: seq<nat>)
    requires |groups| == 8 && AreGroups(groups)
    ensures var text := Ipv6Text(groups);
            && (forall k :: 0 <= k < |text| ==> IsLowerHex(text[k]) || text[k] == ':')
            && ':' in text
            && ((exists k :: 0 <= k < |text| - 1 && text[k] == text[k + 1] == ':')
                || (|Split(text, ':')| == 8 && forall g :: 0 <= g < 8 ==> 1 <= |Split(text, ':')[g]| <= 4))
  {
    hide Hex, Join, HexTexts, LongestRun, ZeroRun, Split;
    var start := LongestRun(groups, 0);
    var run := ZeroRun(groups, start);
    if run < 2 {
      NoDoubleColon(groups);
      HexTextsSplit(groups);
      HexTextsMore(groups, 0, 7);
      assert groups[0..8] == groups;
      forall g | 0 <= g < 8
        ensures 1 <= |HexTexts(groups)[g]| <= 4
      {
        HexIsGroup(groups[g]);
      }
    } else {
      var head, tail := Join(HexTexts(groups[..start]), ":"), Join(HexTexts(groups[start + run..]), ":");
      NoDoubleColon(groups[..start]);
      NoDoubleColon(groups[start + run..]);
      var text := head + "::" + tail;
      assert text[|head|] == text[|head| + 1] == ':';
    }
  }
}
