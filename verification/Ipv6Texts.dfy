/** Two parsers of IPv6 addresses (section 2.2 of RFC 4291): one scans the text (src/describe_sip.cpp), the
  * other splits it (src/display_filter.cpp). They accept the same texts and give the same address. */
module Ipv6Texts {
  import opened Options
  import opened Decimal
  import opened Text

  predicate IsHexDigit(c: char) {
    '0' <= c <= '9' || 'a' <= c <= 'f' || 'A' <= c <= 'F'
  }

  function HexDigit(c: char): (d: nat)
    requires IsHexDigit(c)
    ensures d < 16
  {
    if c <= '9' then c as int - '0' as int
    else if c <= 'F' then c as int - 'A' as int + 10
    else c as int - 'a' as int + 10
  }

  predicate AllHex(s: string) {
    forall k :: 0 <= k < |s| ==> IsHexDigit(s[k])
  }

  function HexValue(s: string): nat
    requires AllHex(s)
  {
    if s == [] then 0 else 16 * HexValue(s[..|s| - 1]) + HexDigit(s[|s| - 1])
  }

  // ── IPv4, by scanning ──

  /** The decimal digits from `i` on, at most `n`. */
  function DigitRun(t: string, i: nat, n: nat): (run: nat)
    requires i <= |t|
    ensures run <= n && i + run <= |t| && AllDigits(t[i..i + run])
    ensures run < n && i + run < |t| ==> !IsDigit(t[i + run])
    decreases n
  {
    if n > 0 && i < |t| && IsDigit(t[i]) then
      var rest := DigitRun(t, i + 1, n - 1);
      assert t[i..i + 1 + rest] == [t[i]] + t[i + 1..i + 1 + rest];
      1 + rest
    else 0
  }

  /** Four numbers up to 255 with dots between them, `octets` of them read before `i`. */
  function Ipv4From(t: string, i: nat, octets: seq<nat>): Option<seq<nat>>
    requires i <= |t| && |octets| < 4
    decreases 4 - |octets|
  {
    var e := i + DigitRun(t, i, 3);
    if e == i || Value(t[i..e]) > 255 then None
    else
      var more := octets + [Value(t[i..e])];
      if |more| == 4 then if e == |t| then Some(more) else None
      else if e >= |t| || t[e] != '.' then None
      else Ipv4From(t, e + 1, more)
  }

  // ── IPv4, by splitting ──

  predicate IsOctetText(part: string) {
    0 < |part| <= 3 && AllDigits(part) && Value(part) <= 255
  }

  function OctetsFrom(parts: seq<string>): Option<seq<nat>> {
    if parts == [] then Some([])
    else if !IsOctetText(parts[0]) then None
    else
      match OctetsFrom(parts[1..])
      case None => None
      case Some(rest) => Some([Value(parts[0])] + rest)
  }

  function Ipv4Of(t: string): Option<seq<nat>> {
    var parts := Split(t, '.');
    if |parts| != 4 then None else OctetsFrom(parts)
  }

  lemma {:induction false} OctetsCount(parts: seq<string>)
    ensures OctetsFrom(parts).Some? ==> |OctetsFrom(parts).value| == |parts|
  {
    if parts != [] {
      OctetsCount(parts[1..]);
    }
  }

  /** The run of digits is the part up to the next dot, if that is one of up to three digits. */
  lemma RunIsPart(t: string, i: nat)
    requires i <= |t|
    ensures var e, k := i + DigitRun(t, i, 3), IndexOf(t, '.', i);
            && (IsOctetText(t[i..k]) ==> e == k)
            && (e > i && Value(t[i..e]) <= 255 && (e == |t| || t[e] == '.') ==> e == k && IsOctetText(t[i..k]))
  {
    var e, k := i + DigitRun(t, i, 3), IndexOf(t, '.', i);
    assert forall m :: i <= m < e ==> IsDigit(t[i..e][m - i]) && t[m] == t[i..e][m - i];
    assert i <= e < k ==> t[i..k][e - i] == t[e];
  }

  /** The parts of a text behind `i`: the first, then those behind its separator. */
  lemma SplitBehind(t: string, c: char, i: nat)
    requires i <= |t|
    ensures var k := IndexOf(t, c, i);
            Split(t[i..], c) == [t[i..k]] + if k == |t| then [] else Split(t[k + 1..], c)
  {
    hide Split, IndexOf;
    var k := IndexOf(t, c, i);
    IndexBehind(t, c, i);
    SplitUnfolds(t[i..], c);
    assert t[i..][..k - i] == t[i..k];
    if k < |t| {
      SlicesBehind(t, i, k + 1);
    }
  }

  lemma SplitUnfolds(w: string, c: char)
    ensures var k := IndexOf(w, c, 0); Split(w, c) == [w[..k]] + if k == |w| then [] else Split(w[k + 1..], c)
  {
    assert w[..|w|] == w;
  }

  lemma SlicesBehind(t: string, i: nat, k: nat)
    requires i <= k <= |t|
    ensures t[i..][k - i..] == t[k..]
  {
  }

  /** The octets of parts read after others, if there are four of them in all. */
  function FourWith(octets: seq<nat>, parts: seq<string>): Option<seq<nat>> {
    if |octets| + |parts| == 4 && OctetsFrom(parts).Some? then Some(octets + OctetsFrom(parts).value) else None
  }

  lemma FourWithFirst(octets: seq<nat>, part: string, rest: seq<string>)
    ensures FourWith(octets, [part] + rest) == if IsOctetText(part) then FourWith(octets + [Value(part)], rest) else None
  {
    assert ([part] + rest)[1..] == rest;
    if IsOctetText(part) && OctetsFrom(rest).Some? {
      assert octets + [Value(part)] + OctetsFrom(rest).value == octets + ([Value(part)] + OctetsFrom(rest).value);
    }
  }

  lemma FourWithNone(octets: seq<nat>)
    ensures FourWith(octets, []) == if |octets| == 4 then Some(octets) else None
  {
    assert octets + [] == octets;
  }

  /** Of the text behind `i`, scanning reads what splitting does. */
  lemma {:induction false} Ipv4Agrees(t: string, i: nat, octets: seq<nat>)
    requires i <= |t| && |octets| < 4
    ensures Ipv4From(t, i, octets) == FourWith(octets, Split(t[i..], '.'))
    decreases 4 - |octets|
  {
    hide Split, IndexOf, FourWith, DigitRun, Value;
    var k := IndexOf(t, '.', i);
    RunIsPart(t, i);
    SplitBehind(t, '.', i);
    var rest := if k == |t| then [] else Split(t[k + 1..], '.');
    FourWithFirst(octets, t[i..k], rest);
    if IsOctetText(t[i..k]) {
      var more := octets + [Value(t[i..k])];
      if k == |t| {
        FourWithNone(more);
      } else if |more| == 4 {
        FourWithTooMany(more, rest);
      } else {
        Ipv4Agrees(t, k + 1, more);
      }
    }
  }

  lemma FourWithTooMany(octets: seq<nat>, parts: seq<string>)
    requires |octets| == 4 && parts != []
    ensures FourWith(octets, parts) == None
  {
  }

  lemma IndexBehind(t: string, c: char, i: nat)
    requires i <= |t|
    ensures IndexOf(t[i..], c, 0) == IndexOf(t, c, i) - i
  {
    var k := IndexOf(t[i..], c, 0);
    assert forall m :: i <= m < |t| ==> t[m] == t[i..][m - i];
  }

  // ── IPv6, by splitting ──

  predicate IsGroup(item: string) {
    0 < |item| <= 4 && AllHex(item)
  }

  /** The groups of one item; one that may be an IPv4 address makes two. */
  function ItemGroups(item: string, mayBeIpv4: bool): (groups: Option<seq<nat>>)
    ensures groups.Some? ==> 0 < |groups.value| <= 2
  {
    if mayBeIpv4 && '.' in item then
      match Ipv4Of(item)
      case None => None
      case Some(octets) =>
        OctetsCount(Split(item, '.'));
        Some(Two(octets))
    else if IsGroup(item) then Some([HexValue(item)])
    else None
  }

  function Two(octets: seq<nat>): seq<nat>
    requires |octets| == 4
  {
    [256 * octets[0] + octets[1], 256 * octets[2] + octets[3]]
  }

  function ItemsGroups(items: seq<string>, ipv4Last: bool): Option<seq<nat>> {
    if items == [] then Some([])
    else
      match ItemGroups(items[0], ipv4Last && |items| == 1)
      case None => None
      case Some(groups) =>
        match ItemsGroups(items[1..], ipv4Last)
        case None => None
        case Some(rest) => Some(groups + rest)
  }

  /** The groups on one side of the gap. */
  function GroupsOf(part: string, ipv4Last: bool): Option<seq<nat>> {
    if part == "" then Some([]) else ItemsGroups(Split(part, ':'), ipv4Last)
  }

  /** Where `::` stands, at or behind `from`: the text's length if nowhere. */
  function GapAt(t: string, from: nat): (gap: nat)
    requires from <= |t|
    ensures from <= gap <= |t| && (gap < |t| ==> gap + 1 < |t| && t[gap] == t[gap + 1] == ':')
    ensures forall k :: from <= k < gap && k + 1 < |t| ==> !(t[k] == t[k + 1] == ':')
    decreases |t| - from
  {
    if from == |t| then |t|
    else if from + 1 < |t| && t[from] == ':' && t[from + 1] == ':' then from
    else GapAt(t, from + 1)
  }

  function Zeros(n: nat): seq<nat> {
    seq(n, _ => 0)
  }

  /** The groups on both sides of the gap, and the zeros between them: one at least. */
  function Joined(head: Option<seq<nat>>, tail: Option<seq<nat>>): Option<seq<nat>> {
    if head == None || tail == None || |head.value| + |tail.value| > 7 then None
    else Some(head.value + Zeros(8 - |head.value| - |tail.value|) + tail.value)
  }

  /** The groups of a text without a gap: eight. */
  function AllEight(groups: Option<seq<nat>>): Option<seq<nat>> {
    if groups.Some? && |groups.value| == 8 then groups else None
  }

  /** The eight groups of the address, if the text is one. */
  function Parse(t: string): Option<seq<nat>> {
    var gap := GapAt(t, 0);
    if gap == |t| then AllEight(GroupsOf(t, true))
    else if GapAt(t, gap + 1) < |t| then None
    else Joined(GroupsOf(t[..gap], false), GroupsOf(t[gap + 2..], true))
  }

  // ── IPv6, by scanning ──

  /** The hexadecimal digits from `i` on, at most `n`. */
  function HexRun(t: string, i: nat, n: nat): (run: nat)
    requires i <= |t|
    ensures run <= n && i + run <= |t| && AllHex(t[i..i + run])
    ensures run < n && i + run < |t| ==> !IsHexDigit(t[i + run])
    decreases n
  {
    if n > 0 && i < |t| && IsHexDigit(t[i]) then
      var rest := HexRun(t, i + 1, n - 1);
      assert t[i..i + 1 + rest] == [t[i]] + t[i + 1..i + 1 + rest];
      1 + rest
    else 0
  }

  /** The groups read, and where among them the gap is. */
  datatype Scanned = Scanned(groups: seq<nat>, gap: Option<nat>)

  function ScanFrom(t: string, i: nat, groups: seq<nat>, gap: Option<nat>): (scanned: Option<Scanned>)
    requires i <= |t|
    decreases |t| - i
  {
    if i == |t| then Some(Scanned(groups, gap))
    else if |groups| == 8 then None
    else
      var e := i + HexRun(t, i, 4);
      if e < |t| && t[e] == '.' && |groups| <= 6 then
        match Ipv4From(t[i..], 0, [])
        case None => None
        case Some(octets) =>
          Ipv4Agrees(t[i..], 0, []);
          OctetsCount(Split(t[i..][0..], '.'));
          Some(Scanned(groups + Two(octets), gap))
      else if e == i then None
      else
        var more := groups + [HexValue(t[i..e])];
        if e == |t| then Some(Scanned(more, gap))
        else if t[e] != ':' then None
        else NextItem(t, e, more, gap)
  }

  /** Behind the colon at `k`: a second one, the text's end, or another item. */
  function NextItem(t: string, k: nat, groups: seq<nat>, gap: Option<nat>): (scanned: Option<Scanned>)
    requires k < |t|
    decreases |t| - k, 0
  {
    if k + 1 == |t| then None
    else if t[k + 1] == ':' then if gap.Some? then None else ScanFrom(t, k + 2, groups, Some(|groups|))
    else ScanFrom(t, k + 1, groups, gap)
  }

  /** The address of the groups read. */
  function Finish(scanned: Option<Scanned>): Option<seq<nat>> {
    match scanned
    case None => None
    case Some(Scanned(groups, None)) => if |groups| == 8 then Some(groups) else None
    case Some(Scanned(groups, Some(gap))) =>
      if |groups| > 7 || gap > |groups| then None else Some(groups[..gap] + Zeros(8 - |groups|) + groups[gap..])
  }

  function Scan(t: string): Option<seq<nat>> {
    Finish(if "::" <= t then ScanFrom(t, 2, [], Some(0)) else ScanFrom(t, 0, [], None))
  }

  // ── The two agree ──

  /** The run of hexadecimal digits is the item up to the next colon, if that is a group. */
  lemma RunIsItem(t: string, i: nat)
    requires i <= |t|
    ensures var e, k := i + HexRun(t, i, 4), IndexOf(t, ':', i);
            && e <= k
            && (IsGroup(t[i..k]) ==> e == k)
            && (e > i && (e == |t| || t[e] == ':') ==> e == k && IsGroup(t[i..k]))
            && (e < |t| && t[e] == '.' ==> e < k && '.' in t[i..k])
            && (e < k && t[e] != '.' ==> !IsGroup(t[i..k]))
  {
    var e, k := i + HexRun(t, i, 4), IndexOf(t, ':', i);
    assert forall m :: i <= m < e ==> IsHexDigit(t[i..e][m - i]) && t[m] == t[i..e][m - i];
    assert i <= e < k ==> t[i..k][e - i] == t[e];
  }

  /** An IPv4 address begins with digits up to a dot. */
  lemma Ipv4Begins(t: string, i: nat)
    requires i <= |t| && Ipv4Of(t[i..]).Some?
    ensures var e := i + HexRun(t, i, 4); e < |t| && t[e] == '.'
    ensures ':' !in t[i..]
  {
    var parts := Split(t[i..], '.');
    var k := IndexOf(t, '.', i);
    SplitBehind(t, '.', i);
    assert IsOctetText(parts[0]) && parts[0] == t[i..k];
    assert k < |t|;
    DigitsRun(t, i, k);
    NoColonInParts(t[i..]);
  }

  lemma {:induction false} HexRunLength(t: string, i: nat, k: nat, n: nat)
    requires i <= k < |t| && k - i <= n && t[k] == '.' && forall m :: i <= m < k ==> IsHexDigit(t[m])
    ensures HexRun(t, i, n) == k - i
    decreases n
  {
    if i < k {
      HexRunLength(t, i + 1, k, n - 1);
    }
  }

  lemma DigitsRun(t: string, i: nat, k: nat)
    requires i <= k < |t| && t[k] == '.' && IsOctetText(t[i..k])
    ensures i + HexRun(t, i, 4) == k
  {
    assert forall m :: i <= m < k ==> IsDigit(t[i..k][m - i]) && t[m] == t[i..k][m - i];
    HexRunLength(t, i, k, 4);
  }

  lemma {:induction false} OctetsAreDigits(parts: seq<string>)
    requires OctetsFrom(parts).Some?
    ensures forall k :: 0 <= k < |parts| ==> AllDigits(parts[k])
  {
    if parts != [] {
      OctetsAreDigits(parts[1..]);
    }
  }

  lemma {:induction false} PartsHave(w: string, sep: char, c: char)
    requires c in w && c != sep
    ensures exists k :: 0 <= k < |Split(w, sep)| && c in Split(w, sep)[k]
    decreases |w|
  {
    hide Split, IndexOf;
    var k := IndexOf(w, sep, 0);
    SplitUnfolds(w, sep);
    assert forall m :: 0 <= m < k ==> w[..k][m] == w[m];
    if c in w[..k] {
      assert c in Split(w, sep)[0];
    } else {
      var m :| 0 <= m < |w| && w[m] == c;
      assert w[k + 1..][m - (k + 1)] == c;
      PartsHave(w[k + 1..], sep, c);
      var p :| 0 <= p < |Split(w[k + 1..], sep)| && c in Split(w[k + 1..], sep)[p];
      assert c in Split(w, sep)[p + 1];
    }
  }

  lemma NoColonInParts(w: string)
    requires Ipv4Of(w).Some?
    ensures ':' !in w
  {
    OctetsAreDigits(Split(w, '.'));
    if ':' in w {
      PartsHave(w, '.', ':');
    }
  }

  /** What scanning makes of an item's groups: eight at most, and then what follows the item. */
  function WithItem(t: string, k: nat, groups: seq<nat>, item: Option<seq<nat>>, gap: Option<nat>): Option<Scanned>
    requires k <= |t|
  {
    match item
    case None => None
    case Some(more) =>
      if |groups| + |more| > 8 then None
      else if k == |t| then Some(Scanned(groups + more, gap))
      else NextItem(t, k, groups + more, gap)
  }

  /** One turn of scanning reads the item up to the next colon. */
  lemma ScanReadsItem(t: string, i: nat, groups: seq<nat>, gap: Option<nat>)
    requires i < |t| && |groups| < 8
    ensures var k := IndexOf(t, ':', i);
            ScanFrom(t, i, groups, gap) == WithItem(t, k, groups, ItemGroups(t[i..k], k == |t|), gap)
  {
    hide Split, OctetsFrom, NextItem, HexValue, HexRun, IndexOf;
    var e, k := i + HexRun(t, i, 4), IndexOf(t, ':', i);
    RunIsItem(t, i);
    Ipv4Agrees(t[i..], 0, []);
    assert t[i..][0..] == t[i..] && t[i..|t|] == t[i..];
    FourIsIpv4(t[i..]);
    if Ipv4Of(t[i..]).Some? {
      Ipv4Begins(t, i);
    }
    if k < |t| {
      assert t[i..][k - i] == ':';
    }
    assert e == k && e > i ==> t[i..e] == t[i..k];
  }

  lemma FourIsIpv4(w: string)
    ensures FourWith([], Split(w, '.')) == Ipv4Of(w)
  {
    if OctetsFrom(Split(w, '.')).Some? {
      assert [] + OctetsFrom(Split(w, '.')).value == OctetsFrom(Split(w, '.')).value;
    }
  }

  // ── Whole texts ──

  /** Groups read after others, eight at most in all. */
  function UpToEight(groups: seq<nat>, more: Option<seq<nat>>, gap: Option<nat>): Option<Scanned> {
    if more.Some? && |groups| + |more.value| <= 8 then Some(Scanned(groups + more.value, gap)) else None
  }

  lemma {:induction false} ItemsCount(items: seq<string>, ipv4Last: bool)
    ensures ItemsGroups(items, ipv4Last).Some? ==> |ItemsGroups(items, ipv4Last).value| >= |items|
  {
    if items != [] {
      ItemsCount(items[1..], ipv4Last);
    }
  }

  /** An empty item is no group. */
  lemma {:induction false} EmptyItem(t: string, i: nat, p: nat, ipv4Last: bool)
    requires i <= p < |t| && t[p] == ':' && (p == i || t[p - 1] == ':')
    ensures ItemsGroups(Split(t[i..], ':'), ipv4Last) == None
    decreases |t| - i
  {
    hide Split, ItemGroups;
    var k := IndexOf(t, ':', i);
    SplitBehind(t, ':', i);
    var item, rest := t[i..k], Split(t[k + 1..], ':');
    assert ([item] + rest)[1..] == rest;
    if k == i {
      NoEmptyGroup(ipv4Last && |rest| == 0);
      assert item == "";
    } else {
      EmptyItem(t, k + 1, p, ipv4Last);
    }
  }

  lemma NoEmptyGroup(mayBeIpv4: bool)
    ensures ItemGroups("", mayBeIpv4) == None
  {
  }

  lemma EndsWithColon(t: string, ipv4Last: bool)
    ensures ItemsGroups(Split("", ':'), ipv4Last) == None
  {
    NoEmptyGroup(ipv4Last);
    SplitUnfolds("", ':');
  }

  /** The groups of an item and of the items behind it. */
  lemma UpToEightFirst(groups: seq<nat>, item: string, rest: seq<string>, gap: Option<nat>)
    requires |groups| < 8
    ensures UpToEight(groups, ItemsGroups([item] + rest, true), gap) ==
            match ItemGroups(item, rest == [])
            case None => None
            case Some(more) => if |groups| + |more| > 8 then None else UpToEight(groups + more, ItemsGroups(rest, true), gap)
  {
    assert ([item] + rest)[1..] == rest;
    var more := ItemGroups(item, rest == []);
    if more.Some? && ItemsGroups(rest, true).Some? {
      assert groups + more.value + ItemsGroups(rest, true).value == groups + (more.value + ItemsGroups(rest, true).value);
    }
  }

  lemma UpToEightNone(groups: seq<nat>, gap: Option<nat>)
    requires |groups| <= 8
    ensures UpToEight(groups, Some([]), gap) == Some(Scanned(groups, gap))
  {
    assert groups + [] == groups;
  }

  /** Behind the gap, or where there is none, scanning reads the items that splitting makes. */
  lemma {:induction false} TailAgrees(t: string, i: nat, groups: seq<nat>, gap: Option<nat>)
    requires i < |t| && |groups| <= 8 && (gap == None ==> GapAt(t, i) == |t|)
    ensures ScanFrom(t, i, groups, gap) == UpToEight(groups, ItemsGroups(Split(t[i..], ':'), true), gap)
    decreases |t| - i
  {
    hide Split, ItemsGroups, ItemGroups, UpToEight, ScanFrom, GapAt, IndexOf;
    SplitBehind(t, ':', i);
    var k := IndexOf(t, ':', i);
    var item, rest := t[i..k], if k == |t| then [] else Split(t[k + 1..], ':');
    if |groups| == 8 {
      ScanFull(t, i, groups, gap);
      NoRoom(groups, item, rest, gap);
    } else {
      ScanReadsItem(t, i, groups, gap);
      UpToEightFirst(groups, item, rest, gap);
      var more := ItemGroups(item, rest == []);
      assert rest == [] <==> k == |t|;
      if more.Some? && |groups| + |more.value| <= 8 {
        if k == |t| {
          UpToEightNone(groups + more.value, gap);
          NoItems();
        } else if k + 1 == |t| {
          EndsWithColon(t, true);
          assert t[k + 1..] == "";
          NoneUpToEight(groups + more.value, gap);
        } else if t[k + 1] == ':' {
          EmptyItem(t, k + 1, k + 1, true);
          NoneUpToEight(groups + more.value, gap);
        } else {
          if gap == None {
            GapBehind(t, i, k + 1, |t|);
          }
          TailAgrees(t, k + 1, groups + more.value, gap);
        }
      }
    }
  }

  lemma ScanFull(t: string, i: nat, groups: seq<nat>, gap: Option<nat>)
    requires i < |t| && |groups| == 8
    ensures ScanFrom(t, i, groups, gap) == None
  {
  }

  lemma NoItems()
    ensures ItemsGroups([], true) == Some([])
  {
  }

  lemma NoneUpToEight(groups: seq<nat>, gap: Option<nat>)
    ensures UpToEight(groups, None, gap) == None
  {
  }

  lemma NoRoom(groups: seq<nat>, item: string, rest: seq<string>, gap: Option<nat>)
    requires |groups| == 8
    ensures UpToEight(groups, ItemsGroups([item] + rest, true), gap) == None
  {
    ItemsCount([item] + rest, true);
  }

  /** The gap behind a place before it is the same. */
  lemma GapBehind(t: string, i: nat, k: nat, gap: nat)
    requires i <= k <= gap <= |t| && GapAt(t, i) == gap
    ensures GapAt(t, k) == gap
  {
    var other := GapAt(t, k);
  }

  /** Behind a gap at `j`, with the groups before it. */
  function FromGap(t: string, j: nat, groups: seq<nat>, more: Option<seq<nat>>): Option<Scanned>
    requires j + 2 <= |t|
  {
    match more
    case None => None
    case Some(head) =>
      if |groups| + |head| > 8 then None else ScanFrom(t, j + 2, groups + head, Some(|groups| + |head|))
  }

  lemma FromGapFirst(t: string, j: nat, groups: seq<nat>, item: string, rest: seq<string>)
    requires j + 2 <= |t|
    ensures FromGap(t, j, groups, ItemsGroups([item] + rest, false)) ==
            match ItemGroups(item, false)
            case None => None
            case Some(more) => if |groups| + |more| > 8 then None else FromGap(t, j, groups + more, ItemsGroups(rest, false))
  {
    hide ScanFrom;
    assert ([item] + rest)[1..] == rest;
    var more := ItemGroups(item, false);
    if more.Some? && ItemsGroups(rest, false).Some? {
      assert groups + more.value + ItemsGroups(rest, false).value == groups + (more.value + ItemsGroups(rest, false).value);
    }
  }

  lemma FromGapNoRoom(t: string, j: nat, groups: seq<nat>, item: string, rest: seq<string>)
    requires j + 2 <= |t| && |groups| == 8
    ensures FromGap(t, j, groups, ItemsGroups([item] + rest, false)) == None
  {
    ItemsCount([item] + rest, false);
  }

  lemma FromGapNone(t: string, j: nat, groups: seq<nat>)
    requires j + 2 <= |t| && |groups| <= 8
    ensures FromGap(t, j, groups, ItemsGroups([], false)) == ScanFrom(t, j + 2, groups, Some(|groups|))
  {
    hide ScanFrom;
    assert groups + [] == groups;
  }

  /** Up to the gap, scanning reads the items that splitting makes of the text before it. */
  lemma {:induction false} HeadAgrees(t: string, i: nat, j: nat, groups: seq<nat>)
    requires i < j < |t| && j == GapAt(t, i) && |groups| <= 8
    ensures ScanFrom(t, i, groups, None) == FromGap(t, j, groups, ItemsGroups(Split(t[i..j], ':'), false))
    decreases j - i
  {
    hide Split, ItemsGroups, ItemGroups, FromGap, GapAt, ScanFrom, IndexOf;
    var k := IndexOf(t, ':', i);
    var item, rest := t[i..k], if k == j then [] else Split(t[k + 1..j], ':');
    HeadSplits(t, i, j);
    if |groups| == 8 {
      ScanFull(t, i, groups, None);
      FromGapNoRoom(t, j, groups, item, rest);
    } else {
      ScanReadsItem(t, i, groups, None);
      FromGapFirst(t, j, groups, item, rest);
      var more := ItemGroups(item, false);
      if more.Some? && |groups| + |more.value| <= 8 {
        if k == j {
          FromGapNone(t, j, groups + more.value);
        } else {
          GapBehind(t, i, k + 1, j);
          HeadAgrees(t, k + 1, j, groups + more.value);
        }
      }
    }
  }

  lemma HeadSplits(t: string, i: nat, j: nat)
    requires i < j < |t| && j == GapAt(t, i)
    ensures var k := IndexOf(t, ':', i);
            && k <= j && (k < j ==> k + 1 < j && t[k + 1] != ':')
            && Split(t[i..j], ':') == [t[i..k]] + if k == j then [] else Split(t[k + 1..j], ':')
  {
    hide Split, IndexOf, GapAt;
    var part := t[..j];
    var k := IndexOf(part, ':', i);
    SplitBehind(part, ':', i);
    IndexBefore(t, ':', i, j);
    SliceOfTake(t, i, j, j);
    SliceOfTake(t, i, k, j);
    if k < j {
      SliceOfTake(t, k + 1, j, j);
    }
  }

  lemma SliceOfTake(t: string, i: nat, k: nat, j: nat)
    requires i <= k <= j <= |t|
    ensures t[..j][i..k] == t[i..k] && (k == j ==> t[..j][i..] == t[i..k])
  {
  }

  lemma IndexBefore(t: string, c: char, i: nat, j: nat)
    requires i <= j < |t| && t[j] == c
    ensures IndexOf(t[..j], c, i) == IndexOf(t, c, i) <= j
  {
    var k, k' := IndexOf(t, c, i), IndexOf(t[..j], c, i);
    assert forall m :: i <= m < j ==> t[..j][m] == t[m];
  }

  lemma FinishJoins(head: seq<nat>, tail: Option<seq<nat>>)
    ensures Finish(UpToEight(head, tail, Some(|head|))) == Joined(Some(head), tail)
  {
    if tail.Some? {
      assert (head + tail.value)[..|head|] == head && (head + tail.value)[|head|..] == tail.value;
    }
  }

  lemma FinishWithoutGap(groups: Option<seq<nat>>)
    ensures Finish(UpToEight([], groups, None)) == AllEight(groups)
  {
    if groups.Some? {
      assert [] + groups.value == groups.value;
    }
  }

  /** What scanning makes of the text behind the gap, with `head` before it. */
  lemma TailScanned(t: string, i: nat, head: seq<nat>)
    requires i <= |t| && |head| <= 8
    ensures ScanFrom(t, i, head, Some(|head|)) == UpToEight(head, GroupsOf(t[i..], true), Some(|head|))
  {
    hide Split, ItemsGroups;
    if i < |t| {
      TailAgrees(t, i, head, Some(|head|));
    } else {
      UpToEightNone(head, Some(|head|));
    }
  }

  /** A second gap is an empty item behind the first one. */
  lemma SecondGap(t: string, j: nat)
    requires j + 2 <= |t| && t[j] == t[j + 1] == ':' && GapAt(t, j + 1) < |t|
    ensures GroupsOf(t[j + 2..], true) == None
  {
    hide Split, ItemsGroups;
    var p := GapAt(t, j + 1) + 1;
    EmptyItem(t, j + 2, p, true);
    assert |t[j + 2..]| > 0;
  }

  lemma WithoutGap(t: string)
    requires GapAt(t, 0) == |t|
    ensures Scan(t) == AllEight(GroupsOf(t, true))
  {
    hide ItemsGroups, Split, UpToEight, Finish, AllEight;
    assert t[0..] == t && t[..|t|] == t;
    NotFirst(t);
    if t == "" {
      UpToEightNone([], None);
    } else {
      TailAgrees(t, 0, [], None);
    }
    FinishWithoutGap(GroupsOf(t, true));
  }

  /** A text begins with its gap if that is at its start. */
  lemma NotFirst(t: string)
    ensures "::" <= t <==> GapAt(t, 0) == 0 && t != ""
  {
    if |t| >= 2 {
      assert t[..2] == [t[0], t[1]];
    }
  }

  lemma WithGap(t: string, j: nat)
    requires GapAt(t, 0) == j < |t|
    ensures Scan(t) == Joined(GroupsOf(t[..j], false), GroupsOf(t[j + 2..], true))
  {
    hide ScanFrom, GapAt, GroupsOf, UpToEight, Finish, Joined;
    NotFirst(t);
    if j == 0 {
      assert t[..0] == "";
      TailScanned(t, 2, []);
      NoGroups();
      FinishJoins([], GroupsOf(t[2..], true));
    } else {
      BeforeGap(t, j);
      var head := GroupsOf(t[..j], false);
      if head.Some? && |head.value| <= 8 {
        TailScanned(t, j + 2, head.value);
        FinishJoins(head.value, GroupsOf(t[j + 2..], true));
      } else {
        FinishNone(head, GroupsOf(t[j + 2..], true));
      }
    }
  }

  lemma FinishNone(head: Option<seq<nat>>, tail: Option<seq<nat>>)
    requires head == None || |head.value| > 8
    ensures Finish(None) == Joined(head, tail)
  {
  }

  lemma BeforeGap(t: string, j: nat)
    requires 0 < j < |t| && GapAt(t, 0) == j
    ensures var head := GroupsOf(t[..j], false);
            ScanFrom(t, 0, [], None) ==
            if head.Some? && |head.value| <= 8 then ScanFrom(t, j + 2, head.value, Some(|head.value|)) else None
  {
    hide ScanFrom, Split, ItemsGroups;
    HeadAgrees(t, 0, j, []);
    assert t[0..j] == t[..j];
    var head := GroupsOf(t[..j], false);
    if head.Some? {
      assert [] + head.value == head.value;
    }
  }

  lemma NoGroups()
    ensures GroupsOf("", false) == Some([])
  {
  }

  /** The two parsers accept the same texts, and give the same address. */
  lemma ParsersAgree(t: string)
    ensures Scan(t) == Parse(t)
  {
    hide Scan, GroupsOf, Joined, AllEight;
    var j := GapAt(t, 0);
    if j == |t| {
      WithoutGap(t);
    } else {
      WithGap(t, j);
      if GapAt(t, j + 1) < |t| {
        SecondGap(t, j);
        NotJoined(GroupsOf(t[..j], false));
      }
    }
  }

  lemma NotJoined(head: Option<seq<nat>>)
    ensures Joined(head, None) == None
  {
  }
}
