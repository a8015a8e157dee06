/** Domain names in a DNS message, compressed or not (src/describe_dns.cpp; section 4.1.4 of RFC 1035). */
module DnsNames {
  import opened Bytes
  import opened Options

  const MaxNameBytes: nat := 255
  const MaxPointers: nat := 64

  // ── What a name is ──

  /** A name as a message spells it: labels, pointers to where it goes on, the root label at its end. */
  datatype Name = Root | Label(bytes: seq<Byte>, rest: Name) | Pointer(target: nat, rest: Name)

  /** Where a compression pointer's two bytes point. */
  function TargetOf(high: Byte, low: Byte): nat
    requires high >= 192
  {
    (high as int - 192) * 256 + low as int
  }

  /** The message spells the name at `pos`; a pointer points before itself. */
  predicate Spelled(message: seq<Byte>, pos: nat, name: Name)
    decreases name
  {
    match name
    case Root => pos < |message| && message[pos] == 0
    case Label(bytes, rest) =>
      && 0 < |bytes| < 64 && pos + 1 + |bytes| <= |message| && message[pos] == |bytes|
      && message[pos + 1..pos + 1 + |bytes|] == bytes && Spelled(message, pos + 1 + |bytes|, rest)
    case Pointer(target, rest) =>
      && pos + 2 <= |message| && message[pos] >= 192 && target == TargetOf(message[pos], message[pos + 1])
      && target < pos && Spelled(message, target, rest)
  }

  function Labels(name: Name): seq<seq<Byte>> {
    match name
    case Root => []
    case Label(bytes, rest) => [bytes] + Labels(rest)
    case Pointer(_, rest) => Labels(rest)
  }

  function Pointers(name: Name): nat {
    match name
    case Root => 0
    case Label(_, rest) => Pointers(rest)
    case Pointer(_, rest) => 1 + Pointers(rest)
  }

  /** The bytes of the name written without pointers. */
  function WireBytes(name: Name): nat {
    match name
    case Root => 1
    case Label(bytes, rest) => 1 + |bytes| + WireBytes(rest)
    case Pointer(_, rest) => WireBytes(rest)
  }

  /** Where the name at `pos` ends in place: behind its root label or its first pointer. */
  function EndInPlace(pos: nat, name: Name): nat
    decreases name
  {
    match name
    case Root => pos + 1
    case Label(bytes, rest) => EndInPlace(pos + 1 + |bytes|, rest)
    case Pointer(_, _) => pos + 2
  }

  predicate IsLegal(name: Name) {
    WireBytes(name) <= 255 && Pointers(name) <= 64
  }

  /** A message spells at most one name at a place. */
  lemma {:induction false} SpelledOnce(message: seq<Byte>, pos: nat, a: Name, b: Name)
    requires Spelled(message, pos, a) && Spelled(message, pos, b)
    ensures a == b
    decreases a
  {
    match a {
      case Root =>
      case Label(bytes, rest) => SpelledOnce(message, pos + 1 + |bytes|, rest, b.rest);
      case Pointer(target, rest) => SpelledOnce(message, target, rest, b.rest);
    }
  }

  // ── Reading ──

  /** The name at `pos`, if it stays within the caps: `wireBytes` and `pointers` came before. */
  function NameAt(message: seq<Byte>, pos: nat, wireBytes: nat, pointers: nat): Option<Name>
    decreases MaxNameBytes + MaxPointers - pointers - wireBytes
    requires wireBytes <= MaxNameBytes && pointers <= MaxPointers
  {
    if pos >= |message| then None
    else if message[pos] >= 192 then
      if |message| - pos < 2 then None
      else
        var target := TargetOf(message[pos], message[pos + 1]);
        if target >= pos || pointers + 1 > MaxPointers then None
        else
          match NameAt(message, target, wireBytes, pointers + 1)
          case Some(rest) => Some(Pointer(target, rest))
          case None => None
    else if message[pos] >= 64 then None
    else if message[pos] == 0 then Some(Root)
    else
      var length := message[pos];
      if wireBytes + 1 + length > MaxNameBytes || |message| - pos - 1 < length then None
      else
        match NameAt(message, pos + 1 + length, wireBytes + 1 + length, pointers)
        case Some(rest) => Some(Label(message[pos + 1..pos + 1 + length], rest))
        case None => None
  }

  /** What is read is spelled there, and within the caps. */
  lemma {:induction false} ReadIsSpelled(message: seq<Byte>, pos: nat, wireBytes: nat, pointers: nat)
    requires 0 < wireBytes <= MaxNameBytes && pointers <= MaxPointers && NameAt(message, pos, wireBytes, pointers).Some?
    ensures var name := NameAt(message, pos, wireBytes, pointers).value;
            && Spelled(message, pos, name) && wireBytes + WireBytes(name) <= MaxNameBytes + 1
            && pointers + Pointers(name) <= MaxPointers
    decreases MaxNameBytes + MaxPointers - pointers - wireBytes
  {
    if message[pos] >= 192 {
      var target := TargetOf(message[pos], message[pos + 1]);
      ReadIsSpelled(message, target, wireBytes, pointers + 1);
    } else if message[pos] != 0 {
      var length := message[pos];
      ReadIsSpelled(message, pos + 1 + length, wireBytes + 1 + length, pointers);
    }
  }

  /** And every name spelled there and within the caps is read. */
  lemma {:induction false} SpelledIsRead(message: seq<Byte>, pos: nat, name: Name, wireBytes: nat, pointers: nat)
    requires 0 < wireBytes <= MaxNameBytes && pointers <= MaxPointers && Spelled(message, pos, name)
    requires wireBytes + WireBytes(name) <= MaxNameBytes + 1 && pointers + Pointers(name) <= MaxPointers
    ensures NameAt(message, pos, wireBytes, pointers) == Some(name)
    decreases name
  {
    match name {
      case Root =>
      case Label(bytes, rest) =>
        RestIsNotEmpty(rest);
        SpelledIsRead(message, pos + 1 + |bytes|, rest, wireBytes + 1 + |bytes|, pointers);
      case Pointer(target, rest) => SpelledIsRead(message, target, rest, wireBytes, pointers + 1);
    }
  }

  lemma {:induction false} RestIsNotEmpty(name: Name)
    ensures WireBytes(name) >= 1
  {
    match name {
      case Root =>
      case Label(_, rest) => RestIsNotEmpty(rest);
      case Pointer(_, rest) => RestIsNotEmpty(rest);
    }
  }

  /** Labels with dots between them. */
  function Dotted(labels: seq<seq<Byte>>): seq<Byte> {
    if labels == [] then []
    else if |labels| == 1 then labels[0]
    else labels[0] + [46] + Dotted(labels[1..])
  }

  /** `raw`, then the labels behind it. */
  function Continued(raw: seq<Byte>, labels: seq<seq<Byte>>): seq<Byte> {
    if labels == [] then raw
    else if raw == [] then Dotted(labels)
    else raw + [46] + Dotted(labels)
  }

  lemma ContinuedByLabel(raw: seq<Byte>, first: seq<Byte>, labels: seq<seq<Byte>>)
    requires first != []
    ensures Continued((if raw == [] then raw else raw + [46]) + first, labels) == Continued(raw, [first] + labels)
  {
    assert ([first] + labels)[1..] == labels;
    if raw == [] {
      assert raw + first == first;
    }
  }

  lemma ContinuedEnds(raw: seq<Byte>, labels: seq<seq<Byte>>)
    ensures Continued([], labels) == Dotted(labels) && Continued(raw, []) == raw
  {
  }

  /** The text and the end so far, of the name `whole` at `start`, of which `rest` is at `pos`. */
  ghost predicate Follows(whole: Option<Name>, rest: Option<Name>, start: nat, pos: nat, raw: seq<Byte>, end: nat) {
    && (whole.Some? <==> rest.Some?)
    && (whole.Some? ==>
          && Continued(raw, Labels(rest.value)) == Dotted(Labels(whole.value))
          && EndInPlace(start, whole.value) == if end != 0 then end else EndInPlace(pos, rest.value))
  }

  function PointerTo(target: nat, rest: Option<Name>): Option<Name> {
    if rest.Some? then Some(Pointer(target, rest.value)) else None
  }

  function LabelThen(bytes: seq<Byte>, rest: Option<Name>): Option<Name> {
    if rest.Some? then Some(Label(bytes, rest.value)) else None
  }

  lemma PointerFollows(whole: Option<Name>, rest: Option<Name>, target: nat, start: nat, pos: nat, raw: seq<Byte>, end: nat)
    requires Follows(whole, PointerTo(target, rest), start, pos, raw, end)
    ensures Follows(whole, rest, start, target, raw, if end == 0 then pos + 2 else end)
  {
  }

  lemma LabelFollows(whole: Option<Name>, rest: Option<Name>, bytes: seq<Byte>, start: nat, pos: nat, raw: seq<Byte>, end: nat)
    requires bytes != [] && Follows(whole, LabelThen(bytes, rest), start, pos, raw, end)
    ensures Follows(whole, rest, start, pos + 1 + |bytes|, (if raw == [] then raw else raw + [46]) + bytes, end)
  {
    if rest.Some? {
      ContinuedByLabel(raw, bytes, Labels(rest.value));
    }
  }

  lemma RootFollows(whole: Option<Name>, start: nat, pos: nat, raw: seq<Byte>, end: nat)
    requires Follows(whole, Some(Root), start, pos, raw, end)
    ensures whole.Some? && raw == Dotted(Labels(whole.value)) && EndInPlace(start, whole.value) == if end == 0 then pos + 1 else end
  {
    ContinuedEnds(raw, []);
  }

  lemma StartFollows(whole: Option<Name>, start: nat)
    ensures Follows(whole, whole, start, start, [], 0)
  {
    if whole.Some? {
      ContinuedEnds([], Labels(whole.value));
    }
  }

  lemma NoneFollows(whole: Option<Name>, start: nat, pos: nat, raw: seq<Byte>, end: nat)
    requires Follows(whole, None, start, pos, raw, end)
    ensures whole == None
  {
  }

  /** Follow the name at `start` to its root label: its text, and where it ends in place. */
  method FollowName(message: seq<Byte>, start: nat) returns (found: bool, raw: seq<Byte>, end: nat)
    ensures found <==> NameAt(message, start, 1, 0).Some?
    ensures found ==>
              var name := NameAt(message, start, 1, 0).value;
              raw == Dotted(Labels(name)) && end == EndInPlace(start, name)
  {
    hide Follows, Dotted, Labels, EndInPlace;
    ghost var whole := NameAt(message, start, 1, 0);
    StartFollows(whole, start);
    raw, end := [], 0;
    var pos: nat, wireBytes: nat, pointers: nat := start, 1, 0;
    while true
      invariant 0 < wireBytes <= MaxNameBytes && pointers <= MaxPointers
      invariant Follows(whole, NameAt(message, pos, wireBytes, pointers), start, pos, raw, end)
      decreases MaxNameBytes + MaxPointers - pointers - wireBytes
    {
      ghost var here := NameAt(message, pos, wireBytes, pointers);
      if here == None {
        NoneFollows(whole, start, pos, raw, end);
      }
      if pos >= |message| {
        return false, [], 0;
      }
      var length := message[pos];
      if length >= 192 {
        if |message| - pos < 2 {
          return false, [], 0;
        }
        var target := TargetOf(length, message[pos + 1]);
        pointers := pointers + 1;
        if target >= pos || pointers > MaxPointers {
          return false, [], 0;
        }
        PointerFollows(whole, NameAt(message, target, wireBytes, pointers), target, start, pos, raw, end);
        if end == 0 {
          end := pos + 2;
        }
        pos := target;
        continue;
      }
      if length >= 64 {
        return false, [], 0;
      }
      if length == 0 {
        RootFollows(whole, start, pos, raw, end);
        if end == 0 {
          end := pos + 1;
        }
        return true, raw, end;
      }
      if wireBytes + 1 + length > MaxNameBytes || |message| - pos - 1 < length {
        return false, [], 0;
      }
      var first := message[pos + 1..pos + 1 + length];
      LabelFollows(whole, NameAt(message, pos + 1 + length, wireBytes + 1 + length, pointers), first, start, pos, raw, end);
      wireBytes := wireBytes + 1 + length;
      raw := (if raw == [] then raw else raw + [46]) + first;
      pos := pos + 1 + length;
    }
  }

  /** Reads a message from `at` up to `limit`. */
  class FieldReader {
    const message: seq<Byte>
    const limit: nat
    var at: nat

    ghost predicate Valid()
      reads this
    {
      at <= limit <= |message|
    }

    constructor (message: seq<Byte>, at: nat, limit: nat)
      requires at <= limit <= |message|
      ensures Valid() && this.message == message && this.at == at && this.limit == limit
    {
      this.message, this.at, this.limit := message, at, limit;
    }

    method Skip(n: nat) returns (skipped: bool)
      requires Valid()
      modifies this
      ensures Valid() && (skipped <==> old(at) + n <= limit) && at == if skipped then old(at) + n else old(at)
    {
      skipped := limit - at >= n;
      if skipped {
        at := at + n;
      }
    }

    /** Read the name at the reader's position, following its pointers, and move the reader past it. It is read
      * if and only if the message spells a legal name there that ends in place before the reader does. */
    method ReadDnsName() returns (read: bool, raw: seq<Byte>)
      requires Valid()
      modifies this
      ensures Valid()
      ensures read <==> exists name :: Spelled(message, old(at), name) && IsLegal(name) && EndInPlace(old(at), name) <= limit
      ensures !read ==> at == old(at)
      ensures forall name :: read && Spelled(message, old(at), name) ==> raw == Dotted(Labels(name)) && at == EndInPlace(old(at), name)
    {
      hide NameAt, Dotted, Spelled, IsLegal, Labels, EndInPlace;
      var found, text, end := FollowName(message, at);
      if !found {
        NotRead(message, at);
        return false, [];
      }
      IsRead(message, at);
      raw := text;
      read := Skip(end - at);
    }
  }

  lemma NotRead(message: seq<Byte>, pos: nat)
    requires NameAt(message, pos, 1, 0) == None
    ensures forall name :: Spelled(message, pos, name) ==> !IsLegal(name)
  {
    forall name | Spelled(message, pos, name) && IsLegal(name)
      ensures false
    {
      SpelledIsRead(message, pos, name, 1, 0);
    }
  }

  lemma {:induction false} EndIsBehind(pos: nat, name: Name)
    ensures EndInPlace(pos, name) > pos
    decreases name
  {
    if name.Label? {
      EndIsBehind(pos + 1 + |name.bytes|, name.rest);
    }
  }

  lemma IsRead(message: seq<Byte>, pos: nat)
    requires NameAt(message, pos, 1, 0).Some?
    ensures var name := NameAt(message, pos, 1, 0).value;
            && Spelled(message, pos, name) && IsLegal(name) && EndInPlace(pos, name) > pos
            && forall other :: Spelled(message, pos, other) ==> other == name
  {
    var name := NameAt(message, pos, 1, 0).value;
    ReadIsSpelled(message, pos, 1, 0);
    EndIsBehind(pos, name);
    forall other | Spelled(message, pos, other)
      ensures other == name
    {
      SpelledOnce(message, pos, other, name);
    }
  }

  // ── Writing a name ──

  /** Labels a name can have. */
  predicate AreLabels(labels: seq<seq<Byte>>) {
    forall k :: 0 <= k < |labels| ==> 0 < |labels[k]| < 64
  }

  function Encoded(labels: seq<seq<Byte>>): seq<Byte>
    requires AreLabels(labels)
  {
    if labels == [] then [] else [|labels[0]|] + labels[0] + Encoded(labels[1..])
  }

  /** The name of labels before another. */
  function Prefixed(labels: seq<seq<Byte>>, rest: Name): Name {
    if labels == [] then rest else Label(labels[0], Prefixed(labels[1..], rest))
  }

  predicate Stands(message: seq<Byte>, pos: nat, bytes: seq<Byte>) {
    pos + |bytes| <= |message| && message[pos..pos + |bytes|] == bytes
  }

  lemma StandsApart(message: seq<Byte>, pos: nat, a: seq<Byte>, b: seq<Byte>)
    requires Stands(message, pos, a + b)
    ensures Stands(message, pos, a) && Stands(message, pos + |a|, b)
  {
    assert message[pos..pos + |a|] == message[pos..pos + |a + b|][..|a|];
    assert message[pos + |a|..pos + |a + b|] == message[pos..pos + |a + b|][|a|..];
  }

  lemma {:induction false} PrefixedMeans(labels: seq<seq<Byte>>, rest: Name)
    requires AreLabels(labels)
    ensures Labels(Prefixed(labels, rest)) == labels + Labels(rest)
    ensures WireBytes(Prefixed(labels, rest)) == |Encoded(labels)| + WireBytes(rest) && Pointers(Prefixed(labels, rest)) == Pointers(rest)
    decreases |labels|
  {
    if labels == [] {
      assert labels + Labels(rest) == Labels(rest);
    } else {
      PrefixedMeans(labels[1..], rest);
      assert [labels[0]] + (labels[1..] + Labels(rest)) == labels + Labels(rest);
    }
  }

  lemma LabelStands(message: seq<Byte>, pos: nat, first: seq<Byte>, rest: seq<Byte>)
    requires |first| < 64 && Stands(message, pos, [|first|] + first + rest)
    ensures pos + 1 + |first| <= |message| && message[pos] == |first| && message[pos + 1..pos + 1 + |first|] == first
    ensures Stands(message, pos + 1 + |first|, rest)
  {
    StandsApart(message, pos, [|first|] + first, rest);
    StandsApart(message, pos, [|first|], first);
    assert message[pos] == message[pos..pos + 1][0];
  }

  lemma LabelBefore(message: seq<Byte>, pos: nat, first: seq<Byte>, name: Name)
    requires 0 < |first| < 64 && pos + 1 + |first| <= |message| && message[pos] == |first|
    requires message[pos + 1..pos + 1 + |first|] == first && Spelled(message, pos + 1 + |first|, name)
    ensures Spelled(message, pos, Label(first, name)) && EndInPlace(pos, Label(first, name)) == EndInPlace(pos + 1 + |first|, name)
  {
  }

  /** Labels written before a name the message spells make one longer name. */
  lemma {:induction false} LabelsSpelled(message: seq<Byte>, pos: nat, labels: seq<seq<Byte>>, rest: Name)
    requires AreLabels(labels) && Stands(message, pos, Encoded(labels)) && Spelled(message, pos + |Encoded(labels)|, rest)
    ensures Spelled(message, pos, Prefixed(labels, rest))
    ensures EndInPlace(pos, Prefixed(labels, rest)) == EndInPlace(pos + |Encoded(labels)|, rest)
    decreases |labels|
  {
    hide Stands, Spelled, EndInPlace;
    if labels != [] {
      var first, others := labels[0], labels[1..];
      LabelStands(message, pos, first, Encoded(others));
      LabelsSpelled(message, pos + 1 + |first|, others, rest);
      LabelBefore(message, pos, first, Prefixed(others, rest));
    }
  }

  /** A name written without pointers, wherever in a message, is spelled there with its labels. */
  lemma PlainRoundTrip(message: seq<Byte>, pos: nat, labels: seq<seq<Byte>>)
    requires AreLabels(labels) && |Encoded(labels)| < MaxNameBytes && Stands(message, pos, Encoded(labels) + [0])
    ensures var name := Prefixed(labels, Root);
            && Spelled(message, pos, name) && IsLegal(name) && Labels(name) == labels
            && EndInPlace(pos, name) == pos + |Encoded(labels)| + 1
  {
    StandsApart(message, pos, Encoded(labels), [0]);
    var at := pos + |Encoded(labels)|;
    assert message[at] == message[at..at + 1][0];
    LabelsSpelled(message, pos, labels, Root);
    PrefixedMeans(labels, Root);
    assert labels + [] == labels;
  }

  /** The two bytes of a pointer. */
  function PointerBytes(target: nat): seq<Byte>
    requires target < 0x4000
  {
    [192 + target / 256, target % 256]
  }

  /** A name whose end is a pointer to another name before it is spelled with the labels of both. */
  lemma CompressedRoundTrip(message: seq<Byte>, pos: nat, labels: seq<seq<Byte>>, target: nat, rest: Name)
    requires AreLabels(labels) && target < 0x4000 && target < pos + |Encoded(labels)|
    requires Stands(message, pos, Encoded(labels) + PointerBytes(target)) && Spelled(message, target, rest)
    requires |Encoded(labels)| + WireBytes(rest) <= MaxNameBytes && Pointers(rest) < MaxPointers
    ensures var name := Prefixed(labels, Pointer(target, rest));
            && Spelled(message, pos, name) && IsLegal(name) && Labels(name) == labels + Labels(rest)
            && EndInPlace(pos, name) == pos + |Encoded(labels)| + 2
  {
    StandsApart(message, pos, Encoded(labels), PointerBytes(target));
    var at := pos + |Encoded(labels)|;
    assert message[at] == message[at..at + 2][0] && message[at + 1] == message[at..at + 2][1];
    LabelsSpelled(message, pos, labels, Pointer(target, rest));
    PrefixedMeans(labels, Pointer(target, rest));
  }
}
