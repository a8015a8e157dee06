/** HTTP/2 framing (sections 4.1 and 6.10 of RFC 9113): whatever becomes of header blocks, frames are
  * told from their lengths alone; and a header block is read back however it is cut into frames. */
module Http2Frames {
  import opened Bytes
  import opened Http2

  // ── Frame boundaries ──

  /** Where in a frame the next byte lies: in its header, or so many bytes before its end. */
  datatype Phase = InHeader(bytes: seq<Byte>) | InPayload(rest: nat)

  function PhaseOf<H>(s: Direction<H>): Phase {
    if s.skip > 0 then InPayload(s.skip)
    else if FrameHeaderBytes <= |s.frame| <= FrameHeaderBytes + s.frameLength then
      InPayload(FrameHeaderBytes + s.frameLength - |s.frame|)
    else InHeader(s.frame)
  }

  /** The frame headers of a byte string that begins with a frame. */
  function HeadersIn(data: seq<Byte>): seq<seq<Byte>>
    decreases |data|
  {
    if |data| < FrameHeaderBytes then []
    else
      var end := FrameHeaderBytes + Length(data);
      [data[..FrameHeaderBytes]] + if end >= |data| then [] else HeadersIn(data[end..])
  }

  function HeadersFrom(phase: Phase, data: seq<Byte>): seq<seq<Byte>> {
    match phase
    case InHeader(bytes) => HeadersIn(bytes + data)
    case InPayload(rest) => if |data| <= rest then [] else HeadersIn(data[rest..])
  }

  function After(rest: nat): Phase {
    if rest == 0 then InHeader([]) else InPayload(rest)
  }

  /** The phase behind a byte. */
  function Moved(phase: Phase, b: Byte): Phase {
    match phase
    case InPayload(rest) => After(if rest == 0 then 0 else rest - 1)
    case InHeader(bytes) => if |bytes| + 1 < FrameHeaderBytes then InHeader(bytes + [b]) else After(Length(bytes + [b]))
  }

  /** The frame header that a byte completes. */
  function Met(phase: Phase, b: Byte): seq<seq<Byte>> {
    if phase.InHeader? && |phase.bytes| + 1 >= FrameHeaderBytes then [phase.bytes + [b]] else []
  }

  /** A byte moves the phase on by the frames' lengths alone. */
  lemma TakeMovesOn<H>(hpack: Hpack<H>, s: Direction<H>, b: Byte)
    requires Held(s)
    ensures PhaseOf(Take(hpack, s, b)) == Moved(PhaseOf(s), b)
    ensures Take(hpack, s, b).frames == s.frames + Met(PhaseOf(s), b)
    ensures PhaseOf(s).InPayload? ==> PhaseOf(s).rest > 0
    ensures PhaseOf(s).InHeader? ==> |PhaseOf(s).bytes| < FrameHeaderBytes
  {
    hide FrameDone;
    if s.skip == 0 {
      var next := s.(frame := s.frame + [b]);
      if |next.frame| == FrameHeaderBytes {
        var named := next.(frameLength := Length(next.frame), frames := next.frames + [next.frame]);
        if Length(next.frame) == 0 && !s.abandoned {
          FrameDoneHolds(hpack, named);
        }
      } else if |next.frame| == FrameHeaderBytes + s.frameLength {
        FrameDoneHolds(hpack, next);
      }
    }
  }

  lemma FeedFirst<H>(hpack: Hpack<H>, s: Direction<H>, b: Byte, rest: seq<Byte>)
    ensures Feed(hpack, s, [b] + rest) == Feed(hpack, Take(hpack, s, b), rest)
  {
    FeedSplits(hpack, s, [b], rest);
    assert [b][..0] == [];
    assert Feed(hpack, s, [b]) == Take(hpack, Feed(hpack, s, []), b);
  }

  /** A header, then those behind its payload. */
  lemma HeaderFirst(header: seq<Byte>, rest: seq<Byte>)
    requires |header| == FrameHeaderBytes
    ensures HeadersIn(header + rest) == [header] + HeadersFrom(After(Length(header)), rest)
  {
    hide Length;
    var all, length := header + rest, Length(header);
    assert all[..FrameHeaderBytes] == header && all[0] == header[0] && all[1] == header[1] && all[2] == header[2];
    SameLength(all, header);
    assert length <= |rest| ==> all[FrameHeaderBytes + length..] == rest[length..];
    assert [] + rest == rest;
  }

  lemma NoHeaders()
    ensures HeadersIn([]) == []
  {
  }

  lemma SameLength(a: seq<Byte>, b: seq<Byte>)
    requires |a| >= 3 && |b| >= 3 && a[0] == b[0] && a[1] == b[1] && a[2] == b[2]
    ensures Length(a) == Length(b)
  {
  }

  /** The headers that a byte adds, and those of the bytes behind it. */
  lemma HeadersStep(phase: Phase, b: Byte, rest: seq<Byte>)
    requires phase.InPayload? ==> phase.rest > 0
    requires phase.InHeader? ==> |phase.bytes| < FrameHeaderBytes
    ensures HeadersFrom(phase, [b] + rest) == Met(phase, b) + HeadersFrom(Moved(phase, b), rest)
  {
    hide HeadersIn, Length;
    match phase {
      case InPayload(n) =>
        NoHeaders();
        assert n <= |rest| ==> ([b] + rest)[n..] == rest[n - 1..];
        assert [] + rest == rest;
      case InHeader(bytes) =>
        var header := bytes + [b];
        assert bytes + ([b] + rest) == header + rest;
        if |header| == FrameHeaderBytes {
          HeaderFirst(header, rest);
        }
    }
  }

  lemma StepTells<H>(hpack: Hpack<H>, s: Direction<H>, b: Byte, rest: seq<Byte>)
    requires Held(s)
    ensures Take(hpack, s, b).frames + HeadersFrom(PhaseOf(Take(hpack, s, b)), rest) == s.frames + HeadersFrom(PhaseOf(s), [b] + rest)
  {
    hide Take, PhaseOf, HeadersFrom, Held;
    TakeMovesOn(hpack, s, b);
    HeadersStep(PhaseOf(s), b, rest);
  }

  /** The frames met are those the bytes begin, by their lengths alone: whatever the header blocks
    * hold, and whether they were given up. */
  lemma {:induction false} FramesAreTold<H>(hpack: Hpack<H>, s: Direction<H>, data: seq<Byte>)
    requires Held(s)
    ensures Feed(hpack, s, data).frames == s.frames + HeadersFrom(PhaseOf(s), data)
    decreases |data|
  {
    hide Take, PhaseOf, HeadersFrom, Held;
    if data == [] {
      TellsNone(s);
    } else {
      var b, rest := data[0], data[1..];
      assert data == [b] + rest;
      FeedFirst(hpack, s, b, rest);
      TakeHolds(hpack, s, b);
      FramesAreTold(hpack, Take(hpack, s, b), rest);
      StepTells(hpack, s, b, rest);
    }
  }

  lemma TellsNone<H>(s: Direction<H>)
    requires Held(s)
    ensures HeadersFrom(PhaseOf(s), []) == []
  {
    if s.skip == 0 && |s.frame| < FrameHeaderBytes {
      assert s.frame + [] == s.frame;
    }
  }

  /** Giving up header blocks, in the middle of a frame or not, keeps in step with the frames. */
  lemma AbandonKeepsStep<H>(hpack: Hpack<H>, s: Direction<H>, data: seq<Byte>)
    requires Held(s)
    ensures Held(Abandon(hpack, s)) && PhaseOf(Abandon(hpack, s)) == PhaseOf(s)
    ensures Feed(hpack, Abandon(hpack, s), data).frames == Feed(hpack, s, data).frames
  {
    FramesAreTold(hpack, s, data);
    FramesAreTold(hpack, Abandon(hpack, s), data);
  }

  // ── Header blocks ──

  /** A frame: its header, with the four bytes that name its stream, and its payload. */
  function Encoded(kind: Byte, flags: Byte, stream: seq<Byte>, payload: seq<Byte>): seq<Byte>
    requires |payload| < 0x100_0000
  {
    EncodedHeader(kind, flags, stream, |payload|) + payload
  }

  function EncodedHeader(kind: Byte, flags: Byte, stream: seq<Byte>, length: nat): seq<Byte>
    requires length < 0x100_0000
  {
    [length / 0x1_0000, length / 0x100 % 0x100, length % 0x100, kind, flags] + stream
  }

  lemma EncodedLength(kind: Byte, flags: Byte, stream: seq<Byte>, length: nat)
    requires length < 0x100_0000 && |stream| == 4
    ensures var header := EncodedHeader(kind, flags, stream, length);
            |header| == FrameHeaderBytes && Length(header) == length && header[3] == kind && header[4] == flags
  {
  }

  /** Between two frames. */
  predicate Idle<H>(s: Direction<H>) {
    s.skip == 0 && s.frame == [] && !s.abandoned
  }

  lemma {:induction false} PartialFed<H>(hpack: Hpack<H>, s: Direction<H>, data: seq<Byte>)
    requires s.skip == 0
    requires || |s.frame| + |data| < FrameHeaderBytes
             || (FrameHeaderBytes <= |s.frame| && |s.frame| + |data| < FrameHeaderBytes + s.frameLength)
    ensures Feed(hpack, s, data) == s.(frame := s.frame + data)
  {
    if data == [] {
      assert s.frame + data == s.frame;
    } else {
      var n := |data| - 1;
      PartialFed(hpack, s, data[..n]);
      assert s.frame + data == s.frame + data[..n] + [data[n]];
    }
  }

  lemma FeedLast<H>(hpack: Hpack<H>, s: Direction<H>, data: seq<Byte>, b: Byte)
    ensures Feed(hpack, s, data + [b]) == Take(hpack, Feed(hpack, s, data), b)
  {
    assert (data + [b])[..|data|] == data;
  }

  lemma HeaderFed<H>(hpack: Hpack<H>, s: Direction<H>, header: seq<Byte>)
    requires Idle(s) && |header| == FrameHeaderBytes
    ensures Feed(hpack, s, header) == HeaderDone(hpack, s.(frame := header))
  {
    hide HeaderDone, FrameDone, Feed;
    PartialFed(hpack, s, header[..8]);
    FeedLast(hpack, s, header[..8], header[8]);
    assert header == header[..8] + [header[8]] && s.frame + header[..8] == header[..8];
  }

  lemma PayloadFed<H>(hpack: Hpack<H>, s: Direction<H>, payload: seq<Byte>)
    requires s.skip == 0 && |s.frame| == FrameHeaderBytes && payload != [] && s.frameLength == |payload|
    ensures Feed(hpack, s, payload) == FrameDone(hpack, s.(frame := s.frame + payload)).(frame := [])
  {
    hide FrameDone, Feed;
    var n := |payload| - 1;
    PartialFed(hpack, s, payload[..n]);
    FeedLast(hpack, s, payload[..n], payload[n]);
    assert payload == payload[..n] + [payload[n]];
    assert s.frame + payload == s.frame + payload[..n] + [payload[n]];
  }

  /** A header block frame that has come whole, from a direction between two frames. */
  function Whole<H>(s: Direction<H>, header: seq<Byte>, payload: seq<Byte>): (whole: Direction<H>)
    requires |header| == FrameHeaderBytes
    ensures |whole.frame| == FrameHeaderBytes + whole.frameLength
  {
    s.(frame := header + payload, frameLength := |payload|, frames := s.frames + [header])
  }

  /** Of a direction that decodes header blocks, a whole header block frame. */
  lemma FrameFed<H>(hpack: Hpack<H>, s: Direction<H>, kind: Byte, flags: Byte, stream: seq<Byte>, payload: seq<Byte>)
    requires Idle(s) && CarriesHeaderBlock(kind) && |stream| == 4 && |payload| <= MaxHeaderBlockBytes
    ensures |EncodedHeader(kind, flags, stream, |payload|)| == FrameHeaderBytes
    ensures Feed(hpack, s, Encoded(kind, flags, stream, payload))
            == FrameDone(hpack, Whole(s, EncodedHeader(kind, flags, stream, |payload|), payload)).(frame := [])
  {
    hide FrameDone, Feed, EncodedHeader;
    var header := EncodedHeader(kind, flags, stream, |payload|);
    EncodedLength(kind, flags, stream, |payload|);
    HeaderFed(hpack, s, header);
    FeedSplits(hpack, s, header, payload);
    if payload == [] {
      assert header + payload == header;
      FeedNone(hpack, Feed(hpack, s, header));
    } else {
      PayloadFed(hpack, s.(frame := header, frameLength := |payload|, frames := s.frames + [header]), payload);
    }
  }

  lemma FeedNone<H>(hpack: Hpack<H>, s: Direction<H>)
    ensures Feed(hpack, s, []) == s
  {
  }

  /** What comes before a block's first fragment: the padding's length, the priority or the promised stream. */
  predicate WellPadded(kind: Byte, flags: Byte, lead: seq<Byte>, padding: seq<Byte>) {
    && kind in {Headers, PushPromise}
    && |lead| == (if kind == PushPromise then 4 else if HasFlag(flags, Priority) then 5 else 0)
    && |padding| < 256 && (!HasFlag(flags, Padded) ==> padding == [])
  }

  function PaddedPayload(flags: Byte, lead: seq<Byte>, fragment: seq<Byte>, padding: seq<Byte>): seq<Byte>
    requires |padding| < 256
  {
    (if HasFlag(flags, Padded) then [|padding|] else []) + lead + fragment + padding
  }

  lemma FragmentOfPadded(kind: Byte, flags: Byte, lead: seq<Byte>, fragment: seq<Byte>, padding: seq<Byte>)
    requires WellPadded(kind, flags, lead, padding)
    ensures var payload := PaddedPayload(flags, lead, fragment, padding);
            HasFragment(kind, flags, payload) && Fragment(kind, flags, payload) == fragment
  {
  }

  /** A header block was given to the decoder whole, and the direction is between two frames again. */
  ghost predicate BlockRead<H>(hpack: Hpack<H>, s: Direction<H>, t: Direction<H>, block: seq<Byte>) {
    var (accepted, decoder) := hpack.decode(s.hpack, block);
    && t.blocks == s.blocks + [block] && !t.inBlock && t.block == [] && t.frame == [] && t.skip == 0
    && t.abandoned == !accepted && t.hpack == if accepted then decoder else hpack.abandon(decoder)
  }

  /** A header block began, and these are its bytes so far. */
  ghost predicate BlockBegan<H>(s: Direction<H>, t: Direction<H>, block: seq<Byte>) {
    Idle(t) && t.inBlock && t.block == block && t.hpack == s.hpack && t.blocks == s.blocks
  }

  lemma FirstDone<H>(hpack: Hpack<H>, s: Direction<H>, kind: Byte, flags: Byte, lead: seq<Byte>, fragment: seq<Byte>, padding: seq<Byte>, header: seq<Byte>)
    requires Idle(s) && !s.inBlock && WellPadded(kind, flags, lead, padding)
    requires |header| == FrameHeaderBytes && header[3] == kind && header[4] == flags
    ensures var t := FrameDone(hpack, Whole(s, header, PaddedPayload(flags, lead, fragment, padding))).(frame := []);
            if HasFlag(flags, EndHeaders) then BlockRead(hpack, s, t, fragment) else BlockBegan(s, t, fragment)
  {
    var payload := PaddedPayload(flags, lead, fragment, padding);
    FragmentOfPadded(kind, flags, lead, fragment, padding);
    assert (header + payload)[FrameHeaderBytes..] == payload;
  }

  lemma NextDone<H>(hpack: Hpack<H>, s: Direction<H>, flags: Byte, fragment: seq<Byte>, header: seq<Byte>)
    requires Idle(s) && s.inBlock && |s.block| + |fragment| <= MaxHeaderBlockBytes
    requires |header| == FrameHeaderBytes && header[3] == Continuation && header[4] == flags
    ensures var t := FrameDone(hpack, Whole(s, header, fragment)).(frame := []);
            if HasFlag(flags, EndHeaders) then BlockRead(hpack, s, t, s.block + fragment) else BlockBegan(s, t, s.block + fragment)
  {
    assert (header + fragment)[FrameHeaderBytes..] == fragment;
    assert fragment[0..|fragment|] == fragment;
  }

  function Flatten(fragments: seq<seq<Byte>>): seq<Byte> {
    if fragments == [] then [] else fragments[0] + Flatten(fragments[1..])
  }

  /** The CONTINUATION frames of a header block, the last of which ends it. */
  function Continuations(stream: seq<Byte>, fragments: seq<seq<Byte>>): seq<Byte>
    requires |Flatten(fragments)| < 0x100_0000
  {
    if fragments == [] then []
    else Encoded(Continuation, if |fragments| == 1 then EndHeaders else 0, stream, fragments[0]) + Continuations(stream, fragments[1..])
  }

  lemma {:induction false} ContinuationsRead<H>(hpack: Hpack<H>, s: Direction<H>, stream: seq<Byte>, fragments: seq<seq<Byte>>)
    requires Idle(s) && s.inBlock && |stream| == 4 && fragments != []
    requires |s.block| + |Flatten(fragments)| <= MaxHeaderBlockBytes
    ensures BlockRead(hpack, s, Feed(hpack, s, Continuations(stream, fragments)), s.block + Flatten(fragments))
    decreases |fragments|
  {
    hide FrameDone, Feed, EncodedHeader, Whole;
    var flags: Byte := if |fragments| == 1 then EndHeaders else 0;
    var first, rest := fragments[0], fragments[1..];
    var header := EncodedHeader(Continuation, flags, stream, |first|);
    EncodedLength(Continuation, flags, stream, |first|);
    FrameFed(hpack, s, Continuation, flags, stream, first);
    NextDone(hpack, s, flags, first, header);
    var t := FrameDone(hpack, Whole(s, header, first)).(frame := []);
    FeedSplits(hpack, s, Encoded(Continuation, flags, stream, first), Continuations(stream, rest));
    if rest == [] {
      FeedNone(hpack, t);
      assert first + Flatten(rest) == first;
    } else {
      ContinuationsRead(hpack, t, stream, rest);
      assert s.block + Flatten(fragments) == s.block + first + Flatten(rest);
    }
  }

  /** A header block in as many frames as one likes, the first a HEADERS or PUSH_PROMISE frame. */
  function EncodedBlock(kind: Byte, flags: Byte, stream: seq<Byte>, lead: seq<Byte>, fragments: seq<seq<Byte>>, padding: seq<Byte>): seq<Byte>
    requires fragments != [] && |padding| < 256
    requires |PaddedPayload(flags, lead, fragments[0], padding)| < 0x100_0000 && |Flatten(fragments[1..])| < 0x100_0000
  {
    Encoded(kind, flags, stream, PaddedPayload(flags, lead, fragments[0], padding)) + Continuations(stream, fragments[1..])
  }

  /** However a header block is cut into frames, padded and prefixed, the decoder is given the block. */
  lemma BlockRoundTrip<H>(hpack: Hpack<H>, s: Direction<H>, kind: Byte, flags: Byte, stream: seq<Byte>, lead: seq<Byte>,
                          fragments: seq<seq<Byte>>, padding: seq<Byte>)
    requires Idle(s) && !s.inBlock && |stream| == 4 && WellPadded(kind, flags, lead, padding) && fragments != []
    requires HasFlag(flags, EndHeaders) <==> |fragments| == 1
    requires |PaddedPayload(flags, lead, fragments[0], padding)| <= MaxHeaderBlockBytes && |Flatten(fragments)| <= MaxHeaderBlockBytes
    ensures |Flatten(fragments[1..])| <= MaxHeaderBlockBytes
    ensures BlockRead(hpack, s, Feed(hpack, s, EncodedBlock(kind, flags, stream, lead, fragments, padding)), Flatten(fragments))
  {
    hide FrameDone, Feed, EncodedHeader, Whole, PaddedPayload;
    var payload := PaddedPayload(flags, lead, fragments[0], padding);
    var header := EncodedHeader(kind, flags, stream, |payload|);
    EncodedLength(kind, flags, stream, |payload|);
    FrameFed(hpack, s, kind, flags, stream, payload);
    FirstDone(hpack, s, kind, flags, lead, fragments[0], padding, header);
    var t := FrameDone(hpack, Whole(s, header, payload)).(frame := []);
    FeedSplits(hpack, s, Encoded(kind, flags, stream, payload), Continuations(stream, fragments[1..]));
    if |fragments| == 1 {
      FeedNone(hpack, t);
      assert fragments[0] + Flatten(fragments[1..]) == fragments[0];
    } else {
      ContinuationsRead(hpack, t, stream, fragments[1..]);
    }
  }

  // ── Header blocks that cannot be read ──

  lemma {:induction false} SkippedFed<H>(hpack: Hpack<H>, s: Direction<H>, data: seq<Byte>)
    requires |data| <= s.skip
    ensures Feed(hpack, s, data) == s.(skip := s.skip - |data|)
  {
    if data != [] {
      SkippedFed(hpack, s, data[..|data| - 1]);
    }
  }

  /** A header block frame after which header blocks are given up: a continuation of no block or of one grown too
    * long, a block begun inside another, or a payload too short for its padding and what comes first. */
  predicate IsBroken<H>(s: Direction<H>, kind: Byte, flags: Byte, payload: seq<Byte>) {
    if kind == Continuation then !s.inBlock || |s.block| + |payload| > 65536
    else
      || s.inBlock || (HasFlag(flags, Padded) && payload == [])
      || (if HasFlag(flags, Padded) then 1 + payload[0] else 0)
         + (if kind == PushPromise then 4 else if HasFlag(flags, Priority) then 5 else 0) > |payload|
  }

  /** Between two frames, with header blocks given up. */
  ghost predicate GivenUp<H>(hpack: Hpack<H>, s: Direction<H>, t: Direction<H>) {
    && t.abandoned && !t.inBlock && t.block == [] && t.skip == 0 && t.frame == []
    && t.hpack == hpack.abandon(s.hpack) && t.blocks == s.blocks
  }

  lemma BrokenFrame<H>(hpack: Hpack<H>, s: Direction<H>, header: seq<Byte>, payload: seq<Byte>)
    requires Idle(s) && |header| == FrameHeaderBytes && CarriesHeaderBlock(header[3])
    ensures var t := FrameDone(hpack, Whole(s, header, payload)).(frame := []);
            if IsBroken(s, header[3], header[4], payload) then GivenUp(hpack, s, t)
            else if HasFlag(header[4], EndHeaders) then
              && |t.blocks| == |s.blocks| + 1 && t.blocks[..|s.blocks|] == s.blocks && !t.inBlock
              && (t.abandoned <==> !hpack.decode(s.hpack, t.blocks[|s.blocks|]).0)
            else Idle(t) && t.inBlock && t.blocks == s.blocks && t.hpack == s.hpack
  {
    var whole := Whole(s, header, payload).frame;
    assert whole[3] == header[3] && whole[4] == header[4] && whole[FrameHeaderBytes..] == payload;
  }

  /** Header blocks are given up at a broken frame or at a block the decoder refuses, and at no other. */
  lemma BrokenOrRead<H>(hpack: Hpack<H>, s: Direction<H>, kind: Byte, flags: Byte, stream: seq<Byte>, payload: seq<Byte>)
    requires Idle(s) && CarriesHeaderBlock(kind) && |stream| == 4 && |payload| <= MaxHeaderBlockBytes
    ensures var t := Feed(hpack, s, Encoded(kind, flags, stream, payload));
            if IsBroken(s, kind, flags, payload) then GivenUp(hpack, s, t)
            else if HasFlag(flags, EndHeaders) then
              && |t.blocks| == |s.blocks| + 1 && t.blocks[..|s.blocks|] == s.blocks && !t.inBlock
              && (t.abandoned <==> !hpack.decode(s.hpack, t.blocks[|s.blocks|]).0)
            else Idle(t) && t.inBlock && t.blocks == s.blocks && t.hpack == s.hpack
  {
    hide FrameDone, Feed, EncodedHeader, Whole, Encoded, IsBroken, HasFlag;
    FrameFed(hpack, s, kind, flags, stream, payload);
    EncodedLength(kind, flags, stream, |payload|);
    BrokenFrame(hpack, s, EncodedHeader(kind, flags, stream, |payload|), payload);
  }

  /** A frame whose payload is not held, for what it is or for its length. */
  lemma FramePassed<H>(hpack: Hpack<H>, s: Direction<H>, kind: Byte, flags: Byte, stream: seq<Byte>, payload: seq<Byte>)
    requires Idle(s) && |stream| == 4 && |payload| < 0x100_0000
    requires CarriesHeaderBlock(kind) ==> |payload| > MaxHeaderBlockBytes
    ensures var t := Feed(hpack, s, Encoded(kind, flags, stream, payload));
            if CarriesHeaderBlock(kind) then GivenUp(hpack, s, t)
            else Idle(t) && t.inBlock == s.inBlock && t.block == s.block && t.hpack == s.hpack && t.blocks == s.blocks
  {
    hide FrameDone, Feed, EncodedHeader;
    var header := EncodedHeader(kind, flags, stream, |payload|);
    EncodedLength(kind, flags, stream, |payload|);
    HeaderFed(hpack, s, header);
    FeedSplits(hpack, s, header, payload);
    SkippedFed(hpack, Feed(hpack, s, header), payload);
  }

  lemma TakeGivenUp<H>(hpack: Hpack<H>, s: Direction<H>, b: Byte)
    requires Held(s) && s.abandoned
    ensures var t := Take(hpack, s, b); t.abandoned && t.hpack == s.hpack && t.blocks == s.blocks
  {
    hide FrameDone;
  }

  /** Once given up, header blocks stay so: the decoder is left alone, whatever comes. */
  lemma {:induction false} GivenUpForGood<H>(hpack: Hpack<H>, s: Direction<H>, data: seq<Byte>)
    requires Held(s) && s.abandoned
    ensures var t := Feed(hpack, s, data); t.abandoned && t.hpack == s.hpack && t.blocks == s.blocks
  {
    hide Take, Held;
    if data != [] {
      FeedHolds(hpack, s, data[..|data| - 1]);
      GivenUpForGood(hpack, s, data[..|data| - 1]);
      TakeGivenUp(hpack, Feed(hpack, s, data[..|data| - 1]), data[|data| - 1]);
    }
  }
}
