/** One direction of an HTTP/2 connection, read as its bytes come (src/describe_http.cpp, src/payload_describer.h). */
module Http2 {
  import opened Bytes

  const FrameHeaderBytes: nat := 9
  const MaxHeaderBlockBytes: nat := 65536

  /** The connection preface (section 3.4 of RFC 9113): PRI * HTTP/2.0, an empty line, SM, an empty line. */
  const Preface: seq<Byte> := [80, 82, 73, 32, 42, 32, 72, 84, 84, 80, 47, 50, 46, 48, 13, 10, 13, 10, 83, 77, 13, 10, 13, 10]

  const Headers: Byte := 0x1
  const PushPromise: Byte := 0x5
  const Continuation: Byte := 0x9
  const EndHeaders: Byte := 0x4
  const Padded: Byte := 0x8
  const Priority: Byte := 0x20

  predicate CarriesHeaderBlock(kind: Byte) {
    kind == Headers || kind == PushPromise || kind == Continuation
  }

  predicate HasFlag(flags: Byte, flag: Byte)
    requires flag > 0
  {
    flags / flag % 2 == 1
  }

  /** The HPACK decoder: a state that each header block given to it changes. */
  datatype Hpack<!H> = Hpack(decode: (H, seq<Byte>) -> (bool, H), abandon: H -> H)

  /** What is kept of a direction; `frames` and `blocks` are the frame headers met and the header
    * blocks given to the HPACK decoder. */
  datatype Direction<H> = Direction(
    started: bool, magic: bool, frame: seq<Byte>, frameLength: nat, skip: nat, block: seq<Byte>, inBlock: bool,
    abandoned: bool, hpack: H, frames: seq<seq<Byte>>, blocks: seq<seq<Byte>>)

  function Length(header: seq<Byte>): nat
    requires |header| >= 3
  {
    0x1_0000 * header[0] as int + 0x100 * header[1] as int + header[2] as int
  }

  // ── A header block frame ──

  /** The header block fragment of a frame's payload, between what comes before it and its padding. */
  function Fragment(kind: Byte, flags: Byte, payload: seq<Byte>): (fragment: seq<Byte>)
    requires HasFragment(kind, flags, payload)
    ensures |fragment| <= |payload|
  {
    payload[Before(kind, flags)..|payload| - PaddingOf(kind, flags, payload)]
  }

  predicate HasPadding(kind: Byte, flags: Byte) {
    kind != Continuation && HasFlag(flags, Padded)
  }

  /** Bytes before the fragment: the padding's length, the priority or the promised stream. */
  function Before(kind: Byte, flags: Byte): nat {
    (if HasPadding(kind, flags) then 1 else 0)
    + (if kind == Headers && HasFlag(flags, Priority) then 5 else if kind == PushPromise then 4 else 0)
  }

  function PaddingOf(kind: Byte, flags: Byte, payload: seq<Byte>): nat {
    if HasPadding(kind, flags) && payload != [] then payload[0] else 0
  }

  predicate HasFragment(kind: Byte, flags: Byte, payload: seq<Byte>) {
    Before(kind, flags) + PaddingOf(kind, flags, payload) <= |payload|
  }

  // ── Byte by byte ──

  /** Header blocks are given up; the rest of a header block frame being read is passed over. */
  function Abandon<H>(hpack: Hpack<H>, s: Direction<H>): Direction<H> {
    var given := s.(abandoned := true, hpack := hpack.abandon(s.hpack), inBlock := false, block := []);
    if |s.frame| >= FrameHeaderBytes && |s.frame| <= FrameHeaderBytes + s.frameLength then
      given.(skip := FrameHeaderBytes + s.frameLength - |s.frame|, frame := [])
    else given
  }

  /** A header block frame has come whole. */
  function FrameDone<H>(hpack: Hpack<H>, s: Direction<H>): Direction<H>
    requires |s.frame| == FrameHeaderBytes + s.frameLength
  {
    var kind, flags, payload := s.frame[3], s.frame[4], s.frame[FrameHeaderBytes..];
    if !HasFragment(kind, flags, payload) then Abandon(hpack, s)
    else
      var fragment := Fragment(kind, flags, payload);
      if kind == Continuation && (!s.inBlock || |s.block| + |fragment| > MaxHeaderBlockBytes) then Abandon(hpack, s)
      else if kind != Continuation && s.inBlock then Abandon(hpack, s)
      else
        var block := if kind == Continuation then s.block + fragment else fragment;
        if !HasFlag(flags, EndHeaders) then s.(inBlock := true, block := block)
        else
          var decoded := hpack.decode(s.hpack, block);
          var ended := s.(inBlock := false, block := [], hpack := decoded.1, blocks := s.blocks + [block]);
          if decoded.0 then ended else Abandon(hpack, ended)
  }

  /** A frame header has come whole. */
  function HeaderDone<H>(hpack: Hpack<H>, s: Direction<H>): Direction<H>
    requires |s.frame| == FrameHeaderBytes
  {
    var length, kind := Length(s.frame), s.frame[3];
    var named := s.(frameLength := length, frames := s.frames + [s.frame]);
    if !CarriesHeaderBlock(kind) || s.abandoned || length > MaxHeaderBlockBytes then
      var passed := if CarriesHeaderBlock(kind) && !s.abandoned then Abandon(hpack, named) else named;
      passed.(skip := length, frame := [])
    else if length == 0 then FrameDone(hpack, named).(frame := [])
    else named
  }

  function Take<H>(hpack: Hpack<H>, s: Direction<H>, b: Byte): Direction<H> {
    if s.skip > 0 then s.(skip := s.skip - 1)
    else
      var next := s.(frame := s.frame + [b]);
      if |next.frame| < FrameHeaderBytes then next
      else if |next.frame| == FrameHeaderBytes then HeaderDone(hpack, next)
      else if |next.frame| == FrameHeaderBytes + s.frameLength then FrameDone(hpack, next).(frame := [])
      else next
  }

  function Feed<H>(hpack: Hpack<H>, s: Direction<H>, data: seq<Byte>): Direction<H> {
    if data == [] then s else Take(hpack, Feed(hpack, s, data[..|data| - 1]), data[|data| - 1])
  }

  /** What describe() makes of the next bytes: those of the preface are passed over if they begin the direction. */
  function Described<H>(hpack: Hpack<H>, s: Direction<H>, data: seq<Byte>): Direction<H> {
    var begun := s.(started := true);
    if !s.started && Preface <= data then Feed(hpack, begun.(magic := true), data[|Preface|..])
    else Feed(hpack, begun, data)
  }

  /** The header block is bounded, and there is one only between the frame that began it and the one that ends it. */
  predicate BlockHeld<H>(s: Direction<H>) {
    |s.block| <= MaxHeaderBlockBytes && (!s.inBlock ==> s.block == []) && (s.abandoned ==> !s.inBlock)
  }

  /** What is held is bounded, and of the frames only one that carries a header block is. */
  predicate Held<H>(s: Direction<H>) {
    && BlockHeld(s) && (s.skip > 0 ==> s.frame == [])
    && (|s.frame| >= FrameHeaderBytes ==>
          && |s.frame| < FrameHeaderBytes + s.frameLength <= FrameHeaderBytes + MaxHeaderBlockBytes
          && !s.abandoned && CarriesHeaderBlock(s.frame[3]) && s.frameLength == Length(s.frame))
  }

  /** What a frame changes but header blocks: nothing. */
  predicate SameFraming<H>(s: Direction<H>, t: Direction<H>) {
    s.started == t.started && s.magic == t.magic && s.frames == t.frames
  }

  lemma FrameDoneHolds<H>(hpack: Hpack<H>, s: Direction<H>)
    requires BlockHeld(s) && !s.abandoned && s.skip == 0
    requires |s.frame| == FrameHeaderBytes + s.frameLength && s.frameLength <= MaxHeaderBlockBytes
    ensures BlockHeld(FrameDone(hpack, s)) && FrameDone(hpack, s).skip == 0 && SameFraming(s, FrameDone(hpack, s))
  {
  }

  lemma TakeHolds<H>(hpack: Hpack<H>, s: Direction<H>, b: Byte)
    requires Held(s)
    ensures Held(Take(hpack, s, b))
  {
    hide FrameDone;
    if s.skip == 0 {
      var next := s.(frame := s.frame + [b]);
      if |next.frame| == FrameHeaderBytes {
        var named := next.(frameLength := Length(next.frame), frames := next.frames + [next.frame]);
        if Length(next.frame) == 0 && !s.abandoned {
          FrameDoneHolds(hpack, named);
        }
      } else if |next.frame| == FrameHeaderBytes + s.frameLength {
        FrameDoneHolds(hpack, next);
      }
    }
  }

  lemma FrameDoneSame<H>(hpack: Hpack<H>, s: Direction<H>)
    requires |s.frame| == FrameHeaderBytes + s.frameLength
    ensures SameFraming(s, FrameDone(hpack, s))
  {
    var kind, flags, payload := s.frame[3], s.frame[4], s.frame[FrameHeaderBytes..];
    if HasFragment(kind, flags, payload) {
      var fragment := Fragment(kind, flags, payload);
    }
  }

  lemma TakeStarted<H>(hpack: Hpack<H>, s: Direction<H>, b: Byte)
    ensures Take(hpack, s, b).started == s.started && Take(hpack, s, b).magic == s.magic
  {
    hide FrameDone;
    if s.skip == 0 {
      var next := s.(frame := s.frame + [b]);
      if |next.frame| == FrameHeaderBytes {
        var named := next.(frameLength := Length(next.frame), frames := next.frames + [next.frame]);
        if Length(next.frame) == 0 {
          FrameDoneSame(hpack, named);
        }
      } else if |next.frame| > FrameHeaderBytes && |next.frame| == FrameHeaderBytes + s.frameLength {
        FrameDoneSame(hpack, next);
      }
    }
  }

  lemma {:induction false} FeedHolds<H>(hpack: Hpack<H>, s: Direction<H>, data: seq<Byte>)
    requires Held(s)
    ensures Held(Feed(hpack, s, data))
  {
    hide Take, Held;
    if data != [] {
      FeedHolds(hpack, s, data[..|data| - 1]);
      TakeHolds(hpack, Feed(hpack, s, data[..|data| - 1]), data[|data| - 1]);
    }
  }

  lemma {:induction false} FeedSplits<H>(hpack: Hpack<H>, s: Direction<H>, a: seq<Byte>, b: seq<Byte>)
    ensures Feed(hpack, s, a + b) == Feed(hpack, Feed(hpack, s, a), b)
  {
    hide Take;
    if b == [] {
      assert a + b == a;
    } else {
      FeedSplits(hpack, s, a, b[..|b| - 1]);
      assert (a + b)[..|a + b| - 1] == a + b[..|b| - 1];
    }
  }

  /** Once the direction has started, it does not matter how its bytes are cut into calls. */
  lemma ChunksMatterNot<H>(hpack: Hpack<H>, s: Direction<H>, a: seq<Byte>, b: seq<Byte>)
    requires s.started
    ensures Described(hpack, Described(hpack, s, a), b) == Described(hpack, s, a + b)
  {
    FeedSplits(hpack, s, a, b);
    FeedStarted(hpack, s, a);
  }

  lemma {:induction false} FeedStarted<H>(hpack: Hpack<H>, s: Direction<H>, data: seq<Byte>)
    ensures Feed(hpack, s, data).started == s.started && Feed(hpack, s, data).magic == s.magic
  {
    hide Take;
    if data != [] {
      FeedStarted(hpack, s, data[..|data| - 1]);
      TakeStarted(hpack, Feed(hpack, s, data[..|data| - 1]), data[|data| - 1]);
    }
  }

  /** At its start, it does only if it cuts the connection preface, which is then taken for frames. */
  lemma OnlyThePrefaceMatters<H>(hpack: Hpack<H>, s: Direction<H>, a: seq<Byte>, b: seq<Byte>)
    requires !s.started && !s.magic
    ensures Described(hpack, Described(hpack, s, a), b) == Described(hpack, s, a + b) <==>
            !(|a| < |Preface| && Preface <= a + b)
  {
    var begun := s.(started := true);
    FeedStarted(hpack, begun, a);
    if Preface <= a {
      assert Preface <= a + b && (a + b)[|Preface|..] == a[|Preface|..] + b;
      FeedSplits(hpack, begun.(magic := true), a[|Preface|..], b);
      FeedStarted(hpack, begun.(magic := true), a[|Preface|..]);
    } else {
      assert |a| >= |Preface| ==> (a + b)[..|Preface|] == a[..|Preface|];
      FeedStarted(hpack, Feed(hpack, begun, a), b);
      FeedStarted(hpack, begun.(magic := true), (a + b)[if Preface <= a + b then |Preface| else 0..]);
      FeedSplits(hpack, begun, a, b);
    }
  }
}
