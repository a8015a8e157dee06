/** The object that reads one direction of an HTTP/2 connection chunk by chunk (src/describe_http.cpp). */
module Http2Reader {
  import opened Bits
  import opened Bytes
  import opened Http2
  import opened Http2Frames

  // ── Chunks ──

  /** The bytes that complete a frame header. */
  lemma HeaderCompleted<H>(hpack: Hpack<H>, s: Direction<H>, data: seq<Byte>)
    requires s.skip == 0 && |s.frame| + |data| == FrameHeaderBytes && data != []
    ensures Feed(hpack, s, data) == HeaderDone(hpack, s.(frame := s.frame + data))
  {
    hide HeaderDone, FrameDone, Feed;
    var n := |data| - 1;
    PartialFed(hpack, s, data[..n]);
    FeedLast(hpack, s, data[..n], data[n]);
    assert data == data[..n] + [data[n]] && s.frame + data == s.frame + data[..n] + [data[n]];
  }

  /** The bytes that complete a header block frame. */
  lemma PayloadCompleted<H>(hpack: Hpack<H>, s: Direction<H>, data: seq<Byte>)
    requires s.skip == 0 && |s.frame| >= FrameHeaderBytes && |s.frame| + |data| == FrameHeaderBytes + s.frameLength && data != []
    ensures Feed(hpack, s, data) == FrameDone(hpack, s.(frame := s.frame + data)).(frame := [])
  {
    hide FrameDone, Feed;
    var n := |data| - 1;
    PartialFed(hpack, s, data[..n]);
    FeedLast(hpack, s, data[..n], data[n]);
    assert data == data[..n] + [data[n]] && s.frame + data == s.frame + data[..n] + [data[n]];
  }

  lemma ChunkFed<H>(hpack: Hpack<H>, s: Direction<H>, data: seq<Byte>, from: nat, at: nat, n: nat)
    requires from <= at && at + n <= |data|
    ensures Feed(hpack, s, data[from..at + n]) == Feed(hpack, Feed(hpack, s, data[from..at]), data[at..at + n])
  {
    assert data[from..at + n] == data[from..at] + data[at..at + n];
    FeedSplits(hpack, s, data[from..at], data[at..at + n]);
  }

  /** The header block fragment of a frame's payload, if what surrounds it fits. */
  method FragmentOf(kind: Byte, flags: Byte, payload: seq<Byte>) returns (found: bool, fragment: seq<Byte>)
    ensures found <==> HasFragment(kind, flags, payload)
    ensures found ==> fragment == Fragment(kind, flags, payload)
  {
    fragment := [];
    var at, padding := 0, 0;
    if kind != Continuation && HasFlag(flags, Padded) {
      if |payload| < 1 {
        return false, [];
      }
      padding, at := payload[0], 1;
    }
    if kind == Headers && HasFlag(flags, Priority) {
      at := at + 5;
    } else if kind == PushPromise {
      at := at + 4;
    }
    if at > |payload| || |payload| - at < padding {
      return false, [];
    }
    return true, payload[at..|payload| - padding];
  }

  class Http2Direction<H> {
    const decoder: Hpack<H>
    var started: bool
    var frame: seq<Byte>
    var frameLength: nat
    var skip: nat
    var block: seq<Byte>
    var inBlock: bool
    var abandoned: bool
    var hpack: H

    /** What the calls so far named: the preface, the frames, and the blocks given to the decoder. */
    ghost var magic: bool
    ghost var frames: seq<seq<Byte>>
    ghost var blocks: seq<seq<Byte>>

    ghost function Now(): Direction<H>
      reads this
    {
      Direction(started, magic, frame, frameLength, skip, block, inBlock, abandoned, hpack, frames, blocks)
    }

    constructor (decoder: Hpack<H>, initial: H)
      ensures this.decoder == decoder && Held(Now())
      ensures Now() == Direction(false, false, [], 0, 0, [], false, false, initial, [], [])
    {
      this.decoder, hpack := decoder, initial;
      started, frame, frameLength, skip, block, inBlock, abandoned := false, [], 0, 0, [], false, false;
      magic, frames, blocks := false, [], [];
    }

    method AbandonHeaders()
      requires |frame| >= FrameHeaderBytes ==> |frame| <= FrameHeaderBytes + frameLength
      modifies this
      ensures Now() == Abandon(decoder, old(Now()))
    {
      abandoned := true;
      hpack := decoder.abandon(hpack);
      inBlock := false;
      block := [];
      if |frame| >= FrameHeaderBytes {
        // The header block frame being read: the rest of it is passed over.
        skip := FrameHeaderBytes + frameLength - |frame|;
        frame := [];
      }
    }

    /** Bytes of the direction went missing: the next ones begin a frame, and header blocks are given up. */
    method Resync()
      requires Held(Now())
      modifies this
      ensures Held(Now()) && PhaseOf(Now()) == InHeader([]) && abandoned
      ensures started == old(started) && frames == old(frames) && blocks == old(blocks)
    {
      AbandonHeaders();
      frame, frameLength, skip := [], 0, 0;
    }

    /** A header block frame has come whole. */
    method FrameDone()
      requires |frame| == FrameHeaderBytes + frameLength
      modifies this
      ensures Now() == Http2.FrameDone(decoder, old(Now()))
    {
      hide Length;
      var kind, flags := frame[3], frame[4];
      var found, fragment := FragmentOf(kind, flags, frame[FrameHeaderBytes..]);
      if !found {
        AbandonHeaders();
        return;
      }
      if kind == Continuation {
        if !inBlock || |block| + |fragment| > MaxHeaderBlockBytes {
          AbandonHeaders();
          return;
        }
      } else {
        if inBlock {
          AbandonHeaders(); // a new block before the last one ended
          return;
        }
        inBlock := true;
        block := [];
      }
      assert [] + fragment == fragment;
      block := block + fragment;
      if !HasFlag(flags, EndHeaders) {
        return;
      }
      var decoded := decoder.decode(hpack, block);
      blocks := blocks + [block];
      hpack := decoded.1;
      inBlock := false;
      block := [];
      if !decoded.0 {
        AbandonHeaders();
      }
    }

    /** A frame header has come whole: whether its payload is passed over. */
    method HeaderCame() returns (passedOver: bool)
      requires |frame| == FrameHeaderBytes && skip == 0
      modifies this
      ensures passedOver ==> Now() == HeaderDone(decoder, old(Now()))
      ensures !passedOver ==>
                && frame == old(frame) && frameLength <= MaxHeaderBlockBytes && skip == 0
                && HeaderDone(decoder, old(Now())) == if frameLength == 0 then Http2.FrameDone(decoder, Now()).(frame := []) else Now()
    {
      hide Http2.FrameDone, Length;
      var length, kind := Length(frame), frame[3];
      frames := frames + [frame];
      frameLength := length;
      if !CarriesHeaderBlock(kind) || abandoned || length > MaxHeaderBlockBytes {
        if CarriesHeaderBlock(kind) && !abandoned {
          AbandonHeaders(); // a block too long to hold
        }
        skip := length;
        frame := [];
        return true;
      }
      return false;
    }

    /** Read on in a header block frame. */
    method TakePayload(data: seq<Byte>, at: nat) returns (n: nat)
      requires at <= |data| && FrameHeaderBytes <= |frame| <= FrameHeaderBytes + frameLength
      modifies this
      ensures var want := FrameHeaderBytes + old(frameLength) - |old(frame)|;
              && at + n <= |data| && n <= want && (n < want ==> at + n == |data|)
              && var more := old(Now()).(frame := old(frame) + data[at..at + n]);
                 |more.frame| <= FrameHeaderBytes + more.frameLength
                 && Now() == if n == want then Http2.FrameDone(decoder, more).(frame := []) else more
    {
      hide Http2.FrameDone;
      var want := FrameHeaderBytes + frameLength - |frame|;
      n := Min(want, |data| - at);
      frame := frame + data[at..at + n];
      if n == want {
        FrameDone();
        frame := [];
      }
    }

    /** Describe the next bytes of the direction. */
    method Describe(data: seq<Byte>)
      requires Held(Now())
      modifies this
      ensures Held(Now()) && Now() == Described(decoder, old(Now()), data)
    {
      hide Feed, Held, HeaderDone, Http2.FrameDone;
      var at := 0;
      if !started {
        started := true;
        if Preface <= data {
          magic := true;
          at := |Preface|;
        }
      }
      ghost var begun, from := Now(), at;
      StartedHolds(old(Now()), begun);
      FeedNone(decoder, begun);
      assert data[from..at] == [];
      while at < |data|
        invariant from <= at <= |data| && Now() == Feed(decoder, begun, data[from..at])
      {
        FeedHolds(decoder, begun, data[from..at]);
        var n := Step(data, at);
        ChunkFed(decoder, begun, data, from, at, n);
        at := at + n;
      }
      FeedHolds(decoder, begun, data[from..]);
      assert data[0..] == data;
      assert data[from..at] == data[from..];
    }

    /** One turn of the loop over the bytes: as many of them as lie in one part of a frame. */
    method Step(data: seq<Byte>, at: nat) returns (n: nat)
      requires at < |data| && Held(Now())
      modifies this
      ensures 0 < n <= |data| - at && Now() == Feed(decoder, old(Now()), data[at..at + n])
    {
      hide Feed, HeaderDone, Http2.FrameDone;
      ghost var s := Now();
      if skip > 0 {
        n := Min(skip, |data| - at);
        SkippedFed(decoder, s, data[at..at + n]);
        skip := skip - n;
        return;
      }
      n := 0;
      if |frame| < FrameHeaderBytes {
        n := Min(FrameHeaderBytes - |frame|, |data| - at);
        frame := frame + data[at..at + n];
        if |frame| < FrameHeaderBytes {
          PartialFed(decoder, s, data[at..at + n]);
          return;
        }
        HeaderCompleted(decoder, s, data[at..at + n]);
        var passedOver := HeaderCame();
        if passedOver {
          return;
        }
      }
      if n == 0 {
        assert data[at..at + n] == [];
        FeedNone(decoder, s);
      }
      var more := ReadOn(data, at, n, s);
      n := n + more;
    }

    /** Read on in a header block frame, `n` bytes behind `at`, where the direction was as `s` says. */
    method ReadOn(data: seq<Byte>, at: nat, n: nat, ghost s: Direction<H>) returns (more: nat)
      requires at + n <= |data| && FrameHeaderBytes <= |frame| <= FrameHeaderBytes + frameLength && skip == 0
      requires Feed(decoder, s, data[at..at + n])
               == if |frame| == FrameHeaderBytes + frameLength then Http2.FrameDone(decoder, Now()).(frame := []) else Now()
      modifies this
      ensures at + n + more <= |data| && (more == 0 ==> at + n == |data| || |old(frame)| == FrameHeaderBytes + old(frameLength))
      ensures Now() == Feed(decoder, s, data[at..at + n + more])
    {
      hide Feed, Http2.FrameDone;
      ghost var t := Now();
      more := TakePayload(data, at + n);
      ghost var chunk := data[at + n..at + n + more];
      ChunkFed(decoder, s, data, at, at + n, more);
      if chunk == [] {
        assert t.frame + chunk == t.frame;
        FeedNone(decoder, Feed(decoder, s, data[at..at + n]));
      } else if more == FrameHeaderBytes + t.frameLength - |t.frame| {
        PayloadCompleted(decoder, t, chunk);
      } else {
        PartialFed(decoder, t, chunk);
      }
    }

    lemma StartedHolds(s: Direction<H>, t: Direction<H>)
      requires Held(s) && (t == s.(started := true) || t == s.(started := true, magic := true))
      ensures Held(t)
    {
    }
  }
}
