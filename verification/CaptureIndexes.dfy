/** Where in a capture's files its packets are: checkpoints and parts (src/capture_index.h, src/capture_index.cpp). */
module CaptureIndexes {
  import opened Bits
  import opened Bytes
  import opened Options
  import opened CaptureFiles

  /** One file of a capture split into several: headers copied ahead, then the capture from `streamOffset` on. */
  datatype CapturePart = CapturePart(path: string, packetsBefore: nat, streamOffset: nat, headerLength: nat,
                                     headerOffsets: seq<(nat, nat)>)

  function Lookup(pairs: seq<(nat, nat)>, key: nat): Option<nat> {
    if pairs == [] then None
    else if pairs[0].0 == key then Some(pairs[0].1)
    else Lookup(pairs[1..], key)
  }

  /** Where the byte at `offset` of the capture lies in the file. */
  function FileOffset(part: CapturePart, offset: nat): Option<nat> {
    if offset >= part.streamOffset then Some(offset - part.streamOffset + part.headerLength)
    else Lookup(part.headerOffsets, offset)
  }

  // ── What a file of a capture holds ──

  /** A header record copied ahead: where it lies in the capture as it was read, and in the file. */
  datatype HeaderCopy = HeaderCopy(there: nat, here: nat, length: nat)

  predicate IsSlice(bytes: seq<Byte>, here: nat, stream: seq<Byte>, there: nat, length: nat) {
    here + length <= |bytes| && there + length <= |stream| && bytes[here..here + length] == stream[there..there + length]
  }

  /** The file of a part: each header record copied ahead at its own place, then the capture from streamOffset on. */
  ghost predicate IsWritten(bytes: seq<Byte>, part: CapturePart, copies: seq<HeaderCopy>, stream: seq<Byte>) {
    && part.headerLength <= |bytes|
    && IsSlice(bytes, part.headerLength, stream, part.streamOffset, |bytes| - part.headerLength)
    && |copies| == |part.headerOffsets|
    && forall k :: 0 <= k < |copies| ==>
         && part.headerOffsets[k] == (copies[k].there, copies[k].here)
         && copies[k].there + copies[k].length <= part.streamOffset && copies[k].here + copies[k].length <= part.headerLength
         && IsSlice(bytes, copies[k].here, stream, copies[k].there, copies[k].length)
  }

  /** Whether what begins at `offset` of the capture is in the file: of its records, or a header copied ahead. */
  predicate IsKept(part: CapturePart, offset: nat) {
    offset >= part.streamOffset || exists k :: 0 <= k < |part.headerOffsets| && part.headerOffsets[k].0 == offset
  }

  lemma {:induction false} LookupFinds(pairs: seq<(nat, nat)>, key: nat)
    ensures Lookup(pairs, key).Some? <==> exists k :: 0 <= k < |pairs| && pairs[k].0 == key
    ensures Lookup(pairs, key).Some? ==> exists k :: 0 <= k < |pairs| && pairs[k] == (key, Lookup(pairs, key).value)
  {
    if pairs != [] {
      LookupFinds(pairs[1..], key);
      assert pairs == [pairs[0]] + pairs[1..];
      if pairs[0].0 == key {
        assert pairs[0] == (key, Lookup(pairs, key).value);
      }
    }
  }

  lemma KeptHasPlace(part: CapturePart, offset: nat)
    ensures FileOffset(part, offset).Some? <==> IsKept(part, offset)
  {
    LookupFinds(part.headerOffsets, offset);
  }

  /** A record of the capture that the file has begins, byte for byte, where FileOffset says. */
  lemma RecordsPlace(bytes: seq<Byte>, part: CapturePart, copies: seq<HeaderCopy>, stream: seq<Byte>, offset: nat, length: nat)
    requires IsWritten(bytes, part, copies, stream) && offset >= part.streamOffset
    requires offset + length <= part.streamOffset + (|bytes| - part.headerLength)
    ensures FileOffset(part, offset).Some? && IsSlice(bytes, FileOffset(part, offset).value, stream, offset, length)
  {
    var here, from := part.headerLength + (offset - part.streamOffset), offset - part.streamOffset;
    SliceWithin(bytes, part.headerLength, stream, part.streamOffset, |bytes| - part.headerLength, from, length);
  }

  lemma SliceWithin(bytes: seq<Byte>, here: nat, stream: seq<Byte>, there: nat, whole: nat, from: nat, length: nat)
    requires IsSlice(bytes, here, stream, there, whole) && from + length <= whole
    ensures IsSlice(bytes, here + from, stream, there + from, length)
  {
    SliceOfSlice(bytes, here, here + whole, from, from + length);
    SliceOfSlice(stream, there, there + whole, from, from + length);
  }

  /** And a header record copied ahead, all of it. */
  lemma HeadersPlace(bytes: seq<Byte>, part: CapturePart, copies: seq<HeaderCopy>, stream: seq<Byte>, offset: nat)
    requires IsWritten(bytes, part, copies, stream) && offset < part.streamOffset
    ensures FileOffset(part, offset).Some? <==> exists k :: 0 <= k < |copies| && copies[k].there == offset
    ensures FileOffset(part, offset).Some? ==>
              exists k :: 0 <= k < |copies| && copies[k].there == offset && copies[k].here == FileOffset(part, offset).value
                          && IsSlice(bytes, FileOffset(part, offset).value, stream, offset, copies[k].length)
  {
    hide IsSlice;
    LookupFinds(part.headerOffsets, offset);
    if FileOffset(part, offset).Some? {
      var k :| 0 <= k < |part.headerOffsets| && part.headerOffsets[k] == (offset, FileOffset(part, offset).value);
      assert copies[k].there == offset && copies[k].here == FileOffset(part, offset).value;
    }
    if k :| 0 <= k < |copies| && copies[k].there == offset {
      assert part.headerOffsets[k].0 == offset;
    }
  }

  // ── Which file has a packet ──

  /** Packets in files deleted since: the numbers up to this. */
  function RotatedAway(files: seq<CapturePart>): nat {
    if files == [] then 0 else files[0].packetsBefore
  }

  predicate InOrder(files: seq<CapturePart>) {
    forall i, j :: 0 <= i < j < |files| ==> files[i].packetsBefore <= files[j].packetsBefore
  }

  /** File `k` is the one with the packet: the last whose packets start before it. */
  predicate Holds(files: seq<CapturePart>, k: nat, number: nat) {
    k < |files| && files[k].packetsBefore < number && (k + 1 < |files| ==> number <= files[k + 1].packetsBefore)
  }

  /** Of files in order, one has each packet that is not rotated away, and none has one that is. */
  lemma HoldsOnce(files: seq<CapturePart>, number: nat)
    requires InOrder(files) && files != []
    ensures (exists k :: Holds(files, k, number)) <==> number > RotatedAway(files)
    ensures forall j, k :: Holds(files, j, number) && Holds(files, k, number) ==> j == k
  {
    if number > RotatedAway(files) {
      var k := 0;
      while k + 1 < |files| && files[k + 1].packetsBefore < number
        invariant k < |files| && files[k].packetsBefore < number
        decreases |files| - k
      {
        k := k + 1;
      }
      assert Holds(files, k, number);
    }
  }

  // ── Checkpoints ──

  /** The last checkpoint before the packet. */
  function NearestOf<S>(checkpoints: seq<Checkpoint<S>>, number: nat): Option<Checkpoint<S>> {
    if checkpoints == [] then None
    else if checkpoints[|checkpoints| - 1].packetsBefore < number then Some(checkpoints[|checkpoints| - 1])
    else NearestOf(checkpoints[..|checkpoints| - 1], number)
  }

  /** The checkpoint a packet of a file is read from: the nearest, if it lies after a packet of the file. */
  function ReadFrom<S>(checkpoints: seq<Checkpoint<S>>, part: CapturePart, number: nat): Option<Checkpoint<S>> {
    match NearestOf(checkpoints, number)
    case None => None
    case Some(c) => if c.packetsBefore > part.packetsBefore && c.offset >= part.streamOffset then Some(c) else None
  }

  /** The checkpoints without those at the start, in files rotated away. */
  function Kept<S>(checkpoints: seq<Checkpoint<S>>, rotatedAway: nat): seq<Checkpoint<S>> {
    if checkpoints == [] || checkpoints[0].packetsBefore > rotatedAway then checkpoints
    else Kept(checkpoints[1..], rotatedAway)
  }

  lemma {:induction false} KeptOnly<S>(checkpoints: seq<Checkpoint<S>>, rotatedAway: nat)
    ensures forall c :: c in Kept(checkpoints, rotatedAway) ==> c in checkpoints
  {
    if checkpoints != [] {
      KeptOnly(checkpoints[1..], rotatedAway);
    }
  }

  lemma {:induction false} NearestIn<S>(checkpoints: seq<Checkpoint<S>>, k: nat, number: nat)
    requires k <= |checkpoints| && forall i :: 0 <= i < |checkpoints| ==> (checkpoints[i].packetsBefore < number <==> i < k)
    ensures NearestOf(checkpoints, number) == if k == 0 then None else Some(checkpoints[k - 1])
  {
    if k < |checkpoints| {
      NearestIn(checkpoints[..|checkpoints| - 1], k, number);
    }
  }

  /** Dropping the checkpoints in files rotated away changes the reading of no packet kept. */
  lemma {:induction false} DroppingChangesNoRead<S>(checkpoints: seq<Checkpoint<S>>, part: CapturePart, number: nat, rotatedAway: nat)
    requires rotatedAway <= part.packetsBefore
    ensures ReadFrom(Kept(checkpoints, rotatedAway), part, number) == ReadFrom(checkpoints, part, number)
  {
    if checkpoints != [] && checkpoints[0].packetsBefore <= rotatedAway {
      FirstMattersNot(checkpoints, part, number);
      DroppingChangesNoRead(checkpoints[1..], part, number, rotatedAway);
    }
  }

  lemma {:induction false} FirstMattersNot<S>(checkpoints: seq<Checkpoint<S>>, part: CapturePart, number: nat)
    requires checkpoints != [] && checkpoints[0].packetsBefore <= part.packetsBefore
    ensures ReadFrom(checkpoints[1..], part, number) == ReadFrom(checkpoints, part, number)
  {
    var n := |checkpoints| - 1;
    if n > 0 && checkpoints[n].packetsBefore >= number {
      assert checkpoints[1..][..n - 1] == checkpoints[..n][1..];
      FirstMattersNot(checkpoints[..n], part, number);
    }
  }

  /** Every checkpoint lies `interval` packets behind the one before it, the first behind `base`. */
  ghost predicate Spaced<S>(checkpoints: seq<Checkpoint<S>>, base: nat, interval: nat) {
    && (forall i, j :: 0 <= i < j < |checkpoints| ==> checkpoints[i].packetsBefore < checkpoints[j].packetsBefore)
    && (checkpoints != [] ==> checkpoints[0].packetsBefore == base + interval)
    && forall i, j :: 0 <= i < j < |checkpoints| && j == i + 1 ==>
         checkpoints[j].packetsBefore == checkpoints[i].packetsBefore + interval
  }

  ghost function Last<S>(checkpoints: seq<Checkpoint<S>>, base: nat): nat {
    if checkpoints == [] then base else checkpoints[|checkpoints| - 1].packetsBefore
  }

  lemma SpacedMore<S>(checkpoints: seq<Checkpoint<S>>, base: nat, interval: nat, next: Checkpoint<S>)
    requires Spaced(checkpoints, base, interval) && next.packetsBefore == Last(checkpoints, base) + interval && interval > 0
    ensures Spaced(checkpoints + [next], base, interval)
  {
  }

  lemma SpacedRest<S>(checkpoints: seq<Checkpoint<S>>, base: nat, interval: nat)
    requires Spaced(checkpoints, base, interval) && checkpoints != []
    ensures Spaced(checkpoints[1..], checkpoints[0].packetsBefore, interval)
    ensures Last(checkpoints[1..], checkpoints[0].packetsBefore) == Last(checkpoints, base)
  {
  }

  /** The checkpoint a packet is read from lies at most an interval before it, or its file's start does. */
  lemma ReadFromIsNear<S>(checkpoints: seq<Checkpoint<S>>, base: nat, interval: nat, packets: nat, part: CapturePart, number: nat)
    requires Spaced(checkpoints, base, interval) && base <= part.packetsBefore < number <= packets
    requires packets < Last(checkpoints, base) + interval
    requires forall c :: c in checkpoints && c.packetsBefore > part.packetsBefore ==> c.offset >= part.streamOffset
    ensures var c := ReadFrom(checkpoints, part, number);
            if c.Some? then c.value in checkpoints && part.packetsBefore < c.value.packetsBefore < number <= c.value.packetsBefore + interval
            else number <= part.packetsBefore + interval
  {
    var k := 0;
    while k < |checkpoints| && checkpoints[k].packetsBefore < number
      invariant k <= |checkpoints| && forall i :: 0 <= i < k ==> checkpoints[i].packetsBefore < number
    {
      k := k + 1;
    }
    NearestIn(checkpoints, k, number);
    if k > 0 {
      assert checkpoints[k - 1] in checkpoints;
    }
  }

  class CaptureIndex<S> {
    const interval: nat
    var packets: nat
    var checkpoints: seq<Checkpoint<S>>
    var files: seq<CapturePart>
    /** The packets before the last checkpoint dropped, or 0. */
    ghost var base: nat

    /** There is a checkpoint behind every interval-th packet, from the first file kept on. */
    ghost predicate Valid()
      reads this
    {
      && interval > 0 && InOrder(files) && base <= RotatedAway(files)
      && Spaced(checkpoints, base, interval)
      && Last(checkpoints, base) <= packets < Last(checkpoints, base) + interval && Last(checkpoints, base) % interval == 0
    }

    /** The packets noted and their checkpoints are the capture's. */
    ghost predicate Notes<R(!new), P>(format: Format<S, R, P>, capture: Capture<S, R>)
      reads this
    {
      packets <= |capture.records|
      && forall c :: c in checkpoints ==> IsPlace(format, capture, c)
    }

    constructor (interval: nat)
      ensures Valid() && this.interval == (if interval > 1 then interval else 1)
      ensures packets == 0 && checkpoints == [] && files == []
    {
      this.interval := if interval > 1 then interval else 1;
      packets, checkpoints, files, base := 0, [], [], 0;
    }

    /** Note the reader's place behind the packet it returned. */
    method Note(place: Checkpoint<S>)
      requires Valid() && place.packetsBefore == packets + 1
      modifies this`packets, this`checkpoints
      ensures Valid() && packets == place.packetsBefore
      ensures checkpoints == old(checkpoints) + if packets % interval == 0 then [place] else []
    {
      ghost var last := Last(checkpoints, base);
      MultipleOnce(last, packets + 1 - last, interval);
      packets := place.packetsBefore;
      if packets % interval == 0 {
        SpacedMore(checkpoints, base, interval, place);
        checkpoints := checkpoints + [place];
      }
    }

    /** Remember the capture's files, those before them rotated away for good. */
    method SetCaptureParts(parts: seq<CapturePart>)
      requires Valid() && InOrder(parts) && RotatedAway(files) <= RotatedAway(parts) <= packets
      modifies this`files, this`checkpoints, this`base
      ensures Valid() && files == parts && checkpoints == Kept(old(checkpoints), RotatedAway(parts))
    {
      files := parts;
      if files != [] && files[0].packetsBefore > 0 {
        var rotatedAway := files[0].packetsBefore;
        while checkpoints != [] && checkpoints[0].packetsBefore <= rotatedAway
          invariant Valid() && files == parts && RotatedAway(files) == rotatedAway
          invariant Kept(checkpoints, rotatedAway) == Kept(old(checkpoints), rotatedAway)
          decreases |checkpoints|
        {
          SpacedRest(checkpoints, base, interval);
          base := checkpoints[0].packetsBefore;
          checkpoints := checkpoints[1..];
        }
      } else {
        assert checkpoints != [] ==> checkpoints[0].packetsBefore > 0;
      }
    }

    /** The last checkpoint before the packet. */
    method Nearest(number: nat) returns (nearest: Option<Checkpoint<S>>)
      requires Valid()
      ensures nearest == NearestOf(checkpoints, number)
    {
      var low, high := 0, |checkpoints|;
      while low < high
        invariant low <= high <= |checkpoints|
        invariant forall i :: 0 <= i < low ==> checkpoints[i].packetsBefore < number
        invariant forall i :: high <= i < |checkpoints| ==> checkpoints[i].packetsBefore >= number
      {
        var middle := (low + high) / 2;
        if checkpoints[middle].packetsBefore < number {
          low := middle + 1;
        } else {
          high := middle;
        }
      }
      NearestIn(checkpoints, low, number);
      return if low == 0 then None else Some(checkpoints[low - 1]);
    }

    /** The file a packet is in: the only one, and none for a packet rotated away or not read yet. */
    method FileOf(number: nat) returns (file: Option<nat>)
      requires Valid()
      ensures file.Some? <==> files != [] && RotatedAway(files) < number <= packets
      ensures file.Some? ==> Holds(files, file.value, number)
    {
      if number <= RotatedAway(files) || number > packets {
        return None;
      }
      var low, high := 0, |files|;
      while low < high
        invariant low <= high <= |files|
        invariant forall i :: 0 <= i < low ==> files[i].packetsBefore < number
        invariant forall i :: high <= i < |files| ==> files[i].packetsBefore >= number
      {
        var middle := (low + high) / 2;
        if files[middle].packetsBefore < number {
          low := middle + 1;
        } else {
          high := middle;
        }
      }
      return if low == 0 then None else Some(low - 1);
    }
  }

  /** A place in the capture from which a reader goes on. */
  ghost predicate IsPlace<S, R, P>(format: Format<S, R, P>, capture: Capture<S, R>, checkpoint: Checkpoint<S>) {
    && checkpoint.packetsBefore <= |capture.records|
    && checkpoint.offset == Start(format, capture, checkpoint.packetsBefore)
    && checkpoint.state == StateAfter(format, capture.initial, capture.records[..checkpoint.packetsBefore])
  }

  /** Of the numbers up to one interval behind a multiple of it, only the last is another. */
  lemma MultipleOnce(last: nat, d: nat, interval: nat)
    requires 0 < d <= interval && last % interval == 0
    ensures (last + d) % interval == 0 <==> d == interval
  {
    var q := last / interval;
    assert last == q * interval;
    if d < interval {
      Remainder(q, interval, d);
    } else {
      assert (q + 1) * interval == last + interval;
      Remainder(q + 1, interval, 0);
    }
  }
}
