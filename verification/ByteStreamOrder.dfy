/** Putting the segments of one direction of a TCP stream in sequence order
  * (src/byte_stream_orderer.h, src/byte_stream_orderer.cpp). */
module ByteStreamOrder {
  import opened Options

  const Modulus := 0x1_0000_0000
  const Half := 0x8000_0000

  /** A TCP sequence number: a position in the stream, modulo 2^32 (section 3.4 of RFC 9293). */
  type SequenceNumber = n: nat | n < Modulus

  /** How far `a` is after `b`: negative if before. */
  function SeqAfter(a: SequenceNumber, b: SequenceNumber): int {
    var difference := (a - b) % Modulus;
    if difference < Half then difference else difference - Modulus
  }

  /** The sequence number of a position of the stream that begins at `start`. */
  function SeqOf(start: SequenceNumber, position: nat): SequenceNumber {
    (start + position) % Modulus
  }

  /** Within 2^31 of each other, sequence numbers are as far apart as the positions. */
  lemma SeqAfterPositions(start: SequenceNumber, x: nat, p: nat)
    requires -Half <= x - p < Half
    ensures SeqAfter(SeqOf(start, x), SeqOf(start, p)) == x - p
  {
    var k := (start + x) / Modulus - (start + p) / Modulus;
    ModulusOnce(x - p, k, SeqOf(start, x) - SeqOf(start, p));
  }

  /** Numbers that differ by a multiple of the modulus have the same remainder. */
  lemma ModulusOnce(a: int, k: int, b: int)
    requires b == a - k * Modulus && -Modulus < a < Modulus && -Modulus < b < Modulus
    ensures b % Modulus == if a >= 0 then a else a + Modulus
  {
    assert -2 < k < 2;
  }

  /** The position a sequence number stands for, seen from position `p`. */
  lemma SeqOfPosition(start: SequenceNumber, number: SequenceNumber, p: nat)
    requires p + SeqAfter(number, SeqOf(start, p)) >= 0
    ensures SeqOf(start, p + SeqAfter(number, SeqOf(start, p))) == number
  {
    var ahead, k := SeqAfter(number, SeqOf(start, p)), (start + p) / Modulus;
    assert number == SeqOf(start, p) + ahead || number == SeqOf(start, p) + ahead + Modulus || number == SeqOf(start, p) + ahead - Modulus;
    assert start + p == k * Modulus + SeqOf(start, p);
  }

  lemma SeqAfterItself(a: SequenceNumber)
    ensures SeqAfter(a, a) == 0
  {
  }

  /** Of two numbers less than 2^31 after a third, the order is that of the distances. */
  lemma SeqAfterOrders(a: SequenceNumber, b: SequenceNumber, n: SequenceNumber)
    requires SeqAfter(a, n) > 0 && SeqAfter(b, n) > 0
    ensures SeqAfter(a, b) == SeqAfter(a, n) - SeqAfter(b, n)
  {
  }

  /** A segment that came before the bytes ahead of it. */
  datatype EarlySegment = EarlySegment(number: SequenceNumber, bytes: seq<bv8>)

  datatype Fit = Next | Early | Taken

  datatype Place = Place(fit: Fit, overlap: nat)

  function TotalBytes(early: seq<EarlySegment>): nat {
    if early == [] then 0 else TotalBytes(early[..|early| - 1]) + |early[|early| - 1].bytes|
  }

  // ── Popping the held segment that is next ──

  predicate IsDue(segment: EarlySegment, nextSeq: SequenceNumber) {
    SeqAfter(segment.number, nextSeq) <= 0
  }

  /** The bytes at the segment's start that were taken already, of one that is due. */
  function Overlap(segment: EarlySegment, nextSeq: SequenceNumber): nat
    requires IsDue(segment, nextSeq)
  {
    -SeqAfter(segment.number, nextSeq)
  }

  /** The first segment that is due. */
  function FirstDue(early: seq<EarlySegment>, nextSeq: SequenceNumber): (k: nat)
    ensures k <= |early| && forall i :: 0 <= i < k ==> !IsDue(early[i], nextSeq)
    ensures k < |early| ==> IsDue(early[k], nextSeq)
  {
    if early == [] || IsDue(early[0], nextSeq) then 0
    else 1 + FirstDue(early[1..], nextSeq)
  }

  function Without(early: seq<EarlySegment>, k: nat): seq<EarlySegment>
    requires k < |early|
  {
    early[..k] + early[k + 1..]
  }

  /** What popping gives: the next bytes, if a held segment has them, and what is held then. */
  datatype Popped = Popped(bytes: Option<seq<bv8>>, early: seq<EarlySegment>)

  function Pop(nextSeq: SequenceNumber, early: seq<EarlySegment>): Popped
    decreases |early|
  {
    var k := FirstDue(early, nextSeq);
    if k == |early| then Popped(None, early)
    else
      var overlap := Overlap(early[k], nextSeq);
      if overlap < |early[k].bytes| then Popped(Some(early[k].bytes[overlap..]), Without(early, k))
      else Pop(nextSeq, Without(early, k))
  }

  /** Where scanning from the start stops, if no segment before `k` is due. */
  lemma {:induction false} FirstDueAt(early: seq<EarlySegment>, nextSeq: SequenceNumber, k: nat)
    requires k < |early| && IsDue(early[k], nextSeq) && forall i :: 0 <= i < k ==> !IsDue(early[i], nextSeq)
    ensures FirstDue(early, nextSeq) == k
  {
    if k > 0 {
      FirstDueAt(early[1..], nextSeq, k - 1);
    }
  }

  class ByteStreamOrderer {
    var nextSeq: SequenceNumber
    var early: seq<EarlySegment>

    constructor (nextSeq: SequenceNumber)
      ensures this.nextSeq == nextSeq && early == []
    {
      this.nextSeq := nextSeq;
      early := [];
    }

    method Reset(nextSeq: SequenceNumber)
      modifies this
      ensures this.nextSeq == nextSeq && early == []
    {
      this.nextSeq := nextSeq;
      early := [];
    }

    /** Where a segment lies against the bytes taken. */
    method PlaceOf(number: SequenceNumber, length: nat) returns (place: Place)
      ensures place.fit.Early? <==> SeqAfter(number, nextSeq) > 0
      ensures place.fit.Next? <==> -(length as int) < SeqAfter(number, nextSeq) <= 0
      ensures place.fit.Next? ==> SeqAfter(number, nextSeq) + place.overlap == 0 && place.overlap < length
    {
      var ahead := SeqAfter(number, nextSeq);
      if ahead > 0 {
        return Place(Early, 0);
      }
      if ahead + length <= 0 {
        return Place(Taken, 0);
      }
      return Place(Next, -ahead);
    }

    /** The caller took `length` bytes at nextSeq. */
    method Advance(length: nat)
      modifies this`nextSeq
      ensures nextSeq == SeqOf(old(nextSeq), length)
    {
      nextSeq := (nextSeq + length) % Modulus;
    }

    method Holds(number: SequenceNumber, length: nat) returns (held: bool)
      ensures held <==> exists segment :: segment in early && segment.number == number && |segment.bytes| >= length
    {
      for k := 0 to |early|
        invariant forall i :: 0 <= i < k ==> !(early[i].number == number && |early[i].bytes| >= length)
      {
        if early[k].number == number && |early[k].bytes| >= length {
          return true;
        }
      }
      return false;
    }

    method HoldEarly(number: SequenceNumber, bytes: seq<bv8>)
      modifies this`early
      ensures early == old(early) + [EarlySegment(number, bytes)]
    {
      early := early + [EarlySegment(number, bytes)];
    }

    /** Pop a held segment that is next now. */
    method PopNext() returns (bytes: Option<seq<bv8>>)
      modifies this`early
      ensures Popped(bytes, early) == Pop(nextSeq, old(early))
    {
      var it := 0;
      while it < |early|
        invariant it <= |early| && forall i :: 0 <= i < it ==> !IsDue(early[i], nextSeq)
        invariant Pop(nextSeq, early) == Pop(nextSeq, old(early))
        decreases |early|, |early| - it
      {
        var ahead := SeqAfter(early[it].number, nextSeq);
        if ahead > 0 {
          it := it + 1;
          continue;
        }
        FirstDueAt(early, nextSeq, it);
        var segment := early[it];
        early := early[..it] + early[it + 1..];
        var overlap := -ahead;
        if overlap < |segment.bytes| {
          return Some(segment.bytes[overlap..]);
        }
        it := 0; // all taken already: look again from the start
      }
      return None;
    }

    /** The held segment that comes first, however the numbers wrap around: of segments that all
      * begin after nextSeq, as they do once no held one is next. */
    method FirstEarlySeq() returns (first: Option<SequenceNumber>)
      ensures first == None <==> early == []
      ensures first.Some? ==> exists segment :: segment in early && segment.number == first.value
      ensures first.Some? && (forall segment :: segment in early ==> !IsDue(segment, nextSeq)) ==>
              forall segment :: segment in early ==> SeqAfter(first.value, nextSeq) <= SeqAfter(segment.number, nextSeq)
    {
      first := None;
      ghost var ahead := forall segment :: segment in early ==> !IsDue(segment, nextSeq);
      for k := 0 to |early|
        invariant first == None <==> k == 0
        invariant first.Some? ==> exists i :: 0 <= i < k && early[i].number == first.value
        invariant ahead && first.Some? ==>
                  forall i :: 0 <= i < k ==> SeqAfter(first.value, nextSeq) <= SeqAfter(early[i].number, nextSeq)
      {
        var number := early[k].number;
        assert early[k] in early;
        if ahead && first.Some? {
          var i :| 0 <= i < k && early[i].number == first.value;
          assert early[i] in early;
          SeqAfterOrders(number, first.value, nextSeq);
        }
        if first == None || SeqAfter(number, first.value) < 0 {
          first := Some(number);
        }
      }
    }

    /** Skip the bytes up to `number`, which never came: how many those are. */
    method SkipTo(number: SequenceNumber) returns (skipped: nat)
      modifies this`nextSeq
      ensures skipped == if SeqAfter(number, old(nextSeq)) > 0 then SeqAfter(number, old(nextSeq)) else 0
      ensures nextSeq == SeqOf(old(nextSeq), skipped)
      ensures skipped > 0 ==> nextSeq == number
    {
      var ahead := SeqAfter(number, nextSeq);
      if ahead <= 0 {
        return 0;
      }
      SeqOfPosition(nextSeq, number, 0);
      nextSeq := number;
      return ahead;
    }

    method EarlyBytes() returns (bytes: nat)
      ensures bytes == TotalBytes(early)
    {
      bytes := 0;
      for k := 0 to |early|
        invariant bytes == TotalBytes(early[..k])
      {
        assert early[..k + 1][..k] == early[..k];
        bytes := bytes + |early[k].bytes|;
      }
      assert early[..|early|] == early;
    }
  }
}
