/** Reading the content of one direction of a TCP stream (src/stream_content.cpp): the client of
  * the Byte Stream Orderer, which hands out the bytes in order and a gap for those that never came. */
module StreamContent {
  import opened Options
  import opened ByteStreamOrder

  /** A piece of the content: bytes of the stream, or how many the capture lacks. */
  datatype Chunk = Bytes(bytes: seq<bv8>) | Gap(missing: nat)

  function Size(chunk: Chunk): nat {
    match chunk
    case Bytes(bytes) => |bytes|
    case Gap(missing) => missing
  }

  function Extent(chunks: seq<Chunk>): nat {
    if chunks == [] then 0 else Extent(chunks[..|chunks| - 1]) + Size(chunks[|chunks| - 1])
  }

  /** Every byte handed out is that of the stream at its place. */
  ghost predicate Tells(chunks: seq<Chunk>, stream: seq<bv8>) {
    chunks != [] ==>
      var rest, last := chunks[..|chunks| - 1], chunks[|chunks| - 1];
      Tells(rest, stream) && (last.Bytes? ==> IsPart(last.bytes, stream, Extent(rest)))
  }

  ghost predicate IsPart(bytes: seq<bv8>, stream: seq<bv8>, position: nat) {
    position + |bytes| <= |stream| && bytes == stream[position..position + |bytes|]
  }

  /** The positions of the gaps. */
  ghost function Skipped(chunks: seq<Chunk>): iset<nat> {
    if chunks == [] then iset{}
    else
      var rest, last := chunks[..|chunks| - 1], chunks[|chunks| - 1];
      Skipped(rest) + if last.Gap? then Span(Extent(rest), last.missing) else iset{}
  }

  ghost function Span(position: nat, length: nat): iset<nat> {
    iset y: nat | Lies(y, position, length)
  }

  predicate Lies(y: nat, position: int, length: nat) {
    position <= y < position + length
  }

  predicate Gapless(chunks: seq<Chunk>) {
    forall chunk :: chunk in chunks ==> chunk.Bytes?
  }

  function Delivered(chunks: seq<Chunk>): seq<bv8>
    requires Gapless(chunks)
  {
    if chunks == [] then [] else Delivered(chunks[..|chunks| - 1]) + chunks[|chunks| - 1].bytes
  }

  /** A segment that the capture has: so many bytes of the stream from a position on. */
  datatype Offer = Offer(position: nat, length: nat)

  ghost function Offered(offers: seq<Offer>): iset<nat> {
    iset y: nat | IsOffered(offers, y)
  }

  ghost predicate IsOffered(offers: seq<Offer>, y: nat) {
    exists offer :: offer in offers && Lies(y, offer.position, offer.length)
  }

  // ── Where held segments lie ──

  /** The position of a held segment, seen from the position of nextSeq. */
  ghost function PositionOf(segment: EarlySegment, start: SequenceNumber, p: nat): int {
    p + SeqAfter(segment.number, SeqOf(start, p))
  }

  /** The segment holds bytes of the stream, from after `low` up to 2^31 past it. */
  ghost predicate Fits(segment: EarlySegment, stream: seq<bv8>, start: SequenceNumber, p: nat, low: nat) {
    var x := PositionOf(segment, start, p);
    low < x && x + |segment.bytes| <= low + Half && segment.bytes != [] && IsPart(segment.bytes, stream, x)
  }

  ghost predicate AllFit(early: seq<EarlySegment>, stream: seq<bv8>, start: SequenceNumber, p: nat, low: nat) {
    forall segment :: segment in early ==> Fits(segment, stream, start, p, low)
  }

  ghost predicate HoldsByte(early: seq<EarlySegment>, start: SequenceNumber, p: nat, y: nat) {
    exists segment :: segment in early && Lies(y, PositionOf(segment, start, p), |segment.bytes|)
  }

  /** The positions that were taken, skipped or are held. */
  ghost function Reached(early: seq<EarlySegment>, start: SequenceNumber, p: nat): iset<nat> {
    iset y: nat | y < p || HoldsByte(early, start, p, y)
  }

  lemma PositionStays(segment: EarlySegment, start: SequenceNumber, p: nat, q: nat)
    requires 0 <= PositionOf(segment, start, p) && -Half <= PositionOf(segment, start, p) - q < Half
    ensures PositionOf(segment, start, q) == PositionOf(segment, start, p)
  {
    SeqOfPosition(start, segment.number, p);
    SeqAfterPositions(start, PositionOf(segment, start, p), q);
  }

  /** As bytes are taken, the held segments stay where they are. */
  lemma AllStay(early: seq<EarlySegment>, stream: seq<bv8>, start: SequenceNumber, p: nat, q: nat, low: nat)
    requires AllFit(early, stream, start, p, low) && low <= p && low <= q <= low + Half
    ensures AllFit(early, stream, start, q, low)
    ensures forall segment :: segment in early ==> PositionOf(segment, start, q) == PositionOf(segment, start, p)
    ensures forall y: nat :: HoldsByte(early, start, q, y) <==> HoldsByte(early, start, p, y)
  {
    forall segment | segment in early
      ensures PositionOf(segment, start, q) == PositionOf(segment, start, p)
    {
      assert Fits(segment, stream, start, p, low);
      PositionStays(segment, start, p, q);
    }
    forall segment | segment in early
      ensures Fits(segment, stream, start, q, low)
    {
      assert Fits(segment, stream, start, p, low);
    }
  }

  // ── Popping ──

  lemma HeldWithout(early: seq<EarlySegment>, k: nat, segment: EarlySegment)
    requires k < |early|
    ensures segment in early <==> segment == early[k] || segment in Without(early, k)
  {
    assert early == early[..k] + [early[k]] + early[k + 1..];
  }

  lemma WithoutFits(early: seq<EarlySegment>, k: nat, stream: seq<bv8>, start: SequenceNumber, p: nat, low: nat)
    requires AllFit(early, stream, start, p, low) && k < |early|
    ensures Fits(early[k], stream, start, p, low) && AllFit(Without(early, k), stream, start, p, low)
    ensures forall y: nat :: HoldsByte(early, start, p, y) <==>
              Lies(y, PositionOf(early[k], start, p), |early[k].bytes|) || HoldsByte(Without(early, k), start, p, y)
  {
    forall segment
      ensures segment in early <==> segment == early[k] || segment in Without(early, k)
    {
      HeldWithout(early, k, segment);
    }
  }

  /** What popping gives, of segments that fit. */
  ghost predicate PoppedFits(popped: Popped, early: seq<EarlySegment>, stream: seq<bv8>, start: SequenceNumber, p: nat, low: nat) {
    match popped.bytes
    case None => AllFit(popped.early, stream, start, p, p) && AllFit(popped.early, stream, start, p, low)
                 && Reached(popped.early, start, p) == Reached(early, start, p)
    case Some(bytes) =>
      var q := p + |bytes|;
      && bytes != [] && q <= low + Half && IsPart(bytes, stream, p)
      && AllFit(popped.early, stream, start, q, low) && Reached(popped.early, start, q) == Reached(early, start, p)
  }

  /** Of segments that fit, popping gives the bytes at the position, and what it drops was taken. */
  lemma {:induction false} PopFits(early: seq<EarlySegment>, stream: seq<bv8>, start: SequenceNumber, p: nat, low: nat)
    requires AllFit(early, stream, start, p, low) && low <= p <= low + Half
    ensures PoppedFits(Pop(SeqOf(start, p), early), early, stream, start, p, low)
    decreases |early|
  {
    hide Reached, Fits, IsPart, SeqOf;
    var nextSeq := SeqOf(start, p);
    var k := FirstDue(early, nextSeq);
    if k < |early| {
      WithoutFits(early, k, stream, start, p, low);
      var overlap := Overlap(early[k], nextSeq);
      if overlap < |early[k].bytes| {
        DueFits(early, k, stream, start, p, low);
      } else {
        TakenIsReached(early, k, stream, start, p, low);
        PopFits(Without(early, k), stream, start, p, low);
      }
    } else {
      NoneDueFits(early, stream, start, p, low);
    }
  }

  /** A held segment whose bytes were all taken holds nothing else. */
  lemma TakenIsReached(early: seq<EarlySegment>, k: nat, stream: seq<bv8>, start: SequenceNumber, p: nat, low: nat)
    requires AllFit(early, stream, start, p, low) && k < |early|
    requires PositionOf(early[k], start, p) + |early[k].bytes| <= p
    ensures Reached(Without(early, k), start, p) == Reached(early, start, p)
  {
    WithoutFits(early, k, stream, start, p, low);
  }

  lemma DueFits(early: seq<EarlySegment>, k: nat, stream: seq<bv8>, start: SequenceNumber, p: nat, low: nat)
    requires AllFit(early, stream, start, p, low) && low <= p <= low + Half && k < |early|
    requires IsDue(early[k], SeqOf(start, p)) && Overlap(early[k], SeqOf(start, p)) < |early[k].bytes|
    ensures PoppedFits(Popped(Some(early[k].bytes[Overlap(early[k], SeqOf(start, p))..]), Without(early, k)),
                       early, stream, start, p, low)
  {
    WithoutFits(early, k, stream, start, p, low);
    var x, n := PositionOf(early[k], start, p), |early[k].bytes|;
    AllStay(Without(early, k), stream, start, p, x + n, low);
    assert Reached(Without(early, k), start, x + n) == Reached(early, start, p);
  }

  lemma NoneDueFits(early: seq<EarlySegment>, stream: seq<bv8>, start: SequenceNumber, p: nat, low: nat)
    requires AllFit(early, stream, start, p, low) && low <= p
    requires forall segment :: segment in early ==> !IsDue(segment, SeqOf(start, p))
    ensures AllFit(early, stream, start, p, p)
  {
    forall segment | segment in early
      ensures Fits(segment, stream, start, p, p)
    {
      assert Fits(segment, stream, start, p, low);
    }
  }

  lemma {:induction false} TotalWithout(early: seq<EarlySegment>, k: nat)
    requires k < |early|
    ensures TotalBytes(early) == TotalBytes(Without(early, k)) + |early[k].bytes|
  {
    var n := |early| - 1;
    if k < n {
      TotalWithout(early[..n], k);
      assert Without(early, k)[..n - 1] == Without(early[..n], k);
    } else {
      assert Without(early, k) == early[..n];
    }
  }

  /** Popping drops every segment that is due, or one that has the next bytes. */
  lemma {:induction false} PopShrinks(nextSeq: SequenceNumber, early: seq<EarlySegment>)
    ensures var popped := Pop(nextSeq, early);
            && |popped.early| <= |early| && TotalBytes(popped.early) <= TotalBytes(early)
            && (popped.bytes.Some? || (exists segment :: segment in early && IsDue(segment, nextSeq)) ==> |popped.early| < |early|)
            && (popped.bytes == None ==> forall segment :: segment in popped.early ==> !IsDue(segment, nextSeq))
    decreases |early|
  {
    var k := FirstDue(early, nextSeq);
    if k < |early| {
      TotalWithout(early, k);
      PopShrinks(nextSeq, Without(early, k));
    }
  }

  // ── The reader ──

  /** The bytes of a segment are those of the stream at a position within 2^31 of `p`. */
  ghost predicate InWindow(offer: Offer, p: nat) {
    p <= offer.position + Half && offer.position + offer.length <= p + Half
  }

  lemma AppendChunk(chunks: seq<Chunk>, chunk: Chunk, stream: seq<bv8>)
    ensures Extent(chunks + [chunk]) == Extent(chunks) + Size(chunk)
    ensures Tells(chunks + [chunk], stream) <==> Tells(chunks, stream) && (chunk.Bytes? ==> IsPart(chunk.bytes, stream, Extent(chunks)))
    ensures Skipped(chunks + [chunk]) == Skipped(chunks) + if chunk.Gap? then Span(Extent(chunks), chunk.missing) else iset{}
    ensures Gapless(chunks + [chunk]) <==> Gapless(chunks) && chunk.Bytes?
  {
    assert (chunks + [chunk])[..|chunks|] == chunks;
    assert chunk in chunks + [chunk];
  }

  lemma SeqOfSum(start: SequenceNumber, p: nat, n: nat)
    ensures SeqOf(SeqOf(start, p), n) == SeqOf(start, p + n)
  {
  }

  /** The bytes handed out are the stream's, and those held lie after `low`. */
  ghost predicate InOrder(chunks: seq<Chunk>, early: seq<EarlySegment>, stream: seq<bv8>, start: SequenceNumber, low: nat) {
    Tells(chunks, stream) && low <= Extent(chunks) <= low + Half && AllFit(early, stream, start, Extent(chunks), low)
  }

  /** Popping the next bytes and handing them out. */
  lemma PopInOrder(chunks: seq<Chunk>, early: seq<EarlySegment>, stream: seq<bv8>, start: SequenceNumber, low: nat)
    requires InOrder(chunks, early, stream, start, low)
    ensures var popped := Pop(SeqOf(start, Extent(chunks)), early);
            var chunks' := if popped.bytes.Some? then chunks + [Bytes(popped.bytes.value)] else chunks;
            && InOrder(chunks', popped.early, stream, start, low)
            && (popped.bytes == None ==> InOrder(chunks', popped.early, stream, start, Extent(chunks')))
            && Reached(popped.early, start, Extent(chunks')) == Reached(early, start, Extent(chunks))
            && Skipped(chunks') == Skipped(chunks)
  {
    hide Reached, AllFit, Pop;
    PopFits(early, stream, start, Extent(chunks), low);
    var popped := Pop(SeqOf(start, Extent(chunks)), early);
    if popped.bytes.Some? {
      AppendChunk(chunks, Bytes(popped.bytes.value), stream);
    }
  }

  /** Skipping bytes that never came, up to 2^31 past `low`. */
  lemma GapInOrder(chunks: seq<Chunk>, early: seq<EarlySegment>, stream: seq<bv8>, start: SequenceNumber, low: nat, gap: nat)
    requires InOrder(chunks, early, stream, start, low) && Extent(chunks) + gap <= low + Half
    ensures var p := Extent(chunks);
            && InOrder(chunks + [Gap(gap)], early, stream, start, low)
            && Reached(early, start, p + gap) == Reached(early, start, p) + Span(p, gap)
            && Skipped(chunks + [Gap(gap)]) == Skipped(chunks) + Span(p, gap) && Extent(chunks + [Gap(gap)]) == p + gap
  {
    AppendChunk(chunks, Gap(gap), stream);
    AllStay(early, stream, start, Extent(chunks), Extent(chunks) + gap, low);
  }

  /** Taking bytes that are next. */
  lemma TakeInOrder(chunks: seq<Chunk>, early: seq<EarlySegment>, stream: seq<bv8>, start: SequenceNumber, bytes: seq<bv8>)
    requires InOrder(chunks, early, stream, start, Extent(chunks)) && IsPart(bytes, stream, Extent(chunks)) && |bytes| <= Half
    ensures var p := Extent(chunks);
            && InOrder(chunks + [Bytes(bytes)], early, stream, start, p)
            && Reached(early, start, p + |bytes|) == Reached(early, start, p) + Span(p, |bytes|)
            && Skipped(chunks + [Bytes(bytes)]) == Skipped(chunks) && Extent(chunks + [Bytes(bytes)]) == p + |bytes|
  {
    AppendChunk(chunks, Bytes(bytes), stream);
    AllStay(early, stream, start, Extent(chunks), Extent(chunks) + |bytes|, Extent(chunks));
  }

  /** Holding a segment that came early. */
  lemma HoldInOrder(chunks: seq<Chunk>, early: seq<EarlySegment>, stream: seq<bv8>, start: SequenceNumber, segment: EarlySegment)
    requires InOrder(chunks, early, stream, start, Extent(chunks)) && Fits(segment, stream, start, Extent(chunks), Extent(chunks))
    ensures InOrder(chunks, early + [segment], stream, start, Extent(chunks))
    ensures Reached(early + [segment], start, Extent(chunks))
            == Reached(early, start, Extent(chunks)) + Span(PositionOf(segment, start, Extent(chunks)), |segment.bytes|)
  {
    var p := Extent(chunks);
    forall y: nat
      ensures HoldsByte(early + [segment], start, p, y) <==>
              HoldsByte(early, start, p, y) || Lies(y, PositionOf(segment, start, p), |segment.bytes|)
    {
      assert segment in early + [segment];
      if HoldsByte(early, start, p, y) {
        var other :| other in early && Lies(y, PositionOf(other, start, p), |other.bytes|);
        assert other in early + [segment];
      }
    }
  }

  lemma OfferMore(offers: seq<Offer>, offer: Offer)
    ensures Offered(offers + [offer]) == Offered(offers) + Span(offer.position, offer.length)
  {
    forall y: nat
      ensures IsOffered(offers + [offer], y) <==> IsOffered(offers, y) || Lies(y, offer.position, offer.length)
    {
      assert offer in offers + [offer];
      if IsOffered(offers, y) {
        var other :| other in offers && Lies(y, other.position, other.length);
        assert other in offers + [offer];
      }
    }
  }

  /** Where the Orderer places a segment of the stream is where it lies. */
  lemma PlacedAt(start: SequenceNumber, offer: Offer, p: nat)
    requires InWindow(offer, p) && offer.length > 0
    ensures SeqAfter(SeqOf(start, offer.position), SeqOf(start, p)) == offer.position - p
  {
    SeqAfterPositions(start, offer.position, p);
  }

  lemma PartBehind(payload: seq<bv8>, stream: seq<bv8>, position: nat, overlap: nat)
    requires IsPart(payload, stream, position) && overlap <= |payload|
    ensures IsPart(payload[overlap..], stream, position + overlap)
  {
  }

  // ── Gaps ──

  /** How far `number` is ahead of nextSeq, or 0. */
  function Ahead(number: SequenceNumber, nextSeq: SequenceNumber): nat {
    if SeqAfter(number, nextSeq) > 0 then SeqAfter(number, nextSeq) else 0
  }

  /** What was skipped since is none of what was known before: bytes that never came. */
  ghost predicate SkipsMissing(before: iset<nat>, now: iset<nat>, known: iset<nat>) {
    before <= now && forall y: nat :: y in now && y !in before ==> y !in known
  }

  /** What was skipped since comes before something known: it is no end of the stream. */
  ghost predicate SkipsBefore(before: iset<nat>, now: iset<nat>, known: iset<nat>) {
    forall y: nat :: y in now && y !in before ==> exists z: nat :: z in known && y < z
  }

  lemma GapSkipsMissing(before: iset<nat>, now: iset<nat>, known: iset<nat>, p: nat, gap: nat)
    requires SkipsMissing(before, now, known) && Span(p, gap) !! known
    ensures SkipsMissing(before, now + Span(p, gap), known)
  {
  }

  lemma GapSkipsBefore(before: iset<nat>, now: iset<nat>, known: iset<nat>, p: nat, gap: nat)
    requires SkipsBefore(before, now, known) && (p + gap) in known
    ensures SkipsBefore(before, now + Span(p, gap), known)
  {
    forall y: nat | y in now + Span(p, gap) && y !in before
      ensures exists z: nat :: z in known && y < z
    {
      assert y in now || y < p + gap;
    }
  }

  ghost predicate AllBelow(before: iset<nat>, now: iset<nat>, end: nat) {
    forall y: nat :: y in now && y !in before ==> y < end
  }

  lemma GapIsBelow(before: iset<nat>, now: iset<nat>, p: nat, gap: nat, end: nat)
    requires AllBelow(before, now, end) && (gap == 0 || p + gap <= end)
    ensures AllBelow(before, now + Span(p, gap), end)
  {
  }

  /** No other held segment comes before this one. */
  predicate IsFirst(number: SequenceNumber, early: seq<EarlySegment>, nextSeq: SequenceNumber) {
    forall segment :: segment in early ==> SeqAfter(number, nextSeq) <= SeqAfter(segment.number, nextSeq)
  }

  predicate NoneDue(early: seq<EarlySegment>, nextSeq: SequenceNumber) {
    forall segment :: segment in early ==> !IsDue(segment, nextSeq)
  }

  /** No held segment begins before the gap's end: none of its bytes is held. */
  lemma NothingHeld(early: seq<EarlySegment>, start: SequenceNumber, p: nat, gap: nat)
    requires forall segment :: segment in early ==> PositionOf(segment, start, p) >= p + gap
    ensures Span(p, gap) !! Reached(early, start, p)
  {
    forall y: nat | y in Span(p, gap)
      ensures y !in Reached(early, start, p)
    {
    }
  }

  lemma {:induction false} SkippedBelow(chunks: seq<Chunk>, y: nat)
    requires y in Skipped(chunks)
    ensures y < Extent(chunks)
  {
    var rest, last := chunks[..|chunks| - 1], chunks[|chunks| - 1];
    if y in Skipped(rest) {
      SkippedBelow(rest, y);
    }
  }

  class StreamReader {
    const start: SequenceNumber
    const maxSegments: nat
    const maxBytes: nat
    const order: ByteStreamOrderer
    var chunks: seq<Chunk>
    var finSeq: Option<SequenceNumber>

    /** The bytes the direction sent, and the segments taken so far. */
    ghost const stream: seq<bv8>
    ghost var offered: seq<Offer>

    /** What was handed out, bytes and gaps, is as much as nextSeq advanced; what is held stays in its limits. */
    ghost predicate Valid()
      reads this, order
    {
      && order.nextSeq == SeqOf(start, Extent(chunks))
      && |order.early| <= maxSegments && TotalBytes(order.early) <= maxBytes
    }

    ghost predicate Draining(low: nat)
      reads this, order
    {
      InOrder(chunks, order.early, stream, start, low)
    }

    ghost function Known(): iset<nat>
      reads this, order
    {
      Reached(order.early, start, Extent(chunks))
    }

    /** The bytes handed out are the stream's, the held ones follow after a gap, and what is neither
      * handed out nor held was neither offered nor skipped. */
    ghost predicate Faithful()
      reads this, order
    {
      Draining(Extent(chunks)) && Accounted()
    }

    /** What is handed out or held was offered or skipped, and the other way round. */
    ghost predicate Accounted()
      reads this, order
    {
      Known() == Offered(offered) + Skipped(chunks)
    }

    constructor (start: SequenceNumber, maxSegments: nat, maxBytes: nat, ghost stream: seq<bv8>)
      ensures Valid() && Faithful() && fresh(order) && chunks == [] && order.early == [] && offered == [] && finSeq == None
      ensures this.start == start && this.maxSegments == maxSegments && this.maxBytes == maxBytes && this.stream == stream
    {
      this.start, this.maxSegments, this.maxBytes, this.stream := start, maxSegments, maxBytes, stream;
      order := new ByteStreamOrderer(start);
      chunks, offered, finSeq := [], [], None;
    }

    /** Hand out the held bytes that are next, for as long as there are any. */
    method PopNext(ghost low: nat)
      requires Valid()
      modifies this`chunks, order`early, order`nextSeq
      ensures Valid() && |order.early| <= |old(order.early)| && TotalBytes(order.early) <= old(TotalBytes(order.early))
      ensures (exists segment :: segment in old(order.early) && IsDue(segment, old(order.nextSeq))) ==> |order.early| < |old(order.early)|
      ensures forall segment :: segment in order.early ==> !IsDue(segment, order.nextSeq)
      ensures Gapless(chunks) <==> Gapless(old(chunks))
      ensures old(chunks) <= chunks && old(Extent(chunks)) <= Extent(chunks)
      ensures old(Draining(low)) ==>
              && Draining(low) && Draining(Extent(chunks)) && Known() == old(Known()) && Skipped(chunks) == old(Skipped(chunks))
    {
      hide Reached, InOrder, Pop, Skipped;
      ghost var faithful := Draining(low);
      while true
        invariant Valid() && |order.early| <= |old(order.early)| && TotalBytes(order.early) <= old(TotalBytes(order.early))
        invariant (order.early == old(order.early) && order.nextSeq == old(order.nextSeq)) || |order.early| < |old(order.early)|
        invariant Gapless(chunks) <==> Gapless(old(chunks))
        invariant old(chunks) <= chunks && old(Extent(chunks)) <= Extent(chunks)
        invariant faithful ==> Draining(low) && Known() == old(Known()) && Skipped(chunks) == old(Skipped(chunks))
        decreases |order.early|
      {
        PopShrinks(order.nextSeq, order.early);
        if faithful {
          PopInOrder(chunks, order.early, stream, start, low);
        }
        var bytes := order.PopNext();
        if bytes == None {
          return;
        }
        AppendChunk(chunks, Bytes(bytes.value), stream);
        SeqOfSum(start, Extent(chunks), |bytes.value|);
        order.Advance(|bytes.value|);
        chunks := chunks + [Bytes(bytes.value)];
      }
    }

    /** Skip the bytes up to `number`, if it is ahead, and hand out what follows. */
    method SkipGap(number: SequenceNumber, ghost low: nat)
      requires Valid()
      modifies this`chunks, order`early, order`nextSeq
      ensures Valid() && |order.early| <= |old(order.early)| && old(chunks) <= chunks
      ensures (exists segment :: segment in old(order.early) && segment.number == number) ==> |order.early| < |old(order.early)|
      ensures var p, gap := old(Extent(chunks)), Ahead(number, old(order.nextSeq));
              && Extent(chunks) >= p + gap
              && (old(Draining(low)) && p + gap <= low + Half ==>
                    && Draining(low) && Draining(Extent(chunks))
                    && Known() == old(Known()) + Span(p, gap) && Skipped(chunks) == old(Skipped(chunks)) + Span(p, gap))
    {
      hide Reached, InOrder, Skipped, Offered, Span, TotalBytes, Extent, Tells, AllFit, SeqAfter, Gapless;
      ghost var faithful := Draining(low) && Extent(chunks) + Ahead(number, order.nextSeq) <= low + Half;
      ghost var before := chunks;
      NoSpan(Extent(chunks));
      SeqAfterItself(number);
      var gap := order.SkipTo(number);
      if gap > 0 {
        if faithful {
          GapInOrder(chunks, order.early, stream, start, low, gap);
        }
        AppendChunk(chunks, Gap(gap), stream);
        chunks := chunks + [Gap(gap)];
      }
      SeqOfSum(start, Extent(before), gap);
      PopNext(low);
    }

    /** Hand out all that is held, its gaps before it: each gap is of bytes that never came, before some that did. */
    method Flush()
      requires Valid()
      modifies this`chunks, order`early, order`nextSeq
      ensures Valid() && order.early == [] && old(chunks) <= chunks
      ensures old(Faithful()) ==>
                && Faithful() && old(Extent(chunks)) <= Extent(chunks) <= old(Extent(chunks)) + Half
                && old(Known()) <= Known()
                && SkipsMissing(old(Skipped(chunks)), Skipped(chunks), old(Known()))
                && SkipsBefore(old(Skipped(chunks)), Skipped(chunks), old(Known()))
    {
      hide Reached, Skipped, Offered, Span, InOrder, IsPart, SeqAfter, SkipsMissing, SkipsBefore, IsFirst, NoneDue;
      ghost var low, faithful, known, skipped := Extent(chunks), Faithful(), Known(), Skipped(chunks);
      NothingSkipped(skipped, known);
      var first := EarlyFirst();
      while first.Some?
        invariant Valid() && (first == None <==> order.early == []) && old(chunks) <= chunks
        invariant first.Some? ==> exists segment :: segment in order.early && segment.number == first.value
        invariant first.Some? && NoneDue(order.early, order.nextSeq) ==> IsFirst(first.value, order.early, order.nextSeq)
        invariant faithful ==> Faithful() && Draining(low) && known <= Known()
        invariant faithful ==> SkipsMissing(skipped, Skipped(chunks), known) && SkipsBefore(skipped, Skipped(chunks), known)
        decreases |order.early|
      {
        ghost var held :| held in order.early && held.number == first.value;
        if faithful {
          FirstIsNext(low, held);
          GapSkipsMissing(skipped, Skipped(chunks), known, Extent(chunks), Ahead(first.value, order.nextSeq));
          GapSkipsBefore(skipped, Skipped(chunks), known, Extent(chunks), Ahead(first.value, order.nextSeq));
        }
        SkipGap(first.value, low);
        first := EarlyFirst();
      }
      DrainingBounds(low);
    }

    /** The held segment that comes first. */
    method EarlyFirst() returns (first: Option<SequenceNumber>)
      ensures first == None <==> order.early == []
      ensures first.Some? ==> exists segment :: segment in order.early && segment.number == first.value
      ensures first.Some? && NoneDue(order.early, order.nextSeq) ==> IsFirst(first.value, order.early, order.nextSeq)
    {
      first := order.FirstEarlySeq();
    }

    lemma DrainingBounds(low: nat)
      ensures Draining(low) ==> low <= Extent(chunks) <= low + Half
    {
    }

    lemma NothingSkipped(skipped: iset<nat>, known: iset<nat>)
      ensures SkipsMissing(skipped, skipped, known) && SkipsBefore(skipped, skipped, known)
    {
    }

    lemma NoSpan(p: nat)
      ensures Known() + Span(p, 0) == Known() && Skipped(chunks) + Span(p, 0) == Skipped(chunks)
    {
    }

    lemma HeldAreAhead()
      requires Valid() && Faithful()
      ensures NoneDue(order.early, order.nextSeq)
    {
      forall segment | segment in order.early
        ensures !IsDue(segment, order.nextSeq)
      {
        assert Fits(segment, stream, start, Extent(chunks), Extent(chunks));
      }
    }

    /** Before the first of the held segments nothing is held, and its bytes were offered. */
    lemma FirstIsNext(low: nat, held: EarlySegment)
      requires Valid() && Faithful() && Draining(low) && held in order.early
      requires NoneDue(order.early, order.nextSeq) ==> IsFirst(held.number, order.early, order.nextSeq)
      ensures var p, gap := Extent(chunks), Ahead(held.number, order.nextSeq);
              && p + gap <= low + Half && Span(p, gap) !! Known() && (p + gap) in Offered(offered)
    {
      hide Span;
      var p, gap := Extent(chunks), Ahead(held.number, order.nextSeq);
      HeldAreAhead();
      assert Fits(held, stream, start, p, p) && Fits(held, stream, start, p, low);
      NothingHeld(order.early, start, p, gap);
      assert Lies(p + gap, PositionOf(held, start, p), |held.bytes|);
      assert (p + gap) in Known();
      if (p + gap) in Skipped(chunks) {
        SkippedBelow(chunks, p + gap);
      }
    }

    /** `end` is the position that `target` stands for. */
    ghost predicate IsTarget(low: nat, target: SequenceNumber, end: nat)
      reads this
    {
      low < end < low + Half && target == SeqOf(start, end)
    }

    lemma TargetStands(low: nat, target: SequenceNumber)
      requires Valid() && low == Extent(chunks) && SeqAfter(target, order.nextSeq) > 0
      ensures IsTarget(low, target, low + SeqAfter(target, order.nextSeq))
    {
      SeqOfPosition(start, target, low);
    }

    lemma PositionAgainst(low: nat, held: EarlySegment, target: SequenceNumber, end: nat)
      requires Valid() && Draining(low) && held in order.early && IsTarget(low, target, end)
      ensures SeqAfter(held.number, target) == PositionOf(held, start, Extent(chunks)) - end
    {
      var p := Extent(chunks);
      assert Fits(held, stream, start, p, low);
      SeqOfPosition(start, held.number, p);
      SeqAfterPositions(start, PositionOf(held, start, p), end);
    }

    lemma TargetAhead(low: nat, target: SequenceNumber, end: nat)
      requires Valid() && Draining(low) && IsTarget(low, target, end)
      ensures Ahead(target, order.nextSeq) == if end > Extent(chunks) then end - Extent(chunks) else 0
    {
      SeqAfterPositions(start, end, Extent(chunks));
    }

    /** With the first of the held segments not before the target, nothing is held before it. */
    lemma TargetIsNext(low: nat, target: SequenceNumber, end: nat, first: Option<SequenceNumber>)
      requires Valid() && Faithful() && Draining(low) && IsTarget(low, target, end)
      requires first == None ==> order.early == []
      requires first.Some? ==> SeqAfter(first.value, target) >= 0 && exists held :: held in order.early && held.number == first.value
      requires first.Some? && NoneDue(order.early, order.nextSeq) ==> IsFirst(first.value, order.early, order.nextSeq)
      ensures Span(Extent(chunks), Ahead(target, order.nextSeq)) !! Known()
    {
      var p := Extent(chunks);
      TargetAhead(low, target, end);
      if first.Some? {
        var held :| held in order.early && held.number == first.value;
        HeldAreAhead();
        PositionAgainst(low, held, target, end);
        forall segment | segment in order.early
          ensures PositionOf(segment, start, p) >= p + Ahead(target, order.nextSeq)
        {
          assert Fits(segment, stream, start, p, p);
        }
      }
      NothingHeld(order.early, start, p, Ahead(target, order.nextSeq));
    }

    /** Where an acknowledgement reaches: the FIN takes a sequence number, no byte. */
    function TargetOf(number: SequenceNumber): SequenceNumber
      reads this`finSeq
    {
      if finSeq.Some? && SeqAfter(number, finSeq.value) > 0 then finSeq.value else number
    }

    /** The bytes up to `number` were acknowledged: those the capture lacks are missing, and no others. */
    method SkipTo(number: SequenceNumber)
      requires Valid()
      modifies this`chunks, order`early, order`nextSeq
      ensures Valid() && old(chunks) <= chunks
      ensures var target := old(Extent(chunks)) + Ahead(TargetOf(number), old(order.nextSeq));
              old(Faithful()) ==>
                && Faithful() && Extent(chunks) >= target
                && SkipsMissing(old(Skipped(chunks)), Skipped(chunks), old(Known()))
                && AllBelow(old(Skipped(chunks)), Skipped(chunks), target)
    {
      hide Reached, Skipped, Offered, InOrder, Span, IsPart, SkipsMissing, AllBelow, IsFirst, NoneDue, Draining;
      ghost var low, faithful, known, skipped := Extent(chunks), Faithful(), Known(), Skipped(chunks);
      var target := number;
      if finSeq.Some? && SeqAfter(number, finSeq.value) > 0 {
        target := finSeq.value;
      }
      ghost var end := low + Ahead(target, order.nextSeq);
      NothingSkippedBelow(skipped, known, end);
      if SeqAfter(target, order.nextSeq) <= 0 {
        return;
      }
      TargetStands(low, target);
      var first := SkipHeld(target, low, end);
      hide SeqAfter;
      if faithful {
        TargetAhead(low, target, end);
        TargetIsNext(low, target, end, first);
        GapSkipsMissing(skipped, Skipped(chunks), known, Extent(chunks), Ahead(target, order.nextSeq));
        GapIsBelow(skipped, Skipped(chunks), Extent(chunks), Ahead(target, order.nextSeq), end);
        DrainingBounds(low);
      }
      SkipGap(target, low);
    }

    /** The held segments before the target come after their own gaps. */
    method SkipHeld(target: SequenceNumber, ghost low: nat, ghost end: nat) returns (first: Option<SequenceNumber>)
      requires Valid() && low == Extent(chunks) && IsTarget(low, target, end)
      modifies this`chunks, order`early, order`nextSeq
      ensures Valid() && old(chunks) <= chunks
      ensures first == None ==> order.early == []
      ensures first.Some? ==> SeqAfter(first.value, target) >= 0 && exists held :: held in order.early && held.number == first.value
      ensures first.Some? && NoneDue(order.early, order.nextSeq) ==> IsFirst(first.value, order.early, order.nextSeq)
      ensures old(Faithful()) ==>
                && Faithful() && Draining(low) && old(Known()) <= Known()
                && SkipsMissing(old(Skipped(chunks)), Skipped(chunks), old(Known()))
                && AllBelow(old(Skipped(chunks)), Skipped(chunks), end)
    {
      hide Reached, Skipped, Offered, InOrder, Span, IsPart, SkipsMissing, AllBelow, IsFirst, NoneDue, SeqAfter;
      ghost var faithful, known, skipped := Faithful(), Known(), Skipped(chunks);
      NothingSkippedBelow(skipped, known, end);
      first := EarlyFirst();
      while first.Some? && SeqAfter(first.value, target) < 0
        invariant Valid() && (first == None <==> order.early == []) && old(chunks) <= chunks
        invariant first.Some? ==> exists segment :: segment in order.early && segment.number == first.value
        invariant first.Some? && NoneDue(order.early, order.nextSeq) ==> IsFirst(first.value, order.early, order.nextSeq)
        invariant faithful ==> Faithful() && Draining(low) && known <= Known()
        invariant faithful ==> SkipsMissing(skipped, Skipped(chunks), known) && AllBelow(skipped, Skipped(chunks), end)
        decreases |order.early|
      {
        ghost var held :| held in order.early && held.number == first.value;
        if faithful {
          FirstIsNext(low, held);
          FirstIsBelow(low, held, target, end);
          GapSkipsMissing(skipped, Skipped(chunks), known, Extent(chunks), Ahead(first.value, order.nextSeq));
          GapIsBelow(skipped, Skipped(chunks), Extent(chunks), Ahead(first.value, order.nextSeq), end);
        }
        SkipGap(first.value, low);
        first := EarlyFirst();
      }
    }

    lemma FirstIsBelow(low: nat, held: EarlySegment, target: SequenceNumber, end: nat)
      requires Valid() && Faithful() && Draining(low) && held in order.early && IsTarget(low, target, end)
      requires SeqAfter(held.number, target) < 0
      ensures Extent(chunks) + Ahead(held.number, order.nextSeq) <= end
    {
      PositionAgainst(low, held, target, end);
      assert Fits(held, stream, start, Extent(chunks), Extent(chunks));
    }

    lemma SkipsChain(first: iset<nat>, second: iset<nat>, third: iset<nat>, known: iset<nat>, reached: iset<nat>)
      requires SkipsMissing(first, second, known) && SkipsMissing(second, third, reached) && known <= reached
      ensures SkipsMissing(first, third, known)
    {
    }

    lemma NothingSkippedBelow(skipped: iset<nat>, known: iset<nat>, end: nat)
      ensures SkipsMissing(skipped, skipped, known) && AllBelow(skipped, skipped, end)
    {
    }

    /** The segment is one of the stream's, within 2^31 of nextSeq. */
    ghost predicate Genuine(number: SequenceNumber, payload: seq<bv8>, position: nat)
      reads this
    {
      && number == SeqOf(start, position) && IsPart(payload, stream, position)
      && InWindow(Offer(position, |payload|), Extent(chunks))
    }

    /** As Accounted, with the bytes of one more segment. */
    ghost predicate AccountedWith(offer: Offer)
      reads this, order
    {
      Known() == Offered(offered) + Span(offer.position, offer.length) + Skipped(chunks)
    }

    /** Take the bytes of a segment that is next, and the held ones behind it. */
    method TakeNext(number: SequenceNumber, payload: seq<bv8>, overlap: nat, ghost position: nat)
      requires Valid() && overlap < |payload| && SeqAfter(number, order.nextSeq) + overlap == 0
      modifies this`chunks, order`early, order`nextSeq
      ensures Valid() && |order.early| <= |old(order.early)| && TotalBytes(order.early) <= old(TotalBytes(order.early))
      ensures Gapless(chunks) <==> Gapless(old(chunks))
      ensures old(chunks) <= chunks
      ensures old(Faithful()) && old(Genuine(number, payload, position)) ==>
              && Draining(Extent(chunks)) && AccountedWith(Offer(position, |payload|))
              && Skipped(chunks) == old(Skipped(chunks))
    {
      hide Reached, InOrder, Skipped, Offered, IsPart, SeqAfter, Span, TotalBytes, Extent, Tells, AllFit, Lies, IsDue;
      ghost var low := Extent(chunks);
      var bytes := payload[overlap..];
      if Faithful() && Genuine(number, payload, position) {
        PlacedAt(start, Offer(position, |payload|), low);
        PartBehind(payload, stream, position, overlap);
        TakeInOrder(chunks, order.early, stream, start, bytes);
        TakenBefore(position, |payload|, low);
      }
      AppendChunk(chunks, Bytes(bytes), stream);
      SeqOfSum(start, low, |bytes|);
      order.Advance(|bytes|);
      chunks := chunks + [Bytes(bytes)];
      PopNext(low);
    }

    /** The bytes of a segment before nextSeq were taken already. */
    lemma TakenBefore(position: nat, length: nat, p: nat)
      requires position <= p <= position + length && p == Extent(chunks)
      ensures Known() + Span(p, position + length - p) == Known() + Span(position, length)
    {
      forall y: nat
        ensures y in Known() + Span(p, position + length - p) <==> y in Known() + Span(position, length)
      {
      }
    }

    /** Nor does a segment whose bytes were all taken. */
    lemma TakenAlready(offer: Offer)
      requires Faithful() && offer.position + offer.length <= Extent(chunks)
      ensures AccountedWith(offer)
    {
      assert forall y :: y in Span(offer.position, offer.length) ==> y in Known();
    }

    /** A segment that is held already adds nothing. */
    lemma HeldAlready(number: SequenceNumber, payload: seq<bv8>, position: nat)
      requires Faithful() && Genuine(number, payload, position) && payload != [] && order.nextSeq == SeqOf(start, Extent(chunks))
      requires exists segment :: segment in order.early && segment.number == number && |segment.bytes| >= |payload|
      ensures AccountedWith(Offer(position, |payload|))
    {
      PlacedAt(start, Offer(position, |payload|), Extent(chunks));
      var segment :| segment in order.early && segment.number == number && |segment.bytes| >= |payload|;
      forall y | y in Span(position, |payload|)
        ensures y in Known()
      {
        assert Lies(y, PositionOf(segment, start, Extent(chunks)), |segment.bytes|);
      }
    }

    /** Hold a segment that came early. */
    method HoldEarly(number: SequenceNumber, payload: seq<bv8>, ghost position: nat)
      requires Valid() && payload != [] && SeqAfter(number, order.nextSeq) > 0
      requires |order.early| < maxSegments && TotalBytes(order.early) + |payload| <= maxBytes
      modifies order`early
      ensures Valid() && |order.early| == |old(order.early)| + 1
      ensures TotalBytes(order.early) == old(TotalBytes(order.early)) + |payload|
      ensures old(Faithful()) && Genuine(number, payload, position) ==>
              Draining(Extent(chunks)) && AccountedWith(Offer(position, |payload|))
    {
      hide Reached, InOrder, Skipped, Offered;
      ghost var segment, p := EarlySegment(number, payload), Extent(chunks);
      if Faithful() && Genuine(number, payload, position) {
        PlacedAt(start, Offer(position, |payload|), p);
        HoldInOrder(chunks, order.early, stream, start, segment);
      }
      assert (order.early + [segment])[..|order.early|] == order.early;
      order.HoldEarly(number, payload);
    }

    /** Hold a segment that came early, unless one like it is held; with too much held already,
      * hand that out instead, as after a gap, and place the segment again. */
    method TakeEarly(number: SequenceNumber, payload: seq<bv8>, ghost position: nat) returns (placed: bool)
      requires Valid() && 0 < |payload| <= maxBytes && maxSegments > 0 && SeqAfter(number, order.nextSeq) > 0
      modifies this`chunks, order`early, order`nextSeq
      ensures Valid() && (!placed ==> |order.early| < |old(order.early)|) && old(chunks) <= chunks
      ensures placed ==> chunks == old(chunks)
      ensures old(Faithful()) && old(Genuine(number, payload, position)) ==>
              && SkipsMissing(old(Skipped(chunks)), Skipped(chunks), old(Known()))
              && if placed then Draining(Extent(chunks)) && AccountedWith(Offer(position, |payload|))
                 else Faithful() && Genuine(number, payload, position) && old(Known()) <= Known()
      ensures |old(order.early)| < maxSegments && old(TotalBytes(order.early)) + |payload| <= maxBytes ==>
              && placed && chunks == old(chunks) && |order.early| <= |old(order.early)| + 1
              && TotalBytes(order.early) <= old(TotalBytes(order.early)) + |payload|
    {
      hide Reached, Skipped, Offered, InOrder, SkipsMissing;
      NothingSkipped(Skipped(chunks), Known());
      if Faithful() && Genuine(number, payload, position) {
        PlacedAt(start, Offer(position, |payload|), Extent(chunks));
      }
      placed := true;
      var held := order.Holds(number, |payload|);
      if held {
        if Faithful() && Genuine(number, payload, position) {
          HeldAlready(number, payload, position);
        }
        return;
      }
      var bytes := order.EarlyBytes();
      if |order.early| >= maxSegments || bytes + |payload| > maxBytes {
        Flush(); // too much came early: a gap
        placed := false;
      } else {
        HoldEarly(number, payload, position);
      }
    }

    /** Take a segment's payload. */
    method TakeSegment(number: SequenceNumber, payload: seq<bv8>, ghost position: nat)
      requires Valid() && |payload| <= maxBytes && maxSegments > 0
      modifies this`chunks, this`offered, order`early, order`nextSeq
      ensures Valid() && offered == old(offered) + [Offer(position, |payload|)]
      ensures old(chunks) <= chunks
      ensures old(Faithful()) && old(Genuine(number, payload, position)) ==>
              Faithful() && SkipsMissing(old(Skipped(chunks)), Skipped(chunks), old(Known()))
      ensures |old(order.early)| < maxSegments && old(TotalBytes(order.early)) + |payload| <= maxBytes ==>
              && (Gapless(chunks) <==> Gapless(old(chunks)))
              && |order.early| <= |old(order.early)| + 1 && TotalBytes(order.early) <= old(TotalBytes(order.early)) + |payload|
    {
      hide Reached, Skipped, Offered, InOrder, SeqAfter, SeqOf, IsPart, PositionOf, SkipsMissing;
      ghost var known, skipped := Known(), Skipped(chunks);
      NothingSkipped(skipped, known);
      ghost var offer := Offer(position, |payload|);
      ghost var faithful := Faithful() && Genuine(number, payload, position);
      ghost var roomy := |order.early| < maxSegments && TotalBytes(order.early) + |payload| <= maxBytes;
      OfferMore(offered, offer);
      var placed := |payload| == 0;
      while !placed
        invariant Valid() && offered == old(offered) && old(chunks) <= chunks
        invariant faithful ==> SkipsMissing(skipped, Skipped(chunks), known)
        invariant faithful && !placed ==> Faithful() && Genuine(number, payload, position) && known <= Known()
        invariant faithful && placed ==> Draining(Extent(chunks)) && AccountedWith(offer)
        invariant roomy && !placed ==> chunks == old(chunks) && order.early == old(order.early)
        invariant roomy ==> && (Gapless(chunks) <==> Gapless(old(chunks))) && |order.early| <= |old(order.early)| + 1
                            && TotalBytes(order.early) <= old(TotalBytes(order.early)) + |payload|
        decreases !placed, |order.early|
      {
        placed := true;
        ghost var before := Skipped(chunks);
        var place := order.PlaceOf(number, |payload|);
        if faithful {
          PlacedAt(start, offer, Extent(chunks));
        }
        if place.fit.Next? {
          TakeNext(number, payload, place.overlap, position);
        } else if place.fit.Early? {
          ghost var reached := Known();
          placed := TakeEarly(number, payload, position);
          if faithful {
            SkipsChain(skipped, before, Skipped(chunks), known, reached);
          }
        } else if faithful {
          TakenAlready(offer);
        }
      }
      offered := offered + [offer];
    }

    /** Where the reader stands is the first position neither offered nor skipped, and nothing held begins before it. */
    lemma StandsAtFrontier()
      requires Faithful()
      ensures IsFrontier(Offered(offered) + Skipped(chunks), Extent(chunks))
      ensures forall segment :: segment in order.early ==> PositionOf(segment, start, Extent(chunks)) > Extent(chunks)
    {
      var p := Extent(chunks);
      assert Known() == Offered(offered) + Skipped(chunks);
      assert p !in Known();
      forall y: nat | y < p
        ensures y in Offered(offered) + Skipped(chunks)
      {
        assert y in Known();
      }
      forall segment | segment in order.early
        ensures PositionOf(segment, start, p) > p
      {
        assert Fits(segment, stream, start, p, p);
      }
    }
  }

  // ── Whole runs ──

  /** The first position that is not known. */
  ghost predicate IsFrontier(known: iset<nat>, p: nat) {
    p !in known && forall y: nat :: y < p ==> y in known
  }

  /** Without gaps, what was handed out is the stream from its start. */
  lemma {:induction false} GaplessDelivers(chunks: seq<Chunk>, stream: seq<bv8>)
    requires Gapless(chunks) && Tells(chunks, stream)
    ensures Skipped(chunks) == iset{} && Extent(chunks) <= |stream|
    ensures Delivered(chunks) == stream[..Extent(chunks)]
  {
    if chunks != [] {
      var rest, last := chunks[..|chunks| - 1], chunks[|chunks| - 1];
      assert last in chunks;
      GaplessDelivers(rest, stream);
    }
  }

  datatype Segment = Segment(number: SequenceNumber, payload: seq<bv8>)

  /** The segments are cut from the stream where the offers say. */
  ghost predicate CutFrom(segments: seq<Segment>, offers: seq<Offer>, stream: seq<bv8>, start: SequenceNumber) {
    && |segments| == |offers|
    && forall k :: 0 <= k < |segments| ==>
         && segments[k].number == SeqOf(start, offers[k].position) && |segments[k].payload| == offers[k].length
         && IsPart(segments[k].payload, stream, offers[k].position)
  }

  /** Each segment comes within 2^31 of the first position that none before it covers. */
  ghost predicate AllInWindow(offers: seq<Offer>) {
    forall k, p: nat :: 0 <= k < |offers| && IsFrontier(Offered(offers[..k]), p) ==> InWindow(offers[k], p)
  }

  function TotalPayload(segments: seq<Segment>): nat {
    if segments == [] then 0 else TotalPayload(segments[..|segments| - 1]) + |segments[|segments| - 1].payload|
  }

  lemma {:induction false} PayloadInTotal(segments: seq<Segment>, k: nat)
    requires k < |segments|
    ensures TotalPayload(segments[..k]) + |segments[k].payload| <= TotalPayload(segments)
  {
    var n := |segments| - 1;
    if k < n {
      PayloadInTotal(segments[..n], k);
      assert segments[..n][..k] == segments[..k];
    }
  }

  /** Whatever order the segments come in, overlapping and repeated, and however long the stream:
    * held without a limit, they give the stream's bytes, each once and in order, up to the first
    * position that no segment covers. */
  method OrderAll(start: SequenceNumber, segments: seq<Segment>, ghost stream: seq<bv8>, ghost offers: seq<Offer>)
      returns (content: seq<bv8>)
    requires CutFrom(segments, offers, stream, start) && AllInWindow(offers)
    ensures IsFrontier(Offered(offers), |content|) && content <= stream
  {
    hide Offered, Skipped;
    var limit := TotalPayload(segments);
    var reader := new StreamReader(start, |segments| + 1, limit, stream);
    for k := 0 to |segments|
      invariant reader.Valid() && reader.Faithful() && Gapless(reader.chunks) && reader.offered == offers[..k]
      invariant reader.maxSegments == |segments| + 1 && reader.maxBytes == limit && reader.stream == stream && reader.start == start
      invariant fresh(reader) && fresh(reader.order)
      invariant |reader.order.early| <= k && TotalBytes(reader.order.early) <= TotalPayload(segments[..k])
    {
      PayloadInTotal(segments, k);
      GaplessDelivers(reader.chunks, stream);
      reader.StandsAtFrontier();
      assert Offered(offers[..k]) + iset{} == Offered(offers[..k]);
      assert IsFrontier(Offered(offers[..k]), Extent(reader.chunks));
      assert offers[..k + 1] == offers[..k] + [Offer(offers[k].position, |segments[k].payload|)];
      assert segments[..k + 1][..k] == segments[..k];
      reader.TakeSegment(segments[k].number, segments[k].payload, offers[k].position);
    }
    GaplessDelivers(reader.chunks, stream);
    reader.StandsAtFrontier();
    assert offers[..|offers|] == offers && Offered(offers) + iset{} == Offered(offers);
    return Delivered(reader.chunks);
  }

  /** The first position not covered depends on the segments alone, not on the order they come in. */
  lemma ArrivalOrder(a: seq<Offer>, b: seq<Offer>, p: nat, q: nat)
    requires forall offer :: offer in a <==> offer in b
    requires IsFrontier(Offered(a), p) && IsFrontier(Offered(b), q)
    ensures p == q
  {
    assert Offered(a) == Offered(b);
  }
}
