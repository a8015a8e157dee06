/** A capture, the files it is split into, and a reader of one (src/pcap_parser.h, src/capture_index.h). */
module CaptureFiles {
  import opened Options

  /** What a capture's file format says of a record: its length, the packet it holds, and the state
    * (a pcapng section's interfaces, say) a reader has before it and after it. The headers are
    * where the records a state came from lie. */
  datatype Format<!S, !R, P> = Format(length: R -> nat, decode: (S, R) -> P, step: (S, R) -> S, headers: S -> seq<nat>)

  /** A capture as it was read: its header, then one record a packet. */
  datatype Capture<S, R> = Capture(headerLength: nat, initial: S, records: seq<R>)

  ghost predicate HaveLength<S, R(!new), P>(format: Format<S, R, P>) {
    forall r :: format.length(r) > 0
  }

  function Extent<S, R, P>(format: Format<S, R, P>, records: seq<R>): nat {
    if records == [] then 0 else Extent(format, records[..|records| - 1]) + format.length(records[|records| - 1])
  }

  /** Where the record behind the first `n` begins. */
  function Start<S, R, P>(format: Format<S, R, P>, capture: Capture<S, R>, n: nat): nat
    requires n <= |capture.records|
  {
    capture.headerLength + Extent(format, capture.records[..n])
  }

  /** The state of a reader that has read `records` from front to back. */
  function StateAfter<S, R, P>(format: Format<S, R, P>, initial: S, records: seq<R>): S {
    if records == [] then initial
    else format.step(StateAfter(format, initial, records[..|records| - 1]), records[|records| - 1])
  }

  /** Packet `number` of the capture, read from front to back. */
  function PacketOf<S, R, P>(format: Format<S, R, P>, capture: Capture<S, R>, number: nat): P
    requires 1 <= number <= |capture.records|
  {
    format.decode(StateAfter(format, capture.initial, capture.records[..number - 1]), capture.records[number - 1])
  }

  lemma {:induction false} ExtentSplits<S, R, P>(format: Format<S, R, P>, a: seq<R>, b: seq<R>)
    ensures Extent(format, a + b) == Extent(format, a) + Extent(format, b)
  {
    if b == [] {
      assert a + b == a;
    } else {
      var n := |b| - 1;
      ExtentSplits(format, a, b[..n]);
      assert (a + b)[..|a| + n] == a + b[..n];
    }
  }

  lemma {:induction false} StateSplits<S, R, P>(format: Format<S, R, P>, initial: S, a: seq<R>, b: seq<R>)
    ensures StateAfter(format, initial, a + b) == StateAfter(format, StateAfter(format, initial, a), b)
  {
    if b == [] {
      assert a + b == a;
    } else {
      var n := |b| - 1;
      StateSplits(format, initial, a, b[..n]);
      assert (a + b)[..|a| + n] == a + b[..n];
    }
  }

  // ── A file, and its reader ──

  /** A capture file as a reader finds it: where its records begin, the reader's state there, and
    * the bytes open() reads ahead of that place. */
  datatype File<S, R> = File(begin: nat, state: S, records: seq<R>, ahead: nat)

  datatype Checkpoint<S> = Checkpoint(packetsBefore: nat, offset: nat, state: S)

  datatype Reader<S, R> = Reader(file: File<S, R>, packetsRead: nat, place: nat, ahead: nat, state: S,
                                 recordOffset: nat, recordLength: nat)

  function Open<S, R>(file: File<S, R>): Reader<S, R> {
    Reader(file, 0, file.begin, file.ahead, file.state, 0, 0)
  }

  /** The record that begins at byte `place`. */
  function RecordAt<S, R, P>(format: Format<S, R, P>, records: seq<R>, begin: nat, place: nat): (k: Option<nat>)
    ensures k.Some? ==> k.value < |records|
  {
    if records == [] || place < begin then None
    else if place == begin then Some(0)
    else
      match RecordAt(format, records[1..], begin + format.length(records[0]), place)
      case Some(k) => Some(k + 1)
      case None => None
  }

  datatype Reading<S, R, P> = Reading(packet: P, reader: Reader<S, R>)

  /** Read the next packet: what lies at the reader's place, as its state says. */
  function Next<S, R, P>(format: Format<S, R, P>, reader: Reader<S, R>): Option<Reading<S, R, P>> {
    match RecordAt(format, reader.file.records, reader.file.begin, reader.place)
    case None => None
    case Some(k) =>
      var record := reader.file.records[k];
      var length := format.length(record);
      Some(Reading(format.decode(reader.state, record),
                   Reader(reader.file, reader.packetsRead + 1, reader.place + length, 0, format.step(reader.state, record),
                          reader.place, length)))
  }

  /** Go on at a checkpoint: not behind what was read, nor past the end of the file. */
  function Resume<S, R, P>(format: Format<S, R, P>, reader: Reader<S, R>, checkpoint: Checkpoint<S>): Option<Reader<S, R>> {
    if checkpoint.offset < reader.place + reader.ahead
       || checkpoint.offset > reader.file.begin + Extent(format, reader.file.records) then None
    else Some(Reader(reader.file, checkpoint.packetsBefore, checkpoint.offset, 0, checkpoint.state, 0, 0))
  }

  lemma {:induction false} RecordAtStart<S, R(!new), P>(format: Format<S, R, P>, records: seq<R>, begin: nat, k: nat)
    requires HaveLength(format) && k <= |records|
    ensures RecordAt(format, records, begin, begin + Extent(format, records[..k])) == if k < |records| then Some(k) else None
  {
    if k > 0 {
      var first := records[0];
      assert records[..k] == [first] + records[1..][..k - 1];
      ExtentSplits(format, [first], records[1..][..k - 1]);
      assert Extent(format, [first]) == format.length(first) by {
        assert [first][..0] == [];
      }
      RecordAtStart(format, records[1..], begin + format.length(first), k - 1);
    }
  }

  /** The reader stands where one that read the file from its start stands behind `n` packets. */
  ghost predicate Stands<S, R, P>(format: Format<S, R, P>, reader: Reader<S, R>, n: nat) {
    && n <= |reader.file.records| && reader.packetsRead == n
    && reader.place == reader.file.begin + Extent(format, reader.file.records[..n])
    && reader.state == StateAfter(format, reader.file.state, reader.file.records[..n])
  }

  /** There, it reads the next packet as one that read the file from its start. */
  lemma NextReads<S, R(!new), P>(format: Format<S, R, P>, reader: Reader<S, R>, n: nat)
    requires HaveLength(format) && Stands(format, reader, n) && n < |reader.file.records|
    ensures var reading := Next(format, reader);
            && reading.Some? && Stands(format, reading.value.reader, n + 1) && reading.value.reader.file == reader.file
            && reading.value.packet == format.decode(reader.state, reader.file.records[n])
            && reading.value.reader.recordOffset == reader.place
            && reading.value.reader.recordLength == format.length(reader.file.records[n])
  {
    RecordAtStart(format, reader.file.records, reader.file.begin, n);
    assert reader.file.records[..n + 1][..n] == reader.file.records[..n];
  }
}
