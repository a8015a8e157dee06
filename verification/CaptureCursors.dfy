/** Reading any packet of a capture by its number (src/capture_index.cpp): as if the capture were
  * read from front to back, but at most a checkpoint's interval of it. */
module CaptureCursors {
  import opened Options
  import opened CaptureFiles
  import opened CaptureIndexes

  /** The packets in file `k` and those before it. */
  function EndOf<S, R>(capture: Capture<S, R>, files: seq<CapturePart>, k: nat): nat
    requires k < |files|
  {
    if k + 1 < |files| then files[k + 1].packetsBefore else |capture.records|
  }

  /** Where in its file a place of the capture lies: behind the headers copied ahead, as far as from streamOffset. */
  function PlaceIn(part: CapturePart, offset: nat): nat
    requires offset >= part.streamOffset
  {
    part.headerLength + (offset - part.streamOffset)
  }

  /** File `k` is the capture from its part's first packet on, behind the headers it needs. */
  ghost predicate IsFileOf<S, R, P>(format: Format<S, R, P>, capture: Capture<S, R>, file: File<S, R>, files: seq<CapturePart>, k: nat)
    requires k < |files|
  {
    var part, end := files[k], EndOf(capture, files, k);
    && part.packetsBefore <= end <= |capture.records|
    && part.streamOffset <= Start(format, capture, part.packetsBefore)
    && file.begin == PlaceIn(part, Start(format, capture, part.packetsBefore))
    && file.records == capture.records[part.packetsBefore..end]
    && file.state == StateAfter(format, capture.initial, capture.records[..part.packetsBefore])
    && (file.records != [] ==> file.ahead <= format.length(file.records[0]))
  }

  /** Every header record a checkpoint's state names is in the file. */
  predicate HasHeaders<S, R, P>(format: Format<S, R, P>, part: CapturePart, state: S) {
    forall k :: 0 <= k < |format.headers(state)| ==> IsKept(part, format.headers(state)[k])
  }

  /** The first `n` packets of a file are those of the capture from the file's first on. */
  ghost predicate IsPlaceIn<S, R, P>(format: Format<S, R, P>, capture: Capture<S, R>, file: File<S, R>, part: CapturePart, n: nat)
    requires part.packetsBefore + n <= |capture.records|
  {
    var number := part.packetsBefore + n;
    && n <= |file.records| && file.records[..n] == capture.records[part.packetsBefore..number]
    && Start(format, capture, number) >= part.streamOffset
    && PlaceIn(part, Start(format, capture, number)) == file.begin + Extent(format, file.records[..n])
    && StateAfter(format, capture.initial, capture.records[..number]) == StateAfter(format, file.state, file.records[..n])
  }

  lemma PlaceInFile<S, R, P>(format: Format<S, R, P>, capture: Capture<S, R>, file: File<S, R>, files: seq<CapturePart>, k: nat, n: nat)
    requires k < |files| && IsFileOf(format, capture, file, files, k) && files[k].packetsBefore + n <= EndOf(capture, files, k)
    ensures IsPlaceIn(format, capture, file, files[k], n)
  {
    hide Extent, StateAfter;
    var before, number := files[k].packetsBefore, files[k].packetsBefore + n;
    FirstOf(capture.records, before, number, EndOf(capture, files, k));
    StartSplits(format, capture, before, number);
    StateSplits(format, capture.initial, capture.records[..before], capture.records[before..number]);
  }

  /** A record of the file begins where FileOffset says its place in the capture lies in the file. */
  lemma RecordPlace<S, R, P>(format: Format<S, R, P>, capture: Capture<S, R>, file: File<S, R>, files: seq<CapturePart>, k: nat, n: nat)
    requires k < |files| && IsFileOf(format, capture, file, files, k) && files[k].packetsBefore + n < EndOf(capture, files, k)
    ensures n < |file.records| && file.records[n] == capture.records[files[k].packetsBefore + n]
    ensures FileOffset(files[k], Start(format, capture, files[k].packetsBefore + n)) == Some(file.begin + Extent(format, file.records[..n]))
  {
    hide Extent, StateAfter;
    PlaceInFile(format, capture, file, files, k, n);
  }

  lemma FirstOf<R>(records: seq<R>, before: nat, number: nat, end: nat)
    requires before <= number <= end <= |records|
    ensures records[before..end][..number - before] == records[before..number]
    ensures records[..number] == records[..before] + records[before..number]
  {
  }

  lemma StartSplits<S, R, P>(format: Format<S, R, P>, capture: Capture<S, R>, m: nat, n: nat)
    requires m <= n <= |capture.records|
    ensures Start(format, capture, n) == Start(format, capture, m) + Extent(format, capture.records[m..n])
  {
    FirstOf(capture.records, m, n, n);
    ExtentSplits(format, capture.records[..m], capture.records[m..n]);
  }

  /** Going on at a checkpoint behind a packet of the file leaves the reader where it would be
    * had it read the file from its start. */
  lemma ResumeStands<S, R(!new), P>(format: Format<S, R, P>, file: File<S, R>, n: nat, state: S)
    requires HaveLength(format) && 0 < n <= |file.records| && file.ahead <= format.length(file.records[0])
    requires state == StateAfter(format, file.state, file.records[..n])
    ensures var resumed := Resume(format, Open(file), Checkpoint(n, file.begin + Extent(format, file.records[..n]), state));
            resumed.Some? && resumed.value.file == file && resumed.value.packetsRead == n && Stands(format, resumed.value, n)
  {
    assert file.records[..n] == [file.records[0]] + file.records[1..n];
    ExtentSplits(format, [file.records[0]], file.records[1..n]);
    assert [file.records[0]][..0] == [];
    assert file.records == file.records[..n] + file.records[n..];
    ExtentSplits(format, file.records[..n], file.records[n..]);
  }

  datatype CapturedPacket<P> = CapturedPacket(packet: P, recordOffset: nat, recordLength: nat, path: string)

  /** The packet is the one that reading the capture from front to back gives, and lies in its file where it says. */
  ghost predicate IsPacket<S, R, P>(format: Format<S, R, P>, capture: Capture<S, R>, files: seq<CapturePart>,
                                    packet: CapturedPacket<P>, number: nat)
  {
    && 1 <= number <= |capture.records| && packet.packet == PacketOf(format, capture, number)
    && exists k: nat :: Holds(files, k, number) && packet.path == files[k].path
                        && Start(format, capture, number - 1) >= files[k].streamOffset
                        && packet.recordOffset == PlaceIn(files[k], Start(format, capture, number - 1))
                        && packet.recordLength == format.length(capture.records[number - 1])
  }

  /** The file of the packet lacks a header record of the checkpoint the packet is read from. */
  ghost predicate LacksHeaders<S, R, P>(format: Format<S, R, P>, checkpoints: seq<Checkpoint<S>>, files: seq<CapturePart>, number: nat) {
    exists k: nat :: Holds(files, k, number) && ReadFrom(checkpoints, files[k], number).Some?
                     && !HasHeaders(format, files[k], ReadFrom(checkpoints, files[k], number).value.state)
  }

  ghost predicate AreFiles<S, R, P>(format: Format<S, R, P>, capture: Capture<S, R>, disk: map<string, File<S, R>>, files: seq<CapturePart>) {
    forall k :: 0 <= k < |files| ==> files[k].path in disk && IsFileOf(format, capture, disk[files[k].path], files, k)
  }

  /** A reader of a file before a packet of the file reads it, or one before it. */
  lemma ReadsInFile<S, R(!new), P>(format: Format<S, R, P>, capture: Capture<S, R>, files: seq<CapturePart>, k: nat,
                                   reader: Reader<S, R>, local: nat)
    requires HaveLength(format) && k < |files| && IsFileOf(format, capture, reader.file, files, k)
    requires Stands(format, reader, reader.packetsRead) && reader.packetsRead < local
    requires files[k].packetsBefore + local <= EndOf(capture, files, k)
    ensures var reading := Next(format, reader);
            && reading.Some? && reading.value.reader.file == reader.file
            && reading.value.reader.packetsRead == reader.packetsRead + 1
            && Stands(format, reading.value.reader, reader.packetsRead + 1)
            && (reader.packetsRead + 1 == local ==>
                  IsPacket(format, capture, files,
                           CapturedPacket(reading.value.packet, reading.value.reader.recordOffset, reading.value.reader.recordLength, files[k].path),
                           files[k].packetsBefore + local))
  {
    hide Start, Extent, StateAfter, Next;
    var n := reader.packetsRead;
    PlaceInFile(format, capture, reader.file, files, k, n);
    PlaceInFile(format, capture, reader.file, files, k, local);
    NextReads(format, reader, n);
    if n + 1 == local {
      assert Holds(files, k, files[k].packetsBefore + local);
    }
  }

  /** The checkpoint a packet is read from lies in its file, at most an interval before it. */
  lemma ReadFromFile<S, R(!new), P>(format: Format<S, R, P>, capture: Capture<S, R>, files: seq<CapturePart>, k: nat,
                                    file: File<S, R>, checkpoint: Checkpoint<S>)
    requires HaveLength(format) && k < |files| && IsFileOf(format, capture, file, files, k) && IsPlace(format, capture, checkpoint)
    requires files[k].packetsBefore < checkpoint.packetsBefore <= EndOf(capture, files, k)
    ensures FileOffset(files[k], checkpoint.offset).Some?
    ensures var n := checkpoint.packetsBefore - files[k].packetsBefore;
            var resumed := Resume(format, Open(file), Checkpoint(n, FileOffset(files[k], checkpoint.offset).value, checkpoint.state));
            resumed.Some? && resumed.value.file == file && resumed.value.packetsRead == n && Stands(format, resumed.value, n)
  {
    hide Start, Extent, StateAfter, Resume;
    var n := checkpoint.packetsBefore - files[k].packetsBefore;
    PlaceInFile(format, capture, file, files, k, n);
    ResumeStands(format, file, n, checkpoint.state);
  }

  /** Every checkpoint behind a file's first packet lies behind where the file begins. */
  lemma BehindFileStart<S, R, P>(format: Format<S, R, P>, capture: Capture<S, R>, file: File<S, R>, files: seq<CapturePart>, k: nat, checkpoint: Checkpoint<S>)
    requires k < |files| && IsFileOf(format, capture, file, files, k) && IsPlace(format, capture, checkpoint)
    requires checkpoint.packetsBefore > files[k].packetsBefore
    ensures checkpoint.offset >= files[k].streamOffset
  {
    StartSplits(format, capture, files[k].packetsBefore, checkpoint.packetsBefore);
  }

  class CaptureCursor<S, R(!new), P> {
    const format: Format<S, R, P>
    const index: CaptureIndex<S>
    /** The files on disk, by their paths. */
    const disk: map<string, File<S, R>>
    ghost const capture: Capture<S, R>

    var reader: Option<Reader<S, R>>
    var readerPath: string
    var readerPacketsBefore: nat
    /** Records decoded by the last read. */
    ghost var decoded: nat

    /** The index is that of the capture, and the files are as the capture was written to them. */
    ghost predicate OnDisk()
      reads index
    {
      index.Valid() && index.Notes(format, capture) && HaveLength(format) && AreFiles(format, capture, disk, index.files)
    }

    /** The reader stands behind some packet of one of the files. */
    ghost predicate Standing()
      reads this
    {
      reader.Some? ==>
        readerPath in disk && reader.value.file == disk[readerPath] && Stands(format, reader.value, reader.value.packetsRead)
    }

    constructor (format: Format<S, R, P>, index: CaptureIndex<S>, disk: map<string, File<S, R>>, ghost capture: Capture<S, R>)
      requires index.Valid() && index.Notes(format, capture) && HaveLength(format) && AreFiles(format, capture, disk, index.files)
      ensures OnDisk() && Standing() && this.format == format && this.index == index && this.disk == disk && this.capture == capture
    {
      this.format, this.index, this.disk, this.capture := format, index, disk, capture;
      reader, readerPath, readerPacketsBefore, decoded := None, "", 0, 0;
    }

    /** Look the header records at these places of the capture up in a file: whether it has them all. */
    method RelocateHeaders(part: CapturePart, offsets: seq<nat>) returns (relocated: bool)
      ensures relocated <==> forall k :: 0 <= k < |offsets| ==> IsKept(part, offsets[k])
    {
      for i := 0 to |offsets|
        invariant forall k :: 0 <= k < i ==> IsKept(part, offsets[k])
      {
        KeptHasPlace(part, offsets[i]);
        if FileOffset(part, offsets[i]) == None {
          return false;
        }
      }
      return true;
    }

    /** Open the file of a part again, at a checkpoint in it if there is one. */
    method Reopen(part: CapturePart, checkpoint: Option<Checkpoint<S>>) returns (succeeded: bool)
      modifies this`reader, this`readerPath, this`readerPacketsBefore
      ensures succeeded <==>
              && part.path in disk
              && (checkpoint.Some? ==> Resume(format, Open(disk[part.path]), checkpoint.value).Some?
                                       && HasHeaders(format, part, checkpoint.value.state))
      ensures succeeded <==> reader.Some?
      ensures succeeded ==>
                && readerPath == part.path && readerPacketsBefore == part.packetsBefore
                && reader == if checkpoint == None then Some(Open(disk[part.path]))
                             else Resume(format, Open(disk[part.path]), checkpoint.value)
    {
      reader := None;
      if part.path !in disk {
        return false;
      }
      var opening := Some(Open(disk[part.path]));
      if checkpoint.Some? {
        opening := Resume(format, opening.value, checkpoint.value);
        if opening == None {
          return false;
        }
        var relocated := RelocateHeaders(part, format.headers(checkpoint.value.state));
        if !relocated {
          return false;
        }
      }
      reader, readerPath, readerPacketsBefore := opening, part.path, part.packetsBefore;
      return true;
    }

    /** Read packet `number`; `problem` says that its file is gone or has changed. */
    method Read(number: nat, problem: bool) returns (packet: Option<CapturedPacket<P>>)
      requires OnDisk() && Standing()
      modifies this
      ensures OnDisk() && Standing() && decoded <= index.interval
      ensures packet.Some? ==> IsPacket(format, capture, index.files, packet.value, number)
      ensures packet == None ==>
                || problem || index.files == [] || number <= RotatedAway(index.files) || number > index.packets
                || LacksHeaders(format, index.checkpoints, index.files, number)
      ensures problem || index.files == [] || number <= RotatedAway(index.files) || number > index.packets ==> packet == None
    {
      hide IsPacket, IsFileOf, Next, Extent, Start, StateAfter, Resume, HasHeaders, HaveLength, Stands, NearestOf;
      decoded := 0;
      if number == 0 || number > index.packets {
        return None;
      }
      if problem {
        reader := None;
        return None;
      }
      var k := index.FileOf(number);
      if k == None {
        return None;
      }
      var part := index.files[k.value];
      var checkpoint := None;
      var nearest := index.Nearest(number);
      NearAndStanding(number, k.value);
      if nearest.Some? && nearest.value.packetsBefore > part.packetsBefore && nearest.value.offset >= part.streamOffset {
        checkpoint := Some(Checkpoint(nearest.value.packetsBefore - part.packetsBefore,
                                      FileOffset(part, nearest.value.offset).value, nearest.value.state));
      }
      var local := number - part.packetsBefore;
      var from := if checkpoint.Some? then checkpoint.value.packetsBefore else 0;
      if reader == None || readerPath != part.path || readerPacketsBefore != part.packetsBefore
         || reader.value.packetsRead >= local || reader.value.packetsRead < from {
        var succeeded := Reopen(part, checkpoint);
        if !succeeded {
          return None;
        }
      }
      packet := ReadOn(k.value, local);
    }

    /** Read on in file `k`, up to its packet `local`. */
    method ReadOn(k: nat, local: nat) returns (packet: Option<CapturedPacket<P>>)
      requires OnDisk() && Standing() && reader.Some? && k < |index.files| && readerPath == index.files[k].path
      requires reader.value.packetsRead < local && index.files[k].packetsBefore + local <= EndOf(capture, index.files, k)
      modifies this`reader, this`decoded
      ensures OnDisk() && Standing() && decoded == old(decoded) + (local - old(reader.value.packetsRead))
      ensures packet.Some? && IsPacket(format, capture, index.files, packet.value, index.files[k].packetsBefore + local)
    {
      hide IsPacket, IsFileOf, Next, Stands;
      ghost var number := index.files[k].packetsBefore + local;
      packet := None;
      while reader.value.packetsRead < local
        invariant OnDisk() && Standing() && reader.Some? && reader.value.packetsRead <= local
        invariant decoded == old(decoded) + (reader.value.packetsRead - old(reader.value.packetsRead))
        invariant reader.value.packetsRead == local ==>
                    packet.Some? && IsPacket(format, capture, index.files, packet.value, number)
        decreases local - reader.value.packetsRead
      {
        ReadsInFile(format, capture, index.files, k, reader.value, local);
        var reading := Next(format, reader.value);
        reader := Some(reading.value.reader);
        decoded := decoded + 1;
        packet := Some(CapturedPacket(reading.value.packet, reading.value.reader.recordOffset,
                                      reading.value.reader.recordLength, readerPath));
      }
    }

    /** Where a packet is read from: a checkpoint in its file, or the file's start, an interval before it at most. */
    lemma NearAndStanding(number: nat, k: nat)
      requires OnDisk() && Holds(index.files, k, number) && number <= index.packets
      ensures number <= EndOf(capture, index.files, k)
      ensures var part, c := index.files[k], ReadFrom(index.checkpoints, index.files[k], number);
              if c == None then number <= part.packetsBefore + index.interval && Stands(format, Open(disk[part.path]), 0)
              else
                && part.packetsBefore < c.value.packetsBefore < number <= c.value.packetsBefore + index.interval
                && FileOffset(part, c.value.offset).Some?
                && var n := c.value.packetsBefore - part.packetsBefore;
                   var resumed := Resume(format, Open(disk[part.path]), Checkpoint(n, FileOffset(part, c.value.offset).value, c.value.state));
                   resumed.Some? && resumed.value.file == disk[part.path] && resumed.value.packetsRead == n && Stands(format, resumed.value, n)
    {
      hide IsFileOf, IsPlace, Resume, ReadFrom, Extent, StateAfter, Start;
      var part := index.files[k];
      forall c | c in index.checkpoints && c.packetsBefore > part.packetsBefore
        ensures c.offset >= part.streamOffset
      {
        BehindFileStart(format, capture, disk[part.path], index.files, k, c);
      }
      ReadFromIsNear(index.checkpoints, index.base, index.interval, index.packets, part, number);
      var c := ReadFrom(index.checkpoints, part, number);
      if c.Some? {
        ReadFromFile(format, capture, index.files, k, disk[part.path], c.value);
      } else {
        OpenStands(format, disk[part.path]);
      }
    }
  }

  lemma OpenStands<S, R, P>(format: Format<S, R, P>, file: File<S, R>)
    ensures Stands(format, Open(file), 0)
  {
    assert file.records[..0] == [];
  }

  function CheckpointOf<S, R>(reader: Reader<S, R>): Checkpoint<S> {
    Checkpoint(reader.packetsRead, reader.place, reader.state)
  }

  /** Convert a capture: read it from front to back, noting the reader's place behind each packet. */
  method Convert<S, R(!new), P>(format: Format<S, R, P>, capture: Capture<S, R>, interval: nat)
      returns (index: CaptureIndex<S>, packets: seq<P>)
    requires HaveLength(format)
    ensures fresh(index) && index.Valid() && index.Notes(format, capture) && index.packets == |capture.records|
    ensures |packets| == |capture.records|
    ensures forall i :: 0 <= i < |packets| ==> packets[i] == PacketOf(format, capture, i + 1)
  {
    hide Extent, StateAfter, Next;
    index := new CaptureIndex(interval);
    packets := [];
    var reader := Open(File(capture.headerLength, capture.initial, capture.records, 0));
    OpenStands(format, reader.file);
    for n := 0 to |capture.records|
      invariant index.Valid() && index.Notes(format, capture) && index.packets == n && fresh(index)
      invariant reader.file == File(capture.headerLength, capture.initial, capture.records, 0) && Stands(format, reader, n)
      invariant |packets| == n && forall i :: 0 <= i < n ==> packets[i] == PacketOf(format, capture, i + 1)
    {
      NextReads(format, reader, n);
      var reading := Next(format, reader);
      reader := reading.value.reader;
      packets := packets + [reading.value.packet];
      assert IsPlace(format, capture, CheckpointOf(reader));
      index.Note(CheckpointOf(reader));
    }
  }
}
