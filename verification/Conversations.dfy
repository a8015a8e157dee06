/** Counting the packets of each numbered stream, and the table made of the counts, of which what has
  * not changed is kept (src/conversations.h, src/conversations.cpp). */
module Conversations {
  import opened Transports
  import opened Options
  import opened ConversationRows

  /** Seconds and nanoseconds. */
  datatype Time = Time(sec: int, nsec: nat)

  predicate Before(a: Time, b: Time) {
    a.sec < b.sec || (a.sec == b.sec && a.nsec < b.nsec)
  }

  /** Nanoseconds from one time to another. */
  function Between(from: Time, to: Time): int {
    (to.sec - from.sec) * 1_000_000_000 + to.nsec - from.nsec
  }

  /** A packet of a numbered stream, sent in direction 0 or 1; `labelId` is 0 while none was seen. */
  datatype Packet = Packet(transport: Transport, stream: nat, direction: nat, time: Time, length: nat, labelId: nat)

  /** What is counted of one stream, by direction. */
  datatype Counts = Counts(packets: (nat, nat), bytes: (nat, nat), first: Time, last: Time, labelId: nat, directionA: nat)

  const NoCounts := Counts((0, 0), (0, 0), Time(0, 0), Time(0, 0), 0, 0)

  function Of(pair: (nat, nat), direction: nat): nat {
    if direction == 0 then pair.0 else pair.1
  }

  function More(pair: (nat, nat), direction: nat, n: nat): (nat, nat) {
    if direction == 0 then (pair.0 + n, pair.1) else (pair.0, pair.1 + n)
  }

  function Counted(counts: Counts, packet: Packet): Counts {
    var direction := packet.direction % 2;
    var timed :=
      if counts.packets == (0, 0) then counts.(directionA := direction, first := packet.time, last := packet.time)
      else if Before(packet.time, counts.first) then counts.(first := packet.time)
      else if Before(counts.last, packet.time) then counts.(last := packet.time)
      else counts;
    timed.(packets := More(counts.packets, direction, 1), bytes := More(counts.bytes, direction, packet.length),
           labelId := if packet.labelId != 0 then packet.labelId else counts.labelId)
  }

  datatype Ends = Ends(address: (string, string), port: (nat, nat))

  datatype Conversation = Conversation(
    transport: Transport, stream: nat, protocol: string, addressA: string, portA: nat, addressB: string, portB: nat,
    packetsAToB: nat, bytesAToB: nat, packetsBToA: nat, bytesBToA: nat, start: int, duration: int)

  /** What the Stream Tracker and the Stream Labels tell: the ends of a stream, and the name of a label. */
  datatype Names = Names(ends: (Transport, nat) -> Ends, nameOf: nat -> string)

  function Row(names: Names, counts: Counts, transport: Transport, id: nat, start: Time): Conversation {
    var a, b := counts.directionA, 1 - counts.directionA;
    var ends := names.ends(transport, id);
    var name := names.nameOf(counts.labelId);
    Conversation(transport, id,
                 if name != "" then name else if transport == Tcp then "TCP" else "UDP",
                 if a == 0 then ends.address.0 else ends.address.1, Of(ends.port, a),
                 if b == 0 then ends.address.0 else ends.address.1, if b == 0 then ends.port.0 else ends.port.1,
                 Of(counts.packets, a), Of(counts.bytes, a),
                 if b == 0 then counts.packets.0 else counts.packets.1, if b == 0 then counts.bytes.0 else counts.bytes.1,
                 Between(start, counts.first), Between(counts.first, counts.last))
  }

  /** The rows of the streams from `low` up to `high`. */
  function Rows(names: Names, streams: seq<Counts>, transport: Transport, low: nat, high: nat, start: Time): (rows: seq<Conversation>)
    requires low <= high <= |streams|
    ensures |rows| == high - low
    ensures forall i :: 0 <= i < |rows| ==> rows[i] == Row(names, streams[low + i], transport, low + i, start)
    decreases high
  {
    if low == high then [] else Rows(names, streams, transport, low, high - 1, start) + [Row(names, streams[high - 1], transport, high - 1, start)]
  }

  // ── What is kept of the table ──

  const ChunkRows: nat := 4096

  /** The chunks made last of one transport, and which had a packet since. */
  datatype Made = Made(chunks: seq<Option<seq<Conversation>>>, changed: seq<bool>)

  /** Where chunk `c` of `count` rows ends. */
  function EndOf(count: nat, c: nat): nat {
    if count < (c + 1) * ChunkRows then count else (c + 1) * ChunkRows
  }

  predicate Reusable(made: Made, count: nat, c: nat)
    requires c < |made.chunks| == |made.changed|
  {
    !made.changed[c] && made.chunks[c].Some? && |made.chunks[c].value| == EndOf(count, c) - c * ChunkRows
  }

  /** Every chunk that would be used again has the rows it would have if it were made again. */
  ghost predicate UpToDate(names: Names, made: Made, streams: seq<Counts>, transport: Transport, start: Time) {
    && |made.chunks| == |made.changed|
    && forall c :: 0 <= c < |made.chunks| ==> ChunkUpToDate(names, made, streams, transport, start, c)
  }

  ghost predicate ChunkUpToDate(names: Names, made: Made, streams: seq<Counts>, transport: Transport, start: Time, c: nat)
    requires c < |made.chunks| == |made.changed|
  {
    && c * ChunkRows < |streams|
    && (made.chunks[c].Some? ==> |made.chunks[c].value| <= EndOf(|streams|, c) - c * ChunkRows)
    && (Reusable(made, |streams|, c) ==>
          made.chunks[c].value == Rows(names, streams, transport, c * ChunkRows, EndOf(|streams|, c), start))
  }

  /** The streams with one more packet counted, those before its stream made if they were not there. */
  function WithPacket(streams: seq<Counts>, packet: Packet): (more: seq<Counts>)
    ensures |more| == if packet.stream < |streams| then |streams| else packet.stream + 1
  {
    var all := if |streams| <= packet.stream then streams + seq(packet.stream + 1 - |streams|, _ => NoCounts) else streams;
    all[packet.stream := Counted(all[packet.stream], packet)]
  }

  method CountPacket(streams: seq<Counts>, packet: Packet) returns (more: seq<Counts>)
    ensures more == WithPacket(streams, packet)
  {
    more := streams;
    while |more| <= packet.stream
      invariant |streams| <= |more| && (|more| <= packet.stream + 1 || more == streams)
      invariant more == streams + seq(|more| - |streams|, _ => NoCounts)
    {
      more := more + [NoCounts];
    }
    var counts := more[packet.stream];
    var direction := packet.direction % 2;
    if counts.packets.0 + counts.packets.1 == 0 {
      counts := counts.(directionA := direction, first := packet.time, last := packet.time);
    } else if Before(packet.time, counts.first) {
      counts := counts.(first := packet.time);
    } else if Before(counts.last, packet.time) {
      counts := counts.(last := packet.time);
    }
    counts := counts.(packets := More(counts.packets, direction, 1), bytes := More(counts.bytes, direction, packet.length));
    if packet.labelId != 0 {
      counts := counts.(labelId := packet.labelId);
    }
    more := more[packet.stream := counts];
  }

  /** The chunk of the packet's stream marked changed, if it was made. */
  function Marked(made: Made, stream: nat): Made {
    var c := stream / ChunkRows;
    if c < |made.changed| then made.(changed := made.changed[c := true]) else made
  }

  /** Counting a packet leaves up to date what would be used again. */
  lemma PacketKeepsUpToDate(names: Names, made: Made, streams: seq<Counts>, transport: Transport, start: Time, packet: Packet)
    requires UpToDate(names, made, streams, transport, start)
    ensures UpToDate(names, Marked(made, packet.stream), WithPacket(streams, packet), transport, start)
  {
    var marked, more := Marked(made, packet.stream), WithPacket(streams, packet);
    forall c | 0 <= c < |marked.chunks|
      ensures ChunkUpToDate(names, marked, more, transport, start, c)
    {
      assert ChunkUpToDate(names, made, streams, transport, start, c);
      if Reusable(marked, |more|, c) {
        assert Reusable(made, |streams|, c);
        var low, high := c * ChunkRows, EndOf(|more|, c);
        SameRows(names, streams, more, transport, low, high, start);
      }
    }
  }

  lemma {:induction false} SameRows(names: Names, a: seq<Counts>, b: seq<Counts>, transport: Transport, low: nat, high: nat, start: Time)
    requires low <= high <= |a| && high <= |b| && forall i :: low <= i < high ==> a[i] == b[i]
    ensures Rows(names, a, transport, low, high, start) == Rows(names, b, transport, low, high, start)
  {
  }

  lemma {:induction false} RowsSplit(names: Names, streams: seq<Counts>, transport: Transport, low: nat, middle: nat, high: nat, start: Time)
    requires low <= middle <= high <= |streams|
    ensures Rows(names, streams, transport, low, high, start)
            == Rows(names, streams, transport, low, middle, start) + Rows(names, streams, transport, middle, high, start)
    decreases high
  {
    if middle < high {
      RowsSplit(names, streams, transport, low, middle, high - 1, start);
    }
  }

  /** The chunks of the rows there are now, those there were before kept. */
  function Resized(made: Made, chunks: nat): (resized: Made)
    requires |made.chunks| == |made.changed| <= chunks
    ensures |resized.chunks| == |resized.changed| == chunks
  {
    var more := chunks - |made.chunks|;
    Made(made.chunks + seq(more, _ => None), made.changed + seq(more, _ => true))
  }

  lemma ResizedUpToDate(names: Names, made: Made, streams: seq<Counts>, transport: Transport, start: Time, chunks: nat)
    requires UpToDate(names, made, streams, transport, start) && |made.chunks| <= chunks && (chunks > 0 ==> (chunks - 1) * ChunkRows < |streams|)
    ensures UpToDate(names, Resized(made, chunks), streams, transport, start)
  {
    forall c | 0 <= c < chunks
      ensures ChunkUpToDate(names, Resized(made, chunks), streams, transport, start, c)
    {
      assert c < |made.chunks| ==> ChunkUpToDate(names, made, streams, transport, start, c);
    }
  }

  /** A chunk made anew. */
  function WithChunk(made: Made, c: nat, rows: seq<Conversation>): Made
    requires c < |made.chunks| == |made.changed|
  {
    Made(made.chunks[c := Some(rows)], made.changed[c := false])
  }

  lemma ChunkMadeAnew(names: Names, made: Made, streams: seq<Counts>, transport: Transport, start: Time, c: nat)
    requires c < |made.chunks| == |made.changed| && c * ChunkRows < |streams|
    ensures var remade := WithChunk(made, c, Rows(names, streams, transport, c * ChunkRows, EndOf(|streams|, c), start));
            && ChunkUpToDate(names, remade, streams, transport, start, c)
            && forall k, time :: 0 <= k < |made.chunks| && k != c && ChunkUpToDate(names, made, streams, transport, time, k) ==>
                 ChunkUpToDate(names, remade, streams, transport, time, k)
  {
  }

  /** A chunk used again at the same start. */
  lemma ChunkUsedAgain(names: Names, made: Made, streams: seq<Counts>, transport: Transport, start: Time, c: nat)
    requires c < |made.chunks| == |made.changed| && ChunkUpToDate(names, made, streams, transport, start, c) && Reusable(made, |streams|, c)
    ensures made.chunks[c] == Some(Rows(names, streams, transport, c * ChunkRows, EndOf(|streams|, c), start))
  {
  }

  lemma ChunksFit(names: Names, made: Made, streams: seq<Counts>, transport: Transport, start: Time, n: nat)
    requires UpToDate(names, made, streams, transport, start) && n == (|streams| + ChunkRows - 1) / ChunkRows
    ensures |made.chunks| <= n && (n > 0 ==> (n - 1) * ChunkRows < |streams|)
  {
    hide Rows;
    if made.chunks != [] {
      assert ChunkUpToDate(names, made, streams, transport, start, |made.chunks| - 1);
    }
  }

  lemma NoRows(names: Names, streams: seq<Counts>, transport: Transport, start: Time)
    ensures Flat<Conversation>([]) == Rows(names, streams, transport, 0, 0, start) == []
  {
  }

  /** The chunks of a transport's rows, those that are up to date as they were made. */
  method MakeChunks(names: Names, streams: seq<Counts>, transport: Transport, made: Made, startMoved: bool, start: Time,
                    ghost before: Time)
      returns (remade: Made, chunks: seq<seq<Conversation>>)
    requires UpToDate(names, made, streams, transport, before) && (!startMoved ==> start == before)
    ensures UpToDate(names, remade, streams, transport, start)
    ensures Flat(chunks) == Rows(names, streams, transport, 0, |streams|, start)
  {
    hide ChunkUpToDate, Rows, EndOf, Resized, Reusable, Flat;
    var n := (|streams| + ChunkRows - 1) / ChunkRows;
    ChunksFit(names, made, streams, transport, before, n);
    ResizedUpToDate(names, made, streams, transport, before, n);
    remade := Resized(made, n);
    chunks := [];
    NoRows(names, streams, transport, start);
    for c := 0 to n
      invariant |remade.chunks| == |remade.changed| == n
      invariant forall k :: 0 <= k < c ==> ChunkUpToDate(names, remade, streams, transport, start, k)
      invariant forall k :: c <= k < n ==> ChunkUpToDate(names, remade, streams, transport, before, k)
      invariant Flat(chunks) == Rows(names, streams, transport, 0, if c < n then c * ChunkRows else |streams|, start)
    {
      var low, end := c * ChunkRows, EndOf(|streams|, c);
      ChunkBounds(|streams|, c, n);
      if startMoved || !Reusable(remade, |streams|, c) {
        ChunkMadeAnew(names, remade, streams, transport, start, c);
        remade := WithChunk(remade, c, Rows(names, streams, transport, low, end, start));
      } else {
        ChunkUsedAgain(names, remade, streams, transport, start, c);
      }
      RowsSplit(names, streams, transport, 0, low, end, start);
      var chunk := remade.chunks[c].value;
      FlatMore(chunks, chunk);
      chunks := chunks + [chunk];
    }
  }

  lemma ChunkBounds(count: nat, c: nat, n: nat)
    requires n == (count + ChunkRows - 1) / ChunkRows && c < n
    ensures c * ChunkRows < EndOf(count, c) <= count
    ensures EndOf(count, c) == if c + 1 < n then (c + 1) * ChunkRows else count
  {
  }

  lemma FlatMore<T>(chunks: seq<seq<T>>, chunk: seq<T>)
    ensures Flat(chunks + [chunk]) == Flat(chunks) + chunk
  {
    assert (chunks + [chunk])[..|chunks|] == chunks;
  }

  class ConversationStats {
    const names: Names
    var tcp: seq<Counts>
    var udp: seq<Counts>
    var tcpMade: Made
    var udpMade: Made
    var madeStart: Time
    /** The packets counted. */
    ghost var added: seq<Packet>

    ghost predicate Valid()
      reads this
    {
      && UpToDate(names, tcpMade, tcp, Tcp, madeStart) && UpToDate(names, udpMade, udp, Udp, madeStart)
      && AreCounts(added, Tcp, tcp) && AreCounts(added, Udp, udp)
    }

    constructor (names: Names)
      ensures Valid() && this.names == names && added == []
    {
      this.names := names;
      tcp, udp, tcpMade, udpMade, madeStart, added := [], [], Made([], []), Made([], []), Time(0, 0), [];
    }

    /** Count a packet in. */
    method Add(packet: Packet)
      requires Valid()
      modifies this
      ensures Valid() && added == old(added) + [packet]
    {
      hide UpToDate, AreCounts, Marked, WithPacket;
      PacketIsCounted(added, packet, Tcp, tcp);
      PacketIsCounted(added, packet, Udp, udp);
      added := added + [packet];
      if packet.transport == Tcp {
        PacketKeepsUpToDate(names, tcpMade, tcp, Tcp, madeStart, packet);
        tcpMade := Marked(tcpMade, packet.stream);
        tcp := CountPacket(tcp, packet);
      } else {
        PacketKeepsUpToDate(names, udpMade, udp, Udp, madeStart, packet);
        udpMade := Marked(udpMade, packet.stream);
        udp := CountPacket(udp, packet);
      }
    }

    /** The table made from the counts alone. */
    ghost function Table(start: Time): seq<Conversation>
      reads this
    {
      Rows(names, tcp, Tcp, 0, |tcp|, start) + Rows(names, udp, Udp, 0, |udp|, start)
    }

    method Conversations(start: Time) returns (rows: seq<Conversation>)
      ensures rows == Table(start)
    {
      rows := [];
      for id := 0 to |tcp|
        invariant rows == Rows(names, tcp, Tcp, 0, id, start)
      {
        rows := rows + [Row(names, tcp[id], Tcp, id, start)];
      }
      ghost var first := rows;
      for id := 0 to |udp|
        invariant rows == first + Rows(names, udp, Udp, 0, id, start)
      {
        rows := rows + [Row(names, udp[id], Udp, id, start)];
      }
    }

    /** The table shows each stream as the packets added make it: the TCP streams, then the UDP ones. */
    lemma TableMeans(start: Time)
      requires Valid()
      ensures |Table(start)| == |tcp| + |udp|
      ensures AreRows(Table(start)[..|tcp|], added, names, Tcp, start) && AreRows(Table(start)[|tcp|..], added, names, Udp, start)
    {
      hide AreCounts, AreRows, UpToDate;
      RowsMean(names, added, Tcp, tcp, start);
      RowsMean(names, added, Udp, udp, start);
      var first := Rows(names, tcp, Tcp, 0, |tcp|, start);
      assert Table(start)[..|tcp|] == first && Table(start)[|tcp|..] == Rows(names, udp, Udp, 0, |udp|, start);
    }

    /** The same table in chunks, those whose streams had no packet since the last call as they were then. */
    method RowsOf(start: Time) returns (rows: ConversationRows<Conversation>)
      requires Valid()
      modifies this`tcpMade, this`udpMade, this`madeStart
      ensures Valid() && fresh(rows) && rows.Valid() && Flat(rows.chunks) == Table(start)
    {
      var startMoved := start != madeStart;
      ghost var before := madeStart;
      madeStart := start;
      var tcpChunks, udpChunks;
      tcpMade, tcpChunks := MakeChunks(names, tcp, Tcp, tcpMade, startMoved, start, before);
      udpMade, udpChunks := MakeChunks(names, udp, Udp, udpMade, startMoved, start, before);
      FlatSplits(tcpChunks, udpChunks);
      rows := new ConversationRows(tcpChunks + udpChunks);
    }
  }

  // ── What the counts mean ──

  /** The packets of one stream, in the order they were added. */
  function PacketsOf(packets: seq<Packet>, transport: Transport, id: nat): seq<Packet> {
    if packets == [] then []
    else
      var last := packets[|packets| - 1];
      PacketsOf(packets[..|packets| - 1], transport, id) + if last.transport == transport && last.stream == id then [last] else []
  }

  function CountsOf(packets: seq<Packet>): Counts {
    if packets == [] then NoCounts else Counted(CountsOf(packets[..|packets| - 1]), packets[|packets| - 1])
  }

  ghost predicate AreCounts(packets: seq<Packet>, transport: Transport, streams: seq<Counts>) {
    && (forall id :: 0 <= id < |streams| ==> streams[id] == CountsOf(PacketsOf(packets, transport, id)))
    && (forall id: nat :: id >= |streams| ==> PacketsOf(packets, transport, id) == [])
    && (streams != [] ==> PacketsOf(packets, transport, |streams| - 1) != [])
  }

  lemma PacketsOfMore(packets: seq<Packet>, packet: Packet, transport: Transport, id: nat)
    ensures PacketsOf(packets + [packet], transport, id)
            == PacketsOf(packets, transport, id) + if packet.transport == transport && packet.stream == id then [packet] else []
  {
    assert (packets + [packet])[..|packets|] == packets;
  }

  lemma CountsOfMore(packets: seq<Packet>, packet: Packet)
    ensures CountsOf(packets + [packet]) == Counted(CountsOf(packets), packet)
  {
    assert (packets + [packet])[..|packets|] == packets;
  }

  lemma PacketIsCounted(packets: seq<Packet>, packet: Packet, transport: Transport, streams: seq<Counts>)
    requires AreCounts(packets, transport, streams)
    ensures AreCounts(packets + [packet], transport, if packet.transport == transport then WithPacket(streams, packet) else streams)
  {
    hide Counted, CountsOf, PacketsOf;
    if packet.transport == transport {
      PacketsOfMore(packets, packet, transport, packet.stream);
    }
    if streams != [] {
      PacketsOfMore(packets, packet, transport, |streams| - 1);
    }
    var counted := if packet.transport == transport then WithPacket(streams, packet) else streams;
    NoneCounted();
    forall id: nat
      ensures if id < |counted| then counted[id] == CountsOf(PacketsOf(packets + [packet], transport, id))
              else PacketsOf(packets + [packet], transport, id) == []
    {
      PacketsOfMore(packets, packet, transport, id);
      CountsOfMore(PacketsOf(packets, transport, id), packet);
      assert PacketsOf(packets, transport, id) + [] == PacketsOf(packets, transport, id);
    }
  }

  lemma NoneCounted()
    ensures CountsOf([]) == NoCounts
  {
  }

  /** How many packets went in a direction, and their bytes. */
  function Sent(packets: seq<Packet>, direction: nat): (nat, nat) {
    if packets == [] then (0, 0)
    else
      var (count, bytes) := Sent(packets[..|packets| - 1], direction);
      var last := packets[|packets| - 1];
      if last.direction % 2 == direction then (count + 1, bytes + last.length) else (count, bytes)
  }

  /** The counts of a stream are the packets each way and their bytes, and the first packet's direction. */
  lemma {:induction false} CountsMean(packets: seq<Packet>)
    ensures var counts := CountsOf(packets);
            && (counts.packets.0, counts.bytes.0) == Sent(packets, 0) && (counts.packets.1, counts.bytes.1) == Sent(packets, 1)
            && counts.packets.0 + counts.packets.1 == |packets|
            && (packets != [] ==> counts.directionA == packets[0].direction % 2)
  {
    if packets != [] {
      CountsMean(packets[..|packets| - 1]);
    }
  }

  /** Their times are those of the earliest and the latest packet. */
  lemma {:induction false} TimesMean(packets: seq<Packet>)
    requires packets != []
    ensures var counts := CountsOf(packets);
            && (forall p :: p in packets ==> !Before(p.time, counts.first) && !Before(counts.last, p.time))
            && (exists p :: p in packets && p.time == counts.first) && (exists p :: p in packets && p.time == counts.last)
  {
    hide Sent;
    var n := |packets| - 1;
    var rest, last := packets[..n], packets[n];
    assert packets == rest + [last] && last in packets;
    CountsMean(rest);
    if n > 0 {
      TimesMean(rest);
      var counts := CountsOf(rest);
      var p :| p in rest && p.time == counts.first;
      var q :| q in rest && q.time == counts.last;
      assert p in packets && q in packets;
      assert !Before(counts.last, counts.first);
    }
  }

  // ── What a row shows ──

  /** The label that the last packet with one had: 0 if none had. */
  function LastLabel(packets: seq<Packet>): nat {
    if packets == [] then 0
    else if packets[|packets| - 1].labelId != 0 then packets[|packets| - 1].labelId
    else LastLabel(packets[..|packets| - 1])
  }

  predicate NotLater(a: Time, b: Time) {
    a.sec < b.sec || (a.sec == b.sec && a.nsec <= b.nsec)
  }

  function Nanoseconds(from: Time, to: Time): int {
    1_000_000_000 * to.sec + to.nsec - (1_000_000_000 * from.sec + from.nsec)
  }

  /** The earliest and the latest of the packets' times. */
  predicate AreEnds(packets: seq<Packet>, first: Time, last: Time) {
    && (exists p :: p in packets && p.time == first) && (exists p :: p in packets && p.time == last)
    && forall p :: p in packets ==> NotLater(first, p.time) && NotLater(p.time, last)
  }

  /** A row as a stream's packets make it: A is who sent the first of them. */
  ghost predicate Describes(row: Conversation, packets: seq<Packet>, names: Names, transport: Transport, id: nat, start: Time) {
    && row.transport == transport && row.stream == id
    && row.packetsAToB + row.packetsBToA == |packets|
    && (packets != [] ==>
          var ends, name := names.ends(transport, id), names.nameOf(LastLabel(packets));
          && (if packets[0].direction % 2 == 0 then
                && row.addressA == ends.address.0 && row.portA == ends.port.0 && row.addressB == ends.address.1 && row.portB == ends.port.1
                && (row.packetsAToB, row.bytesAToB) == Sent(packets, 0) && (row.packetsBToA, row.bytesBToA) == Sent(packets, 1)
              else
                && row.addressA == ends.address.1 && row.portA == ends.port.1 && row.addressB == ends.address.0 && row.portB == ends.port.0
                && (row.packetsAToB, row.bytesAToB) == Sent(packets, 1) && (row.packetsBToA, row.bytesBToA) == Sent(packets, 0))
          && row.protocol == (if name != "" then name else match transport case Tcp => "TCP" case Udp => "UDP")
          && exists first, last :: AreEnds(packets, first, last) && row.start == Nanoseconds(start, first)
                                   && row.duration == Nanoseconds(first, last))
  }

  lemma {:induction false} LabelMeans(packets: seq<Packet>)
    ensures CountsOf(packets).labelId == LastLabel(packets)
  {
    if packets != [] {
      LabelMeans(packets[..|packets| - 1]);
    }
  }

  lemma EndsMean(packets: seq<Packet>)
    requires packets != []
    ensures AreEnds(packets, CountsOf(packets).first, CountsOf(packets).last)
  {
    hide CountsOf;
    TimesMean(packets);
  }

  lemma RowMeans(names: Names, packets: seq<Packet>, transport: Transport, id: nat, start: Time)
    ensures Describes(Row(names, CountsOf(packets), transport, id, start), packets, names, transport, id, start)
  {
    hide CountsOf, Sent, AreEnds;
    CountsMean(packets);
    if packets != [] {
      LabelMeans(packets);
      EndsMean(packets);
    }
  }

  /** The rows of one transport: a row for each of its streams, up to the last that has a packet. */
  ghost predicate AreRows(rows: seq<Conversation>, packets: seq<Packet>, names: Names, transport: Transport, start: Time) {
    && (forall id :: 0 <= id < |rows| ==> Describes(rows[id], PacketsOf(packets, transport, id), names, transport, id, start))
    && (forall id: nat :: id >= |rows| ==> PacketsOf(packets, transport, id) == [])
    && (rows != [] ==> PacketsOf(packets, transport, |rows| - 1) != [])
  }

  lemma RowsMean(names: Names, packets: seq<Packet>, transport: Transport, streams: seq<Counts>, start: Time)
    requires AreCounts(packets, transport, streams)
    ensures AreRows(Rows(names, streams, transport, 0, |streams|, start), packets, names, transport, start)
  {
    hide Describes, PacketsOf, CountsOf, Row;
    var rows := Rows(names, streams, transport, 0, |streams|, start);
    forall id | 0 <= id < |rows|
      ensures Describes(rows[id], PacketsOf(packets, transport, id), names, transport, id, start)
    {
      RowMeans(names, PacketsOf(packets, transport, id), transport, id, start);
    }
  }
}
