/** The first and the last packet of each stream (src/capture_index.cpp). */
module StreamExtents {
  import opened Options
  import opened Transports

  datatype Extent = Extent(first: nat, last: nat)

  /** A packet's number, and its stream: negative for none. */
  datatype Noted = Noted(transport: Transport, id: int, number: nat)

  /** The numbers of a stream's packets, in the order they were noted. */
  function NumbersOf(noted: seq<Noted>, transport: Transport, id: int): seq<nat> {
    if noted == [] then []
    else
      var last := noted[|noted| - 1];
      NumbersOf(noted[..|noted| - 1], transport, id) + if last.transport == transport && last.id == id then [last.number] else []
  }

  predicate IsExtent(numbers: seq<nat>, extent: Extent) {
    numbers != [] && extent == Extent(numbers[0], numbers[|numbers| - 1])
  }

  ghost predicate AreExtents(noted: seq<Noted>, transport: Transport, streams: seq<Extent>) {
    && (forall id :: 0 <= id < |streams| ==> IsExtent(NumbersOf(noted, transport, id), streams[id]))
    && forall id :: id >= |streams| ==> NumbersOf(noted, transport, id) == []
  }

  function WithPacket(streams: seq<Extent>, id: nat, number: nat): seq<Extent>
    requires id <= |streams|
  {
    if id == |streams| then streams + [Extent(number, number)] else streams[id := streams[id].(last := number)]
  }

  lemma PacketExtends(noted: seq<Noted>, packet: Noted, transport: Transport, streams: seq<Extent>)
    requires AreExtents(noted, transport, streams)
    requires packet.transport == transport ==> packet.id <= |streams|
    ensures AreExtents(noted + [packet], transport,
                       if packet.transport == transport && packet.id >= 0 then WithPacket(streams, packet.id, packet.number) else streams)
  {
    hide NumbersOf;
    forall id: int
      ensures NumbersOf(noted + [packet], transport, id)
              == NumbersOf(noted, transport, id) + if packet.transport == transport && packet.id == id then [packet.number] else []
    {
      NumbersMore(noted, packet, transport, id);
    }
  }

  lemma NumbersMore(noted: seq<Noted>, packet: Noted, transport: Transport, id: int)
    ensures NumbersOf(noted + [packet], transport, id)
            == NumbersOf(noted, transport, id) + if packet.transport == transport && packet.id == id then [packet.number] else []
  {
    assert (noted + [packet])[..|noted|] == noted;
  }

  class StreamIndex {
    var tcpStreams: seq<Extent>
    var udpStreams: seq<Extent>
    /** The packets noted. */
    ghost var noted: seq<Noted>

    ghost predicate Valid()
      reads this
    {
      && AreExtents(noted, Tcp, tcpStreams) && AreExtents(noted, Udp, udpStreams)
      && forall k :: 0 <= k < |noted| ==> noted[k].number > 0
    }

    constructor ()
      ensures Valid() && noted == []
    {
      tcpStreams, udpStreams, noted := [], [], [];
    }

    /** Note a packet's stream; streams are numbered in order, a new one the next. */
    method NoteStream(transport: Transport, id: int, number: nat)
      requires Valid() && number > 0 && id <= |if transport == Tcp then tcpStreams else udpStreams|
      modifies this
      ensures Valid() && noted == old(noted) + [Noted(transport, id, number)]
    {
      hide AreExtents;
      PacketExtends(noted, Noted(transport, id, number), Tcp, tcpStreams);
      PacketExtends(noted, Noted(transport, id, number), Udp, udpStreams);
      noted := noted + [Noted(transport, id, number)];
      if id < 0 {
        return;
      }
      var streams := if transport == Tcp then tcpStreams else udpStreams;
      if id >= |streams| {
        streams := streams + [Extent(number, 0)];
      }
      if streams[id].last != number {
        streams := streams[id := streams[id].(last := number)];
      }
      assert streams == WithPacket(if transport == Tcp then tcpStreams else udpStreams, id, number);
      if transport == Tcp {
        tcpStreams := streams;
      } else {
        udpStreams := streams;
      }
    }

    /** A stream's first and last packet, if it has one. */
    method StreamExtent(transport: Transport, id: int) returns (extent: Option<Extent>)
      requires Valid()
      ensures id >= 0 ==> (extent.Some? <==> NumbersOf(noted, transport, id) != [])
      ensures extent.Some? ==> id >= 0 && IsExtent(NumbersOf(noted, transport, id), extent.value)
    {
      var streams := if transport == Tcp then tcpStreams else udpStreams;
      NumbersAreNoted(noted, transport, id);
      if 0 <= id < |streams| {
        assert IsExtent(NumbersOf(noted, transport, id), streams[id]) && streams[id].first in NumbersOf(noted, transport, id);
      }
      if id < 0 || id >= |streams| || streams[id].first == 0 {
        return None;
      }
      return Some(streams[id]);
    }
  }

  lemma {:induction false} NumbersAreNoted(noted: seq<Noted>, transport: Transport, id: int)
    requires forall k :: 0 <= k < |noted| ==> noted[k].number > 0
    ensures forall n :: n in NumbersOf(noted, transport, id) ==> n > 0
  {
    if noted != [] {
      NumbersAreNoted(noted[..|noted| - 1], transport, id);
    }
  }
}
