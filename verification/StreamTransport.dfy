/** Incremental framing of a byte stream in one fixed buffer (face/stream-transport.hpp). */
module StreamTransport {
  import opened Common
  import opened Tlv

  const MAX_NDN_PACKET_SIZE: nat := 8800

  /** What the receive path has done so far: packets handed up, octets kept, failed or not. */
  datatype Rx = Rx(delivered: seq<seq<Octet>>, tail: seq<Octet>, failed: bool)

  const INITIAL: Rx := Rx([], [], false)

  /** One completed receive of the socket. */
  function Receive(rx: Rx, chunk: seq<Octet>): Rx {
    var parsed := Parse(rx.tail + chunk);
    Rx(rx.delivered + parsed.packets, parsed.rest, rx.failed || |parsed.rest| == MAX_NDN_PACKET_SIZE)
  }

  function ReceiveAll(chunks: seq<seq<Octet>>): Rx {
    if chunks == [] then INITIAL
    else Receive(ReceiveAll(chunks[..|chunks| - 1]), chunks[|chunks| - 1])
  }

  /** Chunks the socket can produce: after each one it is asked to fill the free space only,
      and after a failure it is asked no more. */
  predicate Receivable(chunks: seq<seq<Octet>>) {
    chunks == [] ||
    var before := chunks[..|chunks| - 1];
    Receivable(before) && !ReceiveAll(before).failed &&
    |ReceiveAll(before).tail| + |chunks[|chunks| - 1]| <= MAX_NDN_PACKET_SIZE
  }

  /** However a stream is cut into receives, what was delivered is the TLV parse of the whole
      stream, the buffer holds exactly the unparsed tail, and the transport has failed just
      when that tail fills the buffer; otherwise the next receive has room. */
  lemma {:induction false} ChunkIndependence(chunks: seq<seq<Octet>>)
    requires Receivable(chunks)
    ensures ReceiveAll(chunks).delivered == Parse(Flatten(chunks)).packets
    ensures ReceiveAll(chunks).tail == Parse(Flatten(chunks)).rest
    ensures |ReceiveAll(chunks).tail| <= MAX_NDN_PACKET_SIZE
    ensures ReceiveAll(chunks).failed <==> |ReceiveAll(chunks).tail| == MAX_NDN_PACKET_SIZE
  {
    hide Receivable, ReceiveAll, Receive, Parse, Flatten;
    if chunks == [] {
      NothingReceived();
    } else {
      var before, last := chunks[..|chunks| - 1], chunks[|chunks| - 1];
      LastReceive(chunks);
      ChunkIndependence(before);
      ReceiveContinues(ReceiveAll(before), Flatten(before), last);
      FlattenLast(before, last);
      assert chunks == before + [last];
    }
  }

  lemma NothingReceived()
    ensures ReceiveAll([]) == INITIAL && Parse(Flatten([])) == Parsed([], [])
  {
  }

  lemma LastReceive(chunks: seq<seq<Octet>>)
    requires chunks != [] && Receivable(chunks)
    ensures var before, last := chunks[..|chunks| - 1], chunks[|chunks| - 1];
      Receivable(before) && !ReceiveAll(before).failed && |ReceiveAll(before).tail| + |last| <= MAX_NDN_PACKET_SIZE &&
      ReceiveAll(chunks) == Receive(ReceiveAll(before), last)
  {
    hide Receive;
  }

  lemma FlattenLast(before: seq<seq<Octet>>, last: seq<Octet>)
    ensures Flatten(before + [last]) == Flatten(before) + last
  {
    FlattenConcat(before, [last]);
    assert Flatten([last]) == last;
  }

  /** One receive, where what was received so far is the parse of the stream so far. */
  lemma ReceiveContinues(rx: Rx, stream: seq<Octet>, chunk: seq<Octet>)
    requires rx.delivered == Parse(stream).packets && rx.tail == Parse(stream).rest && !rx.failed
    requires |rx.tail| + |chunk| <= MAX_NDN_PACKET_SIZE
    ensures var r, parsed := Receive(rx, chunk), Parse(stream + chunk);
      r.delivered == parsed.packets && r.tail == parsed.rest && |r.tail| <= MAX_NDN_PACKET_SIZE &&
      (r.failed <==> |r.tail| == MAX_NDN_PACKET_SIZE)
  {
    hide Parse;
    ParseResumes(stream, chunk);
    ParseSplits(rx.tail + chunk);
  }

  /** Failure is decided by the stream alone: two ways of cutting the same octets agree. */
  lemma SameStreamSameOutcome(a: seq<seq<Octet>>, b: seq<seq<Octet>>)
    requires Receivable(a) && Receivable(b) && Flatten(a) == Flatten(b)
    ensures ReceiveAll(a) == ReceiveAll(b)
  {
    ChunkIndependence(a);
    ChunkIndependence(b);
  }

  /** Packets that fit the buffer can never make the transport fail. */
  lemma {:induction false} WellFramedStreamNeverFails(packets: seq<seq<Octet>>, chunks: seq<seq<Octet>>, cut: nat)
    requires forall p :: p in packets ==> IsElement(p) && |p| <= MAX_NDN_PACKET_SIZE
    requires Receivable(chunks) && cut <= |Flatten(packets)| && Flatten(chunks) == Flatten(packets)[..cut]
    ensures !ReceiveAll(chunks).failed
    ensures ReceiveAll(chunks).delivered <= packets
    ensures cut == |Flatten(packets)| ==> ReceiveAll(chunks).delivered == packets && ReceiveAll(chunks).tail == []
  {
    ChunkIndependence(chunks);
    ParseOfPackets(packets, cut);
  }

  lemma {:induction false} ParseOfPackets(packets: seq<seq<Octet>>, cut: nat)
    requires forall p :: p in packets ==> IsElement(p) && |p| <= MAX_NDN_PACKET_SIZE
    requires cut <= |Flatten(packets)|
    ensures var r := Parse(Flatten(packets)[..cut]);
      r.packets <= packets && |r.rest| < MAX_NDN_PACKET_SIZE && (cut == |Flatten(packets)| ==> r == Parsed(packets, []))
  {
    hide Parse, ElementSize;
    if packets == [] {
      ParseEnd([]);
    } else {
      var p, rest := packets[0], Flatten(packets[1..]);
      assert p in packets;
      if cut < |p| {
        assert Flatten(packets)[..cut] == p[..cut];
        PrefixIncomplete(p, cut);
        ParseEnd(p[..cut]);
      } else {
        assert Flatten(packets)[..cut] == p + rest[..cut - |p|];
        ParsePrepend(p, rest[..cut - |p|]);
        ParseOfPackets(packets[1..], cut - |p|);
        assert [p] + packets[1..] == packets;
      }
    }
  }

  class StreamTransport {
    const receiveBuffer: array<Octet>
    var receiveBufferSize: nat
    var received: seq<seq<Octet>>
    var failed: bool

    ghost predicate Valid()
      reads this, receiveBuffer
    {
      receiveBuffer.Length == MAX_NDN_PACKET_SIZE &&
      receiveBufferSize <= MAX_NDN_PACKET_SIZE &&
      (!failed ==> receiveBufferSize < MAX_NDN_PACKET_SIZE)
    }

    ghost function State(): Rx
      reads this, receiveBuffer
      requires Valid()
    {
      Rx(received, receiveBuffer[..receiveBufferSize], failed)
    }

    constructor ()
      ensures Valid() && State() == INITIAL && fresh(receiveBuffer)
    {
      receiveBuffer := new Octet[MAX_NDN_PACKET_SIZE];
      receiveBufferSize := 0;
      received := [];
      failed := false;
    }

    /** The socket has put `chunk` behind the octets already kept; frame what is there. */
    method HandleReceive(chunk: seq<Octet>)
      requires Valid() && !failed
      requires |chunk| <= MAX_NDN_PACKET_SIZE - receiveBufferSize
      modifies this`receiveBufferSize, this`received, this`failed, receiveBuffer
      ensures Valid()
      ensures State() == Receive(old(State()), chunk)
    {
      hide Parse, ElementSize;
      ghost var stream := receiveBuffer[..receiveBufferSize] + chunk;
      forall i | 0 <= i < |chunk| {
        receiveBuffer[receiveBufferSize + i] := chunk[i];
      }
      receiveBufferSize := receiveBufferSize + |chunk|;
      assert receiveBuffer[..receiveBufferSize] == stream;

      var offset, isOk := Frame(stream);

      if !isOk && receiveBufferSize == MAX_NDN_PACKET_SIZE && offset == 0 {
        failed := true;
        return;
      }
      if offset > 0 {
        DropFront(offset);
      }
    }

    /** Delivers every complete packet in the buffer; offset is where the next one would start. */
    method Frame(ghost stream: seq<Octet>) returns (offset: nat, isOk: bool)
      requires receiveBufferSize <= receiveBuffer.Length
      requires stream == receiveBuffer[..receiveBufferSize]
      modifies this`received
      ensures received == old(received) + Parse(stream).packets
      ensures offset <= receiveBufferSize && stream[offset..] == Parse(stream).rest
      ensures isOk <==> offset == receiveBufferSize
    {
      hide Parse, ElementSize;
      offset, isOk := 0, true;
      ghost var all := Parse(stream);
      ghost var rest := all;
      assert stream[0..] == stream;
      while receiveBufferSize - offset > 0
        invariant offset <= receiveBufferSize && isOk
        invariant rest == Parse(stream[offset..])
        invariant old(received) + all.packets == received + rest.packets && all.rest == rest.rest
        decreases receiveBufferSize - offset
      {
        var view := receiveBuffer[offset..receiveBufferSize];
        assert view == stream[offset..];
        var size := ElementSize(view);
        if size.None? {
          isOk := false;
          ParseEnd(view);
          return;
        }
        var element := view[..size.value];
        ParseStep(stream, offset, element);
        offset := offset + size.value;
        ghost var next := Parse(stream[offset..]);
        ConcatAssociative(received, [element], next.packets);
        received, rest := received + [element], next;
      }
      ParseEnd(stream[offset..]);
    }

    /** Moves what is behind `offset` to the front of the buffer. */
    method DropFront(offset: nat)
      requires 0 < offset <= receiveBufferSize <= receiveBuffer.Length
      modifies this`receiveBufferSize, receiveBuffer
      ensures receiveBufferSize == old(receiveBufferSize) - offset
      ensures receiveBuffer[..receiveBufferSize] == old(receiveBuffer[offset..receiveBufferSize])
    {
      if offset != receiveBufferSize {
        forall i | 0 <= i < receiveBufferSize - offset {
          receiveBuffer[i] := receiveBuffer[offset + i];
        }
        receiveBufferSize := receiveBufferSize - offset;
      } else {
        receiveBufferSize := 0;
      }
    }
  }
}
