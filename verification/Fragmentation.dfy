/**
 Splitting a message into packets and putting it together again from packets that may be
 reordered, duplicated, lost, interleaved with those of other messages and timed out.
 */
module Fragmentation {
  import opened Options

  type Byte = b: int | 0 <= b < 256

  const MAX_PAYLOAD: nat := 8
  const HEADER_SIZE: nat := 12
  const TICKS_PER_SECOND: nat := 1_000_000_000

  // ---------------------------------------------------------------- headers as bytes

  datatype Header = Header(messageId: nat, fragmentId: nat, total: nat, payloadSize: nat)

  function Pow256(k: nat): (p: nat)
    ensures p >= 1
  {
    if k == 0 then 1 else 256 * Pow256(k - 1)
  }

  /** The `k` low bytes of `n`, least significant first, as they lie in memory. */
  function Bytes(n: nat, k: nat): (bs: seq<Byte>)
    ensures |bs| == k
  {
    if k == 0 then [] else [n % 256] + Bytes(n / 256, k - 1)
  }

  function Number(bs: seq<Byte>): nat {
    if bs == [] then 0 else bs[0] + 256 * Number(bs[1..])
  }

  lemma {:induction false} NumberOfBytes(n: nat, k: nat)
    requires n < Pow256(k)
    ensures Number(Bytes(n, k)) == n
  {
    if k > 0 {
      NumberOfBytes(n / 256, k - 1);
      assert Bytes(n, k)[1..] == Bytes(n / 256, k - 1);
    }
  }

  function Encode(h: Header): (bs: seq<Byte>)
    ensures |bs| == HEADER_SIZE
  {
    Bytes(h.messageId, 4) + Bytes(h.fragmentId, 2) + Bytes(h.total, 2) + Bytes(h.payloadSize, 4)
  }

  function Decode(bs: seq<Byte>): Header
    requires |bs| >= HEADER_SIZE
  {
    Header(Number(bs[0..4]), Number(bs[4..6]), Number(bs[6..8]), Number(bs[8..12]))
  }

  predicate Fits(h: Header) {
    h.messageId < 0x1_0000_0000 && h.fragmentId < 0x1_0000 && h.total < 0x1_0000 && h.payloadSize < 0x1_0000_0000
  }

  /** The header survives the trip through bytes, whatever payload follows it. */
  lemma DecodeEncode(h: Header, payload: seq<Byte>)
    requires Fits(h)
    ensures Decode(Encode(h) + payload) == h
  {
    var bs := Encode(h) + payload;
    assert bs[0..4] == Bytes(h.messageId, 4);
    assert bs[4..6] == Bytes(h.fragmentId, 2);
    assert bs[6..8] == Bytes(h.total, 2);
    assert bs[8..12] == Bytes(h.payloadSize, 4);
    assert Pow256(2) == 0x1_0000 && Pow256(4) == 0x1_0000_0000;
    NumberOfBytes(h.messageId, 4);
    NumberOfBytes(h.fragmentId, 2);
    NumberOfBytes(h.total, 2);
    NumberOfBytes(h.payloadSize, 4);
  }

  // ---------------------------------------------------------------- fragmenting

  function Total(message: seq<Byte>): nat {
    (|message| + MAX_PAYLOAD - 1) / MAX_PAYLOAD
  }

  /** The payload of fragment `i`: eight bytes, fewer for the last one. */
  function Chunk(message: seq<Byte>, i: nat): seq<Byte>
    requires i < Total(message)
  {
    var from := i * MAX_PAYLOAD;
    if from + MAX_PAYLOAD <= |message| then message[from..from + MAX_PAYLOAD] else message[from..]
  }

  /** Fragment `i` on the wire; its counters are cut down to 16 bits. */
  function Packet(message: seq<Byte>, id: nat, i: nat): seq<Byte>
    requires i < Total(message)
  {
    Encode(Header(id, i % 0x1_0000, Total(message) % 0x1_0000, |Chunk(message, i)|)) + Chunk(message, i)
  }

  /** What the headers of a message still say about its number of fragments. */
  function Shown(message: seq<Byte>): nat {
    Total(message) % 0x1_0000
  }

  /**
   A packet byte by byte: the id in four bytes, the number and the count of fragments in two each,
   the payload's length in four, all least significant first, and then the payload.
   */
  lemma PacketBytes(message: seq<Byte>, id: nat, i: nat)
    requires id < 0x1_0000_0000 && i < Total(message)
    ensures var packet, len := Packet(message, id, i), if |message| < 8 * i + 8 then |message| - 8 * i else 8;
            var number, count := i % 0x1_0000, (|message| + 7) / 8 % 0x1_0000;
            && 0 < len <= 8 && |packet| == 12 + len
            && packet[..4] == [id % 256, id / 256 % 256, id / 256 / 256 % 256, id / 256 / 256 / 256 % 256]
            && packet[4..6] == [number % 256, number / 256 % 256]
            && packet[6..8] == [count % 256, count / 256 % 256]
            && packet[8..12] == [len, 0, 0, 0]
            && packet[12..] == message[8 * i..8 * i + len]
  {
    hide Bytes;
    var packet := Packet(message, id, i);
    FourBytes(id);
    FourBytes(|Chunk(message, i)|);
    TwoBytes(i % 0x1_0000);
    TwoBytes(Total(message) % 0x1_0000);
    assert packet[..4] == Bytes(id, 4);
    assert packet[4..6] == Bytes(i % 0x1_0000, 2);
    assert packet[6..8] == Bytes(Total(message) % 0x1_0000, 2);
    assert packet[8..12] == Bytes(|Chunk(message, i)|, 4);
    assert packet[12..] == Chunk(message, i);
  }

  lemma TwoBytes(n: nat)
    ensures Bytes(n, 2) == [n % 256, n / 256 % 256]
  {
    assert Bytes(n / 256, 1) == [n / 256 % 256];
  }

  lemma FourBytes(n: nat)
    ensures Bytes(n, 4) == [n % 256, n / 256 % 256, n / 256 / 256 % 256, n / 256 / 256 / 256 % 256]
  {
    TwoBytes(n / 256 / 256);
    assert Bytes(n / 256, 3) == [n / 256 % 256] + Bytes(n / 256 / 256, 2);
  }

  /** The packet in terms of offset and length. */
  lemma OnWire(message: seq<Byte>, id: nat, i: nat)
    requires i < Total(message)
    ensures var offset := i * MAX_PAYLOAD;
            var len := if MAX_PAYLOAD < |message| - offset then MAX_PAYLOAD else |message| - offset;
            && 0 < len <= MAX_PAYLOAD && offset + len <= |message|
            && Packet(message, id, i) ==
               Encode(Header(id, i % 0x1_0000, Total(message) % 0x1_0000, len % 0x1_0000_0000)) + message[offset..offset + len]
  {
    hide Encode;
  }

  method Fragment(message: seq<Byte>, id: nat) returns (fragments: seq<seq<Byte>>)
    requires id < 0x1_0000_0000
    ensures |fragments| == Total(message)
    ensures forall i :: 0 <= i < |fragments| ==> fragments[i] == Packet(message, id, i)
  {
    hide Packet, Encode;
    fragments := [];
    var total := (|message| + MAX_PAYLOAD - 1) / MAX_PAYLOAD;
    for i := 0 to total
      invariant |fragments| == i
      invariant forall j :: 0 <= j < i ==> fragments[j] == Packet(message, id, j)
    {
      var offset := i * MAX_PAYLOAD;
      var len := if MAX_PAYLOAD < |message| - offset then MAX_PAYLOAD else |message| - offset;
      var hdr := Header(id, i % 0x1_0000, total % 0x1_0000, len % 0x1_0000_0000);
      OnWire(message, id, i);
      fragments := fragments + [Encode(hdr) + message[offset..offset + len]];
    }
  }

  // ---------------------------------------------------------------- joining

  function Join(fragments: seq<seq<Byte>>): seq<Byte> {
    if fragments == [] then [] else Join(fragments[..|fragments| - 1]) + fragments[|fragments| - 1]
  }

  function Chunks(message: seq<Byte>, n: nat): (cs: seq<seq<Byte>>)
    requires n <= Total(message)
    ensures |cs| == n && forall i :: 0 <= i < n ==> cs[i] == Chunk(message, i)
  {
    seq(n, i requires 0 <= i < n => Chunk(message, i))
  }

  lemma {:induction false} JoinChunks(message: seq<Byte>, n: nat)
    requires n <= Total(message)
    ensures Join(Chunks(message, n)) == if n * MAX_PAYLOAD <= |message| then message[..n * MAX_PAYLOAD] else message
  {
    if n > 0 {
      JoinChunks(message, n - 1);
      assert Chunks(message, n)[..n - 1] == Chunks(message, n - 1);
      assert (n - 1) * MAX_PAYLOAD < |message|;
    }
  }

  /** Putting all chunks together gives the message back. */
  lemma JoinAllChunks(message: seq<Byte>)
    ensures Join(Chunks(message, Total(message))) == message
  {
    JoinChunks(message, Total(message));
    assert Total(message) * MAX_PAYLOAD >= |message|;
    if Total(message) * MAX_PAYLOAD == |message| {
      assert message[..|message|] == message;
    }
  }

  // ---------------------------------------------------------------- reassembly

  datatype Buffer = Buffer(total: nat, fragments: seq<seq<Byte>>, received: seq<bool>, count: nat, first: int)

  type Buffers = map<nat, Buffer>

  function NewBuffer(total: nat, now: int): (b: Buffer)
    ensures b.total == |b.fragments| == |b.received| == total && b.count == 0 && b.first == now
    ensures forall j :: 0 <= j < total ==> !b.received[j]
  {
    Buffer(total, seq(total, _ => []), seq(total, _ => false), 0, now)
  }

  /** The buffer that a packet is put into: the one of its message, or a new one. */
  function BufferFor(bufs: Buffers, hdr: Header, now: int): Buffer {
    if hdr.messageId in bufs && bufs[hdr.messageId].fragments != [] then bufs[hdr.messageId]
    else NewBuffer(hdr.total, now)
  }

  /** A duplicate changes nothing, whatever it carries; a new fragment is marked, counted and kept. */
  function Store(b: Buffer, i: nat, payload: seq<Byte>): (r: Buffer)
    requires i < |b.received| == |b.fragments|
    ensures |r.received| == |b.received| == |r.fragments| && r.received[i] && r.total == b.total && r.first == b.first
    ensures b.received[i] ==> r == b
    ensures !b.received[i] ==> r.count == b.count + 1 && r.fragments[i] == payload
    ensures forall j :: 0 <= j < |b.received| && j != i ==> r.received[j] == b.received[j] && r.fragments[j] == b.fragments[j]
  {
    if b.received[i] then b
    else b.(fragments := b.fragments[i := payload], received := b.received[i := true], count := b.count + 1)
  }

  /** Indexing the buffer is only defined for a packet whose fragment number it has room for. */
  predicate Acceptable(bufs: Buffers, packet: seq<Byte>, now: int) {
    && |packet| >= HEADER_SIZE
    && var hdr := Decode(packet);
       var b := BufferFor(bufs, hdr, now);
       hdr.fragmentId < |b.received| && |b.received| == |b.fragments| && b.total <= |b.fragments|
  }

  /** Truncating division, as of durations. */
  function Seconds(ticks: int): int {
    if ticks >= 0 then ticks / TICKS_PER_SECOND else -((-ticks) / TICKS_PER_SECOND)
  }

  /** At most `timeout` whole seconds have passed, counted in ticks of a nanosecond. */
  predicate InTime(ticks: int, timeout: int) {
    if timeout >= 0 then ticks < (timeout + 1) * 1_000_000_000 else ticks <= timeout * 1_000_000_000
  }

  lemma TicksDecide(ticks: int, timeout: int)
    ensures Seconds(ticks) <= timeout <==> InTime(ticks, timeout)
  {
  }

  predicate Expired(b: Buffer, now: int, timeout: int) {
    Seconds(now - b.first) > timeout
  }

  /** The buffers that a clean-up keeps. */
  function Surviving(bufs: Buffers, now: int, timeout: int): Buffers {
    map id | id in bufs && !Expired(bufs[id], now, timeout) :: bufs[id]
  }

  class Reassembler {
    const timeout: int
    var buffers: Buffers

    constructor (timeout: int)
      ensures this.timeout == timeout && buffers == map[]
    {
      this.timeout := timeout;
      buffers := map[];
    }

    /** Stores a packet; when its message is complete, hands the message out and forgets it. */
    method ProcessFragment(packet: seq<Byte>, now: int) returns (out: Option<seq<Byte>>)
      requires Acceptable(buffers, packet, now)
      modifies this
      ensures var hdr := Decode(packet);
              var b := Store(BufferFor(old(buffers), hdr, now), hdr.fragmentId, packet[HEADER_SIZE..]);
              if b.count == b.total then out == Some(Join(b.fragments[..b.total])) && buffers == old(buffers) - {hdr.messageId}
              else out == None && buffers == old(buffers)[hdr.messageId := b]
    {
      hide Decode, Join;
      var hdr := Decode(packet);
      if hdr.messageId !in buffers || buffers[hdr.messageId].fragments == [] {
        buffers := buffers[hdr.messageId := NewBuffer(hdr.total, now)];
      }
      var buffer := buffers[hdr.messageId];
      if !buffer.received[hdr.fragmentId] {
        buffer := buffer.(fragments := buffer.fragments[hdr.fragmentId := packet[HEADER_SIZE..]],
                          received := buffer.received[hdr.fragmentId := true], count := buffer.count + 1);
        buffers := buffers[hdr.messageId := buffer];
      }
      out := None;
      if buffer.count == buffer.total {
        var full := Assemble(hdr.messageId);
        out := Some(full);
      }
    }

    method Assemble(id: nat) returns (full: seq<Byte>)
      requires id in buffers && buffers[id].total <= |buffers[id].fragments|
      modifies this
      ensures full == Join(old(buffers[id].fragments[..buffers[id].total]))
      ensures buffers == old(buffers) - {id}
    {
      var buffer := buffers[id];
      full := [];
      for i := 0 to buffer.total
        invariant buffers == old(buffers)
        invariant full == Join(buffer.fragments[..i])
      {
        assert buffer.fragments[..i + 1][..i] == buffer.fragments[..i];
        full := full + buffer.fragments[i];
      }
      buffers := buffers - {id};
    }

    /** Drops exactly the messages that have been incomplete for too long, and keeps the others as they are. */
    method CleanupExpired(now: int)
      modifies this
      ensures forall id :: id in buffers <==> id in old(buffers) && InTime(now - old(buffers)[id].first, timeout)
      ensures forall id :: id in buffers ==> buffers[id] == old(buffers)[id]
      ensures buffers == Surviving(old(buffers), now, timeout)
    {
      var todo := buffers.Keys;
      while todo != {}
        invariant todo <= buffers.Keys
        invariant forall id :: id in buffers ==> id in old(buffers) && buffers[id] == old(buffers)[id]
        invariant forall id :: id in old(buffers) ==>
                    (id in buffers <==> id in todo || !Expired(old(buffers)[id], now, timeout))
        decreases |todo|
      {
        var id :| id in todo;
        todo := todo - {id};
        if Expired(buffers[id], now, timeout) {
          buffers := buffers - {id};
        }
      }
      forall id | id in old(buffers)
        ensures Expired(old(buffers)[id], now, timeout) <==> !InTime(now - old(buffers)[id].first, timeout)
      {
        TicksDecide(now - old(buffers)[id].first, timeout);
      }
    }
  }

  // ---------------------------------------------------------------- the channel

  /** One message per id. The channel may deliver any of their fragments at any time, in any order, any number of times. */
  datatype World = World(messages: map<nat, seq<Byte>>, timeout: int)

  datatype Event = Deliver(id: nat, i: nat, now: int) | Cleanup(now: int)

  /** Ids fit their field. */
  ghost predicate Addressed(w: World) {
    forall id :: id in w.messages ==> id < 0x1_0000_0000
  }

  /** The message of `id` has at most 65535 fragments. */
  predicate Short(w: World, id: nat) {
    id in w.messages && Total(w.messages[id]) < 0x1_0000
  }

  /** Ids fit their field, and every message has at most 65535 fragments. */
  ghost predicate Genuine(w: World) {
    Addressed(w) && forall id :: id in w.messages ==> Short(w, id)
  }

  predicate Possible(w: World, e: Event) {
    e.Deliver? ==> e.id in w.messages && e.i < Total(w.messages[e.id])
  }

  function UpTo(n: nat): (r: set<nat>)
    ensures |r| == n && forall i: nat :: i in r <==> i < n
  {
    if n == 0 then {} else UpTo(n - 1) + {n - 1}
  }

  function All(w: World, id: nat): set<nat>
    requires id in w.messages
  {
    UpTo(Total(w.messages[id]))
  }

  /** The fragments of a message that have arrived since its buffer was created, and when the first of them did. */
  datatype Progress = Progress(got: set<nat>, first: int)

  const NOTHING := Progress({}, 0)

  function Advance(w: World, id: nat, p: Progress, e: Event): Progress
    requires id in w.messages
  {
    match e
    case Deliver(d, i, now) =>
      if d != id then p
      else
        var q := Progress(p.got + {i}, if p.got == {} then now else p.first);
        if q.got == All(w, id) then NOTHING else q
    case Cleanup(now) =>
      if p.got != {} && Seconds(now - p.first) > w.timeout then NOTHING else p
  }

  function Track(w: World, trace: seq<Event>, id: nat): Progress
    requires id in w.messages
  {
    if trace == [] then NOTHING
    else Advance(w, id, Track(w, trace[..|trace| - 1], id), trace[|trace| - 1])
  }

  /** The event after `trace` brings the last fragment that was missing since the buffer was created. */
  predicate Completes(w: World, trace: seq<Event>, e: Event)
    requires Possible(w, e)
  {
    e.Deliver? && Track(w, trace, e.id).got + {e.i} == All(w, e.id)
  }

  // ---------------------------------------------------------------- buffers match the channel

  ghost predicate BufferMatches(message: seq<Byte>, p: Progress, b: Buffer) {
    && b.total == Total(message) == |b.fragments| == |b.received|
    && (forall j :: 0 <= j < b.total ==> (b.received[j] <==> j in p.got))
    && (forall j :: 0 <= j < b.total && b.received[j] ==> b.fragments[j] == Chunk(message, j))
    && (forall j :: j in p.got ==> j < b.total)
    && b.count == |p.got|
    && b.first == p.first
  }

  ghost predicate MatchesAt(w: World, trace: seq<Event>, bufs: Buffers, id: nat)
    requires id in w.messages
  {
    var p := Track(w, trace, id);
    if p.got == {} then id !in bufs
    else id in bufs && p.got != All(w, id) && BufferMatches(w.messages[id], p, bufs[id])
  }

  /** Of the short messages, the receiver has a buffer for exactly those in progress, holding what has arrived of them. */
  ghost predicate Matches(w: World, trace: seq<Event>, bufs: Buffers) {
    && (forall id :: id in bufs ==> id in w.messages)
    && (forall id :: Short(w, id) ==> MatchesAt(w, trace, bufs, id))
  }

  lemma SubsetOfSameSize(a: set<nat>, b: set<nat>)
    requires a <= b && |a| == |b|
    ensures a == b
  {
    assert |b - a| == 0;
  }

  /** A buffer is full exactly when it has every fragment. */
  lemma FullMeansAll(w: World, id: nat, p: Progress, b: Buffer)
    requires id in w.messages && BufferMatches(w.messages[id], p, b)
    ensures b.count == b.total <==> p.got == All(w, id)
  {
    if b.count == b.total {
      SubsetOfSameSize(p.got, All(w, id));
    }
  }

  lemma StoreMatches(message: seq<Byte>, p: Progress, b: Buffer, i: nat, now: int)
    requires i < Total(message)
    requires if p.got == {} then b == NewBuffer(Total(message), now) else BufferMatches(message, p, b)
    ensures |b.received| == |b.fragments| == Total(message)
    ensures BufferMatches(message, Progress(p.got + {i}, if p.got == {} then now else p.first), Store(b, i, Chunk(message, i)))
  {
    hide Total, Chunk;
    if i in p.got {
      assert p.got + {i} == p.got;
    } else {
      assert |p.got + {i}| == |p.got| + 1;
    }
  }

  /** A complete buffer spells out the message. */
  lemma FullBufferJoins(message: seq<Byte>, p: Progress, b: Buffer)
    requires BufferMatches(message, p, b) && forall j :: 0 <= j < b.total ==> b.received[j]
    ensures Join(b.fragments[..b.total]) == message
  {
    assert b.fragments[..b.total] == Chunks(message, Total(message));
    JoinAllChunks(message);
  }

  /** What the receiver reads from a packet. */
  lemma HeaderOf(message: seq<Byte>, id: nat, i: nat)
    requires id < 0x1_0000_0000 && i < Total(message)
    ensures var packet := Packet(message, id, i);
            |packet| >= HEADER_SIZE && packet[HEADER_SIZE..] == Chunk(message, i) && 1 <= |Chunk(message, i)| <= MAX_PAYLOAD &&
            Decode(packet) == Header(id, i % 0x1_0000, Shown(message), |Chunk(message, i)|)
  {
    var h := Header(id, i % 0x1_0000, Total(message) % 0x1_0000, |Chunk(message, i)|);
    DecodeEncode(h, Chunk(message, i));
  }

  lemma PacketParts(message: seq<Byte>, id: nat, i: nat)
    requires id < 0x1_0000_0000 && i < Total(message) < 0x1_0000
    ensures var packet := Packet(message, id, i);
            |packet| >= HEADER_SIZE && packet[HEADER_SIZE..] == Chunk(message, i) &&
            Decode(packet) == Header(id, i, Total(message), |Chunk(message, i)|)
  {
    hide Decode, Packet, Total, Chunk;
    HeaderOf(message, id, i);
  }

  /** The header carries the true counters exactly when the message has at most 65535 fragments. */
  lemma CountersSurvive(message: seq<Byte>, id: nat, i: nat)
    requires id < 0x1_0000_0000 && i < Total(message)
    ensures var hdr := Decode(Packet(message, id, i));
            hdr.fragmentId == i && hdr.total == Total(message) <==> Total(message) < 0x1_0000
  {
    hide Decode, Packet, Total;
    HeaderOf(message, id, i);
  }

  lemma TrackStep(w: World, trace: seq<Event>, e: Event, id: nat)
    requires id in w.messages
    ensures Track(w, trace + [e], id) == Advance(w, id, Track(w, trace, id), e)
  {
    assert (trace + [e])[..|trace|] == trace;
  }

  /** The buffer after one more fragment, and what the packet does to it. */
  lemma DeliverOne(w: World, trace: seq<Event>, bufs: Buffers, id: nat, i: nat, now: int)
    requires Addressed(w) && Matches(w, trace, bufs) && Short(w, id) && i < Total(w.messages[id])
    ensures var m := w.messages[id];
            var packet := Packet(m, id, i);
            var p := Track(w, trace, id);
            var q := Progress(p.got + {i}, if p.got == {} then now else p.first);
            && Acceptable(bufs, packet, now)
            && Decode(packet).messageId == id && Decode(packet).fragmentId == i
            && BufferMatches(m, q, Store(BufferFor(bufs, Decode(packet), now), i, packet[HEADER_SIZE..]))
  {
    hide Decode, Packet, Track, BufferMatches, Total, Chunk;
    var m, p := w.messages[id], Track(w, trace, id);
    PacketParts(m, id, i);
    assert MatchesAt(w, trace, bufs, id);
    if p.got != {} {
      MatchingSizes(m, p, bufs[id]);
    }
    var b := BufferFor(bufs, Decode(Packet(m, id, i)), now);
    StoreMatches(m, p, b, i, now);
  }

  lemma MatchingSizes(message: seq<Byte>, p: Progress, b: Buffer)
    requires BufferMatches(message, p, b)
    ensures |b.fragments| == |b.received| == b.total == Total(message) && b.first == p.first
  {
  }

  /** The receiver's map and answer after one delivery. */
  function Delivered(bufs: Buffers, id: nat, b: Buffer): Buffers {
    if b.count == b.total then bufs - {id} else bufs[id := b]
  }

  lemma DeliverMatches(w: World, trace: seq<Event>, bufs: Buffers, e: Event, b: Buffer)
    requires Matches(w, trace, bufs) && e.Deliver? && Short(w, e.id) && Possible(w, e)
    requires var p := Track(w, trace, e.id);
             BufferMatches(w.messages[e.id], Progress(p.got + {e.i}, if p.got == {} then e.now else p.first), b)
    ensures Matches(w, trace + [e], Delivered(bufs, e.id, b))
    ensures b.count == b.total <==> Completes(w, trace, e)
    ensures Completes(w, trace, e) ==> b.total <= |b.fragments| && Join(b.fragments[..b.total]) == w.messages[e.id]
  {
    hide Track, Join, BufferMatches, All, Chunk, Total;
    var p := Track(w, trace, e.id);
    var q := Progress(p.got + {e.i}, if p.got == {} then e.now else p.first);
    assert e.i in q.got;
    FullMeansAll(w, e.id, q, b);
    if Completes(w, trace, e) {
      FullBufferIsMessage(w, e.id, q, b);
    }
    forall id | Short(w, id) ensures MatchesAt(w, trace + [e], Delivered(bufs, e.id, b), id) {
      TrackStep(w, trace, e, id);
      assert MatchesAt(w, trace, bufs, id);
    }
  }

  lemma FullBufferIsMessage(w: World, id: nat, q: Progress, b: Buffer)
    requires id in w.messages && BufferMatches(w.messages[id], q, b) && q.got == All(w, id)
    ensures b.total <= |b.fragments| && Join(b.fragments[..b.total]) == w.messages[id]
  {
    hide Join;
    FullBufferJoins(w.messages[id], q, b);
  }

  lemma CleanupMatches(w: World, trace: seq<Event>, bufs: Buffers, now: int)
    requires Matches(w, trace, bufs)
    ensures Matches(w, trace + [Cleanup(now)], Surviving(bufs, now, w.timeout))
  {
    hide Track, BufferMatches, All, Seconds;
    var after := Surviving(bufs, now, w.timeout);
    forall id | Short(w, id) ensures MatchesAt(w, trace + [Cleanup(now)], after, id) {
      TrackStep(w, trace, Cleanup(now), id);
      assert MatchesAt(w, trace, bufs, id);
      if id in bufs {
        MatchingSizes(w.messages[id], Track(w, trace, id), bufs[id]);
      }
    }
  }

  // ---------------------------------------------------------------- whole runs

  /** The answer to the event after `trace`: the original message, exactly if the event completes it. */
  function Expected(w: World, trace: seq<Event>, e: Event): Option<seq<Byte>>
    requires Possible(w, e)
  {
    if Completes(w, trace, e) then Some(w.messages[e.id]) else None
  }

  predicate OfLongMessage(w: World, e: Event) {
    Possible(w, e) && e.Deliver? && Total(w.messages[e.id]) >= 0x1_0000
  }

  predicate NoRoom(w: World, bufs: Buffers, e: Event) {
    Possible(w, e) && e.Deliver? && !Acceptable(bufs, Packet(w.messages[e.id], e.id, e.i), e.now)
  }

  /** The number in the header is below the count in the header. */
  predicate HasRoom(w: World, e: Event)
    requires Possible(w, e)
  {
    e.Deliver? ==> e.i % 0x1_0000 < Shown(w.messages[e.id])
  }

  /** The receiver's buffers after an event. */
  function BuffersAfter(w: World, bufs: Buffers, e: Event): Buffers {
    match e
    case Deliver(id, i, now) =>
      if Possible(w, e) && Acceptable(bufs, Packet(w.messages[id], id, i), now) then
        var packet := Packet(w.messages[id], id, i);
        var hdr := Decode(packet);
        Delivered(bufs, hdr.messageId, Store(BufferFor(bufs, hdr, now), hdr.fragmentId, packet[HEADER_SIZE..]))
      else bufs
    case Cleanup(now) => Surviving(bufs, now, w.timeout)
  }

  /** The receiver's buffers after a run. */
  function BuffersOf(w: World, trace: seq<Event>): Buffers {
    if trace == [] then map[] else BuffersAfter(w, BuffersOf(w, trace[..|trace| - 1]), trace[|trace| - 1])
  }

  /** Buffers of a receiver that has only seen packets of the world's messages, of whatever length. */
  ghost predicate Sized(message: seq<Byte>, b: Buffer) {
    && b.total == |b.fragments| == |b.received| == Shown(message)
    && forall j :: 0 <= j < |b.fragments| ==> |b.fragments[j]| <= MAX_PAYLOAD
  }

  ghost predicate AllSized(w: World, bufs: Buffers) {
    forall id :: id in bufs ==> id in w.messages && Sized(w.messages[id], bufs[id])
  }

  lemma {:induction false} JoinLength(fragments: seq<seq<Byte>>)
    requires forall j :: 0 <= j < |fragments| ==> |fragments[j]| <= MAX_PAYLOAD
    ensures |Join(fragments)| <= MAX_PAYLOAD * |fragments|
  {
    if fragments != [] {
      JoinLength(fragments[..|fragments| - 1]);
    }
  }

  /** Too long a message never comes out: what is handed out is shorter. */
  lemma SizedJoins(message: seq<Byte>, b: Buffer)
    requires Sized(message, b)
    ensures |Join(b.fragments[..b.total])| <= MAX_PAYLOAD * Shown(message)
    ensures Total(message) >= 0x1_0000 ==> MAX_PAYLOAD * Shown(message) < |message|
  {
    JoinLength(b.fragments[..b.total]);
  }

  /** There is room for a packet exactly if its number is below the count in its header. */
  lemma RoomExact(w: World, bufs: Buffers, e: Event)
    requires Addressed(w) && AllSized(w, bufs) && Possible(w, e) && e.Deliver?
    ensures NoRoom(w, bufs, e) <==> !HasRoom(w, e)
  {
    hide Decode, Packet, Total, Chunk;
    HeaderOf(w.messages[e.id], e.id, e.i);
  }

  lemma StoreSized(w: World, bufs: Buffers, e: Event)
    requires Addressed(w) && AllSized(w, bufs) && Possible(w, e) && e.Deliver?
    requires Acceptable(bufs, Packet(w.messages[e.id], e.id, e.i), e.now)
    ensures var packet := Packet(w.messages[e.id], e.id, e.i);
            var hdr := Decode(packet);
            hdr.messageId == e.id &&
            Sized(w.messages[e.id], Store(BufferFor(bufs, hdr, e.now), hdr.fragmentId, packet[HEADER_SIZE..]))
  {
    hide Decode, Packet, Total, Chunk;
    HeaderOf(w.messages[e.id], e.id, e.i);
  }

  lemma StepSized(w: World, bufs: Buffers, e: Event)
    requires Addressed(w) && AllSized(w, bufs) && Possible(w, e)
    ensures AllSized(w, BuffersAfter(w, bufs, e))
  {
    hide Decode, Packet, Sized, Seconds;
    if e.Deliver? && Acceptable(bufs, Packet(w.messages[e.id], e.id, e.i), e.now) {
      StoreSized(w, bufs, e);
    }
  }

  lemma CleanedUp(w: World, bufs: Buffers, now: int)
    ensures BuffersAfter(w, bufs, Cleanup(now)) == Surviving(bufs, now, w.timeout)
  {
  }

  /** A packet of a longer message leaves the buffers of the others in step with the channel. */
  lemma LongMatches(w: World, trace: seq<Event>, bufs: Buffers, e: Event, b: Buffer)
    requires Matches(w, trace, bufs) && OfLongMessage(w, e)
    ensures Matches(w, trace + [e], Delivered(bufs, e.id, b))
  {
    hide Track, BufferMatches, All, Total;
    forall id | Short(w, id) ensures MatchesAt(w, trace + [e], Delivered(bufs, e.id, b), id) {
      TrackStep(w, trace, e, id);
      assert MatchesAt(w, trace, bufs, id);
    }
  }


  lemma NothingYet(w: World)
    ensures Matches(w, [], map[]) && AllSized(w, map[])
  {
  }

  /** A packet of a message of at most 65535 fragments arrives. */
  method Arrives(r: Reassembler, ghost w: World, ghost trace: seq<Event>, e: Event, packet: seq<Byte>)
      returns (out: Option<seq<Byte>>)
    requires Addressed(w) && e.Deliver? && Short(w, e.id) && Possible(w, e) && Matches(w, trace, r.buffers)
    requires packet == Packet(w.messages[e.id], e.id, e.i)
    modifies r
    ensures Matches(w, trace + [e], r.buffers)
    ensures r.buffers == BuffersAfter(w, old(r.buffers), e)
    ensures out == Expected(w, trace, e)
  {
    hide Track, Join, Matches, BufferMatches, Decode, Packet;
    DeliverOne(w, trace, r.buffers, e.id, e.i, e.now);
    ghost var b := Store(BufferFor(r.buffers, Decode(packet), e.now), e.i, packet[HEADER_SIZE..]);
    DeliverMatches(w, trace, r.buffers, e, b);
    out := r.ProcessFragment(packet, e.now);
  }

  /** A packet of a longer message arrives: the message does not come out, and the others are not disturbed. */
  method ArrivesLong(r: Reassembler, ghost w: World, ghost trace: seq<Event>, e: Event, packet: seq<Byte>)
      returns (out: Option<seq<Byte>>)
    requires Addressed(w) && Possible(w, e) && OfLongMessage(w, e) && Matches(w, trace, r.buffers) && AllSized(w, r.buffers)
    requires packet == Packet(w.messages[e.id], e.id, e.i) && Acceptable(r.buffers, packet, e.now)
    modifies r
    ensures Matches(w, trace + [e], r.buffers)
    ensures r.buffers == BuffersAfter(w, old(r.buffers), e)
    ensures out != Some(w.messages[e.id])
  {
    hide Track, Join, Matches, Decode, Packet, Sized;
    ghost var hdr := Decode(packet);
    ghost var b := Store(BufferFor(r.buffers, hdr, e.now), hdr.fragmentId, packet[HEADER_SIZE..]);
    StoreSized(w, r.buffers, e);
    SizedJoins(w.messages[e.id], b);
    LongMatches(w, trace, r.buffers, e, b);
    out := r.ProcessFragment(packet, e.now);
  }

  /** One event against the receiver. */
  method Receive(r: Reassembler, w: World, ghost trace: seq<Event>, e: Event) returns (out: Option<seq<Byte>>)
    requires Addressed(w) && r.timeout == w.timeout && Possible(w, e) && HasRoom(w, e)
    requires Matches(w, trace, r.buffers) && AllSized(w, r.buffers)
    modifies r
    ensures Matches(w, trace + [e], r.buffers) && AllSized(w, r.buffers)
    ensures r.buffers == BuffersAfter(w, old(r.buffers), e)
    ensures if OfLongMessage(w, e) then out != Some(w.messages[e.id]) else out == Expected(w, trace, e)
  {
    hide Track, Join, Matches, Packet, Decode, AllSized, BuffersAfter;
    StepSized(w, r.buffers, e);
    match e
    case Deliver(id, i, now) =>
      RoomExact(w, r.buffers, e);
      var packet := Packet(w.messages[id], id, i);
      if Total(w.messages[id]) < 0x1_0000 {
        out := Arrives(r, w, trace, e, packet);
      } else {
        out := ArrivesLong(r, w, trace, e, packet);
      }
    case Cleanup(now) =>
      CleanupMatches(w, trace, r.buffers, now);
      r.CleanupExpired(now);
      CleanedUp(w, old(r.buffers), now);
      out := None;
  }

  /**
   Any run of the channel, with messages of any length. It goes on to the first packet whose number
   is not below the count in its header, if there is one. Messages of at most 65535 fragments come
   out exactly when they should, whatever happens to the others; longer ones never do.
   */
  method RunAnyLength(w: World, trace: seq<Event>) returns (r: Reassembler, outs: seq<Option<seq<Byte>>>)
    requires Addressed(w) && forall n :: 0 <= n < |trace| ==> Possible(w, trace[n])
    ensures |outs| <= |trace| && forall n :: 0 <= n < |outs| ==> HasRoom(w, trace[n])
    ensures |outs| < |trace| ==> !HasRoom(w, trace[|outs|]) && NoRoom(w, r.buffers, trace[|outs|])
    ensures fresh(r) && r.buffers == BuffersOf(w, trace[..|outs|])
    ensures forall n :: 0 <= n < |outs| && !OfLongMessage(w, trace[n]) ==> outs[n] == Expected(w, trace[..n], trace[n])
    ensures forall n :: 0 <= n < |outs| && OfLongMessage(w, trace[n]) ==> outs[n] != Some(w.messages[trace[n].id])
  {
    hide Matches, Expected, Packet, Total, AllSized, BuffersAfter;
    r := new Reassembler(w.timeout);
    NothingYet(w);
    outs := [];
    while |outs| < |trace|
      invariant |outs| <= |trace| && fresh(r) && r.timeout == w.timeout
      invariant Matches(w, trace[..|outs|], r.buffers) && AllSized(w, r.buffers)
      invariant r.buffers == BuffersOf(w, trace[..|outs|])
      invariant forall n :: 0 <= n < |outs| ==> HasRoom(w, trace[n])
      invariant forall n :: 0 <= n < |outs| && !OfLongMessage(w, trace[n]) ==> outs[n] == Expected(w, trace[..n], trace[n])
      invariant forall n :: 0 <= n < |outs| && OfLongMessage(w, trace[n]) ==> outs[n] != Some(w.messages[trace[n].id])
    {
      var n := |outs|;
      if !HasRoom(w, trace[n]) {
        RoomExact(w, r.buffers, trace[n]);
        return;
      }
      var out := Receive(r, w, trace[..n], trace[n]);
      assert trace[..n + 1][..n] == trace[..n];
      assert trace[..n] + [trace[n]] == trace[..n + 1];
      outs := outs + [out];
    }
  }

  /**
   With no message of more than 65535 fragments: under reordering, duplication, loss, interleaving
   of messages and timeouts, every message handed out is the original, and it is handed out exactly
   when the last fragment missing since its buffer was created arrives.
   */
  method RunChannel(w: World, trace: seq<Event>) returns (outs: seq<Option<seq<Byte>>>)
    requires Genuine(w) && forall n :: 0 <= n < |trace| ==> Possible(w, trace[n])
    ensures |outs| == |trace|
    ensures forall n :: 0 <= n < |trace| ==> outs[n] == Expected(w, trace[..n], trace[n])
  {
    hide Expected, Packet;
    var r;
    r, outs := RunAnyLength(w, trace);
  }

  // ---------------------------------------------------------------- messages that are too long

  /** What the headers of `message` describe: all of it, or the beginning that a wrapped count leaves. */
  function Described(message: seq<Byte>): (d: seq<Byte>)
    ensures Total(d) == Shown(message) < 0x1_0000
    ensures d <= message && (d == message <==> Total(message) < 0x1_0000)
  {
    if Total(message) < 0x1_0000 then message else message[..Shown(message) * MAX_PAYLOAD]
  }

  /** On the wire, the first packets of a message cannot be told from those of the part that its headers describe. */
  lemma SamePackets(message: seq<Byte>, id: nat, i: nat)
    requires i < Shown(message)
    ensures i < Total(message) && Packet(message, id, i) == Packet(Described(message), id, i)
  {
    hide Encode;
    assert Chunk(message, i) == Chunk(Described(message), i);
  }

  /** When the count wraps to zero, a fresh receiver has no room for any packet. */
  lemma WrappedCountIsUnusable(message: seq<Byte>, id: nat, i: nat, now: int)
    requires id < 0x1_0000_0000 && i < Total(message)
    ensures !Acceptable(map[], Packet(message, id, i), now) <==> i % 0x1_0000 >= Shown(message)
    ensures Shown(message) == 0 ==> !Acceptable(map[], Packet(message, id, i), now)
  {
    hide Decode, Packet;
    HeaderOf(message, id, i);
  }

  function InOrder(id: nat, n: nat, now: int): seq<Event> {
    seq(n, i requires 0 <= i < n => Deliver(id, i, now))
  }

  lemma {:induction false} InOrderProgress(w: World, id: nat, n: nat, now: int)
    requires id in w.messages && n < Total(w.messages[id])
    ensures Track(w, InOrder(id, n, now), id).got == UpTo(n)
  {
    hide Advance, Total;
    if n > 0 {
      InOrderProgress(w, id, n - 1, now);
      assert InOrder(id, n, now)[..n - 1] == InOrder(id, n - 1, now);
      OneMore(w, id, n, Track(w, InOrder(id, n - 1, now), id), now);
    }
  }

  lemma OneMore(w: World, id: nat, n: nat, p: Progress, now: int)
    requires id in w.messages && 0 < n < Total(w.messages[id]) && p.got == UpTo(n - 1)
    ensures Advance(w, id, p, Deliver(id, n - 1, now)).got == UpTo(n)
  {
    hide Total;
    assert UpTo(n - 1) + {n - 1} == UpTo(n);
    assert n !in UpTo(n) && n in All(w, id);
  }

  /** In order, exactly the last packet completes the message. */
  lemma InOrderCompletes(w: World, id: nat, n: nat, now: int)
    requires id in w.messages && n < Total(w.messages[id])
    ensures Completes(w, InOrder(id, n, now), Deliver(id, n, now)) <==> n + 1 == Total(w.messages[id])
  {
    InOrderProgress(w, id, n, now);
    assert UpTo(n) + {n} == UpTo(n + 1);
    assert |UpTo(n + 1)| == n + 1 && |All(w, id)| == Total(w.messages[id]);
  }

  /**
   A message is cut up and its first packets, as many as its headers announce, arrive in order at
   a fresh receiver. If there are any, it hands out what the headers describe. So the message comes
   out exactly if it has at least one and at most 65535 fragments.
   */
  method SendInOrder(message: seq<Byte>, id: nat, timeout: int, now: int) returns (outs: seq<Option<seq<Byte>>>)
    requires id < 0x1_0000_0000
    ensures |outs| == Shown(message)
    ensures forall n :: 0 <= n < |outs| - 1 ==> outs[n] == None
    ensures outs != [] ==> outs[|outs| - 1] == Some(Described(message))
    ensures Some(message) in outs <==> 1 <= Total(message) < 0x1_0000
  {
    hide Matches, Packet, Total, Completes;
    var packets := Fragment(message, id);
    var r := new Reassembler(timeout);
    ghost var w := World(map[id := Described(message)], timeout);
    NothingYet(w);
    assert InOrder(id, 0, now) == [];
    var shown := |packets| % 0x1_0000;
    outs := [];
    while |outs| < shown
      invariant |outs| <= shown && r.timeout == timeout
      invariant Matches(w, InOrder(id, |outs|, now), r.buffers)
      invariant forall n :: 0 <= n < |outs| ==> outs[n] == if n + 1 == shown then Some(Described(message)) else None
    {
      var n := |outs|;
      SamePackets(message, id, n);
      InOrderCompletes(w, id, n, now);
      var out := Arrives(r, w, InOrder(id, n, now), Deliver(id, n, now), packets[n]);
      assert InOrder(id, n, now) + [Deliver(id, n, now)] == InOrder(id, n + 1, now);
      outs := outs + [out];
    }
  }

  /** The empty message has no packets, so it never comes out. */
  method EmptyMessage(id: nat, timeout: int, now: int) returns (packets: seq<seq<Byte>>, outs: seq<Option<seq<Byte>>>)
    requires id < 0x1_0000_0000
    ensures packets == [] && Some([]) !in outs
  {
    packets := Fragment([], id);
    outs := SendInOrder([], id, timeout, now);
  }

  /** Nor can any channel deliver a part of it. */
  lemma NothingToDeliver(w: World, e: Event)
    requires e.Deliver? && Possible(w, e)
    ensures w.messages[e.id] != []
  {
  }
}
