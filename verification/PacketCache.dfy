/**
 The fixed-size packet cache: a node array, a probe table, a recency list threaded
 through the nodes and a stack of free node indices. Every call is proved to act as
 one step of the least-recently-used policy of `LruSpec` on (key, payload) entries.
 */
module PacketCache {
  import opened LinearProbing
  import opened IndexList
  import opened CacheState
  import opened Options
  import Lru = LruSpec

  const MAX_PACKET_SIZE: nat := 1536

  type Byte = b: int | 0 <= b < 256

  /** A node's packet buffer: `len` bytes of the fixed-size array `data` are meaningful. */
  datatype Packet = Packet(data: seq<Byte>, len: nat)

  function Payload(p: Packet): seq<Byte> {
    if p.len <= |p.data| then p.data[..p.len] else p.data
  }

  /** The calls of the cache; `out` says whether an output buffer is given, `room` its size variable. */
  datatype Call =
    | PutCall(key: Key, data: seq<Byte>, len: nat)
    | GetCall(key: Key, out: bool, room: Option<nat>)
    | PeekCall(key: Key, out: bool, room: Option<nat>)
    | RemoveCall(key: Key)

  /** What a call reports: success, the bytes copied out and the size variable written, if any. */
  datatype Reply = Reply(ok: bool, copied: Option<seq<Byte>>, size: Option<nat>)

  type Entries = seq<Lru.Entry<seq<Byte>>>

  // ---------------------------------------------------------------- specification

  /** The caller's buffer is given but smaller than the stored packet. */
  predicate TooSmall(s: Entries, key: Key, out: bool, room: Option<nat>)
    requires Lru.Has(s, key)
  {
    out && room.Some? && room.value < |s[Lru.Find(s, key)].value|
  }

  /** The policy step that a call performs in state `s`. */
  function Effect(s: Entries, call: Call): Lru.Op<seq<Byte>> {
    match call
    case PutCall(k, data, len) =>
      if len <= MAX_PACKET_SIZE && len <= |data| then Lru.Put(Lru.Entry(k, data[..len])) else Lru.Skip
    case GetCall(k, out, room) =>
      if Lru.Has(s, k) && !TooSmall(s, k, out, room) then Lru.Remove(k) else Lru.Skip
    case PeekCall(k, out, room) =>
      if Lru.Has(s, k) && !TooSmall(s, k, out, room) then Lru.Touch(k) else Lru.Skip
    case RemoveCall(k) => Lru.Remove(k)
  }

  /** The answer to a successful or failed copy of the entry of `key`. */
  function CopyReply(s: Entries, key: Key, out: bool, room: Option<nat>): Reply {
    if !Lru.Has(s, key) || TooSmall(s, key, out, room) then Reply(false, None, None)
    else
      var payload := s[Lru.Find(s, key)].value;
      Reply(true, if out && room.Some? then Some(payload) else None, if room.Some? then Some(|payload|) else None)
  }

  function Answer(s: Entries, call: Call): Reply {
    match call
    case PutCall(k, data, len) => Reply(len <= MAX_PACKET_SIZE, None, None)
    case GetCall(k, out, room) => CopyReply(s, k, out, room)
    case PeekCall(k, out, room) => CopyReply(s, k, out, room)
    case RemoveCall(k) => Reply(Lru.Has(s, k), None, None)
  }

  /** A copy of the entry of `key` succeeds exactly if there is one and the given room suffices, and hands out its bytes. */
  ghost predicate Copied(s: Entries, key: Key, out: bool, room: Option<nat>, reply: Reply) {
    var k := Lru.Find(s, key);
    if k < |s| && (out && room.Some? ==> |s[k].value| <= room.value) then
      && reply.ok
      && reply.copied == (if out && room.Some? then Some(s[k].value) else None)
      && reply.size == (if room.Some? then Some(|s[k].value|) else None)
    else reply == Reply(false, None, None)
  }

  // ---------------------------------------------------------------- the cache

  /** Every packet buffer has its full size, and its length fits. */
  ghost predicate Roomy(nodes: seq<Node<Packet>>) {
    forall i :: 0 <= i < |nodes| ==> nodes[i].value.len <= |nodes[i].value.data| == MAX_PACKET_SIZE
  }

  lemma RoomyUpdate(nodes: seq<Node<Packet>>, nodes': seq<Node<Packet>>, idx: int, x: Node<Packet>)
    requires Roomy(nodes) && 0 <= idx < |nodes| && x.value.len <= |x.value.data| == MAX_PACKET_SIZE
    requires SameContents(nodes', nodes[idx := x])
    ensures Roomy(nodes')
  {
  }

  lemma RoomyAt(nodes: seq<Node<Packet>>, i: int)
    requires Roomy(nodes) && 0 <= i < |nodes|
    ensures nodes[i].value.len <= |nodes[i].value.data| == MAX_PACKET_SIZE
  {
  }

  class Cache {
    const hash: Key -> nat
    const nodes: array<Node<Packet>>
    const hashTable: array<int>
    const freeList: array<int>
    var head: int
    var tail: int
    var freeCount: nat
    var size: nat
    /** The listed nodes, most recently used first. */
    ghost var order: seq<int>

    ghost predicate Shape()
      reads this
    {
      && hashTable != freeList
      && freeList.Length == nodes.Length
      && 1 <= nodes.Length < hashTable.Length
      && freeCount <= freeList.Length
    }

    ghost predicate Buffers()
      reads nodes
    {
      Roomy(nodes[..])
    }

    /** The invariant, while the nodes of `extra` are in neither list nor free stack. */
    ghost predicate Inv(extra: seq<int>)
      reads this, nodes, hashTable, freeList
    {
      && Shape() && Buffers()
      && InRange(order, nodes.Length) && size == |order|
      && size + freeCount + |extra| == nodes.Length
      && State(nodes[..], hashTable[..], hash, head, tail, order, freeList[..freeCount] + extra)
    }

    ghost predicate Valid()
      reads this, nodes, hashTable, freeList
      ensures Valid() ==> InRange(order, nodes.Length) && 1 <= nodes.Length
    {
      Inv([])
    }

    /** The (key, payload) entries, most recently used first. */
    ghost function Contents(): Entries
      requires InRange(order, nodes.Length)
      reads this, nodes
    {
      View(nodes[..], order, Payload)
    }

    /** Node `idx` holds the `k`-th entry. */
    ghost predicate Placed(idx: int, k: nat)
      requires InRange(order, nodes.Length)
      reads this, nodes
    {
      k < |order| == |Contents()| && order[k] == idx && Contents()[k] == Lru.Entry(nodes[idx].key, Payload(nodes[idx].value))
    }

    constructor (capacity: nat, hashSize: nat, hash: Key -> nat)
      requires 1 <= capacity < hashSize && HashInto(hash, hashSize)
      ensures Valid() && fresh(nodes) && fresh(hashTable) && fresh(freeList)
      ensures nodes.Length == capacity && Contents() == []
    {
      var zeroed := Node(0, Packet(seq(MAX_PACKET_SIZE, _ => 0), 0), false, 0, 0);
      this.hash := hash;
      nodes := new Node<Packet>[capacity](_ => zeroed);
      hashTable := new int[hashSize];
      freeList := new int[capacity];
      head, tail, size, freeCount, order := NIL, NIL, 0, 0, [];
      new;
      HashClear(hashTable);
      while freeCount < capacity
        modifies this`freeCount, nodes, freeList
        invariant freeCount <= capacity
        invariant forall i :: 0 <= i < capacity ==> nodes[i].value == zeroed.value
        invariant forall i :: 0 <= i < freeCount ==> !nodes[i].valid && freeList[i] == i
        invariant forall s :: 0 <= s < hashSize ==> hashTable[s] == EMPTY
      {
        nodes[freeCount] := nodes[freeCount].(valid := false, prev := NIL, next := NIL);
        freeList[freeCount] := freeCount;
        freeCount := freeCount + 1;
      }
      assert freeList[..freeCount] + [] == freeList[..];
      hide State;
      StateEmpty(nodes[..], hashTable[..], hash, freeList[..]);
    }

    // -------------------------------------------------------------- internal operations

    /** The common end of removal and eviction: out of the table, out of the list, no longer in use. */
    method Detach(idx: int, ghost k: nat)
      requires Valid() && k < |order| && order[k] == idx
      modifies this`head, this`tail, this`size, this`order, nodes, hashTable
      ensures Inv([idx]) && order == Drop(old(order), k)
      ensures Contents() == old(Contents()[..k] + Contents()[k + 1..])
    {
      hide Represents, Keyed, LinkedAt, At, Partition, Distinct, View, KeyMap, Drop;
      ghost var before, table, spare := nodes[..], hashTable[..], freeList[..freeCount];
      assert spare + [] == spare;
      ListedNode(before, table, hash, head, tail, order, spare, k);
      var found, removed := HashRemove(hashTable, nodes, hash, nodes[idx].key, KeyMap(before, order));
      head, tail := Unlink(nodes, head, tail, idx, order, k);
      ghost var unlinked := nodes[..];
      nodes[idx] := nodes[idx].(valid := false, prev := NIL, next := NIL);
      assert nodes[..] == unlinked[idx := nodes[idx]];
      StateDetach(before, unlinked, table, hashTable[..], hash, old(head), old(tail), head, tail, order, spare, k, nodes[idx]);
      ViewDetach(before, unlinked, order, k, nodes[idx], Payload);
      order := Drop(order, k);
      size := size - 1;
    }

    /**
     A free node, or the least recently used one after evicting it. There always is one:
     the branch of the original that finds neither cannot be reached.
     */
    method AllocateNode() returns (idx: int)
      requires Valid()
      modifies this, nodes, hashTable
      ensures 0 <= idx < nodes.Length && Inv([idx])
      ensures Contents() == if old(|order|) < nodes.Length then old(Contents()) else old(Contents()[..|order| - 1])
    {
      hide Represents, Keyed, LinkedAt, Distinct, View, KeyMap, Drop;
      ghost var spare := freeList[..freeCount];
      assert spare + [] == spare;
      if freeCount > 0 {
        freeCount := freeCount - 1;
        idx := freeList[freeCount];
        assert spare == freeList[..freeCount] + [idx];
        PartitionParts(order, spare, nodes.Length);
        return;
      }
      var evict := tail;
      assert evict != NIL && evict == order[|order| - 1];
      ghost var s := Contents();
      Detach(evict, |order| - 1);
      assert s[..|s| - 1] + s[|s|..] == s[..|s| - 1];
      idx := evict;
    }

    /** Moves a listed node to the front after its payload was set to `packet`. */
    method Refresh(idx: int, packet: Packet, ghost k: nat)
      requires Valid() && Placed(idx, k)
      requires packet.len <= |packet.data| == MAX_PACKET_SIZE
      modifies this`head, this`tail, this`order, nodes
      ensures Valid()
      ensures Contents() == Fronted(old(Contents()), k, Lru.Entry(old(nodes[idx].key), Payload(packet)))
    {
      hide State, Linked, Distinct, View, Drop, Roomy, SameContents;
      ghost var before := nodes[..];
      StateLinked(before, hashTable[..], hash, head, tail, order, freeList[..freeCount] + []);
      nodes[idx] := nodes[idx].(value := packet);
      assert nodes[..] == before[idx := before[idx].(value := packet)];
      FrameLinked(before, nodes[..], head, tail, order);
      head, tail := MoveToHead(nodes, head, tail, idx, order, k);
      RoomyUpdate(before, nodes[..], idx, before[idx].(value := packet));
      StateMove(before, nodes[..], hashTable[..], hash, old(head), old(tail), head, tail, order, freeList[..freeCount] + [], k, packet);
      ViewMove(before, nodes[..], order, k, packet, Payload);
      order := [idx] + Drop(order, k);
    }

    /** Fills an allocated node, enters it in the table and links it as the head. */
    method Install(idx: int, key: Key, packet: Packet)
      requires 0 <= idx < nodes.Length && Inv([idx]) && !Lru.Has(Contents(), key)
      requires packet.len <= |packet.data| == MAX_PACKET_SIZE
      modifies this`head, this`tail, this`order, this`size, nodes, hashTable
      ensures Valid()
      ensures Contents() == [Lru.Entry(key, Payload(packet))] + old(Contents())
    {
      hide State, Linked, Distinct, View, KeyMap, FirstEmpty, Roomy, SameContents;
      ghost var before, table, spare := nodes[..], hashTable[..], freeList[..freeCount];
      StateLinked(before, table, hash, head, tail, order, spare + [idx]);
      ghost var x := Node(key, packet, true, NIL, NIL);
      nodes[idx] := Node(key, packet, true, NIL, NIL);
      ghost var filled := nodes[..];
      assert filled == before[idx := x];
      SpareNode(before, table, hash, head, tail, order, spare, idx, key, Payload);
      FrameLinked(before, filled, head, tail, order);
      var ok, at := HashInsert(hashTable, hash, key, idx);
      assert ok;
      head, tail := PushFront(nodes, head, tail, idx, order);
      RoomyUpdate(before, nodes[..], idx, x);
      StatePush(before, nodes[..], table, hash, old(head), old(tail), head, tail, order, spare, idx, x, at);
      ViewAdd(before, nodes[..], order, idx, x, Payload);
      order := [idx] + order;
      size := size + 1;
      assert spare + [] == spare;
    }

    /** The node of `key`, or -1, together with its place in the contents. */
    method Lookup(key: Key) returns (idx: int)
      requires Valid()
      ensures Lru.DistinctEntries(Contents())
      ensures idx == EMPTY <==> !Lru.Has(Contents(), key)
      ensures idx != EMPTY ==> 0 <= idx < nodes.Length && nodes[idx].key == key && Placed(idx, Lru.Find(Contents(), key))
      ensures Buffers() && (idx != EMPTY ==> |nodes[idx].value.data| == MAX_PACKET_SIZE)
    {
      hide Represents, Keyed, LinkedAt, At, Distinct, View, KeyMap;
      idx := HashLookupNode(hashTable, nodes, hash, key, KeyMap(nodes[..], order));
      PartitionParts(order, freeList[..freeCount] + [], nodes.Length);
      FoundInView(nodes[..], hashTable[..], hash, order, Payload, key, idx);
    }

    /** Releases a listed node: detached and pushed on the free stack. */
    method Release(idx: int, ghost k: nat)
      requires Valid() && Placed(idx, k)
      modifies this, nodes, hashTable, freeList
      ensures Valid() && Contents() == old(Contents()[..k] + Contents()[k + 1..])
    {
      hide Represents, Keyed, LinkedAt, Distinct, View, KeyMap, Drop;
      Detach(idx, k);
      ghost var spare := freeList[..freeCount];
      freeList[freeCount] := idx;
      freeCount := freeCount + 1;
      assert freeList[..freeCount] + [] == spare + [idx];
    }

    // -------------------------------------------------------------- the calls

    /** The first `len` bytes become the entry of the key, in front; the last entry makes room in a full cache. */
    method Put(key: Key, data: seq<Byte>, len: nat) returns (ok: bool)
      requires Valid()
      requires len <= MAX_PACKET_SIZE ==> len <= |data|
      modifies this, nodes, hashTable, freeList
      ensures Valid()
      ensures ok <==> len <= 1536
      ensures var s := old(Contents());
              var k := Lru.Find(s, key);
              Contents() == if !ok then s
                            else [Lru.Entry(key, data[..len])] +
                                 if k < |s| then s[..k] + s[k + 1..] else if |s| < nodes.Length then s else s[..|s| - 1]
      ensures Contents() == Lru.Apply(old(Contents()), nodes.Length, Effect(old(Contents()), PutCall(key, data, len)))
      ensures ok == Answer(old(Contents()), PutCall(key, data, len)).ok
    {
      hide State, View, Lru.Find, Lru.DistinctEntries, Roomy;
      if len > MAX_PACKET_SIZE {
        return false;
      }
      var nodeIdx := Lookup(key);
      if nodeIdx != EMPTY {
        ghost var k := Lru.Find(Contents(), key);
        var packet := Packet(data[..len] + nodes[nodeIdx].value.data[len..], len);
        Refresh(nodeIdx, packet, k);
        return true;
      }
      ghost var s := Contents();
      var idx := AllocateNode();
      RoomyAt(nodes[..], idx);
      Install(idx, key, Packet(data[..len] + nodes[idx].value.data[len..], len));
      return true;
    }

    /** Copies a packet out and removes it; without the packet, or room for it, changes nothing. */
    method Get(key: Key, out: bool, room: Option<nat>) returns (reply: Reply)
      requires Valid()
      modifies this, nodes, hashTable, freeList
      ensures Valid()
      ensures Copied(old(Contents()), key, out, room, reply)
      ensures var s := old(Contents());
              var k := Lru.Find(s, key);
              if reply.ok then k < |s| && Contents() == s[..k] + s[k + 1..] && !Lru.Has(Contents(), key) else Contents() == s
      ensures Contents() == Lru.Apply(old(Contents()), nodes.Length, Effect(old(Contents()), GetCall(key, out, room)))
      ensures reply == Answer(old(Contents()), GetCall(key, out, room))
    {
      hide Valid, Contents, Buffers, Lru.Find, Lru.DistinctEntries;
      var idx := Lookup(key);
      if idx == EMPTY {
        return Reply(false, None, None);
      }
      Lru.WithoutKeys(Contents(), key, key);
      reply := CopyOut(idx, out, room);
      if reply.ok {
        Release(idx, Lru.Find(Contents(), key));
      }
    }

    /** Copies a packet out, keeps it and marks it as most recently used. */
    method Peek(key: Key, out: bool, room: Option<nat>) returns (reply: Reply)
      requires Valid()
      modifies this, nodes
      ensures Valid()
      ensures Copied(old(Contents()), key, out, room, reply)
      ensures var s := old(Contents());
              var k := Lru.Find(s, key);
              if reply.ok then k < |s| && Contents() == [s[k]] + (s[..k] + s[k + 1..]) else Contents() == s
      ensures Contents() == Lru.Apply(old(Contents()), nodes.Length, Effect(old(Contents()), PeekCall(key, out, room)))
      ensures reply == Answer(old(Contents()), PeekCall(key, out, room))
    {
      hide Valid, Contents, Lru.Find, Lru.DistinctEntries, Roomy;
      var idx := Lookup(key);
      if idx == EMPTY {
        return Reply(false, None, None);
      }
      RoomyAt(nodes[..], idx);
      reply := CopyOut(idx, out, room);
      if reply.ok {
        Refresh(idx, nodes[idx].value, Lru.Find(Contents(), key));
      }
    }

    /** Removes the entry of the key, if there is one. */
    method Remove(key: Key) returns (ok: bool)
      requires Valid()
      modifies this, nodes, hashTable, freeList
      ensures Valid()
      ensures var s := old(Contents());
              var k := Lru.Find(s, key);
              && (ok <==> k < |s|)
              && (if ok then Contents() == s[..k] + s[k + 1..] && !Lru.Has(Contents(), key) else Contents() == s)
      ensures Contents() == Lru.Apply(old(Contents()), nodes.Length, Effect(old(Contents()), RemoveCall(key)))
      ensures ok == Answer(old(Contents()), RemoveCall(key)).ok
    {
      hide Valid, Contents, Lru.Find, Lru.DistinctEntries;
      var idx := Lookup(key);
      if idx == EMPTY {
        return false;
      }
      Lru.WithoutKeys(Contents(), key, key);
      Release(idx, Lru.Find(Contents(), key));
      return true;
    }

    /** The copy that `Get` and `Peek` share; it fails when the caller's buffer is too small. */
    method CopyOut(idx: int, out: bool, room: Option<nat>) returns (reply: Reply)
      requires 0 <= idx < nodes.Length && Buffers()
      ensures var payload := Payload(nodes[idx].value);
              reply == if out && room.Some? && room.value < |payload| then Reply(false, None, None)
                       else Reply(true, if out && room.Some? then Some(payload) else None,
                                  if room.Some? then Some(|payload|) else None)
    {
      var packet := nodes[idx].value;
      if out && room.Some? {
        if room.value < packet.len {
          return Reply(false, None, None);
        }
        return Reply(true, Some(packet.data[..packet.len]), Some(packet.len));
      } else if room.Some? {
        return Reply(true, None, Some(packet.len));
      }
      return Reply(true, None, None);
    }
  }

  // ---------------------------------------------------------------- whole runs

  /** The policy steps of a run of calls on an initially empty cache. */
  function Effects(cap: nat, calls: seq<Call>): (ops: seq<Lru.Op<seq<Byte>>>)
    requires cap >= 1
    ensures |ops| == |calls|
  {
    if calls == [] then []
    else
      var before := Effects(cap, calls[..|calls| - 1]);
      before + [Effect(Lru.Run(cap, before), calls[|calls| - 1])]
  }

  /** The entries after the first `n` calls. */
  function After(cap: nat, calls: seq<Call>, n: nat): Entries
    requires cap >= 1 && n <= |calls|
  {
    Lru.Run(cap, Effects(cap, calls[..n]))
  }

  lemma AfterNone(cap: nat, calls: seq<Call>)
    requires cap >= 1
    ensures After(cap, calls, 0) == []
  {
  }

  lemma AfterStep(cap: nat, calls: seq<Call>, n: nat)
    requires cap >= 1 && n < |calls|
    ensures After(cap, calls, n + 1) ==
            Lru.Apply(After(cap, calls, n), cap, Effect(After(cap, calls, n), calls[n]))
  {
    assert calls[..n + 1][..n] == calls[..n];
    var before := Effects(cap, calls[..n]);
    var ops := Effects(cap, calls[..n + 1]);
    assert ops[..n] == before;
  }

  lemma AfterAll(cap: nat, calls: seq<Call>)
    requires cap >= 1
    ensures Lru.WellFormed(After(cap, calls, |calls|), cap)
    ensures Lru.Faithful(After(cap, calls, |calls|), Effects(cap, calls))
  {
    assert calls[..|calls|] == calls;
    Lru.RunWellFormed(cap, Effects(cap, calls));
    Lru.RunFaithful(cap, Effects(cap, calls));
  }

  // ---------------------------------------------------------------- calls and replies

  /** What a call did, as its reply tells. */
  function Told(call: Call, reply: Reply): Lru.Mark {
    if !reply.ok then Lru.Idle
    else if call.PutCall? || call.PeekCall? then Lru.Used(call.key)
    else Lru.Dropped(call.key)
  }

  function AllTold(calls: seq<Call>, replies: seq<Reply>): (ms: seq<Lru.Mark>)
    requires |calls| == |replies|
    ensures |ms| == |calls| && forall i :: 0 <= i < |calls| ==> ms[i] == Told(calls[i], replies[i])
  {
    seq(|calls|, i requires 0 <= i < |calls| => Told(calls[i], replies[i]))
  }

  predicate Puts(call: Call, key: Key) {
    call.PutCall? && call.key == key && call.len <= 1536 && call.len <= |call.data|
  }

  /** The packet that was last put for `key`. */
  function LastPacket(calls: seq<Call>, key: Key): seq<Byte> {
    if calls == [] then []
    else
      var call := calls[|calls| - 1];
      if Puts(call, key) then call.data[..call.len] else LastPacket(calls[..|calls| - 1], key)
  }

  /**
   What a call must reply after the given calls and replies. A put succeeds unless the packet is too
   large. The others find the key exactly if its last successful call was a put or a peek, and at no
   time since then were there as many other keys, used since and not taken out, as the capacity.
   A get or peek then hands out the packet last put, if there is room for it.
   */
  ghost function Foretold(cap: nat, calls: seq<Call>, replies: seq<Reply>, call: Call): Reply
    requires |calls| == |replies|
  {
    var there := Lru.Kept(cap, AllTold(calls, replies), call.key);
    var packet := LastPacket(calls, call.key);
    match call
    case PutCall(_, _, len) => Reply(len <= 1536, None, None)
    case RemoveCall(_) => Reply(there, None, None)
    case _ =>
      if !there || (call.out && call.room.Some? && call.room.value < |packet|) then Reply(false, None, None)
      else Reply(true, if call.out && call.room.Some? then Some(packet) else None,
                 if call.room.Some? then Some(|packet|) else None)
  }

  /** Every reply is as the calls and replies before it say. */
  ghost predicate Lawful(cap: nat, calls: seq<Call>, replies: seq<Reply>) {
    && |calls| == |replies|
    && forall i :: 0 <= i < |calls| ==> replies[i] == Foretold(cap, calls[..i], replies[..i], calls[i])
  }

  /** The data of every put that is not too large has at least the given length. */
  ghost predicate Given(calls: seq<Call>) {
    forall i :: 0 <= i < |calls| && calls[i].PutCall? && calls[i].len <= MAX_PACKET_SIZE ==> calls[i].len <= |calls[i].data|
  }

  lemma GivenAt(calls: seq<Call>, i: nat)
    requires Given(calls) && i < |calls|
    ensures calls[i].PutCall? && calls[i].len <= MAX_PACKET_SIZE ==> calls[i].len <= |calls[i].data|
  {
  }

  lemma ToldIsMark(s: Entries, call: Call)
    requires call.PutCall? && call.len <= MAX_PACKET_SIZE ==> call.len <= |call.data|
    ensures Told(call, Answer(s, call)) == Lru.MarkOf(s, Effect(s, call))
  {
    hide Lru.Find;
  }

  lemma {:induction false} EffectsAt(cap: nat, calls: seq<Call>, i: nat)
    requires cap >= 1 && i < |calls|
    ensures Effects(cap, calls)[..i] == Effects(cap, calls[..i])
    ensures Effects(cap, calls)[i] == Effect(After(cap, calls, i), calls[i])
  {
    hide Effect, Lru.Run;
    var n := |calls| - 1;
    if i == n {
      assert Effects(cap, calls)[..n] == Effects(cap, calls[..n]);
    } else {
      EffectsAt(cap, calls[..n], i);
      assert calls[..n][..i] == calls[..i];
      assert Effects(cap, calls)[..n] == Effects(cap, calls[..n]);
      assert Effects(cap, calls)[..i] == Effects(cap, calls[..n])[..i];
    }
  }

  lemma ToldAreMarks(cap: nat, calls: seq<Call>, replies: seq<Reply>)
    requires cap >= 1 && |calls| == |replies| && Given(calls)
    requires forall i :: 0 <= i < |calls| ==> replies[i] == Answer(After(cap, calls, i), calls[i])
    ensures AllTold(calls, replies) == Lru.Marks(cap, Effects(cap, calls))
  {
    hide Lru.Marks, Told, Answer, Lru.MarkOf, Effect, Effects;
    var ops := Effects(cap, calls);
    forall i | 0 <= i < |calls| ensures AllTold(calls, replies)[i] == Lru.Marks(cap, ops)[i] {
      ToldIsMark(After(cap, calls, i), calls[i]);
      Lru.MarksAt(cap, ops, i);
      EffectsAt(cap, calls, i);
    }
  }

  lemma {:induction false} LastPacketIs(cap: nat, calls: seq<Call>, key: Key)
    requires cap >= 1
    ensures var ops := Effects(cap, calls);
            var t := Lru.LastPut(ops, key);
            t > 0 ==> ops[t - 1] == Lru.Put(Lru.Entry(key, LastPacket(calls, key)))
  {
    hide Lru.Run, Lru.Find;
    if calls != [] {
      var n := |calls| - 1;
      LastPacketIs(cap, calls[..n], key);
      assert Effects(cap, calls)[..n] == Effects(cap, calls[..n]);
    }
  }

  /** A run through the policy's states replies as the calls and replies before say. */
  lemma RunIsLawful(cap: nat, calls: seq<Call>, replies: seq<Reply>)
    requires cap >= 1 && |calls| == |replies| && Given(calls)
    requires forall i :: 0 <= i < |calls| ==> replies[i] == Answer(After(cap, calls, i), calls[i])
    ensures Lawful(cap, calls, replies)
  {
    hide Answer, Foretold, Lru.Run, Effects;
    forall n | 0 <= n < |calls| ensures replies[n] == Foretold(cap, calls[..n], replies[..n], calls[n]) {
      forall i | 0 <= i < n ensures replies[..n][i] == Answer(After(cap, calls[..n], i), calls[..n][i]) {
        assert calls[..n][..i] == calls[..i];
      }
      AnswerIsForetold(cap, calls[..n], replies[..n], calls[n]);
    }
  }

  lemma AnswerIsForetold(cap: nat, calls: seq<Call>, replies: seq<Reply>, call: Call)
    requires cap >= 1 && |calls| == |replies| && Given(calls)
    requires forall i :: 0 <= i < |calls| ==> replies[i] == Answer(After(cap, calls, i), calls[i])
    ensures Answer(Lru.Run(cap, Effects(cap, calls)), call) == Foretold(cap, calls, replies, call)
  {
    hide Lru.Run, Lru.Find, Lru.Marks, Lru.Kept, Lru.LastPut, LastPacket, Effects, After;
    ToldAreMarks(cap, calls, replies);
    var ops := Effects(cap, calls);
    Lru.PresentExactly(cap, ops, call.key);
    Lru.RunFaithful(cap, ops);
    LastPacketIs(cap, calls, call.key);
  }

  /** After a key has been taken out, no get, peek or remove finds it until it is put again. */
  lemma {:induction false} GoneUntilPut(cap: nat, calls: seq<Call>, replies: seq<Reply>, t: nat, n: nat)
    requires Lawful(cap, calls, replies) && t < n < |calls| && replies[t].ok
    requires calls[t].GetCall? || calls[t].RemoveCall?
    requires calls[n].key == calls[t].key && !calls[n].PutCall?
    requires forall i :: t < i < n && calls[i].PutCall? && calls[i].key == calls[t].key ==> !replies[i].ok
    ensures !replies[n].ok
    decreases n
  {
    var k, ms := calls[t].key, AllTold(calls[..n], replies[..n]);
    forall i | t < i < n ensures !Lru.Concerns(ms[i], k) {
      if calls[i].key == k && !calls[i].PutCall? {
        GoneUntilPut(cap, calls, replies, t, i);
      }
    }
    assert Lru.Concerns(ms[t], k);
    assert Lru.LastMark(ms, k) == t + 1;
  }

  /** A packet that was put or peeked at is found, as it was last put, while fewer other keys than the capacity are called. */
  lemma FoundAgain(cap: nat, calls: seq<Call>, replies: seq<Reply>, t: nat, n: nat)
    requires cap >= 1 && Lawful(cap, calls, replies) && t < n < |calls| && replies[t].ok
    requires calls[t].PutCall? || calls[t].PeekCall?
    requires calls[n] == GetCall(calls[t].key, true, Some(1536)) || calls[n] == PeekCall(calls[t].key, true, Some(1536))
    requires calls[t].key !in Lru.KeysSince(Named(calls[..n]), t + 1) && |Lru.KeysSince(Named(calls[..n]), t + 1)| < cap
    ensures var packet := LastPacket(calls[..n], calls[t].key);
            replies[n] == Reply(true, Some(packet), Some(|packet|))
  {
    hide Lru.KeysSince, Lru.Kept, LastPacket;
    Lru.KeptIfFew(cap, AllTold(calls[..n], replies[..n]), Named(calls[..n]), t);
    LastPacketFits(calls[..n], calls[t].key);
  }

  lemma {:induction false} LastPacketFits(calls: seq<Call>, key: Key)
    ensures |LastPacket(calls, key)| <= 1536
  {
    if calls != [] {
      LastPacketFits(calls[..|calls| - 1], key);
    }
  }

  /** The keys that the calls name. */
  function Named(calls: seq<Call>): (keys: seq<Key>)
    ensures |keys| == |calls| && forall i :: 0 <= i < |calls| ==> keys[i] == calls[i].key
  {
    seq(|calls|, i requires 0 <= i < |calls| => calls[i].key)
  }

  /**
   Any run of calls: the cache goes through exactly the states of the policy, and every
   call answers as the policy state before it says. So in every reachable state
   it holds at most `capacity` distinct keys, listed by recency, with the payloads last put. All
   replies are determined by the calls and replies before them, as `Foretold` says.
   */
  method RunCalls(capacity: nat, hashSize: nat, hash: Key -> nat, calls: seq<Call>)
      returns (cache: Cache, replies: seq<Reply>)
    requires 1 <= capacity < hashSize && HashInto(hash, hashSize)
    requires Given(calls)
    ensures cache.Valid() && cache.nodes.Length == capacity
    ensures cache.Contents() == After(capacity, calls, |calls|)
    ensures Lru.WellFormed(cache.Contents(), capacity)
    ensures Lru.Faithful(cache.Contents(), Effects(capacity, calls))
    ensures |replies| == |calls|
    ensures forall i :: 0 <= i < |calls| ==> replies[i] == Answer(After(capacity, calls, i), calls[i])
    ensures Lawful(capacity, calls, replies)
  {
    cache := new Cache(capacity, hashSize, hash);
    hide Lru.Apply, Lru.Run, Lru.WellFormed, Lru.Faithful, After, Effects, Effect, Answer, Cache.Valid, Cache.Contents;
    replies := PerformAll(cache, calls);
    AfterAll(capacity, calls);
    RunIsLawful(capacity, calls, replies);
  }

  /** Performs the calls one after the other on an empty cache. */
  method PerformAll(cache: Cache, calls: seq<Call>) returns (replies: seq<Reply>)
    requires cache.Valid() && cache.Contents() == []
    requires Given(calls)
    modifies cache, cache.nodes, cache.hashTable, cache.freeList
    ensures cache.Valid()
    ensures cache.Contents() == After(cache.nodes.Length, calls, |calls|)
    ensures |replies| == |calls|
    ensures forall i :: 0 <= i < |calls| ==> replies[i] == Answer(After(cache.nodes.Length, calls, i), calls[i])
  {
    hide *;
    var cap := cache.nodes.Length;
    AfterNone(cap, calls);
    replies := [];
    while |replies| < |calls|
      invariant |replies| <= |calls| && cache.Valid()
      invariant cache.Contents() == After(cap, calls, |replies|)
      invariant forall i :: 0 <= i < |replies| ==> replies[i] == Answer(After(cap, calls, i), calls[i])
    {
      AfterStep(cap, calls, |replies|);
      GivenAt(calls, |replies|);
      var reply := Perform(cache, calls[|replies|]);
      replies := replies + [reply];
    }
  }

  /** Dispatches one call. */
  method Perform(cache: Cache, call: Call) returns (reply: Reply)
    requires cache.Valid()
    requires call.PutCall? && call.len <= MAX_PACKET_SIZE ==> call.len <= |call.data|
    modifies cache, cache.nodes, cache.hashTable, cache.freeList
    ensures cache.Valid()
    ensures cache.Contents() == Lru.Apply(old(cache.Contents()), cache.nodes.Length, Effect(old(cache.Contents()), call))
    ensures reply == Answer(old(cache.Contents()), call)
  {
    hide Lru.Apply, Effect, Cache.Valid, Cache.Contents;
    match call
    case PutCall(key, data, len) =>
      var ok := cache.Put(key, data, len);
      reply := Reply(ok, None, None);
    case GetCall(key, out, room) =>
      reply := cache.Get(key, out, room);
    case PeekCall(key, out, room) =>
      reply := cache.Peek(key, out, room);
    case RemoveCall(key) =>
      var ok := cache.Remove(key);
      reply := Reply(ok, None, None);
  }
}
