/**
 The embedded LRU cache: the same table and recency list as the packet cache, but the
 free nodes form a singly linked list threaded through `next`, and an eviction unlinks
 the tail before it removes the tail's key from the table.
 */
module EmbeddedCache {
  import opened LinearProbing
  import opened IndexList
  import opened CacheState
  import Lru = LruSpec

  type Word = w: int | 0 <= w < 0x1_0000_0000

  function Same(v: Word): Word { v }

  /** `free` lists the nodes on the chain of `next` links that starts at `freeHead`. */
  ghost predicate Chained(nodes: seq<Node<Word>>, freeHead: int, free: seq<int>) {
    && InRange(free, |nodes|)
    && freeHead == At(free, 0)
    && forall k :: 0 <= k < |free| ==> nodes[free[k]].next == At(free, k + 1)
  }

  lemma ChainedFrame(nodes: seq<Node<Word>>, nodes': seq<Node<Word>>, freeHead: int, free: seq<int>)
    requires Chained(nodes, freeHead, free) && |nodes| == |nodes'|
    requires forall i :: i in free ==> nodes'[i].next == nodes[i].next
    ensures Chained(nodes', freeHead, free)
  {
  }

  lemma ChainedPop(nodes: seq<Node<Word>>, freeHead: int, free: seq<int>)
    requires Chained(nodes, freeHead, free) && free != []
    ensures Chained(nodes, nodes[freeHead].next, free[1..])
  {
    var rest := free[1..];
    forall k | 0 <= k < |rest| ensures nodes[rest[k]].next == At(rest, k + 1) {
      assert rest[k] == free[k + 1];
    }
  }

  /** The head of the free chain is not on the rest of it. */
  lemma HeadLeaves(order: seq<int>, free: seq<int>, n: nat)
    requires Partition(order, free, n) && free != []
    ensures free[0] !in free[1..] && free[0] !in order
  {
    var all := order + free;
    PartitionParts(order, free, n);
    forall k | 0 <= k < |free[1..]| ensures free[1..][k] != free[0] {
      assert all[|order|] == free[0] && all[|order| + 1 + k] == free[1..][k];
    }
  }

  /** A node on neither list can be overwritten without touching them. */
  lemma ReservedNode(order: seq<int>, free: seq<int>, idx: int, n: nat)
    requires Partition(order, free + [idx], n)
    ensures idx !in order && idx !in free
    ensures forall i :: i in free ==> i !in order && 0 <= i < n
  {
    var all := order + (free + [idx]);
    PartitionParts(order, free + [idx], n);
    assert all[n - 1] == idx && (free + [idx])[|free|] == idx;
    forall k | 0 <= k < |free| ensures free[k] != idx && free[k] !in order && 0 <= free[k] < n {
      assert all[|order| + k] == free[k] && (free + [idx])[k] == free[k];
    }
  }

  lemma KeyedFrame(nodes: seq<Node<Word>>, nodes': seq<Node<Word>>, order: seq<int>)
    requires InRange(order, |nodes|) && SameContents(nodes', nodes)
    requires Keyed(nodes, KeyMap(nodes, order))
    ensures Keyed(nodes', KeyMap(nodes, order))
  {
  }

  type Entries = seq<Lru.Entry<Word>>

  datatype Call = GetCall(key: Key) | PutCall(key: Key, value: Word)

  /** The policy step of a call. */
  function Effect(call: Call): Lru.Op<Word> {
    match call
    case GetCall(k) => Lru.Touch(k)
    case PutCall(k, v) => Lru.Put(Lru.Entry(k, v))
  }

  /** Success, and the value that a successful `GetCall` stores. */
  function Answer(s: Entries, call: Call): (bool, Word) {
    if call.PutCall? then (true, call.value)
    else if Lru.Has(s, call.key) then (true, s[Lru.Find(s, call.key)].value)
    else (false, 0)
  }

  class Cache {
    const hash: Key -> nat
    const nodes: array<Node<Word>>
    const ht: array<int>
    var head: int
    var tail: int
    var freeHead: int
    var size: nat
    /** The listed nodes, most recently used first, and the free nodes in chain order. */
    ghost var order: seq<int>
    ghost var free: seq<int>

    ghost predicate Valid()
      reads this, nodes, ht
      ensures Valid() ==> InRange(order, nodes.Length) && 1 <= nodes.Length && |order| <= nodes.Length
    {
      && 1 <= nodes.Length < ht.Length
      && InRange(order, nodes.Length)
      && size == |order| && size + |free| == nodes.Length
      && Chained(nodes[..], freeHead, free)
      && State(nodes[..], ht[..], hash, head, tail, order, free)
    }

    ghost function Contents(): Entries
      requires InRange(order, nodes.Length)
      reads this, nodes
    {
      View(nodes[..], order, Same)
    }

    /** Node `idx` holds the `k`-th entry. */
    ghost predicate Placed(idx: int, k: nat)
      requires InRange(order, nodes.Length)
      reads this, nodes
    {
      k < |order| == |Contents()| && order[k] == idx && Contents()[k] == Lru.Entry(nodes[idx].key, nodes[idx].value)
    }

    constructor (capacity: nat, htSize: nat, hash: Key -> nat)
      requires 1 <= capacity < htSize && HashInto(hash, htSize)
      ensures Valid() && fresh(nodes) && fresh(ht)
      ensures nodes.Length == capacity && Contents() == []
    {
      hide Indexed, LinkedAt, Partition, State;
      this.hash := hash;
      nodes := new Node<Word>[capacity](_ => Node(0, 0, false, 0, 0));
      ht := new int[htSize];
      head, tail, size, freeHead, order := NIL, NIL, 0, 0, [];
      free := seq(capacity, i => i);
      new;
      for i := 0 to capacity
        modifies nodes
        invariant forall j :: 0 <= j < i ==> nodes[j] == Node(0, 0, false, j - 1, if j == capacity - 1 then NIL else j + 1)
      {
        nodes[i] := Node(0, 0, false, if i == 0 then NIL else i - 1, if i == capacity - 1 then NIL else i + 1);
      }
      HashClear(ht);
      StateEmpty(nodes[..], ht[..], hash, free);
    }

    /** Unlinks the least recently used node and returns it. */
    method RemoveTail() returns (t: int)
      requires Linked(nodes[..], head, tail, order) && order != []
      modifies this`head, this`tail, nodes
      ensures t == order[|order| - 1]
      ensures Linked(nodes[..], head, tail, Drop(order, |order| - 1))
      ensures SameContents(nodes[..], old(nodes[..]))
      ensures forall i :: 0 <= i < nodes.Length && i !in order ==> nodes[i] == old(nodes[i])
    {
      hide LinkedAt, Drop, Distinct;
      t := tail;
      head, tail := Unlink(nodes, head, tail, t, order, |order| - 1);
      ghost var unlinked := nodes[..];
      nodes[t] := nodes[t].(prev := NIL, next := NIL);
      DropDistinct(order, |order| - 1, nodes.Length);
      FrameLinked(unlinked, nodes[..], head, tail, Drop(order, |order| - 1));
    }

    method Lookup(key: Key) returns (idx: int)
      requires Valid()
      ensures Lru.DistinctEntries(Contents())
      ensures idx == EMPTY <==> !Lru.Has(Contents(), key)
      ensures idx != EMPTY ==> 0 <= idx < nodes.Length && nodes[idx].key == key && Placed(idx, Lru.Find(Contents(), key))
    {
      hide Represents, Keyed, LinkedAt, At, Distinct, View, KeyMap, Partition;
      idx := HashLookupNode(ht, nodes, hash, key, KeyMap(nodes[..], order));
      PartitionParts(order, free, nodes.Length);
      FoundInView(nodes[..], ht[..], hash, order, Same, key, idx);
    }

    /** Moves a listed node to the front after its value was set to `v`. */
    method Refresh(idx: int, v: Word, ghost k: nat)
      requires Valid() && Placed(idx, k)
      modifies this`head, this`tail, this`order, nodes
      ensures Valid()
      ensures Contents() == Fronted(old(Contents()), k, Lru.Entry(old(nodes[idx].key), v))
    {
      hide Represents, Keyed, LinkedAt, At, Partition, Distinct, View, KeyMap, Drop, Chained;
      ghost var before := nodes[..];
      PartitionParts(order, free, nodes.Length);
      nodes[idx] := nodes[idx].(value := v);
      assert nodes[..] == before[idx := before[idx].(value := v)];
      FrameLinked(before, nodes[..], head, tail, order);
      head, tail := MoveToHead(nodes, head, tail, idx, order, k);
      ChainedFrame(before, nodes[..], freeHead, free);
      StateMove(before, nodes[..], ht[..], hash, old(head), old(tail), head, tail, order, free, k, v);
      ViewMove(before, nodes[..], order, k, v, Same);
      order := [idx] + Drop(order, k);
    }

    /** Node `idx` is taken: it is in neither list nor free chain nor table, marked as used and counted. */
    ghost predicate Reserved(idx: int)
      reads this, nodes, ht
    {
      && 1 <= nodes.Length < ht.Length && 0 <= idx < nodes.Length && nodes[idx].valid
      && InRange(order, nodes.Length)
      && size == |order| + 1 && size + |free| == nodes.Length
      && Chained(nodes[..], freeHead, free)
      && State(nodes[..][idx := nodes[idx].(valid := false)], ht[..], hash, head, tail, order, free + [idx])
    }

    /** Pops the free chain; it is never empty while the cache is not full. */
    method AllocNode() returns (i: int)
      requires Valid() && size < nodes.Length
      modifies this`freeHead, this`size, this`free, nodes
      ensures Reserved(i) && Contents() == old(Contents())
    {
      hide Represents, Keyed, LinkedAt, Distinct, View, KeyMap, Partition;
      ghost var before := nodes[..];
      assert freeHead != NIL && freeHead == free[0];
      PartitionRotate(order, free, nodes.Length);
      ChainedPop(before, freeHead, free);
      HeadLeaves(order, free, nodes.Length);
      i := freeHead;
      freeHead := nodes[i].next;
      free := free[1..];
      nodes[i] := nodes[i].(next := NIL, prev := NIL, valid := true);
      ghost var after := nodes[..][i := nodes[i].(valid := false)];
      ChainedFrame(before, nodes[..], freeHead, free);
      FrameLinked(before, after, head, tail, order);
      IndexedFrame(before, after, ht[..], hash, order, order);
      ViewFrame(before, nodes[..], order, Same);
      size := size + 1;
    }

    /** Evicts the least recently used node: unlinked first, then removed from the table. */
    method Evict() returns (ev: int)
      requires Valid() && size == nodes.Length
      modifies this`head, this`tail, this`order, nodes, ht
      ensures Reserved(ev) && Contents() == old(Contents()[..|order| - 1])
    {
      hide Represents, Keyed, LinkedAt, Distinct, View, KeyMap, Partition, Drop, At;
      ghost var before, table, k := nodes[..], ht[..], |order| - 1;
      ListedNode(before, table, hash, head, tail, order, free, k);
      ev := RemoveTail();
      ghost var unlinked := nodes[..];
      KeyedFrame(before, unlinked, order);
      var found, removed := HashRemove(ht, nodes, hash, nodes[ev].key, KeyMap(before, order));
      ghost var x := unlinked[ev].(valid := false);
      StateDetach(before, unlinked, table, ht[..], hash, old(head), old(tail), head, tail, order, free, k, x);
      ViewDetach(before, unlinked, order, k, unlinked[ev], Same);
      assert unlinked[ev := unlinked[ev]] == unlinked;
      ghost var s := View(before, order, Same);
      assert s[..k] + s[k + 1..] == s[..k];
      order := Drop(order, k);
    }

    /** Fills a reserved node, enters it in the table and links it as the head. */
    method Install(idx: int, key: Key, value: Word)
      requires Reserved(idx) && !Lru.Has(Contents(), key)
      modifies this`head, this`tail, this`order, nodes, ht
      ensures Valid() && Contents() == [Lru.Entry(key, value)] + old(Contents())
    {
      hide Represents, Keyed, LinkedAt, At, Partition, Distinct, View, KeyMap, Chained;
      ghost var before, table := nodes[..], ht[..];
      ghost var base := before[idx := nodes[idx].(valid := false)];
      ReservedNode(order, free, idx, nodes.Length);
      ViewFrame(before, base, order, Same);
      SpareNode(base, table, hash, head, tail, order, free, idx, key, Same);
      nodes[idx] := nodes[idx].(key := key, value := value, prev := NIL, next := NIL);
      ghost var x := nodes[idx];
      assert nodes[..] == base[idx := x];
      FrameLinked(base, nodes[..], head, tail, order);
      var ok, at := HashInsert(ht, hash, key, idx);
      assert ok;
      head, tail := PushFront(nodes, head, tail, idx, order);
      ChainedFrame(before, nodes[..], freeHead, free);
      StatePush(base, nodes[..], table, hash, old(head), old(tail), head, tail, order, free, idx, x, at);
      ViewAdd(base, nodes[..], order, idx, x, Same);
      order := [idx] + order;
    }

    // -------------------------------------------------------------- the calls

    /** A hit moves the entry to the front and reports its value; a miss changes nothing. */
    method Get(key: Key) returns (found: bool, value: Word)
      requires Valid()
      modifies this, nodes
      ensures Valid()
      ensures var s := old(Contents());
              var k := Lru.Find(s, key);
              if k < |s| then found && s[k] == Lru.Entry(key, value) && Contents() == [s[k]] + (s[..k] + s[k + 1..])
              else !found && value == 0 && Contents() == s
      ensures Contents() == Lru.Apply(old(Contents()), nodes.Length, Effect(GetCall(key)))
      ensures (found, value) == Answer(old(Contents()), GetCall(key))
    {
      hide Valid, Contents, Lru.Find, Lru.DistinctEntries;
      var idx := Lookup(key);
      if idx == EMPTY {
        return false, 0;
      }
      value := nodes[idx].value;
      Refresh(idx, value, Lru.Find(Contents(), key));
      return true, value;
    }

    /** Updates an entry in place, or adds one, evicting the least recently used when full. */
    method Put(key: Key, value: Word) returns (ok: bool)
      requires Valid()
      modifies this, nodes, ht
      ensures Valid()
      ensures var s := old(Contents());
              var k := Lru.Find(s, key);
              Contents() == [Lru.Entry(key, value)] +
                            if k < |s| then s[..k] + s[k + 1..] else if |s| < nodes.Length then s else s[..|s| - 1]
      ensures Contents() == Lru.Apply(old(Contents()), nodes.Length, Effect(PutCall(key, value)))
      ensures ok
    {
      hide State, View, Lru.Find, Chained, Lru.DistinctEntries, InRange;
      var idx := Lookup(key);
      if idx != EMPTY {
        Refresh(idx, value, Lru.Find(Contents(), key));
        return true;
      }
      if size >= nodes.Length {
        idx := Evict();
      } else {
        idx := AllocNode();
      }
      Install(idx, key, value);
      return true;
    }
  }

  // ---------------------------------------------------------------- whole runs

  /** The policy steps of a run of calls. */
  function Effects(calls: seq<Call>): (ops: seq<Lru.Op<Word>>)
    ensures |ops| == |calls|
  {
    seq(|calls|, i requires 0 <= i < |calls| => Effect(calls[i]))
  }

  function After(cap: nat, calls: seq<Call>, n: nat): Entries
    requires cap >= 1 && n <= |calls|
  {
    Lru.Run(cap, Effects(calls)[..n])
  }

  lemma AfterStep(cap: nat, calls: seq<Call>, n: nat)
    requires cap >= 1 && n < |calls|
    ensures After(cap, calls, n + 1) == Lru.Apply(After(cap, calls, n), cap, Effect(calls[n]))
  {
    assert Effects(calls)[..n + 1][..n] == Effects(calls)[..n];
  }

  lemma AfterNone(cap: nat, calls: seq<Call>)
    requires cap >= 1
    ensures After(cap, calls, 0) == []
  {
  }

  lemma AfterAll(cap: nat, calls: seq<Call>)
    requires cap >= 1
    ensures Lru.WellFormed(After(cap, calls, |calls|), cap)
    ensures Lru.Faithful(After(cap, calls, |calls|), Effects(calls))
  {
    assert Effects(calls)[..|calls|] == Effects(calls);
    Lru.RunWellFormed(cap, Effects(calls));
    Lru.RunFaithful(cap, Effects(calls));
  }

  // ---------------------------------------------------------------- calls and replies

  /** What a call did, as its reply tells: every successful call uses its key. */
  function Told(call: Call, reply: (bool, Word)): Lru.Mark {
    if reply.0 then Lru.Used(call.key) else Lru.Idle
  }

  function AllTold(calls: seq<Call>, replies: seq<(bool, Word)>): (ms: seq<Lru.Mark>)
    requires |calls| == |replies|
    ensures |ms| == |calls| && forall i :: 0 <= i < |calls| ==> ms[i] == Told(calls[i], replies[i])
  {
    seq(|calls|, i requires 0 <= i < |calls| => Told(calls[i], replies[i]))
  }

  /** The value that was last put for `key`. */
  function LastValue(calls: seq<Call>, key: Key): Word {
    if calls == [] then 0
    else
      var call := calls[|calls| - 1];
      if call.PutCall? && call.key == key then call.value else LastValue(calls[..|calls| - 1], key)
  }

  /**
   What a call must reply after the given calls and replies. A put succeeds. A get finds its key
   exactly if fewer other keys than the capacity have had a successful call since the key's own last
   one, and then reports the value last put.
   */
  ghost function Foretold(cap: nat, calls: seq<Call>, replies: seq<(bool, Word)>, call: Call): (bool, Word)
    requires |calls| == |replies|
  {
    match call
    case PutCall(_, value) => (true, value)
    case GetCall(key) => if Lru.Kept(cap, AllTold(calls, replies), key) then (true, LastValue(calls, key)) else (false, 0)
  }

  /** Every reply is as the calls and replies before it say. */
  ghost predicate Lawful(cap: nat, calls: seq<Call>, replies: seq<(bool, Word)>) {
    && |calls| == |replies|
    && forall i :: 0 <= i < |calls| ==> replies[i] == Foretold(cap, calls[..i], replies[..i], calls[i])
  }

  lemma ToldIsMark(cap: nat, calls: seq<Call>, i: nat)
    requires cap >= 1 && i < |calls|
    ensures Told(calls[i], Answer(After(cap, calls, i), calls[i])) == Lru.MarkOf(After(cap, calls, i), Effects(calls)[i])
  {
    hide Lru.Find, Lru.Run;
  }

  lemma ToldAreMarks(cap: nat, calls: seq<Call>, replies: seq<(bool, Word)>, n: nat)
    requires cap >= 1 && n <= |calls| == |replies|
    requires forall i :: 0 <= i < n ==> replies[i] == Answer(After(cap, calls, i), calls[i])
    ensures AllTold(calls[..n], replies[..n]) == Lru.Marks(cap, Effects(calls)[..n])
  {
    hide Lru.Marks, Told, Answer, Lru.MarkOf, Effect, After;
    var ops := Effects(calls)[..n];
    forall i | 0 <= i < n ensures AllTold(calls[..n], replies[..n])[i] == Lru.Marks(cap, ops)[i] {
      ToldIsMark(cap, calls, i);
      Lru.MarksAt(cap, ops, i);
      assert ops[..i] == Effects(calls)[..i];
      AfterIs(cap, calls, i);
    }
  }

  lemma AfterIs(cap: nat, calls: seq<Call>, n: nat)
    requires cap >= 1 && n <= |calls|
    ensures After(cap, calls, n) == Lru.Run(cap, Effects(calls)[..n])
  {
  }

  lemma {:induction false} LastValueIs(calls: seq<Call>, key: Key)
    ensures var t := Lru.LastPut(Effects(calls), key);
            t > 0 ==> Effects(calls)[t - 1] == Lru.Put(Lru.Entry(key, LastValue(calls, key)))
  {
    if calls != [] {
      var before := calls[..|calls| - 1];
      LastValueIs(before, key);
      assert Effects(calls)[..|calls| - 1] == Effects(before);
    }
  }

  /** A run through the policy's states replies as the calls and replies before say. */
  lemma RunIsLawful(cap: nat, calls: seq<Call>, replies: seq<(bool, Word)>)
    requires cap >= 1 && |calls| == |replies|
    requires forall i :: 0 <= i < |calls| ==> replies[i] == Answer(After(cap, calls, i), calls[i])
    ensures Lawful(cap, calls, replies)
  {
    hide Answer, After, Foretold;
    forall n | 0 <= n < |calls| ensures replies[n] == Foretold(cap, calls[..n], replies[..n], calls[n]) {
      ToldAreMarks(cap, calls, replies, n);
      AnswerIsForetold(cap, calls, replies, n);
    }
  }

  lemma AnswerIsForetold(cap: nat, calls: seq<Call>, replies: seq<(bool, Word)>, n: nat)
    requires cap >= 1 && n < |calls| == |replies|
    requires AllTold(calls[..n], replies[..n]) == Lru.Marks(cap, Effects(calls)[..n])
    ensures Answer(After(cap, calls, n), calls[n]) == Foretold(cap, calls[..n], replies[..n], calls[n])
  {
    hide Lru.Run, Lru.Find, Lru.Marks, Lru.Kept, Lru.LastPut, LastValue;
    var ops, key := Effects(calls)[..n], calls[n].key;
    Lru.PresentExactly(cap, ops, key);
    Lru.RunFaithful(cap, ops);
    assert ops == Effects(calls[..n]);
    LastValueIs(calls[..n], key);
  }

  /** The keys that the calls name. */
  function Named(calls: seq<Call>): (keys: seq<Key>)
    ensures |keys| == |calls| && forall i :: 0 <= i < |calls| ==> keys[i] == calls[i].key
  {
    seq(|calls|, i requires 0 <= i < |calls| => calls[i].key)
  }

  /**
   What a user of the cache can rely on: a key that was just put or found is found again, with the
   value last put for it, if since then fewer other keys than the capacity have been called.
   */
  lemma FoundAgain(cap: nat, calls: seq<Call>, replies: seq<(bool, Word)>, t: nat, n: nat)
    requires cap >= 1 && Lawful(cap, calls, replies) && t < n < |calls| && replies[t].0
    requires calls[n] == GetCall(calls[t].key) && calls[t].key !in Lru.KeysSince(Named(calls[..n]), t + 1)
    requires |Lru.KeysSince(Named(calls[..n]), t + 1)| < cap
    ensures replies[n] == (true, LastValue(calls[..n], calls[t].key))
  {
    hide Lru.KeysSince, Lru.Kept, LastValue;
    Lru.KeptIfFew(cap, AllTold(calls[..n], replies[..n]), Named(calls[..n]), t);
  }

  /** Performs the calls one after the other on an empty cache; no insertion ever fails. */
  method RunCalls(cache: Cache, calls: seq<Call>) returns (replies: seq<(bool, Word)>)
    requires cache.Valid() && cache.Contents() == []
    modifies cache, cache.nodes, cache.ht
    ensures cache.Valid()
    ensures cache.Contents() == After(cache.nodes.Length, calls, |calls|)
    ensures Lru.WellFormed(cache.Contents(), cache.nodes.Length)
    ensures Lru.Faithful(cache.Contents(), Effects(calls))
    ensures |replies| == |calls|
    ensures forall i :: 0 <= i < |calls| ==> replies[i] == Answer(After(cache.nodes.Length, calls, i), calls[i])
    ensures Lawful(cache.nodes.Length, calls, replies)
  {
    hide *;
    var cap := cache.nodes.Length;
    HasCapacity(cache);
    AfterNone(cap, calls);
    replies := [];
    while |replies| < |calls|
      invariant |replies| <= |calls| && cache.Valid()
      invariant cache.Contents() == After(cap, calls, |replies|)
      invariant forall i :: 0 <= i < |replies| ==> replies[i] == Answer(After(cap, calls, i), calls[i])
    {
      AfterStep(cap, calls, |replies|);
      var reply := Perform(cache, calls[|replies|]);
      replies := replies + [reply];
    }
    AfterAll(cap, calls);
    RunIsLawful(cap, calls, replies);
  }

  lemma HasCapacity(cache: Cache)
    requires cache.Valid()
    ensures cache.nodes.Length >= 1
  {
  }

  method Perform(cache: Cache, call: Call) returns (reply: (bool, Word))
    requires cache.Valid()
    modifies cache, cache.nodes, cache.ht
    ensures cache.Valid()
    ensures cache.Contents() == Lru.Apply(old(cache.Contents()), cache.nodes.Length, Effect(call))
    ensures reply == Answer(old(cache.Contents()), call)
  {
    hide Lru.Apply, Effect, Cache.Valid, Cache.Contents, Lru.Find;
    match call
    case GetCall(key) =>
      var found, value := cache.Get(key);
      reply := (found, value);
    case PutCall(key, value) =>
      var ok := cache.Put(key, value);
      reply := (ok, value);
  }
}
