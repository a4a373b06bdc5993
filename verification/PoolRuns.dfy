/**
 Whole runs of a memory pool: what every sequence of allocations and releases keeps,
 that the neighbour-only pool and the scanning pool go through the same block lists,
 and that releasing everything restores the initial pool.
 */
module PoolRuns {
  import opened BlockList

  const NULL := -1

  datatype Op = Alloc(size: nat) | Free(ptr: int)

  /** The block whose payload starts at `ptr`, or `|bs|`. */
  function BlockOf(l: Layout, bs: seq<Block>, ptr: int): (r: nat)
    ensures r <= |bs|
    ensures r < |bs| ==> bs[r].off + l.header == ptr
    ensures forall k :: 0 <= k < r ==> bs[k].off + l.header != ptr
  {
    if bs == [] || bs[0].off + l.header == ptr then 0 else 1 + BlockOf(l, bs[1..], ptr)
  }

  /** `ptr` was handed out and not released since. */
  ghost predicate IsLive(l: Layout, bs: seq<Block>, ptr: int) {
    var i := BlockOf(l, bs, ptr);
    i < |bs| && !bs[i].free
  }

  ghost predicate Legal(l: Layout, bs: seq<Block>, op: Op) {
    op.Free? ==> op.ptr == NULL || IsLive(l, bs, op.ptr)
  }

  /** What an allocation returns. */
  function Pointer(l: Layout, bs: seq<Block>, size: nat): int {
    var i := FirstFit(bs, size);
    if i < |bs| then bs[i].off + l.header else NULL
  }

  /** What a call returns: the pointer of an allocation, nothing for a release. */
  function Answer(l: Layout, bs: seq<Block>, op: Op): int {
    if op.Alloc? then Pointer(l, bs, op.size) else NULL
  }

  /** One call; `scan` selects the pool that merges by scanning the whole list. */
  function Step(l: Layout, bs: seq<Block>, op: Op, scan: bool): seq<Block> {
    match op
    case Alloc(size) =>
      var i := FirstFit(bs, size);
      if i < |bs| then Grant(l, bs, i, size) else bs
    case Free(ptr) =>
      var i := BlockOf(l, bs, ptr);
      if ptr == NULL || i == |bs| then bs
      else if scan then Scan(l, bs[i := bs[i].(free := true)], 0)
      else FreeAt(l, bs, i)
  }

  function Run(l: Layout, ops: seq<Op>, scan: bool): seq<Block>
    requires l.header <= l.pool
  {
    if ops == [] then Initial(l) else Step(l, Run(l, ops[..|ops| - 1], scan), ops[|ops| - 1], scan)
  }

  /** Every release in the run is of a pointer that is live at that moment. */
  ghost predicate LegalRun(l: Layout, ops: seq<Op>, scan: bool)
    requires l.header <= l.pool
  {
    forall n :: 0 <= n < |ops| ==> Legal(l, Run(l, ops[..n], scan), ops[n])
  }

  lemma RunStarts(l: Layout, scan: bool)
    requires l.header <= l.pool
    ensures Run(l, [], scan) == Initial(l)
  {
  }

  lemma RunExtends(l: Layout, ops: seq<Op>, n: nat, scan: bool)
    requires l.header <= l.pool && n < |ops| && LegalRun(l, ops, scan)
    ensures Legal(l, Run(l, ops[..n], scan), ops[n])
    ensures Run(l, ops[..n + 1], scan) == Step(l, Run(l, ops[..n], scan), ops[n], scan)
  {
    hide Step, Legal;
    assert ops[..n + 1][..n] == ops[..n];
  }

  lemma LegalPrefix(l: Layout, ops: seq<Op>, scan: bool)
    requires l.header <= l.pool && ops != [] && LegalRun(l, ops, scan)
    ensures LegalRun(l, ops[..|ops| - 1], scan)
  {
    var before := ops[..|ops| - 1];
    forall n | 0 <= n < |before| ensures Legal(l, Run(l, before[..n], scan), before[n]) {
      assert before[..n] == ops[..n];
    }
  }

  // ---------------------------------------------------------------- one step

  /** A step keeps the tiling coalesced, and both pools take the same step. */
  lemma StepWellFormed(l: Layout, bs: seq<Block>, op: Op, scan: bool)
    requires WellFormed(l, bs) && Legal(l, bs, op)
    ensures WellFormed(l, Step(l, bs, op, scan))
    ensures Step(l, bs, op, scan) == Step(l, bs, op, !scan)
  {
    match op
    case Alloc(size) =>
      if FirstFit(bs, size) < |bs| {
        GrantWellFormed(l, bs, FirstFit(bs, size), size);
      }
    case Free(ptr) =>
      if ptr != NULL {
        FreeAtWellFormed(l, bs, BlockOf(l, bs, ptr));
        NeighboursSuffice(l, bs, BlockOf(l, bs, ptr));
      }
  }

  /** Allocation fails only when no free block has room. */
  lemma NullOnlyWhenFull(l: Layout, bs: seq<Block>, size: nat)
    requires Tiles(l, bs)
    ensures Pointer(l, bs, size) == NULL <==> forall b :: b in bs && b.free ==> b.size < size
  {
    var i := FirstFit(bs, size);
    if i < |bs| {
      assert bs[i] in bs;
    }
  }

  // ---------------------------------------------------------------- every run

  /**
   The two pools hold the same block list after every run that is legal for either of them, and
   a run is legal for both or for neither.
   */
  lemma {:induction false} RunsAgree(l: Layout, ops: seq<Op>, scan: bool)
    requires 1 <= l.header <= l.pool && LegalRun(l, ops, scan)
    ensures WellFormed(l, Run(l, ops, scan))
    ensures Run(l, ops, !scan) == Run(l, ops, scan)
    ensures LegalRun(l, ops, !scan)
  {
    if ops != [] {
      hide Step, WellFormed, Legal, LegalRun;
      var before := ops[..|ops| - 1];
      LegalPrefix(l, ops, scan);
      RunsAgree(l, before, scan);
      LastLegal(l, ops, scan);
      StepWellFormed(l, Run(l, before, scan), ops[|ops| - 1], scan);
      LegalExtends(l, ops, !scan);
    }
  }

  lemma LegalExtends(l: Layout, ops: seq<Op>, scan: bool)
    requires l.header <= l.pool && ops != [] && LegalRun(l, ops[..|ops| - 1], scan)
    requires Legal(l, Run(l, ops[..|ops| - 1], scan), ops[|ops| - 1])
    ensures LegalRun(l, ops, scan)
  {
    hide Run, Legal;
    var before := ops[..|ops| - 1];
    forall n | 0 <= n < |ops| ensures Legal(l, Run(l, ops[..n], scan), ops[n]) {
      assert n < |before| ==> ops[..n] == before[..n] && ops[n] == before[n];
    }
  }

  /** The `n`-th call of the run handed out the pointer of block `b`, which has not been released since. */
  ghost predicate GrantedBy(l: Layout, b: Block, ops: seq<Op>, n: nat, scan: bool)
    requires l.header <= l.pool
  {
    && n < |ops| && ops[n].Alloc?
    && Pointer(l, Run(l, ops[..n], scan), ops[n].size) == b.off + l.header
    && forall m :: n < m < |ops| ==> ops[m] != Free(b.off + l.header)
  }

  /**
   After every legal run each live block belongs to the request that it was granted for: it is
   at least as large, and has less to spare than a split would leave.
   */
  lemma {:induction false} LiveBlocksFit(l: Layout, ops: seq<Op>, b: Block, scan: bool) returns (n: nat)
    requires 1 <= l.header <= l.pool && 1 <= l.slack && LegalRun(l, ops, scan)
    requires b in Live(Run(l, ops, scan))
    ensures GrantedBy(l, b, ops, n, scan) && ops[n].size <= b.size < ops[n].size + l.header + l.slack
  {
    hide Step, WellFormed, Live, Pointer, LegalRun, GrantedBy;
    if ops == [] {
      NothingLive(l);
      assert false;
    }
    var before, op := ops[..|ops| - 1], ops[|ops| - 1];
    var bs := Run(l, before, scan);
    LegalPrefix(l, ops, scan);
    RunsAgree(l, before, scan);
    LastLegal(l, ops, scan);
    StepWellFormed(l, bs, op, scan);
    StepLive(l, bs, op, b);
    if b in Live(bs) {
      n := LiveBlocksFit(l, before, b, scan);
      StillGranted(l, b, ops, n, scan);
    } else {
      n := |ops| - 1;
      JustGranted(l, b, ops, scan);
    }
  }

  lemma NothingLive(l: Layout)
    requires l.header <= l.pool
    ensures Live(Initial(l)) == {}
  {
  }

  lemma LastLegal(l: Layout, ops: seq<Op>, scan: bool)
    requires l.header <= l.pool && ops != [] && LegalRun(l, ops, scan)
    ensures Legal(l, Run(l, ops[..|ops| - 1], scan), ops[|ops| - 1])
  {
  }

  lemma JustGranted(l: Layout, b: Block, ops: seq<Op>, scan: bool)
    requires l.header <= l.pool && ops != [] && ops[|ops| - 1].Alloc?
    requires Pointer(l, Run(l, ops[..|ops| - 1], scan), ops[|ops| - 1].size) == b.off + l.header
    ensures GrantedBy(l, b, ops, |ops| - 1, scan)
  {
  }

  lemma StillGranted(l: Layout, b: Block, ops: seq<Op>, n: nat, scan: bool)
    requires l.header <= l.pool && ops != [] && ops[|ops| - 1] != Free(b.off + l.header)
    requires GrantedBy(l, b, ops[..|ops| - 1], n, scan)
    ensures GrantedBy(l, b, ops, n, scan) && ops[n] == ops[..|ops| - 1][n]
  {
    hide Run, Pointer;
    var before := ops[..|ops| - 1];
    assert ops[..n] == before[..n];
    forall m | n < m < |ops| ensures ops[m] != Free(b.off + l.header) {
      assert m < |before| ==> ops[m] == before[m];
    }
  }

  /** A block that is live after a step was live before it and is not released by it, or is the one just granted. */
  lemma StepLive(l: Layout, bs: seq<Block>, op: Op, b: Block)
    requires WellFormed(l, bs) && Legal(l, bs, op) && 1 <= l.slack
    requires b in Live(Step(l, bs, op, false))
    ensures if b in Live(bs) then op != Free(b.off + l.header)
            else op.Alloc? && op.size <= b.size < op.size + l.header + l.slack &&
                 Pointer(l, bs, op.size) == b.off + l.header
  {
    match op
    case Alloc(size) =>
      if FirstFit(bs, size) < |bs| {
        GrantWellFormed(l, bs, FirstFit(bs, size), size);
      }
    case Free(ptr) =>
      if ptr != NULL {
        var i := BlockOf(l, bs, ptr);
        FreeAtWellFormed(l, bs, i);
        var k :| 0 <= k < |bs| && bs[k] == b;
        if b.off + l.header == ptr {
          SameOffset(l, bs, i, k);
        }
      }
  }

  // ---------------------------------------------------------------- live pointers

  ghost function PointersTo(l: Layout, live: set<Block>): set<int> {
    set b | b in live :: b.off + l.header
  }

  ghost function Pointers(l: Layout, bs: seq<Block>): set<int> {
    PointersTo(l, Live(bs))
  }

  lemma NoPointersNoLive(l: Layout, bs: seq<Block>)
    ensures Live(bs) != {} ==> Pointers(l, bs) != {}
  {
    if Live(bs) != {} {
      var b :| b in Live(bs);
      assert b.off + l.header in Pointers(l, bs);
    }
  }

  lemma PointerIsLive(l: Layout, bs: seq<Block>, ptr: int)
    requires Tiles(l, bs) && ptr in Pointers(l, bs)
    ensures IsLive(l, bs, ptr) && ptr != NULL
  {
    var b :| b in Live(bs) && b.off + l.header == ptr;
    var k :| 0 <= k < |bs| && bs[k] == b;
    var i := BlockOf(l, bs, ptr);
    SameOffset(l, bs, i, k);
  }

  lemma LiveApart(l: Layout, bs: seq<Block>, a: Block, b: Block)
    requires Tiles(l, bs) && a in Live(bs) && b in Live(bs) && a.off == b.off
    ensures a == b
  {
    hide Tiles;
    var i :| 0 <= i < |bs| && bs[i] == a;
    var k :| 0 <= k < |bs| && bs[k] == b;
    SameOffset(l, bs, i, k);
  }

  lemma OnePointerLess(l: Layout, live: set<Block>, b: Block)
    requires b in live && forall c :: c in live && c.off == b.off ==> c == b
    ensures PointersTo(l, live - {b}) == PointersTo(l, live) - {b.off + l.header}
  {
    forall p | p in PointersTo(l, live) && p != b.off + l.header ensures p in PointersTo(l, live - {b}) {
      var c :| c in live && c.off + l.header == p;
      assert c in live - {b};
    }
  }

  lemma OnePointerMore(l: Layout, live: set<Block>, b: Block)
    ensures PointersTo(l, live + {b}) == PointersTo(l, live) + {b.off + l.header}
  {
    forall p | p in PointersTo(l, live) + {b.off + l.header} ensures p in PointersTo(l, live + {b}) {
      if p == b.off + l.header {
        assert b in live + {b};
      } else {
        var c :| c in live && c.off + l.header == p;
        assert c in live + {b};
      }
    }
  }

  /** A release makes exactly its pointer dead, in either pool. */
  lemma FreeRemovesPointer(l: Layout, bs: seq<Block>, ptr: int, scan: bool)
    requires WellFormed(l, bs) && IsLive(l, bs, ptr) && ptr != NULL
    ensures WellFormed(l, Step(l, bs, Free(ptr), scan))
    ensures Pointers(l, Step(l, bs, Free(ptr), scan)) == Pointers(l, bs) - {ptr}
  {
    hide FreeAt, Scan, Tiles, Coalesced, PointersTo;
    StepWellFormed(l, bs, Free(ptr), scan);
    var i := BlockOf(l, bs, ptr);
    FreeAtWellFormed(l, bs, i);
    forall c | c in Live(bs) && c.off == bs[i].off ensures c == bs[i] {
      LiveApart(l, bs, c, bs[i]);
    }
    OnePointerLess(l, Live(bs), bs[i]);
  }

  /** A successful allocation returns the one pointer that becomes live. */
  lemma AllocAddsPointer(l: Layout, bs: seq<Block>, size: nat, scan: bool)
    requires WellFormed(l, bs) && Pointer(l, bs, size) != NULL
    ensures Pointer(l, bs, size) !in Pointers(l, bs)
    ensures Pointers(l, Step(l, bs, Alloc(size), scan)) == Pointers(l, bs) + {Pointer(l, bs, size)}
  {
    hide Grant, Tiles, Coalesced, PointersTo;
    var i, ptr := FirstFit(bs, size), Pointer(l, bs, size);
    GrantWellFormed(l, bs, i, size);
    if ptr in Pointers(l, bs) {
      PointerIsLive(l, bs, ptr);
      SameOffset(l, bs, i, BlockOf(l, bs, ptr));
    }
    OnePointerMore(l, Live(bs), Granted(l, bs, i, size));
  }

  // ---------------------------------------------------------------- releasing everything

  function FreeAll(l: Layout, bs: seq<Block>, ptrs: seq<int>, scan: bool): seq<Block>
    decreases |ptrs|
  {
    if ptrs == [] then bs else FreeAll(l, Step(l, bs, Free(ptrs[0]), scan), ptrs[1..], scan)
  }

  lemma TailSet(ptrs: seq<int>)
    requires ptrs != []
    requires forall a, b :: 0 <= a < b < |ptrs| ==> ptrs[a] != ptrs[b]
    ensures (set p | p in ptrs[1..]) == (set p | p in ptrs) - {ptrs[0]}
  {
    assert ptrs == [ptrs[0]] + ptrs[1..];
  }

  /** Releasing every live pointer once, in any order, restores the single initial free block, in either pool. */
  lemma {:induction false} FreeAllRestores(l: Layout, bs: seq<Block>, ptrs: seq<int>, scan: bool)
    requires WellFormed(l, bs) && l.header <= l.pool
    requires forall a, b :: 0 <= a < b < |ptrs| ==> ptrs[a] != ptrs[b]
    requires (set p | p in ptrs) == Pointers(l, bs)
    ensures FreeAll(l, bs, ptrs, scan) == Initial(l)
    decreases |ptrs|
  {
    hide Step;
    if ptrs == [] {
      NoPointersNoLive(l, bs);
      Canonical(l, bs, Initial(l));
    } else {
      assert ptrs[0] in ptrs;
      PointerIsLive(l, bs, ptrs[0]);
      FreeRemovesPointer(l, bs, ptrs[0], scan);
      TailSet(ptrs);
      FreeAllRestores(l, Step(l, bs, Free(ptrs[0]), scan), ptrs[1..], scan);
    }
  }

  /** So after any run that is legal for a pool, that pool can be had back whole by its own releases. */
  lemma RunThenFreeAll(l: Layout, ops: seq<Op>, ptrs: seq<int>, scan: bool)
    requires 1 <= l.header <= l.pool && LegalRun(l, ops, scan)
    requires forall a, b :: 0 <= a < b < |ptrs| ==> ptrs[a] != ptrs[b]
    requires (set p | p in ptrs) == Pointers(l, Run(l, ops, scan))
    ensures FreeAll(l, Run(l, ops, scan), ptrs, scan) == Initial(l)
  {
    RunsAgree(l, ops, scan);
    FreeAllRestores(l, Run(l, ops, scan), ptrs, scan);
  }
}
