/**
 The singly linked memory pools: first fit with a split, and a release that marks the
 block and then merges by scanning the whole list. One pool splits whenever anything is
 left over; the aligned pool rounds requests up to a multiple of 4 and splits only when
 at least 4 bytes are left.
 */
module ScanPool {
  import opened BlockList
  import opened PoolRuns
  import opened DllPool

  datatype Link = Link(size: nat, next: int, free: bool)

  type Links = map<int, Link>

  ghost predicate SpellsAt(mem: Links, bs: seq<Block>, k: nat)
    requires k < |bs|
  {
    bs[k].off in mem && mem[bs[k].off] == Link(bs[k].size, OffAt(bs, k + 1), bs[k].free)
  }

  /** The headers in memory spell out `bs`. */
  ghost predicate Spells(mem: Links, bs: seq<Block>) {
    forall k :: 0 <= k < |bs| ==> SpellsAt(mem, bs, k)
  }

  lemma LinkOf(l: Layout, mem: Links, bs: seq<Block>, k: nat)
    requires Tiles(l, bs) && Spells(mem, bs) && k < |bs|
    ensures SpellsAt(mem, bs, k) && bs[k].size + l.header <= l.pool && l.header >= 1
  {
    assert SpellsAt(mem, bs, k);
    Inside(l, bs, k);
  }

  // ---------------------------------------------------------------- stores

  lemma SplitSpells(l: Layout, mem: Links, bs: seq<Block>, i: nat, size: nat)
    requires Tiles(l, bs) && Spells(mem, bs) && i < |bs| && bs[i].size >= size + l.header + l.slack
    ensures SpellsAt(mem, bs, i)
    ensures var rest := bs[i].off + l.header + size;
            Spells(mem[rest := Link(bs[i].size - size - l.header, mem[bs[i].off].next, true)]
                      [bs[i].off := Link(size, rest, false)], Grant(l, bs, i, size))
  {
    assert SpellsAt(mem, bs, i);
    var g, rest := Grant(l, bs, i, size), bs[i].off + l.header + size;
    var mem' := mem[rest := Link(bs[i].size - size - l.header, mem[bs[i].off].next, true)][bs[i].off := Link(size, rest, false)];
    forall k | 0 <= k < |g| ensures SpellsAt(mem', g, k) {
      if k < i {
        assert SpellsAt(mem, bs, k);
        Ordered(l, bs, k, i);
      } else if k > i + 1 {
        assert SpellsAt(mem, bs, k - 1);
        Ordered(l, bs, i, k - 1);
      }
    }
  }

  lemma MergeSpells(l: Layout, mem: Links, bs: seq<Block>, i: nat)
    requires Tiles(l, bs) && Spells(mem, bs) && i + 1 < |bs|
    ensures SpellsAt(mem, bs, i) && SpellsAt(mem, bs, i + 1)
    ensures Spells(mem[bs[i].off := Link(bs[i].size + l.header + bs[i + 1].size, mem[bs[i + 1].off].next, bs[i].free)],
                   Merge(l, bs, i))
  {
    assert SpellsAt(mem, bs, i) && SpellsAt(mem, bs, i + 1);
    var g := Merge(l, bs, i);
    var mem' := mem[bs[i].off := Link(bs[i].size + l.header + bs[i + 1].size, mem[bs[i + 1].off].next, bs[i].free)];
    forall k | 0 <= k < |g| ensures SpellsAt(mem', g, k) {
      if k < i {
        assert SpellsAt(mem, bs, k);
        Ordered(l, bs, k, i);
      } else if k > i {
        assert SpellsAt(mem, bs, k + 1);
        Ordered(l, bs, i, k + 1);
      }
    }
  }

  lemma MarkSpells(l: Layout, mem: Links, bs: seq<Block>, i: nat, free: bool)
    requires Tiles(l, bs) && Spells(mem, bs) && i < |bs|
    ensures SpellsAt(mem, bs, i)
    ensures Spells(mem[bs[i].off := mem[bs[i].off].(free := free)], bs[i := bs[i].(free := free)])
  {
    assert SpellsAt(mem, bs, i);
    var g, mem' := bs[i := bs[i].(free := free)], mem[bs[i].off := mem[bs[i].off].(free := free)];
    forall k | 0 <= k < |g| ensures SpellsAt(mem', g, k) {
      assert SpellsAt(mem, bs, k);
      if bs[k].off == bs[i].off {
        SameOffset(l, bs, k, i);
      }
    }
  }

  // ---------------------------------------------------------------- the pool

  class Pool {
    var layout: Layout
    var head: int
    var mem: Links
    ghost var blocks: seq<Block>

    ghost predicate Valid()
      reads this
    {
      if head == NULL then blocks == []
      else
        && head == 0 && layout.slack >= 1 && layout.pool + layout.slack <= SIZE_LIMIT
        && layout.header <= layout.pool
        && WellFormed(layout, blocks)
        && Spells(mem, blocks)
    }

    constructor (header: nat, slack: nat, size: nat)
      requires 1 <= header < SIZE_LIMIT && 1 <= slack && size + slack <= SIZE_LIMIT
      ensures Valid() && layout == Layout(header, slack, size)
      ensures head == NULL <==> size <= header
      ensures head != NULL ==> blocks == Initial(layout)
    {
      layout := Layout(header, slack, size);
      mem := map[];
      if size <= header {
        head := NULL;
        blocks := [];
      } else {
        head := 0;
        mem := map[0 := Link(size - header, NULL, true)];
        blocks := [Block(0, size - header, true)];
      }
    }

    method Alloc(size: nat) returns (ptr: int)
      requires Valid() && size < SIZE_LIMIT
      modifies this`mem, this`blocks
      ensures Valid()
      ensures head == NULL ==> ptr == NULL
      ensures head != NULL ==> ptr == Pointer(layout, old(blocks), size)
      ensures head != NULL ==> blocks == Step(layout, old(blocks), PoolRuns.Alloc(size), true)
    {
      hide Tiles, Coalesced, Grant, Spells;
      if head == NULL {
        return NULL;
      }
      ghost var fit := FirstFit(blocks, size);
      var current := head;
      ghost var k := 0;
      FirstOffset(layout, blocks);
      while current != NULL
        invariant mem == old(mem) && blocks == old(blocks)
        invariant 0 <= k <= |blocks| && current == OffAt(blocks, k) && k <= fit
        decreases |blocks| - k
      {
        LinkOf(layout, mem, blocks, k);
        if mem[current].free && mem[current].size >= size {
          assert k == fit;
          Carve(current, size, k);
          return current + layout.header;
        }
        current := mem[current].next;
        k := k + 1;
      }
      return NULL;
    }

    /** Hands out the block at `current`, splitting it if more than `slack - 1` bytes are left over. */
    method Carve(current: int, size: nat, ghost k: nat)
      requires Valid() && head != NULL && k < |blocks| && current == blocks[k].off
      requires blocks[k].free && blocks[k].size >= size
      modifies this`mem, this`blocks
      ensures Valid() && blocks == Grant(layout, old(blocks), k, size)
    {
      hide Tiles, Coalesced, Spells;
      var header := layout.header;
      LinkOf(layout, mem, blocks, k);
      GrantWellFormed(layout, blocks, k, size);
      if mem[current].size > Add(Add(size, header), layout.slack - 1) {
        SplitSpells(layout, mem, blocks, k, size);
        var rest := current + header + size;
        mem := mem[rest := Link(mem[current].size - size - header, mem[current].next, true)];
        mem := mem[current := mem[current].(size := size, next := rest)];
        assert mem[current := mem[current].(free := false)] ==
               old(mem)[rest := Link(blocks[k].size - size - header, old(mem[current].next), true)]
                       [current := Link(size, rest, false)];
      } else {
        MarkSpells(layout, mem, blocks, k, false);
      }
      mem := mem[current := mem[current].(free := false)];
      blocks := Grant(layout, blocks, k, size);
    }

    /** Marks the block free and merges all adjacent free blocks, which is what merging with the neighbours gives. */
    method Free(ptr: int)
      requires Valid() && Legal(layout, blocks, PoolRuns.Free(ptr))
      modifies this`mem, this`blocks
      ensures Valid()
      ensures blocks == Step(layout, old(blocks), PoolRuns.Free(ptr), true)
      ensures blocks == Step(layout, old(blocks), PoolRuns.Free(ptr), false)
    {
      hide Tiles, Coalesced, Spells, Merge, Scan, FreeAt, BlockOf;
      if ptr == NULL {
        return;
      }
      ghost var i := BlockOf(layout, blocks, ptr);
      NeighboursSuffice(layout, blocks, i);
      FreeAtWellFormed(layout, blocks, i);
      var block := ptr - layout.header;
      MarkKeeps(layout, blocks, i);
      MarkSpells(layout, mem, blocks, i, true);
      mem := mem[block := mem[block].(free := true)];
      blocks := Coalesce(blocks[i := blocks[i].(free := true)]);
    }

    /** The merge scan: after a merge it stays on the block to try the new neighbour. */
    method Coalesce(ghost a: seq<Block>) returns (ghost bs: seq<Block>)
      requires layout.pool < SIZE_LIMIT && head == 0 && Tiles(layout, a) && Spells(mem, a)
      modifies this`mem
      ensures bs == Scan(layout, a, 0) && Spells(mem, bs)
    {
      hide Tiles, Spells;
      bs := a;
      ghost var k := 0;
      FirstOffset(layout, a);
      var current := head;
      while current != NULL
        invariant 0 <= k <= |bs| && current == OffAt(bs, k)
        invariant Tiles(layout, bs) && Spells(mem, bs)
        invariant Scan(layout, a, 0) == Scan(layout, bs, k)
        decreases |bs|, |bs| - k
      {
        LinkOf(layout, mem, bs, k);
        var next := mem[current].next;
        if next != NULL {
          LinkOf(layout, mem, bs, k + 1);
        }
        if mem[current].free && next != NULL && mem[next].free {
          ghost var before := mem;
          MergeSpells(layout, mem, bs, k);
          MergeKeeps(layout, bs, k);
          FreedEnd(layout, bs, k);
          mem := mem[current := mem[current].(size := Add(mem[current].size, Add(layout.header, mem[next].size)))];
          mem := mem[current := mem[current].(next := mem[next].next)];
          assert mem == before[current := mem[current]];
          bs := Merge(layout, bs, k);
        } else {
          current := next;
          k := k + 1;
        }
      }
    }
  }

  // ---------------------------------------------------------------- the aligned pool

  /** Rounds up to a multiple of 4 in size arithmetic, which wraps around. */
  function Align4(x: nat): (r: nat)
    requires x < SIZE_LIMIT
    ensures r < SIZE_LIMIT && r % 4 == 0
  {
    Add(x, 3) / 4 * 4
  }

  /** The rounding is to the next multiple of 4 exactly when it does not wrap. */
  lemma Align4Rounds(x: nat)
    requires x < SIZE_LIMIT
    ensures x <= SIZE_LIMIT - 4 <==> x <= Align4(x)
    ensures x <= SIZE_LIMIT - 4 ==> Align4(x) < x + 4
    ensures x > SIZE_LIMIT - 4 ==> Align4(x) == 0
  {
  }

  /** Exactly the three requests at the top of the range are rounded down, to zero bytes. */
  lemma Align4CanShrink(x: nat)
    requires x < SIZE_LIMIT
    ensures Align4(x) < x <==> SIZE_LIMIT - 3 <= x
    ensures SIZE_LIMIT - 3 <= x ==> Align4(x) == 0
  {
    Align4Rounds(x);
  }

  ghost predicate Aligned(bs: seq<Block>) {
    forall k :: 0 <= k < |bs| ==> bs[k].off % 4 == 0 && bs[k].size % 4 == 0
  }

  ghost predicate AlignedLayout(l: Layout) {
    l.header % 4 == 0 && l.pool % 4 == 0 && l.slack == 4 && 1 <= l.header <= l.pool
  }

  ghost predicate AlignedOps(ops: seq<Op>) {
    forall n :: 0 <= n < |ops| && ops[n].Alloc? ==> ops[n].size % 4 == 0
  }

  lemma GrantAligned(l: Layout, bs: seq<Block>, i: nat, size: nat)
    requires AlignedLayout(l) && Aligned(bs) && i < |bs| && bs[i].size >= size && size % 4 == 0
    ensures Aligned(Grant(l, bs, i, size))
  {
    var g := Grant(l, bs, i, size);
    if bs[i].size >= size + l.header + l.slack {
      forall k | 0 <= k < |g| ensures g[k].off % 4 == 0 && g[k].size % 4 == 0 {
        SplitAligned(l, bs, i, size, k);
      }
    }
  }

  lemma AlignedSum(a: int, b: int)
    requires a % 4 == 0 && b % 4 == 0
    ensures (a + b) % 4 == 0 && (a - b) % 4 == 0
  {
  }

  lemma SplitAligned(l: Layout, bs: seq<Block>, i: nat, size: nat, k: nat)
    requires AlignedLayout(l) && Aligned(bs) && i < |bs| && size % 4 == 0
    requires bs[i].size >= size + l.header + l.slack && k <= |bs|
    ensures var g := Grant(l, bs, i, size);
            |g| == |bs| + 1 && g[k].off % 4 == 0 && g[k].size % 4 == 0
  {
    hide Grant;
    SplitAt(l, bs, i, size, k);
    AlignedSum(bs[i].off, l.header);
    AlignedSum(bs[i].off + l.header, size);
    AlignedSum(bs[i].size, size);
    AlignedSum(bs[i].size - size, l.header);
  }

  lemma MergeAligned(l: Layout, bs: seq<Block>, i: nat)
    requires AlignedLayout(l) && Aligned(bs) && i + 1 < |bs|
    ensures Aligned(Merge(l, bs, i))
  {
    var g := Merge(l, bs, i);
    forall k | 0 <= k < |g| ensures g[k].off % 4 == 0 && g[k].size % 4 == 0 {
      if k != i {
        assert g[k] == bs[if k < i then k else k + 1];
      }
    }
  }

  lemma {:induction false} ScanAligned(l: Layout, bs: seq<Block>, i: nat)
    requires AlignedLayout(l) && Aligned(bs)
    ensures Aligned(Scan(l, bs, i))
    decreases |bs|, |bs| - i
  {
    if i + 1 < |bs| {
      if bs[i].free && bs[i + 1].free {
        MergeAligned(l, bs, i);
        ScanAligned(l, Merge(l, bs, i), i);
      } else {
        ScanAligned(l, bs, i + 1);
      }
    }
  }

  /** After every run of rounded requests, all offsets and sizes are multiples of 4. */
  lemma {:induction false} RunAligned(l: Layout, ops: seq<Op>)
    requires AlignedLayout(l) && AlignedOps(ops)
    ensures Aligned(Run(l, ops, true))
  {
    if ops != [] {
      var before, op := ops[..|ops| - 1], ops[|ops| - 1];
      RunAligned(l, before);
      var bs := Run(l, before, true);
      match op
      case Alloc(size) =>
        if FirstFit(bs, size) < |bs| {
          GrantAligned(l, bs, FirstFit(bs, size), size);
        }
      case Free(ptr) =>
        var i := BlockOf(l, bs, ptr);
        if ptr != NULL && i < |bs| {
          ScanAligned(l, bs[i := bs[i].(free := true)], 0);
        }
    }
  }

  /** After every legal run, a live block exceeds the rounded request it was granted for by at most one header. */
  lemma AlignedFit(l: Layout, ops: seq<Op>, b: Block) returns (n: nat)
    requires AlignedLayout(l) && AlignedOps(ops) && LegalRun(l, ops, true)
    requires b in Live(Run(l, ops, true))
    ensures GrantedBy(l, b, ops, n, true) && ops[n].size <= b.size <= ops[n].size + l.header
  {
    hide Run, LegalRun, WellFormed;
    RunAligned(l, ops);
    n := LiveBlocksFit(l, ops, b, true);
    AlignedLive(Run(l, ops, true), b);
    NoRoomBetween(ops[n].size, b.size, l.header);
  }

  lemma AlignedLive(bs: seq<Block>, b: Block)
    requires Aligned(bs) && b in Live(bs)
    ensures b.size % 4 == 0
  {
  }

  lemma NoRoomBetween(request: nat, size: nat, header: nat)
    requires request % 4 == 0 && size % 4 == 0 && header % 4 == 0 && size < request + header + 4
    ensures size <= request + header
  {
  }

  /** The block that the aligned pool grants is as large as the request exactly if rounding does not wrap. */
  lemma GrantCovers(l: Layout, bs: seq<Block>, request: nat)
    requires WellFormed(l, bs) && 4 <= l.slack && l.pool + l.slack <= SIZE_LIMIT && request < SIZE_LIMIT
    requires FirstFit(bs, Align4(request)) < |bs|
    ensures Granted(l, bs, FirstFit(bs, Align4(request)), Align4(request)).size >= request <==> request <= SIZE_LIMIT - 4
  {
    hide Tiles, Coalesced, Grant, Align4;
    var i := FirstFit(bs, Align4(request));
    GrantWellFormed(l, bs, i, Align4(request));
    Inside(l, bs, i);
    Align4Rounds(request);
  }

  /**
   The aligned pool's allocation: round the request, then first fit. The block granted is as large
   as the request exactly if the request is not one of the three largest.
   */
  method AllocAligned(pool: Pool, request: nat) returns (ptr: int, ghost granted: Block)
    requires pool.Valid() && pool.head != NULL && request < SIZE_LIMIT
    modifies pool
    ensures ptr != NULL ==> granted in Live(pool.blocks) && granted !in old(Live(pool.blocks)) &&
                            granted.off + pool.layout.header == ptr
    ensures ptr != NULL && pool.layout.slack >= 4 ==> (granted.size >= request <==> request <= SIZE_LIMIT - 4)
    ensures pool.Valid() && pool.head == old(pool.head) && pool.layout == old(pool.layout)
    ensures ptr == Pointer(pool.layout, old(pool.blocks), Align4(request))
    ensures pool.blocks == Step(pool.layout, old(pool.blocks), PoolRuns.Alloc(Align4(request)), true)
  {
    hide Tiles, Coalesced, Grant, Align4, Spells;
    ghost var l, bs, i := pool.layout, pool.blocks, FirstFit(pool.blocks, Align4(request));
    if i < |bs| {
      granted := Granted(l, bs, i, Align4(request));
      GrantWellFormed(l, bs, i, Align4(request));
      if l.slack >= 4 {
        GrantCovers(l, bs, request);
      }
    } else {
      granted := Block(0, 0, false);
    }
    ptr := pool.Alloc(Align4(request));
  }

  // ---------------------------------------------------------------- whole runs

  /** One call. */
  method Perform(pool: Pool, op: Op) returns (ptr: int)
    requires pool.Valid() && pool.head != NULL && Legal(pool.layout, pool.blocks, op)
    requires op.Alloc? ==> op.size < SIZE_LIMIT
    modifies pool`mem, pool`blocks
    ensures pool.Valid() && ptr == Answer(pool.layout, old(pool.blocks), op)
    ensures pool.blocks == Step(pool.layout, old(pool.blocks), op, true)
  {
    hide Step, WellFormed, Spells, Pointer;
    match op
    case Alloc(size) => ptr := pool.Alloc(size);
    case Free(released) =>
      pool.Free(released);
      ptr := NULL;
  }

  /** Any legal sequence of calls on a new pool: its blocks, and every pointer it hands out, are those of `PoolRuns`. */
  method RunCalls(header: nat, slack: nat, size: nat, ops: seq<Op>) returns (pool: Pool, ptrs: seq<int>)
    requires 1 <= header < size && 1 <= slack && size + slack <= SIZE_LIMIT
    requires LegalRun(Layout(header, slack, size), ops, true)
    requires forall n :: 0 <= n < |ops| && ops[n].Alloc? ==> ops[n].size < SIZE_LIMIT
    ensures fresh(pool) && pool.Valid() && pool.layout == Layout(header, slack, size)
    ensures pool.blocks == Run(pool.layout, ops, true)
    ensures |ptrs| == |ops|
    ensures forall n :: 0 <= n < |ops| ==> ptrs[n] == Answer(pool.layout, Run(pool.layout, ops[..n], true), ops[n])
  {
    hide Step, Legal, Answer, Run, LegalRun, Pool.Valid;
    pool := new Pool(header, slack, size);
    ghost var l := pool.layout;
    RunStarts(l, true);
    ptrs := [];
    while |ptrs| < |ops|
      invariant |ptrs| <= |ops| && fresh(pool) && pool.Valid() && pool.head != NULL && pool.layout == l
      invariant pool.blocks == Run(l, ops[..|ptrs|], true)
      invariant forall n :: 0 <= n < |ptrs| ==> ptrs[n] == Answer(l, Run(l, ops[..n], true), ops[n])
    {
      ghost var n := |ptrs|;
      RunExtends(l, ops, n, true);
      var ptr := Perform(pool, ops[|ptrs|]);
      ptrs := ptrs + [ptr];
    }
    assert ops[..|ops|] == ops;
  }
}
