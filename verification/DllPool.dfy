/**
 The doubly linked memory pool. Headers live in the pool memory, at byte offsets; a
 header that was merged away keeps its stale bytes. Every call is proved to perform the
 corresponding step of `PoolRuns` on the block list that the headers spell out.
 */
module DllPool {
  import opened BlockList
  import opened PoolRuns

  /** One past the largest value of the size type. */
  const SIZE_LIMIT: nat := 0x1_0000_0000_0000_0000

  /** Addition of sizes, which wraps around. */
  function Add(a: nat, b: nat): nat
    requires a < SIZE_LIMIT && b < SIZE_LIMIT
  {
    if a + b < SIZE_LIMIT then a + b else a + b - SIZE_LIMIT
  }

  datatype Header = Header(size: nat, next: int, prev: int, free: bool)

  type Memory = map<int, Header>

  function OffAt(bs: seq<Block>, k: int): int {
    if 0 <= k < |bs| then bs[k].off else NULL
  }

  ghost predicate MirrorsAt(mem: Memory, bs: seq<Block>, k: nat)
    requires k < |bs|
  {
    && bs[k].off in mem
    && mem[bs[k].off] == Header(bs[k].size, OffAt(bs, k + 1), OffAt(bs, k - 1), bs[k].free)
  }

  /** The headers in memory spell out `bs`, with `prev` the mirror image of `next`. */
  ghost predicate Mirrors(mem: Memory, bs: seq<Block>) {
    forall k :: 0 <= k < |bs| ==> MirrorsAt(mem, bs, k)
  }

  // ---------------------------------------------------------------- stores

  /** The stores of a split of the block at `cur` behind `size` payload bytes. */
  function Split(mem: Memory, cur: int, header: nat, size: nat): Memory
    requires cur in mem && mem[cur].size >= size + header
    requires mem[cur].next == NULL || mem[cur].next in mem
  {
    var rest, next := cur + header + size, mem[cur].next;
    var a := mem[rest := Header(mem[cur].size - size - header, next, cur, true)];
    var b := if next != NULL then a[next := a[next].(prev := rest)] else a;
    b[cur := b[cur].(next := rest, size := size)]
  }

  /** What a split stores at the header of another block, `bs[j]`. */
  lemma SplitElsewhere(l: Layout, mem: Memory, bs: seq<Block>, i: nat, size: nat, j: nat)
    requires Tiles(l, bs) && Mirrors(mem, bs) && i < |bs| && j < |bs| && j != i
    requires bs[i].size >= size + l.header
    requires bs[i].off in mem && mem[bs[i].off] == Header(bs[i].size, OffAt(bs, i + 1), OffAt(bs, i - 1), bs[i].free)
    requires i + 1 < |bs| ==> bs[i + 1].off in mem
    ensures MirrorsAt(mem, bs, j)
    ensures var after := Split(mem, bs[i].off, l.header, size);
            && bs[j].off != bs[i].off && bs[j].off in after
            && after[bs[j].off] == if j == i + 1 then mem[bs[j].off].(prev := bs[i].off + l.header + size) else mem[bs[j].off]
  {
    assert MirrorsAt(mem, bs, j);
    if j < i {
      Ordered(l, bs, j, i);
      if i + 1 < |bs| { Ordered(l, bs, j, i + 1); }
    } else {
      Ordered(l, bs, i, j);
      if i + 1 < j { Ordered(l, bs, i + 1, j); }
    }
  }

  lemma SplitMirrors(l: Layout, mem: Memory, bs: seq<Block>, i: nat, size: nat)
    requires Tiles(l, bs) && Mirrors(mem, bs) && i < |bs|
    requires bs[i].size >= size + l.header + l.slack
    ensures MirrorsAt(mem, bs, i) && (i + 1 < |bs| ==> MirrorsAt(mem, bs, i + 1))
    ensures var after := Split(mem, bs[i].off, l.header, size);
            && bs[i].off in after
            && Mirrors(after[bs[i].off := after[bs[i].off].(free := false)], Grant(l, bs, i, size))
  {
    assert MirrorsAt(mem, bs, i) && (i + 1 < |bs| ==> MirrorsAt(mem, bs, i + 1));
    hide Grant, Split, MirrorsAt, Mirrors;
    SplitHere(l, mem, bs, i, size);
    var g, cur := Grant(l, bs, i, size), bs[i].off;
    var after := Split(mem, cur, l.header, size);
    var mem' := after[cur := after[cur].(free := false)];
    forall k | 0 <= k < |g| ensures MirrorsAt(mem', g, k) {
      if k < i || k > i + 1 {
        SplitOther(l, mem, bs, i, size, k);
      }
    }
    AllMirror(mem', g);
  }

  lemma AllMirror(mem: Memory, bs: seq<Block>)
    requires forall k :: 0 <= k < |bs| ==> MirrorsAt(mem, bs, k)
    ensures Mirrors(mem, bs)
  {
  }

  /** The two headers that a split writes in full. */
  lemma SplitHere(l: Layout, mem: Memory, bs: seq<Block>, i: nat, size: nat)
    requires Tiles(l, bs) && i < |bs| && MirrorsAt(mem, bs, i) && (i + 1 < |bs| ==> MirrorsAt(mem, bs, i + 1))
    requires bs[i].size >= size + l.header + l.slack
    ensures mem[bs[i].off].next == NULL || mem[bs[i].off].next in mem
    ensures var g, after := Grant(l, bs, i, size), Split(mem, bs[i].off, l.header, size);
            && |g| == |bs| + 1 && bs[i].off in after
            && var mem' := after[bs[i].off := after[bs[i].off].(free := false)];
               MirrorsAt(mem', g, i) && MirrorsAt(mem', g, i + 1)
  {
    hide Grant;
    SplitNeighbours(l, bs, i, size);
    if i + 1 < |bs| {
      Ordered(l, bs, i, i + 1);
    }
  }

  lemma SplitNeighbours(l: Layout, bs: seq<Block>, i: nat, size: nat)
    requires i < |bs| && bs[i].size >= size + l.header + l.slack
    ensures var g := Grant(l, bs, i, size);
            && |g| == |bs| + 1
            && g[i] == Block(bs[i].off, size, false)
            && g[i + 1] == Block(bs[i].off + l.header + size, bs[i].size - size - l.header, true)
            && OffAt(g, i - 1) == OffAt(bs, i - 1) && OffAt(g, i + 2) == OffAt(bs, i + 1)
  {
    hide Grant;
    SplitAt(l, bs, i, size, i);
    SplitAt(l, bs, i, size, i + 1);
    if i > 0 { SplitAt(l, bs, i, size, i - 1); }
    if i + 1 < |bs| { SplitAt(l, bs, i, size, i + 2); }
  }

  /** Any other header keeps its block; the one behind gets a new `prev`. */
  lemma SplitOther(l: Layout, mem: Memory, bs: seq<Block>, i: nat, size: nat, k: nat)
    requires Tiles(l, bs) && Mirrors(mem, bs) && i < |bs| && k <= |bs| && k != i && k != i + 1
    requires bs[i].size >= size + l.header + l.slack
    requires MirrorsAt(mem, bs, i) && (i + 1 < |bs| ==> MirrorsAt(mem, bs, i + 1))
    ensures var g, after := Grant(l, bs, i, size), Split(mem, bs[i].off, l.header, size);
            && |g| == |bs| + 1 && bs[i].off in after
            && MirrorsAt(after[bs[i].off := after[bs[i].off].(free := false)], g, k)
  {
    hide Grant, Split, Mirrors, Tiles;
    SplitHere(l, mem, bs, i, size);
    SplitElsewhere(l, mem, bs, i, size, if k < i then k else k - 1);
    SplitAt(l, bs, i, size, k);
    if k > 0 { SplitAt(l, bs, i, size, k - 1); }
    if k < |bs| { SplitAt(l, bs, i, size, k + 1); }
  }

  /** The stores with which the block at `a` swallows the block behind it. */
  function Absorb(mem: Memory, a: int, header: nat): Memory
    requires a in mem && mem[a].next in mem
    requires mem[mem[a].next].next == NULL || mem[mem[a].next].next in mem
  {
    var n := mem[a].next;
    var nn := mem[n].next;
    var m := mem[a := mem[a].(size := mem[a].size + header + mem[n].size, next := nn)];
    if nn != NULL then m[nn := m[nn].(prev := a)] else m
  }

  /** What the merge stores at the header of a block that stays and is not the swallowing one. */
  lemma AbsorbElsewhere(l: Layout, mem: Memory, bs: seq<Block>, i: nat, j: nat)
    requires Tiles(l, bs) && Mirrors(mem, bs) && i + 1 < |bs| && j < |bs| && j != i && j != i + 1
    requires MirrorsAt(mem, bs, i) && MirrorsAt(mem, bs, i + 1)
    requires i + 2 < |bs| ==> MirrorsAt(mem, bs, i + 2)
    ensures MirrorsAt(mem, bs, j)
    ensures var after := Absorb(mem, bs[i].off, l.header);
            && bs[j].off != bs[i].off && bs[j].off in after
            && after[bs[j].off] == if j == i + 2 then mem[bs[j].off].(prev := bs[i].off) else mem[bs[j].off]
  {
    assert MirrorsAt(mem, bs, j);
    if j < i {
      Ordered(l, bs, j, i);
      if i + 2 < |bs| { Ordered(l, bs, j, i + 2); }
    } else {
      Ordered(l, bs, i, j);
      if i + 2 < j { Ordered(l, bs, i + 2, j); }
    }
  }

  lemma AbsorbMirrors(l: Layout, mem: Memory, bs: seq<Block>, i: nat)
    requires Tiles(l, bs) && Mirrors(mem, bs) && i + 1 < |bs|
    ensures MirrorsAt(mem, bs, i) && MirrorsAt(mem, bs, i + 1)
    ensures i + 2 < |bs| ==> MirrorsAt(mem, bs, i + 2)
    ensures Mirrors(Absorb(mem, bs[i].off, l.header), Merge(l, bs, i))
  {
    assert MirrorsAt(mem, bs, i) && MirrorsAt(mem, bs, i + 1) && (i + 2 < |bs| ==> MirrorsAt(mem, bs, i + 2));
    hide Mirrors, MirrorsAt, Absorb, Merge;
    AbsorbHere(l, mem, bs, i);
    var g, mem' := Merge(l, bs, i), Absorb(mem, bs[i].off, l.header);
    forall k | 0 <= k < |g| ensures MirrorsAt(mem', g, k) {
      if k != i {
        AbsorbOther(l, mem, bs, i, k);
      }
    }
    AllMirror(mem', g);
  }

  /** The header of the block that swallows its neighbour. */
  lemma AbsorbHere(l: Layout, mem: Memory, bs: seq<Block>, i: nat)
    requires Tiles(l, bs) && i + 1 < |bs| && MirrorsAt(mem, bs, i) && MirrorsAt(mem, bs, i + 1)
    requires i + 2 < |bs| ==> MirrorsAt(mem, bs, i + 2)
    ensures mem[bs[i].off].next in mem
    ensures mem[mem[bs[i].off].next].next == NULL || mem[mem[bs[i].off].next].next in mem
    ensures |Merge(l, bs, i)| == |bs| - 1 && MirrorsAt(Absorb(mem, bs[i].off, l.header), Merge(l, bs, i), i)
  {
    if i + 2 < |bs| {
      Ordered(l, bs, i, i + 2);
    }
  }

  /** Any other header keeps its block; the one behind gets a new `prev`. */
  lemma AbsorbOther(l: Layout, mem: Memory, bs: seq<Block>, i: nat, k: nat)
    requires Tiles(l, bs) && Mirrors(mem, bs) && i + 1 < |bs| && k < |bs| - 1 && k != i
    requires MirrorsAt(mem, bs, i) && MirrorsAt(mem, bs, i + 1)
    requires i + 2 < |bs| ==> MirrorsAt(mem, bs, i + 2)
    ensures |Merge(l, bs, i)| == |bs| - 1 && MirrorsAt(Absorb(mem, bs[i].off, l.header), Merge(l, bs, i), k)
  {
    hide Tiles, Mirrors, Absorb;
    AbsorbHere(l, mem, bs, i);
    AbsorbElsewhere(l, mem, bs, i, if k < i then k else k + 1);
  }

  lemma MarkMirrors(l: Layout, mem: Memory, bs: seq<Block>, i: nat, free: bool)
    requires Tiles(l, bs) && Mirrors(mem, bs) && i < |bs|
    ensures MirrorsAt(mem, bs, i)
    ensures Mirrors(mem[bs[i].off := mem[bs[i].off].(free := free)], bs[i := bs[i].(free := free)])
  {
    assert MirrorsAt(mem, bs, i);
    var g, mem' := bs[i := bs[i].(free := free)], mem[bs[i].off := mem[bs[i].off].(free := free)];
    forall k | 0 <= k < |g| ensures MirrorsAt(mem', g, k) {
      assert MirrorsAt(mem, bs, k);
      if bs[k].off == bs[i].off {
        SameOffset(l, bs, k, i);
      }
    }
  }

  // ---------------------------------------------------------------- the pool

  class Pool {
    var layout: Layout
    var head: int
    var mem: Memory
    /** The block list that the headers spell out; empty for a pool without memory. */
    ghost var blocks: seq<Block>

    ghost predicate Valid()
      reads this
    {
      if head == NULL then blocks == []
      else
        && head == 0 && layout.slack == 1 && layout.pool < SIZE_LIMIT
        && layout.header <= layout.pool
        && WellFormed(layout, blocks)
        && Mirrors(mem, blocks)
    }

    /** A pool of `size` bytes, unless they cannot hold more than one header. */
    constructor (header: nat, size: nat)
      requires 1 <= header < SIZE_LIMIT && size < SIZE_LIMIT
      ensures Valid() && layout == Layout(header, 1, size)
      ensures head == NULL <==> size <= header
      ensures head != NULL ==> blocks == Initial(layout)
    {
      layout := Layout(header, 1, size);
      mem := map[];
      if size <= header {
        head := NULL;
        blocks := [];
      } else {
        head := 0;
        mem := map[0 := Header(size - header, NULL, NULL, true)];
        blocks := [Block(0, size - header, true)];
      }
    }

    /** First fit: the pointer and the new block list are those of the specification, without any wrap-around. */
    method Alloc(size: nat) returns (ptr: int)
      requires Valid() && size < SIZE_LIMIT
      modifies this`mem, this`blocks
      ensures Valid()
      ensures head == NULL ==> ptr == NULL
      ensures head != NULL ==> ptr == Pointer(layout, old(blocks), size)
      ensures head != NULL ==> blocks == Step(layout, old(blocks), PoolRuns.Alloc(size), false)
    {
      hide Tiles, Coalesced, Grant, Mirrors;
      if head == NULL {
        return NULL;
      }
      ghost var fit := FirstFit(blocks, size);
      var current := head;
      ghost var k := 0;
      FirstOffset(layout, blocks);
      while current != NULL
        invariant mem == old(mem) && blocks == old(blocks)
        invariant 0 <= k <= |blocks| && current == OffAt(blocks, k) && k <= fit
        decreases |blocks| - k
      {
        HeaderOf(layout, mem, blocks, k);
        if mem[current].free && mem[current].size >= size {
          assert k == fit;
          Carve(current, size, k);
          return current + layout.header;
        }
        current := mem[current].next;
        k := k + 1;
      }
      return NULL;
    }

    /** Hands out the block at `current`, splitting it if enough is left over. */
    method Carve(current: int, size: nat, ghost k: nat)
      requires Valid() && head != NULL && k < |blocks| && current == blocks[k].off
      requires blocks[k].free && blocks[k].size >= size
      modifies this`mem, this`blocks
      ensures Valid() && blocks == Grant(layout, old(blocks), k, size)
    {
      hide Tiles, Coalesced, Mirrors;
      var header := layout.header;
      HeaderOf(layout, mem, blocks, k);
      GrantWellFormed(layout, blocks, k, size);
      if mem[current].size > Add(size, header) {
        SplitMirrors(layout, mem, blocks, k, size);
        var rest, next := current + header + size, mem[current].next;
        mem := mem[rest := Header(mem[current].size - size - header, next, current, true)];
        if next != NULL {
          mem := mem[next := mem[next].(prev := rest)];
        }
        mem := mem[current := mem[current].(next := rest, size := size)];
        assert mem == Split(old(mem), current, header, size);
      } else {
        MarkMirrors(layout, mem, blocks, k, false);
      }
      mem := mem[current := mem[current].(free := false)];
      blocks := Grant(layout, blocks, k, size);
    }

    /**
     Releases a block and merges it with its free neighbours, the next one first. Releasing
     the null pointer does nothing; any other pointer has to be live.
     */
    method Free(ptr: int)
      requires Valid() && Legal(layout, blocks, PoolRuns.Free(ptr))
      modifies this`mem, this`blocks
      ensures Valid()
      ensures blocks == Step(layout, old(blocks), PoolRuns.Free(ptr), false)
      ensures blocks == Step(layout, old(blocks), PoolRuns.Free(ptr), true)
    {
      hide Tiles, Coalesced, Mirrors, Merge, Scan, BlockOf;
      if ptr == NULL {
        return;
      }
      ghost var i := BlockOf(layout, blocks, ptr);
      FreeAtWellFormed(layout, blocks, i);
      NeighboursSuffice(layout, blocks, i);
      var block := ptr - layout.header;
      MarkKeeps(layout, blocks, i);
      MarkMirrors(layout, mem, blocks, i, true);
      mem := mem[block := mem[block].(free := true)];
      ghost var a := blocks[i := blocks[i].(free := true)];
      ghost var b := MergeNext(block, a, i);
      blocks := MergePrev(block, b, i);
    }

    /** Step 1 of a release: coalesce with the next block if it is free. */
    method MergeNext(block: int, ghost a: seq<Block>, ghost i: nat) returns (ghost b: seq<Block>)
      requires layout.pool < SIZE_LIMIT && Tiles(layout, a) && Mirrors(mem, a)
      requires i < |a| && a[i].free && a[i].off == block
      modifies this`mem
      ensures b == if i + 1 < |a| && a[i + 1].free then Merge(layout, a, i) else a
      ensures Tiles(layout, b) && Mirrors(mem, b)
      ensures i < |b| && b[i].free && b[i].off == block
    {
      hide Tiles, Mirrors;
      b := a;
      HeaderOf(layout, mem, a, i);
      var next := mem[block].next;
      if next != NULL {
        HeaderOf(layout, mem, a, i + 1);
        if mem[next].free {
          FreedEnd(layout, a, i);
          AbsorbMirrors(layout, mem, a, i);
          MergeKeeps(layout, a, i);
          b := Merge(layout, a, i);
          mem := mem[block := mem[block].(size := Add(mem[block].size, Add(layout.header, mem[next].size)))];
          var nextOfNext := mem[next].next;
          mem := mem[block := mem[block].(next := nextOfNext)];
          if nextOfNext != NULL {
            mem := mem[nextOfNext := mem[nextOfNext].(prev := block)];
          }
          assert mem == Absorb(old(mem), block, layout.header);
        }
      }
    }

    /** Step 2 of a release: the previous block, if free, swallows this one. */
    method MergePrev(block: int, ghost b: seq<Block>, ghost i: nat) returns (ghost c: seq<Block>)
      requires layout.pool < SIZE_LIMIT && Tiles(layout, b) && Mirrors(mem, b)
      requires i < |b| && b[i].free && b[i].off == block
      modifies this`mem
      ensures c == if i > 0 && b[i - 1].free then Merge(layout, b, i - 1) else b
      ensures Mirrors(mem, c)
    {
      hide Tiles, Mirrors, Merge;
      c := b;
      HeaderOf(layout, mem, b, i);
      var prev := mem[block].prev;
      if prev != NULL {
        HeaderOf(layout, mem, b, i - 1);
        if mem[prev].free {
          FreedEnd(layout, b, i - 1);
          AbsorbMirrors(layout, mem, b, i - 1);
          c := Merge(layout, b, i - 1);
          mem := mem[prev := mem[prev].(size := Add(mem[prev].size, Add(layout.header, mem[block].size)))];
          mem := mem[prev := mem[prev].(next := mem[block].next)];
          if mem[block].next != NULL {
            mem := mem[mem[block].next := mem[mem[block].next].(prev := mem[block].prev)];
          }
          assert mem == Absorb(old(mem), prev, layout.header);
        }
      }
    }
  }

  /** The merged size stays below the pool size, so its computation cannot wrap. */
  lemma FreedEnd(l: Layout, bs: seq<Block>, i: nat)
    requires Tiles(l, bs) && i + 1 < |bs|
    ensures bs[i].size + l.header + bs[i + 1].size + l.header <= l.pool
    ensures bs[i].off != bs[i + 1].off
    ensures i + 2 < |bs| ==> bs[i + 2].off != bs[i].off && bs[i + 2].off != bs[i + 1].off
  {
    Inside(l, bs, i + 1);
  }

  lemma FirstOffset(l: Layout, bs: seq<Block>)
    requires Tiles(l, bs)
    ensures OffAt(bs, 0) == 0 && bs != []
  {
  }

  /** The header that a walk along the list finds at its `k`-th block. */
  lemma HeaderOf(l: Layout, mem: Memory, bs: seq<Block>, k: nat)
    requires Tiles(l, bs) && Mirrors(mem, bs) && k < |bs|
    ensures MirrorsAt(mem, bs, k)
    ensures bs[k].size + l.header <= l.pool
  {
    assert MirrorsAt(mem, bs, k);
    Inside(l, bs, k);
  }

  // ---------------------------------------------------------------- whole runs

  /** One call. */
  method Perform(pool: Pool, op: Op) returns (ptr: int)
    requires pool.Valid() && pool.head != NULL && Legal(pool.layout, pool.blocks, op)
    requires op.Alloc? ==> op.size < SIZE_LIMIT
    modifies pool`mem, pool`blocks
    ensures pool.Valid() && ptr == Answer(pool.layout, old(pool.blocks), op)
    ensures pool.blocks == Step(pool.layout, old(pool.blocks), op, false)
  {
    hide Step, WellFormed, Mirrors, Pointer;
    match op
    case Alloc(size) => ptr := pool.Alloc(size);
    case Free(released) =>
      pool.Free(released);
      ptr := NULL;
  }

  /** Any legal sequence of calls on a new pool: its blocks, and every pointer it hands out, are those of `PoolRuns`. */
  method RunCalls(header: nat, size: nat, ops: seq<Op>) returns (pool: Pool, ptrs: seq<int>)
    requires 1 <= header < size < SIZE_LIMIT
    requires LegalRun(Layout(header, 1, size), ops, false)
    requires forall n :: 0 <= n < |ops| && ops[n].Alloc? ==> ops[n].size < SIZE_LIMIT
    ensures fresh(pool) && pool.Valid() && pool.layout == Layout(header, 1, size)
    ensures pool.blocks == Run(pool.layout, ops, false)
    ensures |ptrs| == |ops|
    ensures forall n :: 0 <= n < |ops| ==> ptrs[n] == Answer(pool.layout, Run(pool.layout, ops[..n], false), ops[n])
  {
    hide Step, Legal, Answer, Run, LegalRun, Pool.Valid;
    pool := new Pool(header, size);
    ghost var l := pool.layout;
    RunStarts(l, false);
    ptrs := [];
    while |ptrs| < |ops|
      invariant |ptrs| <= |ops| && fresh(pool) && pool.Valid() && pool.head != NULL && pool.layout == l
      invariant pool.blocks == Run(l, ops[..|ptrs|], false)
      invariant forall n :: 0 <= n < |ptrs| ==> ptrs[n] == Answer(l, Run(l, ops[..n], false), ops[n])
    {
      ghost var n := |ptrs|;
      RunExtends(l, ops, n, false);
      var ptr := Perform(pool, ops[|ptrs|]);
      ptrs := ptrs + [ptr];
    }
    assert ops[..|ops|] == ops;
  }
}
