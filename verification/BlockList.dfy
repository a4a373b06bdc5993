/**
 The block lists of the memory pools, as values: a pool is tiled by blocks, each a
 header followed by its payload. First-fit allocation splits a block; freeing merges
 neighbouring free blocks, either looking only at the two neighbours or scanning the
 whole list.
 */
module BlockList {

  /** Header size, smallest leftover worth a block of its own, and size of the pool. */
  datatype Layout = Layout(header: nat, slack: nat, pool: nat)

  /** A block at byte offset `off`, with `size` payload bytes behind its header. */
  datatype Block = Block(off: nat, size: nat, free: bool)

  function End(l: Layout, b: Block): nat {
    b.off + l.header + b.size
  }

  /** The blocks follow each other without gap or overlap and fill the pool. */
  ghost predicate Tiles(l: Layout, bs: seq<Block>) {
    && l.header >= 1 && bs != []
    && bs[0].off == 0
    && (forall k :: 0 <= k < |bs| - 1 ==> bs[k + 1].off == End(l, bs[k]))
    && End(l, bs[|bs| - 1]) == l.pool
  }

  /** No two adjacent blocks are free. */
  ghost predicate Coalesced(bs: seq<Block>) {
    forall k :: 0 <= k < |bs| - 1 ==> !(bs[k].free && bs[k + 1].free)
  }

  ghost predicate WellFormed(l: Layout, bs: seq<Block>) {
    Tiles(l, bs) && Coalesced(bs)
  }

  ghost function Live(bs: seq<Block>): set<Block> {
    set b | b in bs && !b.free
  }

  function Initial(l: Layout): seq<Block>
    requires l.header <= l.pool
  {
    [Block(0, l.pool - l.header, true)]
  }

  // ---------------------------------------------------------------- geometry

  /** Blocks lie in list order and do not overlap. */
  lemma {:induction false} Ordered(l: Layout, bs: seq<Block>, i: nat, j: nat)
    requires Tiles(l, bs) && i < j < |bs|
    ensures End(l, bs[i]) <= bs[j].off
    decreases j - i
  {
    if i + 1 < j {
      Ordered(l, bs, i + 1, j);
    }
  }

  lemma Inside(l: Layout, bs: seq<Block>, i: nat)
    requires Tiles(l, bs) && i < |bs|
    ensures End(l, bs[i]) <= l.pool
  {
    if i < |bs| - 1 {
      Ordered(l, bs, i, |bs| - 1);
    }
  }

  lemma SameOffset(l: Layout, bs: seq<Block>, i: nat, j: nat)
    requires Tiles(l, bs) && i < |bs| && j < |bs| && bs[i].off == bs[j].off
    ensures i == j
  {
    if i < j {
      Ordered(l, bs, i, j);
    } else if j < i {
      Ordered(l, bs, j, i);
    }
  }

  /** Headers and payloads of different blocks share no byte, and all lie inside the pool. */
  lemma Disjoint(l: Layout, bs: seq<Block>, a: Block, b: Block)
    requires Tiles(l, bs) && a in bs && b in bs && a != b
    ensures End(l, a) <= b.off || End(l, b) <= a.off
    ensures End(l, a) <= l.pool
  {
    var i :| 0 <= i < |bs| && bs[i] == a;
    var j :| 0 <= j < |bs| && bs[j] == b;
    Inside(l, bs, i);
    if i < j {
      Ordered(l, bs, i, j);
    } else {
      Ordered(l, bs, j, i);
    }
  }

  // ---------------------------------------------------------------- canonical form

  /**
   A coalesced tiling is determined by its live blocks: whatever the history, there is
   only one way the free space can look.
   */
  lemma Canonical(l: Layout, bs: seq<Block>, cs: seq<Block>)
    requires WellFormed(l, bs) && WellFormed(l, cs) && Live(bs) == Live(cs)
    ensures bs == cs
  {
    PrefixAgrees(l, bs, cs, |bs|);
    PrefixAgrees(l, cs, bs, |cs|);
  }

  lemma {:induction false} PrefixAgrees(l: Layout, bs: seq<Block>, cs: seq<Block>, k: nat)
    requires WellFormed(l, bs) && WellFormed(l, cs) && Live(bs) == Live(cs) && k <= |bs|
    ensures k <= |cs| && bs[..k] == cs[..k]
  {
    if k > 0 {
      PrefixAgrees(l, bs, cs, k - 1);
      Inside(l, bs, k - 1);
      if k > 1 {
        assert bs[k - 2] == bs[..k - 1][k - 2] == cs[..k - 1][k - 2] == cs[k - 2];
      }
      BlockAgrees(l, bs, cs, k - 1);
    }
  }

  /** Where both tilings have a block at the same place, it is the same block. */
  lemma BlockAgrees(l: Layout, bs: seq<Block>, cs: seq<Block>, k: nat)
    requires WellFormed(l, bs) && WellFormed(l, cs) && Live(bs) == Live(cs)
    requires k < |bs| && k < |cs| && bs[k].off == cs[k].off
    ensures bs[k] == cs[k]
  {
    if !bs[k].free {
      LiveAgrees(l, bs, cs, k);
    } else if !cs[k].free {
      LiveAgrees(l, cs, bs, k);
    } else {
      FreeEndsNoLater(l, bs, cs, k);
      FreeEndsNoLater(l, cs, bs, k);
    }
  }

  lemma LiveAgrees(l: Layout, bs: seq<Block>, cs: seq<Block>, k: nat)
    requires Tiles(l, bs) && Tiles(l, cs) && Live(bs) == Live(cs)
    requires k < |bs| && k < |cs| && bs[k].off == cs[k].off && !bs[k].free
    ensures bs[k] == cs[k]
  {
    assert bs[k] in Live(cs);
    var j :| 0 <= j < |cs| && cs[j] == bs[k];
    SameOffset(l, cs, j, k);
  }

  /** A free block ends where the next live block starts, or at the end of the pool. */
  lemma FreeEndsNoLater(l: Layout, bs: seq<Block>, cs: seq<Block>, k: nat)
    requires WellFormed(l, bs) && WellFormed(l, cs) && Live(bs) == Live(cs)
    requires k < |bs| && k < |cs| && bs[k].off == cs[k].off && bs[k].free && cs[k].free
    ensures End(l, bs[k]) <= End(l, cs[k])
  {
    Inside(l, bs, k);
    if k + 1 < |cs| {
      var next := cs[k + 1];
      assert next in Live(cs);
      var j :| 0 <= j < |bs| && bs[j] == next;
      if j < k {
        Ordered(l, bs, j, k);
      }
      assert k < j;
      Ordered(l, bs, k, j);
    }
  }

  // ---------------------------------------------------------------- allocation

  /** The first free block with room for `size` bytes, or `|bs|`. */
  function FirstFit(bs: seq<Block>, size: nat): (r: nat)
    ensures r <= |bs|
    ensures r < |bs| ==> bs[r].free && bs[r].size >= size
    ensures forall k :: 0 <= k < r ==> !(bs[k].free && bs[k].size >= size)
  {
    if bs == [] then 0
    else if bs[0].free && bs[0].size >= size then 0
    else 1 + FirstFit(bs[1..], size)
  }

  /** The list after block `i` is handed out for `size` bytes, split if enough is left over. */
  function Grant(l: Layout, bs: seq<Block>, i: nat, size: nat): seq<Block>
    requires i < |bs| && bs[i].size >= size
  {
    var b := bs[i];
    if b.size >= size + l.header + l.slack then
      bs[..i] + [Block(b.off, size, false), Block(b.off + l.header + size, b.size - size - l.header, true)] + bs[i + 1..]
    else
      bs[i := b.(free := false)]
  }

  /** The blocks of a list that was split. */
  lemma SplitAt(l: Layout, bs: seq<Block>, i: nat, size: nat, k: nat)
    requires i < |bs| && bs[i].size >= size + l.header + l.slack && k <= |bs|
    ensures var g := Grant(l, bs, i, size);
            && |g| == |bs| + 1
            && g[k] == if k == i then Block(bs[i].off, size, false)
                       else if k == i + 1 then Block(bs[i].off + l.header + size, bs[i].size - size - l.header, true)
                       else bs[if k < i then k else k - 1]
  {
  }

  /** A grant splits exactly if a header and the least leftover remain, and then the new free block has at least that size. */
  lemma GrantSplits(l: Layout, bs: seq<Block>, i: nat, size: nat)
    requires i < |bs| && bs[i].size >= size
    ensures var g := Grant(l, bs, i, size);
            && (|g| == |bs| + 1 <==> bs[i].size - size >= l.header + l.slack)
            && (|g| != |bs| + 1 ==> |g| == |bs| && multiset(g) == multiset(bs) - multiset{bs[i]} + multiset{bs[i].(free := false)})
            && (forall b :: b in g && b.free && b !in bs ==> b.size >= l.slack)
  {
    var g := Grant(l, bs, i, size);
    if bs[i].size >= size + l.header + l.slack {
      forall k | 0 <= k < |g| ensures g[k].free && g[k] !in bs ==> g[k].size >= l.slack {
        SplitAt(l, bs, i, size, k);
      }
    } else {
      forall k | 0 <= k < |g| ensures g[k].free ==> g[k] in bs {
        assert k != i ==> g[k] == bs[k];
      }
    }
  }

  /** The block that the grant turns live. */
  function Granted(l: Layout, bs: seq<Block>, i: nat, size: nat): Block
    requires i < |bs| && bs[i].size >= size
  {
    var b := bs[i];
    if b.size >= size + l.header + l.slack then Block(b.off, size, false) else b.(free := false)
  }

  /** A grant keeps the tiling coalesced and adds exactly one live block, with room for the request. */
  lemma GrantWellFormed(l: Layout, bs: seq<Block>, i: nat, size: nat)
    requires WellFormed(l, bs) && i < |bs| && bs[i].free && bs[i].size >= size
    ensures WellFormed(l, Grant(l, bs, i, size))
    ensures Granted(l, bs, i, size).size >= size && Granted(l, bs, i, size) !in Live(bs)
    ensures Live(Grant(l, bs, i, size)) == Live(bs) + {Granted(l, bs, i, size)}
  {
    GrantTiles(l, bs, i, size);
    GrantLive(l, bs, i, size);
  }

  lemma GrantTiles(l: Layout, bs: seq<Block>, i: nat, size: nat)
    requires WellFormed(l, bs) && i < |bs| && bs[i].free && bs[i].size >= size
    ensures WellFormed(l, Grant(l, bs, i, size))
  {
    var b, g := bs[i], Grant(l, bs, i, size);
    if b.size >= size + l.header + l.slack {
      SplitEnds(l, bs, i, size);
      forall k | 0 <= k < |g| - 1 ensures g[k + 1].off == End(l, g[k]) && !(g[k].free && g[k + 1].free) {
        SplitNext(l, bs, i, size, k);
      }
    }
  }

  lemma SplitEnds(l: Layout, bs: seq<Block>, i: nat, size: nat)
    requires Tiles(l, bs) && i < |bs| && bs[i].size >= size + l.header + l.slack
    ensures var g := Grant(l, bs, i, size);
            |g| == |bs| + 1 && g[0].off == 0 && End(l, g[|bs|]) == l.pool
  {
    hide Grant;
    SplitAt(l, bs, i, size, 0);
    SplitAt(l, bs, i, size, |bs|);
  }

  /** Each block of the split list ends where the next begins, and they are not both free. */
  lemma SplitNext(l: Layout, bs: seq<Block>, i: nat, size: nat, k: nat)
    requires WellFormed(l, bs) && i < |bs| && bs[i].free && bs[i].size >= size + l.header + l.slack && k < |bs|
    ensures var g := Grant(l, bs, i, size);
            |g| == |bs| + 1 && g[k + 1].off == End(l, g[k]) && !(g[k].free && g[k + 1].free)
  {
    hide Grant;
    SplitAt(l, bs, i, size, k);
    SplitAt(l, bs, i, size, k + 1);
    if i + 1 < k {
      assert bs[k - 1 + 1].off == End(l, bs[k - 1]);
    }
  }

  lemma GrantLive(l: Layout, bs: seq<Block>, i: nat, size: nat)
    requires Tiles(l, bs) && i < |bs| && bs[i].free && bs[i].size >= size
    ensures Granted(l, bs, i, size) !in Live(bs)
    ensures Live(Grant(l, bs, i, size)) == Live(bs) + {Granted(l, bs, i, size)}
  {
    var g, x := Grant(l, bs, i, size), Granted(l, bs, i, size);
    assert bs == bs[..i] + [bs[i]] + bs[i + 1..];
    if bs[i].size < size + l.header + l.slack {
      assert g == bs[..i] + [x] + bs[i + 1..];
    }
    if x in bs {
      var j :| 0 <= j < |bs| && bs[j] == x;
      SameOffset(l, bs, i, j);
    }
  }

  // ---------------------------------------------------------------- freeing

  /** Block `i` swallows its right neighbour. */
  function Merge(l: Layout, bs: seq<Block>, i: nat): seq<Block>
    requires i + 1 < |bs|
  {
    bs[..i] + [bs[i].(size := bs[i].size + l.header + bs[i + 1].size)] + bs[i + 2..]
  }

  /** Frees block `i`, looking only at its two neighbours: the next one first, then the previous. */
  function FreeAt(l: Layout, bs: seq<Block>, i: nat): seq<Block>
    requires i < |bs|
  {
    var a := bs[i := bs[i].(free := true)];
    var b := if i + 1 < |a| && a[i + 1].free then Merge(l, a, i) else a;
    if i > 0 && b[i - 1].free then Merge(l, b, i - 1) else b
  }

  /** The merge scan over the whole list; after a merge it stays on the same block. */
  function Scan(l: Layout, bs: seq<Block>, i: nat): (r: seq<Block>)
    decreases |bs|, |bs| - i
  {
    if i + 1 >= |bs| then bs
    else if bs[i].free && bs[i + 1].free then Scan(l, Merge(l, bs, i), i)
    else Scan(l, bs, i + 1)
  }

  /** Merging two free neighbours keeps the tiling and every live block. */
  lemma MergeKeeps(l: Layout, bs: seq<Block>, i: nat)
    requires Tiles(l, bs) && i + 1 < |bs| && bs[i].free && bs[i + 1].free
    ensures Tiles(l, Merge(l, bs, i)) && Live(Merge(l, bs, i)) == Live(bs)
  {
    var m := Merge(l, bs, i);
    assert bs == bs[..i] + [bs[i], bs[i + 1]] + bs[i + 2..];
    assert forall k :: 0 <= k < i ==> m[k] == bs[k];
    assert forall k :: i < k < |m| ==> m[k] == bs[k + 1];
  }

  lemma MarkKeeps(l: Layout, bs: seq<Block>, i: nat)
    requires Tiles(l, bs) && i < |bs| && !bs[i].free
    ensures Tiles(l, bs[i := bs[i].(free := true)])
    ensures Live(bs[i := bs[i].(free := true)]) == Live(bs) - {bs[i]}
  {
    var a := bs[i := bs[i].(free := true)];
    assert forall k :: 0 <= k < |a| && k != i ==> a[k] == bs[k];
    forall b | b in Live(bs) - {bs[i]} ensures b in Live(a) {
      var j :| 0 <= j < |bs| && bs[j] == b;
      assert a[j] == b;
    }
    forall b | b in Live(a) ensures b in Live(bs) - {bs[i]} {
      var j :| 0 <= j < |a| && a[j] == b;
      if bs[j] == bs[i] {
        SameOffset(l, bs, i, j);
      }
    }
  }

  /** The two-neighbour form leaves a coalesced tiling with exactly one live block fewer. */
  lemma FreeAtWellFormed(l: Layout, bs: seq<Block>, i: nat)
    requires WellFormed(l, bs) && i < |bs| && !bs[i].free
    ensures WellFormed(l, FreeAt(l, bs, i))
    ensures Live(FreeAt(l, bs, i)) == Live(bs) - {bs[i]}
  {
    var a := bs[i := bs[i].(free := true)];
    MarkKeeps(l, bs, i);
    var b := if i + 1 < |a| && a[i + 1].free then Merge(l, a, i) else a;
    if i + 1 < |a| && a[i + 1].free {
      MergeKeeps(l, a, i);
    }
    if i > 0 && b[i - 1].free {
      MergeKeeps(l, b, i - 1);
    }
    FreeAtCoalesced(l, bs, i);
  }

  ghost predicate FreePair(bs: seq<Block>, k: int) {
    0 <= k < |bs| - 1 && bs[k].free && bs[k + 1].free
  }

  /** Merging a free pair leaves no free pair except perhaps with the block before it. */
  lemma MergeClears(l: Layout, bs: seq<Block>, i: nat)
    requires FreePair(bs, i)
    requires forall k :: FreePair(bs, k) ==> k == i || k == i - 1
    ensures forall k :: FreePair(Merge(l, bs, i), k) ==> k == i - 1 && FreePair(bs, k)
  {
    var m := Merge(l, bs, i);
    assert !FreePair(bs, i + 1);
    forall k | FreePair(m, k) ensures k == i - 1 && FreePair(bs, k) {
      assert FreePair(bs, if k < i then k else k + 1);
    }
  }

  lemma FreeAtCoalesced(l: Layout, bs: seq<Block>, i: nat)
    requires Coalesced(bs) && i < |bs| && !bs[i].free
    ensures Coalesced(FreeAt(l, bs, i))
  {
    var a := bs[i := bs[i].(free := true)];
    forall k | FreePair(a, k) ensures k == i || k == i - 1 {
      assert FreePair(bs, k) || k == i || k == i - 1;
    }
    var b := if FreePair(a, i) then Merge(l, a, i) else a;
    if FreePair(a, i) {
      MergeClears(l, a, i);
    }
    assert forall k :: FreePair(b, k) ==> k == i - 1;
    if FreePair(b, i - 1) {
      MergeClears(l, b, i - 1);
    }
    var c := FreeAt(l, bs, i);
    assert forall k :: !FreePair(c, k);
    forall k | 0 <= k < |c| - 1 ensures !(c[k].free && c[k + 1].free) {
      assert !FreePair(c, k);
    }
  }

  /** The full scan coalesces any tiling and keeps every live block. */
  lemma {:induction false} ScanWellFormed(l: Layout, bs: seq<Block>, i: nat)
    requires Tiles(l, bs)
    requires forall k :: 0 <= k < i && k + 1 < |bs| ==> !(bs[k].free && bs[k + 1].free)
    ensures WellFormed(l, Scan(l, bs, i)) && Live(Scan(l, bs, i)) == Live(bs)
    decreases |bs|, |bs| - i
  {
    if i + 1 >= |bs| {
    } else if bs[i].free && bs[i + 1].free {
      MergeKeeps(l, bs, i);
      var m := Merge(l, bs, i);
      assert forall k :: 0 <= k < i ==> m[k] == bs[k];
      ScanWellFormed(l, m, i);
    } else {
      ScanWellFormed(l, bs, i + 1);
    }
  }

  /** Looking at two neighbours yields exactly the list that the full merge scan yields. */
  lemma NeighboursSuffice(l: Layout, bs: seq<Block>, i: nat)
    requires WellFormed(l, bs) && i < |bs| && !bs[i].free
    ensures FreeAt(l, bs, i) == Scan(l, bs[i := bs[i].(free := true)], 0)
  {
    MarkKeeps(l, bs, i);
    FreeAtWellFormed(l, bs, i);
    ScanWellFormed(l, bs[i := bs[i].(free := true)], 0);
    Canonical(l, FreeAt(l, bs, i), Scan(l, bs[i := bs[i].(free := true)], 0));
  }
}
