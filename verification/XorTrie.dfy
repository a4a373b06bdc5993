/**
 The largest exclusive-or of two numbers of a list, by a binary trie that is filled and
 queried in one pass.
 */
module XorTrie {

  const WIDTH: nat := 32

  // ---------------------------------------------------------------- bits

  function Pow2(k: nat): (p: nat)
    ensures p >= 1
  {
    if k == 0 then 1 else 2 * Pow2(k - 1)
  }

  /** Bit `i` of `n` in two's complement: shift right, rounding down, and mask. */
  function Bit(n: int, i: nat): bool {
    n / Pow2(i) % 2 == 1
  }

  /** The `w` low bits of `n`, most significant first. */
  function Bits(n: int, w: nat): (bs: seq<bool>)
    ensures |bs| == w
    decreases w
  {
    if w == 0 then [] else Bits(n / 2, w - 1) + [n % 2 == 1]
  }

  /** The value of a string of bits without a sign. */
  function Val(bs: seq<bool>): nat {
    if bs == [] then 0 else 2 * Val(bs[..|bs| - 1]) + if bs[|bs| - 1] then 1 else 0
  }

  /** Its value with the first bit as the sign, in two's complement. */
  function Signed(bs: seq<bool>): int {
    if bs != [] && bs[0] then Val(bs) - Pow2(|bs|) else Val(bs)
  }

  /** Exclusive-or of integers; all bits above the sign are equal to it. */
  function Xor(a: int, b: int): int
    decreases (if a < 0 then -a else a) + if b < 0 then -b else b
  {
    if -1 <= a <= 0 && -1 <= b <= 0 then (if a == b then 0 else -1)
    else 2 * Xor(a / 2, b / 2) + if a % 2 != b % 2 then 1 else 0
  }

  function XorBits(a: seq<bool>, b: seq<bool>): (x: seq<bool>)
    requires |a| == |b|
    ensures |x| == |a| && forall i :: 0 <= i < |a| ==> x[i] == (a[i] != b[i])
  {
    seq(|a|, i requires 0 <= i < |a| => a[i] != b[i])
  }

  /** `n` is an integer of `w` bits. */
  predicate Fits(n: int, w: nat)
    requires w > 0
  {
    0 - Pow2(w - 1) <= n < Pow2(w - 1)
  }

  lemma {:induction false} XorIsBitwise(a: int, b: int, w: nat)
    requires w > 0 && Fits(a, w) && Fits(b, w)
    ensures Signed(XorBits(Bits(a, w), Bits(b, w))) == Xor(a, b)
    decreases w
  {
    hide Signed;
    var x := XorBits(Bits(a, w), Bits(b, w));
    if w > 1 {
      XorIsBitwise(a / 2, b / 2, w - 1);
      assert x[..w - 1] == XorBits(Bits(a / 2, w - 1), Bits(b / 2, w - 1));
      SignedSplit(x);
      XorHalves(a, b);
    } else {
      assert Pow2(0) == 1;
      assert x == [a != b];
      SignedOne(a != b);
    }
  }

  lemma SignedOne(b: bool)
    ensures Signed([b]) == if b then -1 else 0
  {
    assert [b][..0] == [] && |[b]| == 1;
    assert Val([b]) == 2 * Val([]) + if b then 1 else 0;
    assert Pow2(1) == 2 * Pow2(0);
  }

  lemma XorHalves(a: int, b: int)
    ensures Xor(a, b) == 2 * Xor(a / 2, b / 2) + if a % 2 != b % 2 then 1 else 0
  {
    if -1 <= a <= 0 && -1 <= b <= 0 {
      assert a / 2 == a && b / 2 == b;
    }
  }

  lemma SignedSplit(x: seq<bool>)
    requires |x| > 1
    ensures Signed(x) == 2 * Signed(x[..|x| - 1]) + if x[|x| - 1] then 1 else 0
  {
  }

  /** The first bit is the sign. */
  lemma {:induction false} SignBit(n: int, w: nat)
    requires w > 0 && Fits(n, w)
    ensures Bits(n, w)[0] <==> n < 0
    decreases w
  {
    if w > 1 {
      SignBit(n / 2, w - 1);
    }
  }

  lemma HalfOfShift(n: int, i: nat)
    requires i > 0
    ensures n / Pow2(i) == n / 2 / Pow2(i - 1)
  {
    var p := Pow2(i - 1);
    var q := n / 2 / p;
    assert q * p <= n / 2 < q * p + p;
    assert q * (2 * p) == 2 * (q * p);
    QuotientIs(n, 2 * p, q);
  }

  lemma QuotientIs(n: int, d: nat, q: int)
    requires d > 0 && q * d <= n < q * d + d
    ensures n / d == q
  {
    var r := n / d;
    assert r * d <= n < r * d + d;
    if r < q {
      Scaled(r + 1, q, d);
    } else if q < r {
      Scaled(q + 1, r, d);
    }
  }

  lemma Scaled(a: int, b: int, d: nat)
    requires a <= b
    ensures a * d <= b * d
  {
  }

  /** The shifts of the program read the bits of the path, from the top. */
  lemma {:induction false} BitAt(n: int, w: nat, i: nat)
    requires i < w
    ensures Bits(n, w)[w - 1 - i] == Bit(n, i)
    decreases w
  {
    if i > 0 {
      BitAt(n / 2, w - 1, i - 1);
      HalfOfShift(n, i);
    }
  }

  /** Of two strings of bits the one with a 1 at the first difference is larger. */
  lemma {:induction false} FirstDifferenceDecides(a: seq<bool>, b: seq<bool>, d: nat)
    requires |a| == |b| && d < |a| && a[..d] == b[..d] && a[d] && !b[d]
    ensures Val(a) > Val(b)
  {
    var n := |a| - 1;
    if d == n {
    } else {
      assert a[..n][..d] == a[..d] && b[..n][..d] == b[..d];
      FirstDifferenceDecides(a[..n], b[..n], d);
    }
  }

  // ---------------------------------------------------------------- the greedy query

  /** `p` is a path of the trie that holds `keys`. */
  ghost predicate Reaches(keys: set<seq<bool>>, p: seq<bool>) {
    p == [] || exists k :: k in keys && p <= k
  }

  ghost predicate FullKeys(keys: set<seq<bool>>) {
    forall k :: k in keys ==> |k| == WIDTH
  }

  /** From `q`, take the opposite of the bit of `bits` wherever there is such a path. */
  ghost function Greedy(keys: set<seq<bool>>, bits: seq<bool>, q: seq<bool>): (r: seq<bool>)
    requires |bits| == WIDTH && |q| <= WIDTH
    ensures |r| == WIDTH && q <= r
    decreases WIDTH - |q|
  {
    if |q| == WIDTH then q
    else
      var bit := bits[|q|];
      if Reaches(keys, q + [!bit]) then Greedy(keys, bits, q + [!bit]) else Greedy(keys, bits, q + [bit])
  }

  lemma {:induction false} GreedyStays(keys: set<seq<bool>>, bits: seq<bool>, q: seq<bool>)
    requires FullKeys(keys) && |bits| == WIDTH && |q| <= WIDTH && keys != {} && Reaches(keys, q)
    ensures Greedy(keys, bits, q) in keys
    decreases WIDTH - |q|
  {
    var k := Through(keys, q);
    if |q| == WIDTH {
      assert k == q;
    } else {
      assert q + [k[|q|]] <= k;
      assert Reaches(keys, q + [k[|q|]]);
      var bit := bits[|q|];
      if Reaches(keys, q + [!bit]) {
        GreedyStays(keys, bits, q + [!bit]);
      } else {
        assert k[|q|] == bit;
        GreedyStays(keys, bits, q + [bit]);
      }
    }
  }

  lemma Through(keys: set<seq<bool>>, q: seq<bool>) returns (k: seq<bool>)
    requires keys != {} && Reaches(keys, q)
    ensures k in keys && q <= k
  {
    if q == [] {
      k :| k in keys;
    } else {
      k :| k in keys && q <= k;
    }
  }

  /** No key beats the greedy one. */
  lemma {:induction false} GreedyIsBest(keys: set<seq<bool>>, bits: seq<bool>, q: seq<bool>, k: seq<bool>)
    requires FullKeys(keys) && |bits| == WIDTH && |q| <= WIDTH && k in keys && q <= k
    ensures Val(XorBits(bits, k)) <= Val(XorBits(bits, Greedy(keys, bits, q)))
    decreases WIDTH - |q|
  {
    if |q| == WIDTH {
      assert k == q;
    } else {
      var bit := bits[|q|];
      assert q + [k[|q|]] <= k;
      var q' := if Reaches(keys, q + [!bit]) then q + [!bit] else q + [bit];
      if q' <= k {
        GreedyIsBest(keys, bits, q', k);
      } else {
        var best := Greedy(keys, bits, q);
        assert q' <= best && k[|q|] == bit;
        var a, b := XorBits(bits, best), XorBits(bits, k);
        assert a[..|q|] == b[..|q|];
        FirstDifferenceDecides(a, b, |q|);
      }
    }
  }

  // ---------------------------------------------------------------- the result register

  /** `1 << i` as an int: the highest bit is the sign. */
  function Mask(i: nat): int {
    if i == WIDTH - 1 then 0 - Pow2(i) else Pow2(i)
  }

  /** `x | (1 << i)`. */
  function SetBit(x: int, i: nat): int {
    if Bit(x, i) then x else x + Mask(i)
  }

  /** The result register when the bits `x` of the result have been decided and the others are 0. */
  function Register(x: seq<bool>): int
    requires |x| <= WIDTH
  {
    Val(x) * Pow2(WIDTH - |x|) - if x != [] && x[0] then Pow2(WIDTH) else 0
  }

  lemma {:induction false} PowSplit(a: nat, b: nat)
    ensures Pow2(a + b) == Pow2(a) * Pow2(b)
  {
    if a > 0 {
      PowSplit(a - 1, b);
      Doubled(Pow2(a - 1), Pow2(b));
    }
  }

  lemma Doubled(x: int, y: int)
    ensures 2 * x * y == 2 * (x * y)
  {
  }

  /** A number made of higher bits only has bit `i` clear. */
  lemma ClearBelow(h: int, i: nat)
    ensures !Bit(2 * h * Pow2(i), i)
  {
    QuotientIs(2 * h * Pow2(i), Pow2(i), 2 * h);
  }

  /** The bits decided so far, as an integer. */
  function Decided(x: seq<bool>): int {
    Val(x) - if x != [] && x[0] then Pow2(|x|) else 0
  }

  lemma RegisterIs(x: seq<bool>)
    requires |x| <= WIDTH
    ensures Register(x) == Decided(x) * Pow2(WIDTH - |x|)
  {
    hide Val, Pow2;
    var p, h := Pow2(WIDTH - |x|), Pow2(|x|);
    PowSplit(|x|, WIDTH - |x|);
    assert (Val(x) - h) * p == Val(x) * p - h * p;
  }

  lemma DecidedAppends(x: seq<bool>, b: bool)
    requires x != []
    ensures Decided(x + [b]) == 2 * Decided(x) + if b then 1 else 0
  {
    assert (x + [b])[..|x|] == x;
  }

  /** Setting the next lower bit of the register appends a 1 to the bits decided so far; leaving it appends a 0. */
  lemma SetBitAppends(x: seq<bool>)
    requires |x| < WIDTH
    ensures SetBit(Register(x), WIDTH - 1 - |x|) == Register(x + [true])
    ensures Register(x) == Register(x + [false])
  {
    hide Register, Decided, Bit, Pow2, Val;
    var i := WIDTH - 1 - |x|;
    RegisterIs(x);
    RegisterIs(x + [true]);
    RegisterIs(x + [false]);
    if x == [] {
      FirstBit();
      ClearBelow(0, i);
      assert [] + [true] == [true] && [] + [false] == [false];
    } else {
      DecidedAppends(x, true);
      DecidedAppends(x, false);
      OneMoreBit(Decided(x), i);
    }
  }

  lemma FirstBit()
    ensures Decided([]) == 0 && Decided([true]) == -1 && Decided([false]) == 0
  {
    assert [true][..0] == [] && [false][..0] == [];
    assert Pow2(1) == 2 * Pow2(0);
  }

  lemma OneMoreBit(d: int, i: nat)
    requires i < WIDTH - 1
    ensures SetBit(d * Pow2(i + 1), i) == (2 * d + 1) * Pow2(i)
    ensures d * Pow2(i + 1) == 2 * d * Pow2(i)
  {
    hide Bit;
    var p := Pow2(i);
    assert d * (2 * p) == 2 * d * p;
    ClearBelow(d, i);
    assert (2 * d + 1) * p == 2 * d * p + p;
  }

  // ---------------------------------------------------------------- one query

  /** What the greedy query for `bits` returns. */
  ghost function Best(keys: set<seq<bool>>, bits: seq<bool>): int
    requires |bits| == WIDTH
  {
    Signed(XorBits(bits, Greedy(keys, bits, [])))
  }

  /** A query that is on its way along `q`, with the bits decided so far in `maxXor`. */
  ghost predicate OnWay(keys: set<seq<bool>>, bits: seq<bool>, q: seq<bool>, maxXor: int)
    requires |bits| == WIDTH
  {
    && |q| <= WIDTH && FullKeys(keys) && keys != {} && Reaches(keys, q)
    && Greedy(keys, bits, q) == Greedy(keys, bits, [])
    && maxXor == Register(XorBits(bits[..|q|], q))
  }

  lemma QueryStarts(keys: set<seq<bool>>, bits: seq<bool>)
    requires |bits| == WIDTH && FullKeys(keys) && keys != {}
    ensures OnWay(keys, bits, [], 0)
  {
    assert XorBits(bits[..0], []) == [];
  }

  lemma SomeChild(keys: set<seq<bool>>, q: seq<bool>)
    requires FullKeys(keys) && keys != {} && Reaches(keys, q) && |q| < WIDTH
    ensures Reaches(keys, q + [false]) || Reaches(keys, q + [true])
  {
    var k := Through(keys, q);
    assert q + [k[|q|]] <= k;
    assert Reaches(keys, q + [k[|q|]]);
    if k[|q|] {
      assert q + [k[|q|]] == q + [true];
    } else {
      assert q + [k[|q|]] == q + [false];
    }
  }

  /** One level further down: the opposite side if there is one, which sets a bit, or else the same side. */
  lemma QueryAdvances(keys: set<seq<bool>>, bits: seq<bool>, q: seq<bool>, maxXor: int)
    requires |bits| == WIDTH && OnWay(keys, bits, q, maxXor) && |q| < WIDTH
    ensures var bit, i := bits[|q|], WIDTH - 1 - |q|;
            if Reaches(keys, q + [!bit]) then OnWay(keys, bits, q + [!bit], SetBit(maxXor, i))
            else OnWay(keys, bits, q + [bit], maxXor)
  {
    hide Reaches, Register, SetBit;
    var d := |q|;
    var bit, x := bits[d], XorBits(bits[..d], q);
    SomeChild(keys, q);
    SetBitAppends(x);
    assert XorBits(bits[..d + 1], q + [!bit]) == x + [true];
    assert XorBits(bits[..d + 1], q + [bit]) == x + [false];
  }

  lemma QueryEnds(keys: set<seq<bool>>, bits: seq<bool>, q: seq<bool>, maxXor: int)
    requires |bits| == WIDTH && OnWay(keys, bits, q, maxXor) && |q| == WIDTH
    ensures maxXor == Best(keys, bits)
  {
    assert bits[..WIDTH] == bits;
    assert Pow2(0) == 1;
  }

  /** The query returns the exclusive-or with a key whose bits, read without a sign, are the largest. */
  lemma BestIsMaximum(keys: set<seq<bool>>, bits: seq<bool>) returns (best: seq<bool>)
    requires |bits| == WIDTH && FullKeys(keys) && keys != {}
    ensures best in keys && Best(keys, bits) == Signed(XorBits(bits, best))
    ensures forall k :: k in keys ==> Val(XorBits(bits, k)) <= Val(XorBits(bits, best))
  {
    best := Greedy(keys, bits, []);
    GreedyStays(keys, bits, []);
    forall k | k in keys ensures Val(XorBits(bits, k)) <= Val(XorBits(bits, best)) {
      GreedyIsBest(keys, bits, [], k);
    }
  }

  // ---------------------------------------------------------------- the trie

  class TrieNode {
    var child: seq<TrieNode?>

    constructor ()
      ensures child == [null, null]
    {
      child := [null, null];
    }
  }

  function Side(b: bool): nat {
    if b then 1 else 0
  }

  /** Different paths end at different nodes, and every path extends a shorter one. */
  ghost predicate IsTree(at: map<seq<bool>, TrieNode>, root: TrieNode) {
    && [] in at && at[[]] == root
    && (forall p, q :: p in at && q in at && at[p] == at[q] ==> p == q)
    && (forall p :: p in at && p != [] ==> p[..|p| - 1] in at)
  }

  lemma TreeGrows(at: map<seq<bool>, TrieNode>, root: TrieNode, p: seq<bool>, bit: bool, leaf: TrieNode)
    requires IsTree(at, root) && p in at && p + [bit] !in at && leaf !in at.Values
    ensures IsTree(at[p + [bit] := leaf], root)
    ensures at[p + [bit] := leaf].Values == at.Values + {leaf}
    ensures p + [bit] + [false] !in at && p + [bit] + [true] !in at
  {
    var after := at[p + [bit] := leaf];
    assert (p + [bit])[..|p|] == p;
    assert (p + [bit] + [false])[..|p| + 1] == p + [bit] == (p + [bit] + [true])[..|p| + 1];
    assert after[p + [bit]] == leaf;
    forall q | q in at ensures at[q] in at.Values && after[q] == at[q] {
    }
  }

  ghost predicate KidOk(at: map<seq<bool>, TrieNode>, kids: map<seq<bool>, seq<TrieNode?>>, p: seq<bool>, b: bool)
    requires p in kids
  {
    |kids[p]| == 2 && kids[p][Side(b)] == if p + [b] in at then at[p + [b]] else null
  }

  /** The children stored at the end of each path are the ends of the paths one longer. */
  ghost predicate KidsOk(at: map<seq<bool>, TrieNode>, kids: map<seq<bool>, seq<TrieNode?>>) {
    kids.Keys == at.Keys && forall p :: p in kids ==> KidOk(at, kids, p, false) && KidOk(at, kids, p, true)
  }

  lemma KidsGrow(at: map<seq<bool>, TrieNode>, kids: map<seq<bool>, seq<TrieNode?>>, p: seq<bool>, bit: bool, leaf: TrieNode)
    requires KidsOk(at, kids) && p in at && p + [bit] !in at && |kids[p]| == 2
    requires p + [bit] + [false] !in at && p + [bit] + [true] !in at
    ensures KidsOk(at[p + [bit] := leaf], kids[p := kids[p][Side(bit) := leaf]][p + [bit] := [null, null]])
  {
    var at', kids' := at[p + [bit] := leaf], kids[p := kids[p][Side(bit) := leaf]][p + [bit] := [null, null]];
    forall q | q in kids' ensures KidOk(at', kids', q, false) && KidOk(at', kids', q, true) {
      SnocApart(p, bit, q, false);
      SnocApart(p, bit, q, true);
      assert q in kids ==> KidOk(at, kids, q, false) && KidOk(at, kids, q, true);
    }
  }

  lemma OnlyAt(at: map<seq<bool>, TrieNode>, root: TrieNode, p: seq<bool>)
    requires IsTree(at, root) && p in at
    ensures forall q :: q in at && q != p ==> at[q] != at[p]
  {
  }

  class Trie {
    var root: TrieNode
    /** The node at the end of each path, and the numbers inserted, as paths of full length. */
    ghost var at: map<seq<bool>, TrieNode>
    ghost var keys: set<seq<bool>>

    /** The children stored in the node at the end of each path. */
    ghost function Kids(): map<seq<bool>, seq<TrieNode?>>
      reads this`at, at.Values
    {
      map p | p in at :: at[p].child
    }

    /** The heap below the root is a tree whose nodes are the paths of `at`. */
    ghost predicate Shape()
      reads this`at, this`root, at.Values
    {
      IsTree(at, root) && KidsOk(at, Kids())
    }

    /** The paths are exactly the beginnings of the numbers inserted. */
    ghost predicate Valid()
      reads this, at.Values
    {
      Shape() && FullKeys(keys) && Exactly(at.Keys, keys)
    }

    constructor ()
      ensures Valid() && keys == {} && fresh(at.Values)
    {
      var r := new TrieNode();
      ghost var m: map<seq<bool>, TrieNode> := map[[] := r];
      assert m.Values == {m[[]]};
      root := r;
      at := m;
      keys := {};
    }

    /** The child of the node at `p` along `bit`, created if there is none. */
    method Descend(node: TrieNode, bit: bool, ghost p: seq<bool>) returns (next: TrieNode)
      requires Shape() && p in at && at[p] == node
      modifies this`at, node
      ensures Shape() && at.Keys == old(at.Keys) + {p + [bit]} && at[p + [bit]] == next
      ensures forall q :: q in old(at) ==> at[q] == old(at[q])
      ensures fresh(at.Values - old(at.Values))
    {
      hide IsTree;
      assert KidOk(at, Kids(), p, bit);
      if node.child[Side(bit)] == null {
        AddLeaf(node, bit, p);
      } else {
        assert at.Keys + {p + [bit]} == at.Keys;
      }
      assert KidOk(at, Kids(), p, bit);
      next := node.child[Side(bit)];
    }

    method AddLeaf(node: TrieNode, bit: bool, ghost p: seq<bool>)
      requires Shape() && p in at && at[p] == node && |node.child| == 2 && p + [bit] !in at
      modifies this`at, node
      ensures Shape() && at.Keys == old(at.Keys) + {p + [bit]} && at[p] == node
      ensures forall q :: q in old(at) ==> at[q] == old(at[q])
      ensures fresh(at.Values - old(at.Values))
    {
      hide KidsOk, IsTree;
      ghost var kids := Kids();
      var leaf := new TrieNode();
      TreeGrows(at, root, p, bit, leaf);
      KidsGrow(at, kids, p, bit, leaf);
      OnlyAt(at, root, p);
      node.child := node.child[Side(bit) := leaf];
      at := at[p + [bit] := leaf];
      assert Kids() == kids[p := kids[p][Side(bit) := leaf]][p + [bit] := [null, null]];
    }

    /** While a number is being inserted: its path exists down to depth `d`. */
    ghost predicate Growing(bits: seq<bool>, d: nat)
      reads this, at.Values
    {
      Shape() && FullKeys(keys) && Covers(at.Keys, keys, bits, d)
    }

    /** One level of an insertion. */
    method Grow(node: TrieNode, ghost bits: seq<bool>, ghost d: nat, bit: bool) returns (next: TrieNode)
      requires |bits| == WIDTH && d < WIDTH && bit == bits[d]
      requires Growing(bits, d) && bits[..d] in at && at[bits[..d]] == node
      modifies this`at, node
      ensures Growing(bits, d + 1) && bits[..d + 1] in at && at[bits[..d + 1]] == next
      ensures forall q :: q in old(at) ==> q in at && at[q] == old(at[q])
      ensures fresh(at.Values - old(at.Values))
    {
      hide Shape, Covers;
      assert bits[..d] + [bit] == bits[..d + 1];
      CoversDeeper(at.Keys, keys, bits, d);
      next := Descend(node, bit, bits[..d]);
    }

    method Insert(num: int)
      requires Valid() && Fits(num, WIDTH)
      modifies this, at.Values
      ensures Valid() && keys == old(keys) + {Bits(num, WIDTH)}
      ensures fresh(at.Values - old(at.Values)) && root == old(root)
    {
      hide Shape, Growing, Exactly, FullKeys, Bits, Bit, Pow2;
      ghost var bits := Bits(num, WIDTH);
      var node := root;
      var i := WIDTH;
      StartGrowing(bits);
      while i > 0
        invariant 0 <= i <= WIDTH && keys == old(keys) && root == old(root)
        invariant Growing(bits, WIDTH - i) && bits[..WIDTH - i] in at && at[bits[..WIDTH - i]] == node
        invariant fresh(at.Values - old(at.Values))
      {
        i := i - 1;
        BitAt(num, WIDTH, i);
        assert node in at.Values;
        node := Grow(node, bits, WIDTH - 1 - i, Bit(num, i));
      }
      FinishGrowing(bits);
      keys := keys + {bits};
    }

    /** The trie answers correctly, at depth `|q|`, which of the two continuations `keys` has. */
    ghost predicate Answers(keys: set<seq<bool>>, q: seq<bool>)
      reads this
    {
      (q + [false] in at <==> Reaches(keys, q + [false])) && (q + [true] in at <==> Reaches(keys, q + [true]))
    }

    /** One level of a query: it never follows a null child. */
    method Query(node: TrieNode, bit: bool, i: nat, maxXor: int, ghost final: set<seq<bool>>, ghost bits: seq<bool>, ghost q: seq<bool>)
        returns (next: TrieNode, maxXor': int, ghost q': seq<bool>)
      requires |bits| == WIDTH && OnWay(final, bits, q, maxXor) && |q| < WIDTH && bit == bits[|q|] && i == WIDTH - 1 - |q|
      requires Shape() && q in at && at[q] == node && Answers(final, q)
      ensures q' == q + [if Reaches(final, q + [!bit]) then !bit else bit]
      ensures maxXor' == if Reaches(final, q + [!bit]) then SetBit(maxXor, i) else maxXor
      ensures OnWay(final, bits, q', maxXor') && q' in at && at[q'] == next
    {
      hide IsTree, Reaches, Greedy, Register, SetBit;
      assert KidOk(at, Kids(), q, false) && KidOk(at, Kids(), q, true);
      SomeChild(final, q);
      QueryAdvances(final, bits, q, maxXor);
      if node.child[Side(!bit)] != null {
        maxXor' := SetBit(maxXor, i);
        next := node.child[Side(!bit)];
        q' := q + [!bit];
      } else {
        maxXor' := maxXor;
        next := node.child[Side(bit)];
        q' := q + [bit];
      }
    }

    /** The greedy answer for `num` from a trie that is not empty. */
    method GetMaxXor(num: int) returns (maxXor: int)
      requires Valid() && keys != {} && Fits(num, WIDTH)
      ensures maxXor == Best(keys, Bits(num, WIDTH))
    {
      hide Reaches, Bits, Bit, Shape, OnWay, Best, Pow2;
      ghost var bits, q := Bits(num, WIDTH), [];
      var node := root;
      maxXor := 0;
      QueryStarts(keys, bits);
      StartGrowing(bits);
      var i := WIDTH;
      while i > 0
        invariant 0 <= i <= WIDTH && |q| == WIDTH - i
        invariant OnWay(keys, bits, q, maxXor) && q in at && at[q] == node
      {
        i := i - 1;
        BitAt(num, WIDTH, i);
        node, maxXor, q := Query(node, Bit(num, i), i, maxXor, keys, bits, q);
      }
      QueryEnds(keys, bits, q, maxXor);
    }

    /**
     Insertion and query in one pass down the trie: the trie and the answer are those of an
     insertion followed by a query.
     */
    method InsertAndGetMaxXor(num: int) returns (maxXor: int)
      requires Valid() && Fits(num, WIDTH)
      modifies this, at.Values
      ensures Valid() && keys == old(keys) + {Bits(num, WIDTH)}
      ensures maxXor == Best(keys, Bits(num, WIDTH))
      ensures fresh(at.Values - old(at.Values)) && root == old(root)
    {
      hide Shape, Growing, Exactly, FullKeys, Reaches, Bits, Bit, OnWay, Best, Pow2;
      ghost var bits, q := Bits(num, WIDTH), [];
      ghost var final := keys + {bits};
      FullMore(keys, bits);
      var insertNode, queryNode := root, root;
      maxXor := 0;
      QueryStarts(final, bits);
      StartGrowing(bits);
      var i := WIDTH;
      while i > 0
        invariant 0 <= i <= WIDTH && |q| == WIDTH - i && keys == old(keys) && root == old(root)
        invariant Growing(bits, WIDTH - i) && bits[..WIDTH - i] in at && at[bits[..WIDTH - i]] == insertNode
        invariant OnWay(final, bits, q, maxXor) && q in at && at[q] == queryNode
        invariant fresh(at.Values - old(at.Values))
      {
        i := i - 1;
        BitAt(num, WIDTH, i);
        assert insertNode in at.Values;
        insertNode := Grow(insertNode, bits, WIDTH - 1 - i, Bit(num, i));
        AnswersSoFar(bits, q);
        queryNode, maxXor, q := Query(queryNode, Bit(num, i), i, maxXor, final, bits, q);
      }
      QueryEnds(final, bits, q, maxXor);
      FinishGrowing(bits);
      keys := final;
    }

    /** Inserting one level ahead of the query is enough for the query. */
    lemma AnswersSoFar(bits: seq<bool>, q: seq<bool>)
      requires |bits| == WIDTH && |q| < WIDTH && Growing(bits, |q| + 1)
      ensures Shape() && Answers(keys + {bits}, q)
    {
      hide Reaches, Shape;
      CoveredOne(at.Keys, keys, bits, q, false);
      CoveredOne(at.Keys, keys, bits, q, true);
    }

    lemma FinishGrowing(bits: seq<bool>)
      requires |bits| == WIDTH && Growing(bits, WIDTH)
      ensures Shape() && FullKeys(keys + {bits}) && Exactly(at.Keys, keys + {bits})
    {
      hide Shape, Covers, Exactly;
      CoversAll(at.Keys, keys, bits);
    }

    lemma StartGrowing(bits: seq<bool>)
      requires Valid()
      ensures Growing(bits, 0) && bits[..0] in at && at[bits[..0]] == root
    {
      hide KidsOk;
      assert forall p: seq<bool> :: p <= bits && |p| <= 0 ==> p == [];
      assert bits[..0] == [];
    }
  }

  /** The paths are exactly the beginnings of the keys. */
  ghost predicate Exactly(paths: set<seq<bool>>, keys: set<seq<bool>>) {
    forall p :: p in paths <==> Reaches(keys, p)
  }

  lemma CoversAll(paths: set<seq<bool>>, keys: set<seq<bool>>, bits: seq<bool>)
    requires Covers(paths, keys, bits, |bits|)
    ensures Exactly(paths, keys + {bits})
  {
    forall p ensures p in paths <==> Reaches(keys + {bits}, p) {
      ReachesMore(keys, bits, p);
      hide Reaches;
      assert p <= bits ==> |p| <= |bits|;
    }
  }

  /** The paths are those of `keys` and the beginnings of `bits` of length at most `d`. */
  ghost predicate Covers(paths: set<seq<bool>>, keys: set<seq<bool>>, bits: seq<bool>, d: nat) {
    forall p :: p in paths <==> Reaches(keys, p) || (p <= bits && |p| <= d)
  }

  lemma CoversDeeper(paths: set<seq<bool>>, keys: set<seq<bool>>, bits: seq<bool>, d: nat)
    requires Covers(paths, keys, bits, d) && d < |bits|
    ensures Covers(paths + {bits[..d + 1]}, keys, bits, d + 1)
  {
    hide Reaches;
    forall p: seq<bool> ensures p <= bits && |p| <= d + 1 <==> (p <= bits && |p| <= d) || p == bits[..d + 1] {
    }
  }

  lemma CoveredOne(paths: set<seq<bool>>, keys: set<seq<bool>>, bits: seq<bool>, q: seq<bool>, b: bool)
    requires Covers(paths, keys, bits, |q| + 1)
    ensures q + [b] in paths <==> Reaches(keys + {bits}, q + [b])
  {
    hide Reaches;
    ReachesMore(keys, bits, q + [b]);
  }

  lemma FullMore(keys: set<seq<bool>>, bits: seq<bool>)
    requires FullKeys(keys) && |bits| == WIDTH
    ensures FullKeys(keys + {bits})
  {
  }

  lemma ReachesMore(keys: set<seq<bool>>, bits: seq<bool>, p: seq<bool>)
    ensures Reaches(keys + {bits}, p) <==> Reaches(keys, p) || p <= bits
  {
    if p <= bits {
      assert bits in keys + {bits};
    }
  }

  lemma SnocApart(p: seq<bool>, a: bool, q: seq<bool>, b: bool)
    ensures p + [a] == q + [b] <==> p == q && a == b
    ensures (q + [b])[..|q|] == q
  {
    if p + [a] == q + [b] {
      assert p == (p + [a])[..|p|] == (q + [b])[..|q|] == q;
      assert (p + [a])[|p|] == (q + [b])[|q|];
    }
  }

  // ---------------------------------------------------------------- the largest pair

  /** `m` is the largest exclusive-or of two of the numbers, which may be the same one; 0 if there are none. */
  ghost predicate IsMaximum(nums: seq<int>, m: int) {
    && (forall i, j :: 0 <= i <= j < |nums| ==> Xor(nums[i], nums[j]) <= m)
    && (if nums == [] then m == 0 else exists i, j :: 0 <= i <= j < |nums| && Xor(nums[i], nums[j]) == m)
  }

  predicate SameSign(a: int, b: int) {
    a < 0 <==> b < 0
  }

  /** How many numbers have the sign of the first one, before one has not. */
  function Uniform(nums: seq<int>): (u: nat)
    ensures u <= |nums| && (nums != [] ==> u > 0)
    ensures forall i :: 0 <= i < u ==> SameSign(nums[0], nums[i])
    ensures u < |nums| ==> !SameSign(nums[0], nums[u])
  {
    if nums == [] then 0
    else
      var n := |nums| - 1;
      if n > 0 && Uniform(nums[..n]) < n then Uniform(nums[..n])
      else if SameSign(nums[0], nums[n]) then n + 1 else n
  }

  /** The numbers before position `n`, as keys. */
  ghost function KeysOf(nums: seq<int>, n: nat): set<seq<bool>>
    requires n <= |nums|
  {
    set i | 0 <= i < n :: Bits(nums[i], WIDTH)
  }

  ghost predicate Ints(nums: seq<int>) {
    forall i :: 0 <= i < |nums| ==> Fits(nums[i], WIDTH)
  }

  lemma {:induction false} XorFacts(a: int, b: int)
    ensures Xor(a, b) == Xor(b, a)
    ensures Xor(a, b) >= 0 <==> SameSign(a, b)
    decreases (if a < 0 then -a else a) + if b < 0 then -b else b
  {
    if !(-1 <= a <= 0 && -1 <= b <= 0) {
      XorFacts(a / 2, b / 2);
    }
  }

  /** The bits of an exclusive-or of ints: the first one says whether the signs differ. */
  lemma XorPattern(a: int, b: int)
    requires Fits(a, WIDTH) && Fits(b, WIDTH)
    ensures var x := XorBits(Bits(a, WIDTH), Bits(b, WIDTH));
            Signed(x) == Xor(a, b) && (x[0] <==> !SameSign(a, b))
  {
    hide Xor, Val, Signed;
    XorIsBitwise(a, b, WIDTH);
    SignBit(a, WIDTH);
    SignBit(b, WIDTH);
  }

  lemma TopBitIsLarger(a: seq<bool>, b: seq<bool>)
    requires |a| == |b| > 0 && Val(b) <= Val(a) && b[0]
    ensures a[0]
  {
    if !a[0] {
      FirstDifferenceDecides(b, a, 0);
    }
  }

  /**
   Querying a number among the first ones: if they all have its sign, the answer is its largest
   exclusive-or with one of them; if not, the answer is negative.
   */
  lemma BestAmongFirst(nums: seq<int>, n: nat)
    requires n < |nums| && Ints(nums)
    ensures var best := Best(KeysOf(nums, n + 1), Bits(nums[n], WIDTH));
            if n < Uniform(nums) then
              && (exists i :: 0 <= i <= n && best == Xor(nums[i], nums[n]))
              && (forall i :: 0 <= i <= n ==> Xor(nums[i], nums[n]) <= best)
            else best < 0
  {
    hide Best, Xor, Val, Signed, Bits, Fits;
    var keys, bits := KeysOf(nums, n + 1), Bits(nums[n], WIDTH);
    assert bits in keys;
    var best := BestIsMaximum(keys, bits);
    var b :| 0 <= b < n + 1 && best == Bits(nums[b], WIDTH);
    PartnerIs(nums, n, b);
    if n < Uniform(nums) {
      forall i | 0 <= i <= n ensures Xor(nums[i], nums[n]) <= Xor(nums[b], nums[n]) {
        PartnerIs(nums, n, i);
        SameSignOrder(XorBits(bits, Bits(nums[i], WIDTH)), XorBits(bits, best));
      }
    } else {
      var u := OtherSign(nums, n);
      PartnerIs(nums, n, u);
      TopBitIsLarger(XorBits(bits, best), XorBits(bits, Bits(nums[u], WIDTH)));
    }
  }

  /** The answer for a number is its largest exclusive-or with it and the earlier ones exactly before the first change of sign. */
  lemma BestExactly(nums: seq<int>, n: nat)
    requires n < |nums| && Ints(nums)
    ensures var best := Best(KeysOf(nums, n + 1), Bits(nums[n], WIDTH));
            (forall i :: 0 <= i <= n ==> Xor(nums[i], nums[n]) <= best) <==> n < Uniform(nums)
  {
    hide Best, Xor, Bits, Fits, KeysOf;
    BestAmongFirst(nums, n);
    SelfXor(nums[n]);
  }

  lemma PartnerIs(nums: seq<int>, n: nat, i: nat)
    requires i <= n < |nums| && Ints(nums)
    ensures Bits(nums[i], WIDTH) in KeysOf(nums, n + 1)
    ensures var x := XorBits(Bits(nums[n], WIDTH), Bits(nums[i], WIDTH));
            Signed(x) == Xor(nums[i], nums[n]) && (x[0] <==> Xor(nums[i], nums[n]) < 0) && (x[0] <==> !SameSign(nums[i], nums[n]))
  {
    hide Xor, Val, Signed, Bits;
    XorPattern(nums[n], nums[i]);
    XorFacts(nums[n], nums[i]);
    XorFacts(nums[i], nums[n]);
  }

  lemma SameSignOrder(a: seq<bool>, b: seq<bool>)
    requires |a| == |b| > 0 && !a[0] && !b[0] && Val(a) <= Val(b)
    ensures Signed(a) <= Signed(b)
  {
  }

  lemma OtherSign(nums: seq<int>, n: nat) returns (i: nat)
    requires Uniform(nums) <= n < |nums|
    ensures i <= n && !SameSign(nums[i], nums[n])
  {
    i := if SameSign(nums[0], nums[n]) then Uniform(nums) else 0;
  }

  /** Taking the larger of the maximum so far and the best partner of the next number. */
  lemma MaximumExtends(nums: seq<int>, n: nat, m: int, best: int)
    requires n < |nums| && IsMaximum(nums[..n], m) && m >= 0
    requires exists i :: 0 <= i <= n && best == Xor(nums[i], nums[n])
    requires forall i :: 0 <= i <= n ==> Xor(nums[i], nums[n]) <= best
    ensures IsMaximum(nums[..n + 1], if m < best then best else m)
  {
    hide Xor;
    var longer, shorter := nums[..n + 1], nums[..n];
    forall i, j | 0 <= i <= j < n + 1 ensures Xor(longer[i], longer[j]) <= if m < best then best else m {
      assert j < n ==> Xor(shorter[i], shorter[j]) <= m;
    }
    if m >= best && n > 0 {
      var i, j :| 0 <= i <= j < n && Xor(shorter[i], shorter[j]) == m;
      assert Xor(longer[i], longer[j]) == m;
    } else {
      SelfXor(nums[n]);
      assert Xor(nums[n], nums[n]) <= best;
      var i :| 0 <= i <= n && best == Xor(nums[i], nums[n]);
      assert longer[n] == nums[n] && longer[i] == nums[i];
    }
  }

  lemma {:induction false} SelfXor(a: int)
    ensures Xor(a, a) == 0
    decreases if a < 0 then -a else a
  {
    if !(-1 <= a <= 0) {
      SelfXor(a / 2);
    }
  }

  /** Some pair before the first change of sign has an exclusive-or that is at least that of `i` and `j`. */
  ghost predicate Matched(nums: seq<int>, i: int, j: int)
    requires 0 <= i < |nums| && 0 <= j < |nums|
  {
    exists a, b :: 0 <= a <= b < Uniform(nums) && Xor(nums[i], nums[j]) <= Xor(nums[a], nums[b])
  }

  /** Every later pair of one sign is matched by one before the first change of sign. */
  ghost predicate NoneMissed(nums: seq<int>) {
    forall i, j :: 0 <= i <= j < |nums| && Uniform(nums) <= j && SameSign(nums[i], nums[j]) ==> Matched(nums, i, j)
  }

  /** The maximum before the first change of sign is the maximum of all exactly if no later pair is missed. */
  lemma MaximumOfAll(nums: seq<int>, m: int)
    requires m >= 0 && IsMaximum(nums[..Uniform(nums)], m)
    ensures IsMaximum(nums, m) <==> NoneMissed(nums)
    ensures Uniform(nums) == |nums| ==> NoneMissed(nums)
  {
    hide Xor, Uniform, Matched;
    if IsMaximum(nums, m) {
      forall i, j | 0 <= i <= j < |nums| ensures Matched(nums, i, j) {
        MatchedByMaximum(nums, m, i, j);
      }
    }
    if NoneMissed(nums) {
      forall i, j | 0 <= i <= j < |nums| ensures Xor(nums[i], nums[j]) <= m {
        PairBounded(nums, m, i, j);
      }
      if nums != [] {
        var a, b := Attained(nums, m);
      }
    }
  }

  lemma PairBounded(nums: seq<int>, m: int, i: int, j: int)
    requires m >= 0 && IsMaximum(nums[..Uniform(nums)], m) && NoneMissed(nums) && 0 <= i <= j < |nums|
    ensures Xor(nums[i], nums[j]) <= m
  {
    hide Xor, Uniform, Matched;
    MatchedByMaximum(nums, m, i, j);
    XorFacts(nums[i], nums[j]);
    if j < Uniform(nums) {
      assert Xor(nums[..Uniform(nums)][i], nums[..Uniform(nums)][j]) <= m;
    }
  }

  lemma Attained(nums: seq<int>, m: int) returns (a: int, b: int)
    requires nums != [] && IsMaximum(nums[..Uniform(nums)], m)
    ensures 0 <= a <= b < Uniform(nums) && Xor(nums[a], nums[b]) == m
  {
    hide Xor, Uniform;
    var first := nums[..Uniform(nums)];
    a, b :| 0 <= a <= b < |first| && Xor(first[a], first[b]) == m;
  }

  lemma MatchedByMaximum(nums: seq<int>, m: int, i: int, j: int)
    requires IsMaximum(nums[..Uniform(nums)], m) && 0 <= i < |nums| && 0 <= j < |nums|
    ensures Matched(nums, i, j) <==> Xor(nums[i], nums[j]) <= m
  {
    hide Xor, Uniform;
    var first := nums[..Uniform(nums)];
    if Matched(nums, i, j) {
      var a, b :| 0 <= a <= b < Uniform(nums) && Xor(nums[i], nums[j]) <= Xor(nums[a], nums[b]);
      assert Xor(first[a], first[b]) <= m;
    }
    var a, b := Attained(nums, m);
  }

  function Min(a: nat, b: nat): nat {
    if a < b then a else b
  }

  /**
   The largest exclusive-or of two of the numbers before the first change of sign: after it, the
   trie always leads to a partner of the other sign, and such results are negative. This is the
   largest of all exactly if no later pair is missed, in particular for ints of one sign.
   */
  method FindMaximumXor(nums: seq<int>) returns (maxResult: int)
    requires forall i :: 0 <= i < |nums| ==> -0x8000_0000 <= nums[i] <= 0x7fff_ffff
    ensures maxResult >= 0 && IsMaximum(nums[..Uniform(nums)], maxResult)
    ensures IsMaximum(nums, maxResult) <==> NoneMissed(nums)
  {
    hide Best, Xor, Bits, IsMaximum, Trie.Valid, Fits, NoneMissed, Uniform;
    Widths(nums);
    NoMaximumYet(nums);
    var trie := new Trie();
    maxResult := 0;
    for n := 0 to |nums|
      invariant trie.Valid() && trie.keys == KeysOf(nums, n)
      invariant fresh(trie) && fresh(trie.at.Values)
      invariant maxResult >= 0 && IsMaximum(nums[..Min(n, Uniform(nums))], maxResult)
    {
      var best := trie.InsertAndGetMaxXor(nums[n]);
      assert trie.keys == KeysOf(nums, n + 1);
      BestAmongFirst(nums, n);
      if n < Uniform(nums) {
        MaximumExtends(nums, n, maxResult, best);
      }
      if maxResult < best {
        maxResult := best;
      }
    }
    MaximumOfAll(nums, maxResult);
  }

  /** Ints have 32 bits. */
  lemma Widths(nums: seq<int>)
    ensures Ints(nums) <==> forall i :: 0 <= i < |nums| ==> -0x8000_0000 <= nums[i] <= 0x7fff_ffff
  {
    assert Pow2(8) == 0x100;
    assert Pow2(16) == 0x1_0000;
    assert Pow2(24) == 0x100_0000;
    assert Pow2(31) == 0x8000_0000;
  }

  lemma NoMaximumYet(nums: seq<int>)
    ensures IsMaximum(nums[..0], 0)
  {
  }

  /** With signs mixed it can miss the maximum: -1, 0, 1 gives 0, but the exclusive-or of 0 and 1 is 1. */
  method MixedSigns() returns (maxResult: int)
    ensures maxResult == 0 && Xor(0, 1) == 1 && !IsMaximum([-1, 0, 1], maxResult)
  {
    var nums := [-1, 0, 1];
    maxResult := FindMaximumXor(nums);
    OneBeforeChange(maxResult);
  }

  lemma OneBeforeChange(m: int)
    requires IsMaximum([-1, 0, 1][..Uniform([-1, 0, 1])], m)
    ensures m == 0 && Xor(0, 1) == 1 && !IsMaximum([-1, 0, 1], m)
  {
    var nums := [-1, 0, 1];
    assert !SameSign(nums[0], nums[1]);
    assert Uniform(nums) == 1;
    assert nums[..1] == [-1];
    assert Xor([-1][0], [-1][0]) == 0;
    assert Xor(0, 1) == 2 * Xor(0, 0) + 1;
    assert Xor(nums[1], nums[2]) == 1;
  }
}
