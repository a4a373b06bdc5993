/**
 Cloning a linked list with random pointers: in place, by weaving the copies between the
 originals and separating the two again, and with a map from originals to copies.
 */
module CloneList {

  class Node {
    var data: int
    var next: Node?
    var random: Node?

    constructor (x: int)
      ensures data == x && next == null && random == null
    {
      data := x;
      next := null;
      random := null;
    }
  }

  // ---------------------------------------------------------------- shapes

  ghost predicate Distinct(s: seq<Node>) {
    forall i, j :: 0 <= i < j < |s| ==> s[i] != s[j]
  }

  ghost predicate Disjoint(a: seq<Node>, b: seq<Node>) {
    forall i, j :: 0 <= i < |a| && 0 <= j < |b| ==> a[i] != b[j]
  }

  function At(s: seq<Node>, k: int): Node? {
    if 0 <= k < |s| then s[k] else null
  }

  lemma AtIs(s: seq<Node>, k: int)
    ensures 0 <= k < |s| ==> At(s, k) == s[k]
    ensures !(0 <= k < |s|) ==> At(s, k) == null
  {
  }

  /** `nodes` are the nodes of the acyclic list that starts at `head`. */
  ghost predicate IsList(head: Node?, nodes: seq<Node>)
    reads nodes
  {
    && Distinct(nodes)
    && head == At(nodes, 0)
    && forall i :: 0 <= i < |nodes| ==> nodes[i].next == At(nodes, i + 1)
  }

  /** All random pointers stay in the list: `rnd[i]` is the position that node `i` points to, or -1 for null. */
  ghost predicate Randoms(nodes: seq<Node>, rnd: seq<int>)
    reads nodes
  {
    && |rnd| == |nodes|
    && forall i :: 0 <= i < |nodes| ==> -1 <= rnd[i] < |nodes| && nodes[i].random == At(nodes, rnd[i])
  }

  /** Random pointers lead to nodes of the list, or nowhere. */
  ghost predicate Inside(nodes: seq<Node>)
    reads nodes
  {
    forall i :: 0 <= i < |nodes| ==> nodes[i].random == null || nodes[i].random in nodes
  }

  /** Random pointers of the copies are null for the nodes that have none, and otherwise lead to copies. */
  ghost predicate SelfContained(nodes: seq<Node>, copies: seq<Node>)
    reads nodes, copies
  {
    && |copies| == |nodes|
    && forall i :: 0 <= i < |nodes| ==>
         (copies[i].random == null <==> nodes[i].random == null) && (copies[i].random == null || copies[i].random in copies)
  }

  /** `rnd[i]` is the position that the random pointer of node `i` points to, or -1 if it is null or leaves the list. */
  ghost predicate Positions(nodes: seq<Node>, rnd: seq<int>)
    reads nodes
  {
    && |rnd| == |nodes|
    && forall i :: 0 <= i < |nodes| ==>
         if rnd[i] == -1 then nodes[i].random == null || nodes[i].random !in nodes
         else 0 <= rnd[i] < |nodes| && nodes[i].random == nodes[rnd[i]]
  }

  lemma PositionsExist(nodes: seq<Node>) returns (rnd: seq<int>)
    ensures Positions(nodes, rnd)
    ensures Inside(nodes) <==> Randoms(nodes, rnd)
  {
    rnd := [];
    while |rnd| < |nodes|
      invariant |rnd| <= |nodes|
      invariant forall i :: 0 <= i < |rnd| ==>
                  if rnd[i] == -1 then nodes[i].random == null || nodes[i].random !in nodes
                  else 0 <= rnd[i] < |nodes| && nodes[i].random == nodes[rnd[i]]
    {
      var x := nodes[|rnd|].random;
      var r := -1;
      if x != null && x in nodes {
        r :| 0 <= r < |nodes| && nodes[r] == x;
      }
      rnd := rnd + [r];
    }
  }

  ghost predicate SameData(a: seq<Node>, b: seq<Node>)
    reads a, b
  {
    |a| == |b| && forall i :: 0 <= i < |a| ==> a[i].data == b[i].data
  }

  /** The two lists have the same data, and the same links between the same positions. */
  ghost predicate Isomorphic(head: Node?, nodes: seq<Node>, head': Node?, nodes': seq<Node>, rnd: seq<int>)
    reads nodes, nodes'
  {
    && IsList(head, nodes) && IsList(head', nodes')
    && Randoms(nodes, rnd) && Randoms(nodes', rnd)
    && SameData(nodes, nodes')
  }

  // ---------------------------------------------------------------- weaving

  /** The first `k` nodes are each followed by their copy; the rest are as in the original list. */
  ghost predicate Woven(nodes: seq<Node>, copies: seq<Node>, k: nat)
    reads nodes, copies
  {
    && k <= |copies| <= |nodes|
    && (forall i :: 0 <= i < k ==> nodes[i].next == copies[i])
    && (forall i :: 0 <= i < k ==> copies[i].next == At(nodes, i + 1))
    && (forall i :: k <= i < |nodes| ==> nodes[i].next == At(nodes, i + 1))
  }

  /** Pass 1: put a copy behind every node. */
  method Weave(head: Node, ghost nodes: seq<Node>) returns (ghost copies: seq<Node>)
    requires IsList(head, nodes)
    modifies nodes
    ensures |copies| == |nodes| && fresh(copies) && Distinct(copies) && Disjoint(nodes, copies)
    ensures Woven(nodes, copies, |nodes|) && head.next == At(copies, 0)
    ensures SameData(nodes, copies)
    ensures forall i :: 0 <= i < |copies| ==> copies[i].random == null
    ensures forall i :: 0 <= i < |nodes| ==> nodes[i].data == old(nodes[i].data) && nodes[i].random == old(nodes[i].random)
  {
    hide At, Woven;
    copies := [];
    var curr: Node? := head;
    NothingWoven(head, nodes);
    while curr != null
      invariant |copies| <= |nodes| && fresh(copies) && Distinct(copies) && Disjoint(nodes, copies)
      invariant curr == At(nodes, |copies|)
      invariant Woven(nodes, copies, |copies|)
      invariant forall i :: 0 <= i < |copies| ==> copies[i].random == null && copies[i].data == nodes[i].data
      invariant forall i :: 0 <= i < |nodes| ==> nodes[i].data == old(nodes[i].data) && nodes[i].random == old(nodes[i].random)
      decreases |nodes| - |copies|
    {
      AtIs(nodes, |copies|);
      var temp := PlaceCopy(curr, nodes, copies);
      curr := temp.next;
      copies := copies + [temp];
    }
    AtIs(nodes, |copies|);
    FirstCopy(head, nodes, copies);
  }

  lemma NothingWoven(head: Node?, nodes: seq<Node>)
    requires IsList(head, nodes)
    ensures Woven(nodes, [], 0)
  {
  }

  lemma FirstCopy(head: Node, nodes: seq<Node>, copies: seq<Node>)
    requires Woven(nodes, copies, |nodes|) && head == At(nodes, 0)
    ensures head.next == At(copies, 0)
  {
  }

  /** Puts a copy of `curr` behind it. */
  method PlaceCopy(curr: Node, ghost nodes: seq<Node>, ghost copies: seq<Node>) returns (temp: Node)
    requires |copies| < |nodes| && curr == nodes[|copies|] && Distinct(nodes) && Disjoint(nodes, copies)
    requires Woven(nodes, copies, |copies|)
    modifies curr`next
    ensures fresh(temp) && Woven(nodes, copies + [temp], |copies| + 1)
    ensures temp.data == curr.data && temp.random == null && temp.next == At(nodes, |copies| + 1)
  {
    hide At;
    temp := new Node(curr.data);
    temp.next := curr.next;
    curr.next := temp;
  }

  /** Where the random pointer of a copy leads: the copy of the target, or `beyond` if that is not in the list. */
  ghost function Target(copies: seq<Node>, r: int, beyond: Node?): Node? {
    if 0 <= r < |copies| then copies[r] else beyond
  }

  method SetRandom(copy: Node, target: Node?, ghost nodes: seq<Node>, ghost copies: seq<Node>)
    requires Woven(nodes, copies, |nodes|) && SameData(nodes, copies)
    modifies copy`random
    ensures copy.random == target && Woven(nodes, copies, |nodes|) && SameData(nodes, copies)
  {
    hide At;
    copy.random := target;
  }

  /** Pass 2: the copy of a random pointer's target is the target's successor. */
  method LinkRandoms(head: Node, ghost nodes: seq<Node>, ghost copies: seq<Node>, ghost rnd: seq<int>, ghost beyond: seq<Node?>)
    requires |copies| == |nodes| == |beyond| && head == At(nodes, 0)
    requires Distinct(copies) && Woven(nodes, copies, |nodes|) && Positions(nodes, rnd) && SameData(nodes, copies)
    requires forall i :: 0 <= i < |copies| ==> copies[i].random == null
    requires forall i :: 0 <= i < |nodes| && rnd[i] == -1 ==>
               beyond[i] == if nodes[i].random == null then null else nodes[i].random.next
    requires Disjoint(nodes, copies)
    modifies copies`random
    ensures Woven(nodes, copies, |nodes|) && Positions(nodes, rnd) && SameData(nodes, copies)
    ensures forall i :: 0 <= i < |copies| ==> copies[i].random == Target(copies, rnd[i], beyond[i])
  {
    hide At, Woven, SameData;
    var curr: Node? := head;
    ghost var k := 0;
    while curr != null
      invariant 0 <= k <= |nodes| && curr == At(nodes, k)
      invariant Woven(nodes, copies, |nodes|) && SameData(nodes, copies)
      invariant forall i :: 0 <= i < |nodes| ==> nodes[i].random == old(nodes[i].random)
      invariant forall i :: 0 <= i < k ==> copies[i].random == Target(copies, rnd[i], beyond[i])
      invariant forall i :: k <= i < |copies| ==> copies[i].random == null
      decreases |nodes| - k
    {
      AtIs(nodes, k);
      WovenAt(nodes, copies, k);
      if rnd[k] >= 0 {
        WovenAt(nodes, copies, rnd[k]);
      }
      if curr.random != null {
        SetRandom(curr.next, curr.random.next, nodes, copies);
      }
      curr := curr.next.next;
      k := k + 1;
    }
    AtIs(nodes, k);
  }

  lemma WovenAt(nodes: seq<Node>, copies: seq<Node>, k: nat)
    requires Woven(nodes, copies, |nodes|) && k < |nodes|
    ensures k < |copies| && nodes[k].next == copies[k] && copies[k].next == At(nodes, k + 1)
  {
  }

  /** The first `k` nodes and copies are linked among themselves again; the rest are still woven. */
  ghost predicate Unwoven(nodes: seq<Node>, copies: seq<Node>, k: nat)
    reads nodes, copies
  {
    && |copies| == |nodes| && k <= |nodes|
    && (forall i :: 0 <= i < k ==> nodes[i].next == At(nodes, i + 1) && copies[i].next == At(copies, i + 1))
    && (forall i :: k <= i < |nodes| ==> nodes[i].next == copies[i] && copies[i].next == At(nodes, i + 1))
  }

  /** Separates one node and its copy. */
  method Separate(original: Node, copy: Node, ghost nodes: seq<Node>, ghost copies: seq<Node>, ghost k: nat)
    requires Distinct(nodes) && Distinct(copies) && Disjoint(nodes, copies)
    requires Unwoven(nodes, copies, k) && k < |nodes| && original == nodes[k] && copy == copies[k]
    modifies original`next, copy`next
    ensures Unwoven(nodes, copies, k + 1)
    ensures original.next == At(nodes, k + 1) && copy.next == At(copies, k + 1)
  {
    hide At;
    AtIs(nodes, k + 1);
    AtIs(copies, k + 1);
    // The original's test of `original.next` for null always succeeds here.
    original.next := original.next.next;
    copy.next := if copy.next != null then copy.next.next else copy.next;
  }

  /** Pass 3: separate the two lists again. */
  method Unweave(head: Node, ghost nodes: seq<Node>, ghost copies: seq<Node>, ghost rnd: seq<int>) returns (temp: Node?)
    requires |copies| == |nodes| && head == At(nodes, 0)
    requires Distinct(nodes) && Distinct(copies) && Disjoint(nodes, copies)
    requires Woven(nodes, copies, |nodes|) && SameData(nodes, copies) && Positions(nodes, rnd)
    modifies nodes`next, copies`next
    ensures IsList(head, nodes) && IsList(temp, copies) && SameData(nodes, copies) && Positions(nodes, rnd)
  {
    hide At, Unwoven, Distinct, Disjoint;
    AtIs(nodes, 0);
    AtIs(copies, 0);
    var original: Node?, copy: Node? := head, head.next;
    temp := copy;
    ghost var k := 0;
    AllWoven(nodes, copies);
    while original != null && copy != null
      invariant 0 <= k <= |nodes| && original == At(nodes, k) && copy == At(copies, k)
      invariant Unwoven(nodes, copies, k)
      decreases |nodes| - k
    {
      AtIs(nodes, k);
      AtIs(copies, k);
      Separate(original, copy, nodes, copies, k);
      original := original.next;
      copy := copy.next;
      k := k + 1;
    }
    AtIs(nodes, k);
    AtIs(copies, k);
    NothingWovenLeft(head, nodes, temp, copies);
  }

  lemma AllWoven(nodes: seq<Node>, copies: seq<Node>)
    requires |copies| == |nodes| && Woven(nodes, copies, |nodes|)
    ensures Unwoven(nodes, copies, 0)
  {
  }

  lemma NothingWovenLeft(head: Node?, nodes: seq<Node>, head': Node?, copies: seq<Node>)
    requires Unwoven(nodes, copies, |nodes|) && Distinct(nodes) && Distinct(copies)
    requires head == At(nodes, 0) && head' == At(copies, 0)
    ensures IsList(head, nodes) && IsList(head', copies)
  {
  }

  /**
   The in-place clone: the original list comes back exactly as it was, and the result is a new
   list with the same data and the same links between positions. A random pointer that leaves the
   list becomes one to the successor of its target, so that the copy is a clone of its own exactly
   if all random pointers stay inside. Then the two lists are isomorphic.
   */
  method CloneLinkedList2(head: Node?, ghost nodes: seq<Node>)
      returns (copy: Node?, ghost copies: seq<Node>, ghost rnd: seq<int>)
    requires IsList(head, nodes)
    modifies nodes
    ensures forall i :: 0 <= i < |nodes| ==>
              nodes[i].next == old(nodes[i].next) && nodes[i].random == old(nodes[i].random) && nodes[i].data == old(nodes[i].data)
    ensures fresh(copies) && IsList(copy, copies) && SameData(nodes, copies) && Positions(nodes, rnd)
    ensures forall i :: 0 <= i < |copies| ==>
              copies[i].random == if rnd[i] >= 0 then copies[rnd[i]]
                                  else if nodes[i].random == null then null else old(nodes[i].random.next)
    ensures SelfContained(nodes, copies) <==> Inside(nodes)
    ensures Isomorphic(head, nodes, copy, copies, rnd) <==> Inside(nodes)
  {
    hide At, Distinct, Disjoint, Woven, SameData, Randoms, Inside, SelfContained;
    rnd := PositionsExist(nodes);
    AtIs(nodes, 0);
    if head == null {
      EmptyClone(nodes, rnd);
      return null, [], rnd;
    }
    ghost var beyond := Beyond(nodes);
    copies := Weave(head, nodes);
    LinkRandoms(head, nodes, copies, rnd, beyond);
    copy := Unweave(head, nodes, copies, rnd);
    SameRandoms(nodes, copies, rnd, beyond);
    ContainedExactly(nodes, copies, rnd, beyond);
  }

  /** Where pointers that leave the list lead in the copy decides nothing: it is never another copy. */
  lemma ContainedExactly(nodes: seq<Node>, copies: seq<Node>, rnd: seq<int>, beyond: seq<Node?>)
    requires Positions(nodes, rnd) && |copies| == |nodes| == |beyond|
    requires forall i :: 0 <= i < |copies| ==> copies[i].random == Target(copies, rnd[i], beyond[i])
    requires forall i :: 0 <= i < |copies| ==> beyond[i] == null || beyond[i] !in copies
    requires forall i :: 0 <= i < |copies| && nodes[i].random == null ==> beyond[i] == null
    ensures SelfContained(nodes, copies) <==> Inside(nodes)
  {
    if Inside(nodes) {
      forall i | 0 <= i < |nodes|
        ensures (copies[i].random == null <==> nodes[i].random == null) && (copies[i].random == null || copies[i].random in copies)
      {
      }
    } else {
      var i :| 0 <= i < |nodes| && nodes[i].random != null && nodes[i].random !in nodes;
      assert copies[i].random == beyond[i];
    }
  }

  /** The successors of the random pointers' targets. */
  ghost method Beyond(nodes: seq<Node>) returns (beyond: seq<Node?>)
    ensures |beyond| == |nodes|
    ensures forall i :: 0 <= i < |nodes| ==> beyond[i] == if nodes[i].random == null then null else nodes[i].random.next
  {
    beyond := [];
    while |beyond| < |nodes|
      invariant |beyond| <= |nodes|
      invariant forall i :: 0 <= i < |beyond| ==> beyond[i] == if nodes[i].random == null then null else nodes[i].random.next
    {
      var x := nodes[|beyond|].random;
      beyond := beyond + [if x == null then null else x.next];
    }
  }

  /** With no random pointer leaving the list, those of the copies are at the same positions. */
  lemma SameRandoms(nodes: seq<Node>, copies: seq<Node>, rnd: seq<int>, beyond: seq<Node?>)
    requires Positions(nodes, rnd) && |copies| == |nodes| == |beyond|
    requires forall i :: 0 <= i < |copies| ==> copies[i].random == Target(copies, rnd[i], beyond[i])
    requires forall i :: 0 <= i < |copies| && nodes[i].random == null ==> beyond[i] == null
    ensures Randoms(nodes, rnd) <==> Inside(nodes)
    ensures Inside(nodes) ==> Randoms(copies, rnd)
  {
  }

  lemma EmptyClone(nodes: seq<Node>, rnd: seq<int>)
    requires IsList(null, nodes) && Positions(nodes, rnd)
    ensures nodes == [] && Isomorphic(null, nodes, null, [], rnd) && SelfContained(nodes, [])
  {
    AtIs(nodes, 0);
  }

  // ---------------------------------------------------------------- the map version

  /** Indexing the map yields null for a key it does not have. */
  function Lookup(mp: map<Node, Node>, key: Node?): Node? {
    if key != null && key in mp then mp[key] else null
  }

  ghost predicate Maps(mp: map<Node, Node>, nodes: seq<Node>, copies: seq<Node>) {
    && |copies| <= |nodes|
    && (forall i :: 0 <= i < |copies| ==> nodes[i] in mp && mp[nodes[i]] == copies[i])
    && (forall n :: n in mp ==> exists i :: 0 <= i < |copies| && nodes[i] == n)
  }

  method CopyNodes(head: Node?, ghost nodes: seq<Node>) returns (mp: map<Node, Node>, ghost copies: seq<Node>)
    requires IsList(head, nodes)
    ensures |copies| == |nodes| && fresh(copies) && Distinct(copies) && Disjoint(nodes, copies)
    ensures Maps(mp, nodes, copies) && SameData(nodes, copies)
  {
    hide At;
    mp := map[];
    copies := [];
    var curr := head;
    while curr != null
      invariant |copies| <= |nodes| && curr == At(nodes, |copies|)
      invariant fresh(copies) && Distinct(copies) && Disjoint(nodes, copies) && Maps(mp, nodes, copies)
      invariant forall i :: 0 <= i < |copies| ==> copies[i].data == nodes[i].data
      decreases |nodes| - |copies|
    {
      AtIs(nodes, |copies|);
      var temp := new Node(curr.data);
      mp := mp[curr := temp];
      copies := copies + [temp];
      assert nodes[|copies| - 1] == curr;
      curr := curr.next;
    }
    AtIs(nodes, |copies|);
  }

  /** The first `k` copies are linked to each other. */
  ghost predicate Linked(copies: seq<Node>, rnd: seq<int>, k: nat)
    reads copies
  {
    && k <= |copies| == |rnd|
    && (forall i :: 0 <= i < k ==> copies[i].next == At(copies, i + 1))
    && (forall i :: 0 <= i < k ==> copies[i].random == At(copies, rnd[i]))
  }

  /** Links one copy. */
  method LinkCopy(newNode: Node, next: Node?, random: Node?, ghost copies: seq<Node>, ghost rnd: seq<int>, ghost k: nat)
    requires Distinct(copies) && Linked(copies, rnd, k) && k < |copies| && newNode == copies[k]
    requires next == At(copies, k + 1) && random == At(copies, rnd[k])
    modifies newNode`next, newNode`random
    ensures Linked(copies, rnd, k + 1)
  {
    hide At;
    newNode.next := next;
    newNode.random := random;
  }

  /**
   The clone by map: it does not touch the original, and its result has the same data and the same
   links between positions. A random pointer that leaves the list becomes null, so that the copy
   has one wherever the original has, and the two are isomorphic, exactly if all stay inside.
   */
  method CloneLinkedList(head: Node?, ghost nodes: seq<Node>)
      returns (copy: Node?, ghost copies: seq<Node>, ghost rnd: seq<int>)
    requires IsList(head, nodes)
    ensures IsList(head, nodes) && Positions(nodes, rnd)
    ensures fresh(copies) && IsList(copy, copies) && SameData(nodes, copies) && Randoms(copies, rnd)
    ensures SelfContained(nodes, copies) <==> Inside(nodes)
    ensures Isomorphic(head, nodes, copy, copies, rnd) <==> Inside(nodes)
  {
    hide At, Linked, Positions, Inside, Randoms, Maps, Lookup, Distinct, SelfContained;
    rnd := PositionsExist(nodes);
    var mp;
    mp, copies := CopyNodes(head, nodes);
    var curr := head;
    ghost var k := 0;
    NothingLinked(nodes, copies, rnd);
    while curr != null
      invariant 0 <= k <= |nodes| && curr == At(nodes, k)
      invariant forall i :: 0 <= i < |copies| ==> copies[i].data == nodes[i].data
      invariant Linked(copies, rnd, k)
      decreases |nodes| - k
    {
      AtIs(nodes, k);
      LookupIs(mp, nodes, copies, k);
      AtIs(copies, k);
      LookupIs(mp, nodes, copies, k + 1);
      RandomIs(mp, nodes, copies, rnd, k);
      InMap(mp, curr);
      var newNode := mp[curr];
      LinkCopy(newNode, Lookup(mp, curr.next), Lookup(mp, curr.random), copies, rnd, k);
      curr := curr.next;
      k := k + 1;
    }
    AtIs(nodes, k);
    LookupIs(mp, nodes, copies, 0);
    copy := Lookup(mp, head);
    AllLinked(nodes, copies, rnd);
    AllInside(nodes, rnd);
    NullsExactly(nodes, copies, rnd);
  }

  lemma NullsExactly(nodes: seq<Node>, copies: seq<Node>, rnd: seq<int>)
    requires Positions(nodes, rnd) && Randoms(copies, rnd) && |copies| == |nodes|
    ensures SelfContained(nodes, copies) <==> Inside(nodes)
  {
    var beyond := seq(|nodes|, _ => null);
    forall i | 0 <= i < |copies| ensures copies[i].random == Target(copies, rnd[i], beyond[i]) {
    }
    ContainedExactly(nodes, copies, rnd, beyond);
  }

  lemma NothingLinked(nodes: seq<Node>, copies: seq<Node>, rnd: seq<int>)
    requires Positions(nodes, rnd) && |copies| == |nodes|
    ensures Linked(copies, rnd, 0)
  {
  }

  lemma AllLinked(nodes: seq<Node>, copies: seq<Node>, rnd: seq<int>)
    requires Linked(copies, rnd, |copies|) && Distinct(copies) && Positions(nodes, rnd) && |copies| == |nodes|
    ensures IsList(At(copies, 0), copies) && Randoms(copies, rnd)
  {
  }

  lemma InMap(mp: map<Node, Node>, key: Node)
    requires Lookup(mp, key) != null
    ensures key in mp && mp[key] == Lookup(mp, key)
  {
  }

  lemma RandomIs(mp: map<Node, Node>, nodes: seq<Node>, copies: seq<Node>, rnd: seq<int>, k: nat)
    requires Maps(mp, nodes, copies) && |copies| == |nodes| && Positions(nodes, rnd) && k < |nodes|
    ensures Lookup(mp, nodes[k].random) == At(copies, rnd[k])
  {
  }

  lemma AllInside(nodes: seq<Node>, rnd: seq<int>)
    requires Positions(nodes, rnd)
    ensures Inside(nodes) <==> Randoms(nodes, rnd)
  {
  }

  lemma LookupIs(mp: map<Node, Node>, nodes: seq<Node>, copies: seq<Node>, k: int)
    requires Maps(mp, nodes, copies) && |copies| == |nodes|
    ensures Lookup(mp, At(nodes, k)) == At(copies, k)
  {
  }

  /** A single node whose random pointer leads to a node elsewhere: its clone by map has none. */
  method LosesRandom() returns (node: Node, copy: Node?)
    ensures node.random != null && copy != null && copy.random == null
  {
    hide Isomorphic, Inside, SelfContained;
    var elsewhere := new Node(2);
    node := new Node(1);
    node.random := elsewhere;
    ghost var copies, rnd;
    copy, copies, rnd := CloneLinkedList(node, [node]);
    assert copies[0].random == At(copies, rnd[0]);
  }

  /** The in-place clone of that node has one that leads past the node elsewhere. */
  method RandomAstray() returns (node: Node, elsewhere: Node, copy: Node?)
    ensures node.random == elsewhere && elsewhere.next != null && copy != null && copy.random == elsewhere.next
  {
    hide Isomorphic, Inside, SelfContained;
    var last := new Node(3);
    elsewhere := new Node(2);
    elsewhere.next := last;
    node := new Node(1);
    node.random := elsewhere;
    ghost var copies, rnd;
    copy, copies, rnd := CloneLinkedList2(node, [node]);
    assert copies[0] == copy;
    assert elsewhere !in [node];
  }

  /** Both programs on a list whose random pointers stay inside: the two clones are isomorphic, and new. */
  method BothClones(head: Node?, ghost nodes: seq<Node>)
      returns (a: Node?, b: Node?, ghost first: seq<Node>, ghost second: seq<Node>, ghost rnd: seq<int>)
    requires IsList(head, nodes) && Inside(nodes)
    modifies nodes
    ensures fresh(first) && fresh(second) && Isomorphic(a, first, b, second, rnd)
    ensures IsList(head, nodes) && Isomorphic(head, nodes, a, first, rnd)
  {
    hide SelfContained, Positions;
    ghost var rnd2;
    a, first, rnd := CloneLinkedList(head, nodes);
    b, second, rnd2 := CloneLinkedList2(head, nodes);
    PositionsUnique(nodes, rnd, rnd2);
    ClonesAgree(head, nodes, rnd, a, first, b, second);
  }

  lemma PositionsUnique(nodes: seq<Node>, rnd: seq<int>, rnd2: seq<int>)
    requires Distinct(nodes) && Positions(nodes, rnd) && Positions(nodes, rnd2)
    ensures rnd == rnd2
  {
    forall i | 0 <= i < |rnd| ensures rnd[i] == rnd2[i] {
      if rnd[i] != -1 && rnd2[i] != -1 {
        assert nodes[rnd[i]] == nodes[rnd2[i]];
      }
    }
  }

  /** Two clones of the same list are isomorphic to each other. */
  lemma ClonesAgree(head: Node?, nodes: seq<Node>, rnd: seq<int>, a: Node?, first: seq<Node>, b: Node?, second: seq<Node>)
    requires Isomorphic(head, nodes, a, first, rnd) && Isomorphic(head, nodes, b, second, rnd)
    ensures Isomorphic(a, first, b, second, rnd)
  {
  }
}
