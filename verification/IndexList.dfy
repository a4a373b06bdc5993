/**
 Doubly linked lists threaded through the `prev`/`next` indices of a node array,
 with -1 as the null link. Both LRU caches keep their recency order this way.
 */
module IndexList {
  import opened LinearProbing

  const NIL := -1

  ghost predicate Distinct(s: seq<int>) {
    forall a, b :: 0 <= a < b < |s| ==> s[a] != s[b]
  }

  ghost predicate InRange(s: seq<int>, n: nat) {
    forall a :: 0 <= a < |s| ==> 0 <= s[a] < n
  }

  function At(s: seq<int>, k: int): int {
    if 0 <= k < |s| then s[k] else NIL
  }

  ghost predicate LinkedAt<V>(nodes: seq<Node<V>>, order: seq<int>, k: nat) {
    && k < |order| && 0 <= order[k] < |nodes|
    && nodes[order[k]].prev == At(order, k - 1) && nodes[order[k]].next == At(order, k + 1)
  }

  /** `order` lists the nodes from `head` to `tail`, and `prev` mirrors `next`. */
  ghost predicate Linked<V>(nodes: seq<Node<V>>, head: int, tail: int, order: seq<int>) {
    && InRange(order, |nodes|)
    && Distinct(order)
    && head == At(order, 0)
    && tail == At(order, |order| - 1)
    && forall k :: 0 <= k < |order| ==> LinkedAt(nodes, order, k)
  }

  /** Same key, payload and validity everywhere; only links may differ. */
  ghost predicate SameContents<V>(a: seq<Node<V>>, b: seq<Node<V>>) {
    |a| == |b| && forall i :: 0 <= i < |a| ==>
      a[i].key == b[i].key && a[i].value == b[i].value && a[i].valid == b[i].valid
  }

  /** `order` without its `k`-th element. */
  function Drop(order: seq<int>, k: nat): seq<int>
    requires k < |order|
  {
    order[..k] + order[k + 1..]
  }

  // ---------------------------------------------------------------- link surgery

  /** The stores that take node `idx` out of its list (its own links are kept). */
  function Bypass<V>(nodes: seq<Node<V>>, idx: int): seq<Node<V>>
    requires 0 <= idx < |nodes|
  {
    var p, n := nodes[idx].prev, nodes[idx].next;
    var a := if 0 <= p < |nodes| then nodes[p := nodes[p].(next := n)] else nodes;
    if 0 <= n < |nodes| then a[n := a[n].(prev := p)] else a
  }

  /** What `Bypass` does to one node. */
  lemma BypassAt<V>(nodes: seq<Node<V>>, head: int, tail: int, order: seq<int>, k: nat, i: int)
    requires Linked(nodes, head, tail, order) && k < |order| && 0 <= i < |nodes|
    ensures var b, p, n := Bypass(nodes, order[k]), At(order, k - 1), At(order, k + 1);
            && |b| == |nodes|
            && b[i] == nodes[i].(next := if i == p then n else nodes[i].next,
                                 prev := if i == n then p else nodes[i].prev)
  {
    assert LinkedAt(nodes, order, k);
  }

  lemma DropDistinct(order: seq<int>, k: nat, n: nat)
    requires Distinct(order) && InRange(order, n) && k < |order|
    ensures Distinct(Drop(order, k)) && InRange(Drop(order, k), n)
    ensures order[k] !in Drop(order, k)
    ensures forall i :: i in order <==> i == order[k] || i in Drop(order, k)
  {
    assert order == order[..k] + [order[k]] + order[k + 1..];
  }

  /** The links of a node that stays, once `order[k]` is bypassed. */
  lemma BypassRelinks<V>(nodes: seq<Node<V>>, head: int, tail: int, order: seq<int>, k: nat, at: nat)
    requires Linked(nodes, head, tail, order) && k < |order| && at < |order| && at != k
    ensures |Bypass(nodes, order[k])| == |nodes|
    ensures var x := Bypass(nodes, order[k])[order[at]];
            && x.prev == (if at == k + 1 then At(order, k - 1) else At(order, at - 1))
            && x.next == (if at + 1 == k then At(order, k + 1) else At(order, at + 1))
  {
    hide Bypass;
    BypassAt(nodes, head, tail, order, k, order[at]);
    assert LinkedAt(nodes, order, at);
  }

  lemma DropAt(order: seq<int>, k: nat, j: int)
    requires k < |order|
    ensures At(Drop(order, k), j) == At(order, if j < k then j else j + 1)
  {
  }

  lemma BypassLinksAt<V>(nodes: seq<Node<V>>, head: int, tail: int, order: seq<int>, k: nat, j: nat)
    requires Linked(nodes, head, tail, order) && k < |order| && j < |order| - 1
    ensures LinkedAt(Bypass(nodes, order[k]), Drop(order, k), j)
  {
    hide Bypass, Drop, Distinct;
    var at := if j < k then j else j + 1;
    BypassRelinks(nodes, head, tail, order, k, at);
    DropAt(order, k, j - 1);
    DropAt(order, k, j);
    DropAt(order, k, j + 1);
    DropLength(order, k);
  }

  lemma DropLength(order: seq<int>, k: nat)
    requires k < |order|
    ensures |Drop(order, k)| == |order| - 1
  {
  }

  lemma BypassFrame<V>(nodes: seq<Node<V>>, head: int, tail: int, order: seq<int>, k: nat)
    requires Linked(nodes, head, tail, order) && k < |order|
    ensures SameContents(Bypass(nodes, order[k]), nodes)
    ensures Bypass(nodes, order[k])[order[k]] == nodes[order[k]]
    ensures forall i :: 0 <= i < |nodes| && i !in order ==> Bypass(nodes, order[k])[i] == nodes[i]
  {
    hide Bypass;
    BypassAt(nodes, head, tail, order, k, order[k]);
    forall i | 0 <= i < |nodes|
      ensures Bypass(nodes, order[k])[i].(next := nodes[i].next, prev := nodes[i].prev) == nodes[i]
      ensures i !in order ==> Bypass(nodes, order[k])[i] == nodes[i]
    {
      BypassAt(nodes, head, tail, order, k, i);
    }
  }

  lemma BypassUnlinks<V>(nodes: seq<Node<V>>, head: int, tail: int, order: seq<int>, k: nat)
    requires Linked(nodes, head, tail, order) && k < |order|
    ensures var idx := order[k];
            Linked(Bypass(nodes, idx), if k == 0 then nodes[idx].next else head,
                   if k == |order| - 1 then nodes[idx].prev else tail, Drop(order, k))
  {
    hide Bypass, Drop, Distinct;
    DropDistinct(order, k, |nodes|);
    DropLength(order, k);
    BypassAt(nodes, head, tail, order, k, order[k]);
    assert LinkedAt(nodes, order, k);
    forall j | 0 <= j < |order| - 1 ensures LinkedAt(Bypass(nodes, order[k]), Drop(order, k), j) {
      BypassLinksAt(nodes, head, tail, order, k, j);
    }
    DropAt(order, k, 0);
    DropAt(order, k, |order| - 2);
  }

  /** The stores that put node `idx` in front of `head`. */
  function Prepend<V>(nodes: seq<Node<V>>, head: int, idx: int): seq<Node<V>>
    requires 0 <= idx < |nodes| && (head == NIL || 0 <= head < |nodes|)
  {
    var a := nodes[idx := nodes[idx].(prev := NIL, next := head)];
    if head != NIL then a[head := a[head].(prev := idx)] else a
  }

  lemma PrependLinks<V>(nodes: seq<Node<V>>, head: int, tail: int, order: seq<int>, idx: int)
    requires Linked(nodes, head, tail, order) && 0 <= idx < |nodes| && idx !in order
    ensures Linked(Prepend(nodes, head, idx), idx, if tail == NIL then idx else tail, [idx] + order)
    ensures SameContents(Prepend(nodes, head, idx), nodes)
    ensures forall i :: 0 <= i < |nodes| && i !in order && i != idx ==> Prepend(nodes, head, idx)[i] == nodes[i]
  {
    var b, longer := Prepend(nodes, head, idx), [idx] + order;
    forall j | 0 <= j < |longer|
      ensures LinkedAt(b, longer, j)
    {
      assert j > 0 ==> longer[j] == order[j - 1] && LinkedAt(nodes, order, j - 1);
    }
  }

  /** Only the links of the list's own nodes matter. */
  lemma FrameLinked<V>(nodes: seq<Node<V>>, nodes': seq<Node<V>>, head: int, tail: int, order: seq<int>)
    requires Linked(nodes, head, tail, order) && |nodes'| == |nodes|
    requires forall k :: 0 <= k < |order| ==>
               nodes'[order[k]].prev == nodes[order[k]].prev && nodes'[order[k]].next == nodes[order[k]].next
    ensures Linked(nodes', head, tail, order)
  {
    hide Distinct;
    forall k | 0 <= k < |order| ensures LinkedAt(nodes', order, k) {
      assert LinkedAt(nodes, order, k);
    }
  }

  // ---------------------------------------------------------------- the operations

  /** Unlinks `order[k]`; its own links are left for the caller to reset. */
  method Unlink<V>(nodes: array<Node<V>>, head: int, tail: int, idx: int, ghost order: seq<int>, ghost k: nat)
      returns (head': int, tail': int)
    requires Linked(nodes[..], head, tail, order) && k < |order| && order[k] == idx
    modifies nodes
    ensures Linked(nodes[..], head', tail', Drop(order, k))
    ensures SameContents(nodes[..], old(nodes[..]))
    ensures nodes[idx] == old(nodes[idx])
    ensures forall i :: 0 <= i < nodes.Length && i !in order ==> nodes[i] == old(nodes[i])
  {
    ghost var before := nodes[..];
    BypassUnlinks(before, head, tail, order, k);
    BypassFrame(before, head, tail, order, k);
    assert LinkedAt(before, order, k);
    var p, n := nodes[idx].prev, nodes[idx].next;
    if p != NIL {
      nodes[p] := nodes[p].(next := n);
    }
    if n != NIL {
      nodes[n] := nodes[n].(prev := p);
    }
    assert nodes[..] == Bypass(before, idx);
    head' := if idx == head then n else head;
    tail' := if idx == tail then p else tail;
  }

  /** Links a node that is in no list as the new head. */
  method PushFront<V>(nodes: array<Node<V>>, head: int, tail: int, idx: int, ghost order: seq<int>)
      returns (head': int, tail': int)
    requires Linked(nodes[..], head, tail, order) && 0 <= idx < nodes.Length && idx !in order
    modifies nodes
    ensures Linked(nodes[..], head', tail', [idx] + order)
    ensures SameContents(nodes[..], old(nodes[..]))
    ensures forall i :: 0 <= i < nodes.Length && i !in order && i != idx ==> nodes[i] == old(nodes[i])
  {
    ghost var before := nodes[..];
    PrependLinks(before, head, tail, order, idx);
    nodes[idx] := nodes[idx].(prev := NIL, next := head);
    if head != NIL {
      nodes[head] := nodes[head].(prev := idx);
    }
    assert nodes[..] == Prepend(before, head, idx);
    head' := idx;
    tail' := if tail == NIL then idx else tail;
  }

  /** Moves `order[k]` to the front and keeps the relative order of all other nodes. */
  method MoveToHead<V>(nodes: array<Node<V>>, head: int, tail: int, idx: int, ghost order: seq<int>, ghost k: nat)
      returns (head': int, tail': int)
    requires Linked(nodes[..], head, tail, order) && k < |order| && order[k] == idx
    modifies nodes
    ensures Linked(nodes[..], head', tail', [idx] + Drop(order, k))
    ensures SameContents(nodes[..], old(nodes[..]))
    ensures forall i :: 0 <= i < nodes.Length && i !in order ==> nodes[i] == old(nodes[i])
  {
    hide LinkedAt;
    if idx == head {
      assert [idx] + Drop(order, k) == order;
      return head, tail;
    }
    head', tail' := Unlink(nodes, head, tail, idx, order, k);
    head', tail' := PushFront(nodes, head', tail', idx, Drop(order, k));
  }
}
