/**
 What the two LRU caches have in common: how a node array, a recency order over it
 and a probe table together stand for a sequence of entries.
 */
module CacheState {
  import opened LinearProbing
  import opened IndexList
  import opened LruSpec

  /** The keys of the listed nodes. */
  ghost function KeyMap<V>(nodes: seq<Node<V>>, order: seq<int>): map<int, Key>
    requires InRange(order, |nodes|)
  {
    map i | i in order :: nodes[i].key
  }

  /** The table holds exactly the listed nodes, under their keys, and these are in use. */
  ghost predicate Indexed<V>(nodes: seq<Node<V>>, table: seq<int>, hash: Key -> nat, order: seq<int>)
    requires InRange(order, |nodes|)
  {
    Represents(table, hash, KeyMap(nodes, order)) && Keyed(nodes, KeyMap(nodes, order))
  }

  /** The entries that the listed nodes stand for, in order. */
  ghost function View<V, W>(nodes: seq<Node<V>>, order: seq<int>, f: V -> W): (s: seq<Entry<W>>)
    requires InRange(order, |nodes|)
    ensures |s| == |order|
    ensures forall j :: 0 <= j < |s| ==> s[j] == Entry(nodes[order[j]].key, f(nodes[order[j]].value))
  {
    seq(|order|, j requires 0 <= j < |order| => Entry(nodes[order[j]].key, f(nodes[order[j]].value)))
  }

  /** The list and the spare indices split the node indices between them. */
  ghost predicate Partition(order: seq<int>, spare: seq<int>, n: nat) {
    Distinct(order + spare) && InRange(order + spare, n) && |order| + |spare| == n
  }

  lemma PartitionParts(order: seq<int>, spare: seq<int>, n: nat)
    requires Partition(order, spare, n)
    ensures InRange(order, n) && InRange(spare, n) && Distinct(order)
    ensures forall i :: i in order ==> i !in spare
  {
    assert forall j :: 0 <= j < |order| ==> (order + spare)[j] == order[j];
    assert forall j :: 0 <= j < |spare| ==> (order + spare)[|order| + j] == spare[j];
  }

  /** Where the `j`-th element comes from when the element at `from` is moved to `to`. */
  function Origin(from: nat, to: nat, j: nat): (i: nat) {
    if j == to then from else if from <= j < to then j + 1 else if to < j <= from then j - 1 else j
  }

  lemma MovedDistinct(a: seq<int>, b: seq<int>, from: nat, to: nat, n: nat)
    requires |a| == |b| && from < |a| && to < |a| && Distinct(a) && InRange(a, n)
    requires forall j :: 0 <= j < |b| ==> b[j] == a[Origin(from, to, j)]
    ensures Distinct(b) && InRange(b, n)
  {
    forall i, j | 0 <= i < j < |b| ensures b[i] != b[j] {
      assert Origin(from, to, i) != Origin(from, to, j);
    }
  }

  /** The `k`-th listed node becomes the last spare one. */
  lemma PartitionDrop(order: seq<int>, spare: seq<int>, n: nat, k: nat)
    requires Partition(order, spare, n) && k < |order|
    ensures Partition(Drop(order, k), spare + [order[k]], n)
  {
    MovedDistinct(order + spare, Drop(order, k) + (spare + [order[k]]), k, n - 1, n);
  }

  /** The `k`-th listed node becomes the first listed one. */
  lemma PartitionFront(order: seq<int>, spare: seq<int>, n: nat, k: nat)
    requires Partition(order, spare, n) && k < |order|
    ensures Partition([order[k]] + Drop(order, k), spare, n)
  {
    MovedDistinct(order + spare, [order[k]] + Drop(order, k) + spare, k, 0, n);
  }

  /** The last spare node becomes the first listed one. */
  lemma PartitionPush(order: seq<int>, spare: seq<int>, n: nat, i: int)
    requires Partition(order, spare + [i], n)
    ensures Partition([i] + order, spare, n)
  {
    MovedDistinct(order + (spare + [i]), [i] + order + spare, n - 1, 0, n);
  }

  /** The first spare node becomes the last spare one. */
  lemma PartitionRotate(order: seq<int>, spare: seq<int>, n: nat)
    requires Partition(order, spare, n) && spare != []
    ensures Partition(order, spare[1..] + [spare[0]], n)
  {
    MovedDistinct(order + spare, order + (spare[1..] + [spare[0]]), |order|, n - 1, n);
  }

  // ---------------------------------------------------------------- the key map

  lemma {:induction false} SetOfDistinct(order: seq<int>)
    requires Distinct(order)
    ensures |set i | i in order| == |order|
  {
    if order != [] {
      var k := |order| - 1;
      SetOfDistinct(order[..k]);
      assert (set i | i in order) == (set i | i in order[..k]) + {order[k]};
    }
  }

  lemma KeyMapSize<V>(nodes: seq<Node<V>>, order: seq<int>)
    requires InRange(order, |nodes|) && Distinct(order)
    ensures |KeyMap(nodes, order)| == |order|
  {
    SetOfDistinct(order);
    assert KeyMap(nodes, order).Keys == set i | i in order;
  }

  /** Links do not matter to the table. */
  lemma IndexedFrame<V>(nodes: seq<Node<V>>, nodes': seq<Node<V>>, table: seq<int>, hash: Key -> nat,
                        order: seq<int>, order': seq<int>)
    requires InRange(order, |nodes|) && InRange(order', |nodes'|)
    requires Indexed(nodes, table, hash, order)
    requires forall i :: i in order <==> i in order'
    requires |nodes| == |nodes'|
    requires forall i :: i in order ==> nodes'[i].key == nodes[i].key && nodes'[i].valid == nodes[i].valid
    ensures Indexed(nodes', table, hash, order')
  {
    hide Represents;
    assert KeyMap(nodes', order') == KeyMap(nodes, order);
  }

  /** Removing the node of `order[k]` from the table. */
  lemma IndexedDrop<V>(nodes: seq<Node<V>>, nodes': seq<Node<V>>, table: seq<int>, table': seq<int>,
                       hash: Key -> nat, order: seq<int>, k: nat)
    requires InRange(order, |nodes|) && Distinct(order) && k < |order|
    requires Indexed(nodes, table, hash, order)
    requires Represents(table', hash, KeyMap(nodes, order) - {order[k]})
    requires |nodes| == |nodes'|
    requires forall i :: i in order && i != order[k] ==> nodes'[i].key == nodes[i].key && nodes'[i].valid == nodes[i].valid
    ensures InRange(Drop(order, k), |nodes|)
    ensures Indexed(nodes', table', hash, Drop(order, k))
  {
    hide Represents, Drop, Distinct;
    DropDistinct(order, k, |nodes|);
    assert KeyMap(nodes', Drop(order, k)) == KeyMap(nodes, order) - {order[k]};
  }

  /** Adding a node under a new key to the table. */
  lemma IndexedPush<V>(nodes: seq<Node<V>>, nodes': seq<Node<V>>, table: seq<int>, hash: Key -> nat,
                       order: seq<int>, idx: int, p: nat)
    requires InRange(order, |nodes|) && 0 <= idx < |nodes| && idx !in order
    requires Indexed(nodes, table, hash, order)
    requires |nodes| == |nodes'| && nodes'[idx].valid
    requires forall i :: i in order ==> nodes'[i].key == nodes[i].key && nodes'[i].valid
    requires nodes'[idx].key !in KeyMap(nodes, order).Values
    requires FirstEmpty(table, hash(nodes'[idx].key), p)
    ensures InRange([idx] + order, |nodes|)
    ensures Indexed(nodes', table[p := idx], hash, [idx] + order)
  {
    InsertRepresents(table, hash, KeyMap(nodes, order), nodes'[idx].key, idx, p);
    hide Represents;
    assert KeyMap(nodes', [idx] + order) == KeyMap(nodes, order)[idx := nodes'[idx].key];
  }

  /** What the table operations need to know about a listed node. */
  lemma ListedNode<V>(nodes: seq<Node<V>>, table: seq<int>, hash: Key -> nat, head: int, tail: int,
                      order: seq<int>, spare: seq<int>, k: nat)
    requires State(nodes, table, hash, head, tail, order, spare) && k < |order|
    ensures InRange(order, |nodes|) && |KeyMap(nodes, order)| < |table|
    ensures nodes[order[k]].valid
    ensures order[k] in KeyMap(nodes, order) && nodes[order[k]].key in KeyMap(nodes, order).Values
    ensures forall i :: i in KeyMap(nodes, order) && KeyMap(nodes, order)[i] == nodes[order[k]].key ==> i == order[k]
  {
    hide LinkedAt, Reachable, Covers, NoRepeat, Within;
    KeyMapSize(nodes, order);
    assert KeyMap(nodes, order)[order[k]] == nodes[order[k]].key;
    PartitionParts(order, spare, |nodes|);
  }

  // ---------------------------------------------------------------- the view

  /** The table's answer for a key is the position of that key in the view. */
  lemma FoundInView<V, W>(nodes: seq<Node<V>>, table: seq<int>, hash: Key -> nat, order: seq<int>, f: V -> W,
                          key: Key, r: int)
    requires InRange(order, |nodes|) && Distinct(order) && Indexed(nodes, table, hash, order)
    requires var m := KeyMap(nodes, order);
             if r == EMPTY then key !in m.Values else r in m && m[r] == key
    ensures DistinctEntries(View(nodes, order, f))
    ensures r == EMPTY ==> !Has(View(nodes, order, f), key)
    ensures r != EMPTY ==> Has(View(nodes, order, f), key) && order[Find(View(nodes, order, f), key)] == r
  {
    var m, s := KeyMap(nodes, order), View(nodes, order, f);
    assert DistinctKeys(m);
    hide Represents, Keyed, Find, View;
    var at := Find(s, key);
    assert at < |s| ==> order[at] in m && m[order[at]] == key;
    if r != EMPTY {
      var k :| 0 <= k < |order| && order[k] == r;
      assert s[k].key == key;
    }
  }

  lemma ViewFrame<V, W>(nodes: seq<Node<V>>, nodes': seq<Node<V>>, order: seq<int>, f: V -> W)
    requires InRange(order, |nodes|) && |nodes| == |nodes'|
    requires forall i :: i in order ==> nodes'[i].key == nodes[i].key && nodes'[i].value == nodes[i].value
    ensures View(nodes', order, f) == View(nodes, order, f)
  {
  }

  lemma ViewDrop<V, W>(nodes: seq<Node<V>>, order: seq<int>, f: V -> W, k: nat)
    requires InRange(order, |nodes|) && k < |order|
    ensures InRange(Drop(order, k), |nodes|)
    ensures var s := View(nodes, order, f);
            View(nodes, Drop(order, k), f) == s[..k] + s[k + 1..]
  {
  }

  lemma ViewPush<V, W>(nodes: seq<Node<V>>, order: seq<int>, f: V -> W, i: int)
    requires InRange(order, |nodes|) && 0 <= i < |nodes|
    ensures InRange([i] + order, |nodes|)
    ensures View(nodes, [i] + order, f) == [Entry(nodes[i].key, f(nodes[i].value))] + View(nodes, order, f)
  {
  }

  // ---------------------------------------------------------------- the whole state

  /**
   The list and the spare nodes partition the node array, links mirror each other, the
   table holds exactly the listed nodes, and only listed nodes are in use.
   */
  ghost predicate State<V>(nodes: seq<Node<V>>, table: seq<int>, hash: Key -> nat, head: int, tail: int,
                           order: seq<int>, spare: seq<int>)
  {
    && |nodes| < |table|
    && Partition(order, spare, |nodes|)
    && Linked(nodes, head, tail, order)
    && Indexed(nodes, table, hash, order)
    && forall i :: 0 <= i < |nodes| && i !in order ==> !nodes[i].valid
  }

  lemma StateLinked<V>(nodes: seq<Node<V>>, table: seq<int>, hash: Key -> nat, head: int, tail: int,
                       order: seq<int>, spare: seq<int>)
    requires State(nodes, table, hash, head, tail, order, spare)
    ensures Linked(nodes, head, tail, order) && InRange(order, |nodes|) && Distinct(order)
  {
  }

  /** The state after initialisation: an empty table and list, and every node spare. */
  lemma StateEmpty<V>(nodes: seq<Node<V>>, table: seq<int>, hash: Key -> nat, spare: seq<int>)
    requires |nodes| < |table| && HashInto(hash, |table|)
    requires forall s :: 0 <= s < |table| ==> table[s] == EMPTY
    requires forall i :: 0 <= i < |nodes| ==> !nodes[i].valid
    requires |spare| == |nodes| && forall i :: 0 <= i < |spare| ==> spare[i] == i
    ensures State(nodes, table, hash, NIL, NIL, [], spare)
  {
    assert [] + spare == spare;
    assert KeyMap(nodes, []) == map[];
  }

  /** `x` in front of the view `s`, whose `k`-th element is dropped. */
  function Fronted<W>(s: seq<Entry<W>>, k: nat, x: Entry<W>): seq<Entry<W>>
    requires k < |s|
  {
    [x] + (s[..k] + s[k + 1..])
  }

  /** Moving the `k`-th node to the front, with its payload possibly rewritten to `x`. */
  lemma StateMove<V>(nodes: seq<Node<V>>, nodes': seq<Node<V>>, table: seq<int>, hash: Key -> nat,
                     head: int, tail: int, head': int, tail': int, order: seq<int>, spare: seq<int>,
                     k: nat, x: V)
    requires State(nodes, table, hash, head, tail, order, spare) && k < |order|
    requires Linked(nodes', head', tail', [order[k]] + Drop(order, k))
    requires SameContents(nodes', nodes[order[k] := nodes[order[k]].(value := x)])
    ensures State(nodes', table, hash, head', tail', [order[k]] + Drop(order, k), spare)
  {
    hide LinkedAt, Partition, Represents, Keyed, Distinct, Drop, At, KeyMap, View;
    PartitionFront(order, spare, |nodes|, k);
    DropDistinct(order, k, |nodes|);
    IndexedFrame(nodes, nodes', table, hash, order, [order[k]] + Drop(order, k));
  }

  lemma ViewMove<V, W>(nodes: seq<Node<V>>, nodes': seq<Node<V>>, order: seq<int>, k: nat, x: V, f: V -> W)
    requires InRange(order, |nodes|) && k < |order| && Distinct(order)
    requires SameContents(nodes', nodes[order[k] := nodes[order[k]].(value := x)])
    ensures InRange([order[k]] + Drop(order, k), |nodes'|)
    ensures View(nodes', [order[k]] + Drop(order, k), f) ==
            Fronted(View(nodes, order, f), k, Entry(nodes[order[k]].key, f(x)))
  {
    DropDistinct(order, k, |nodes|);
    ViewDrop(nodes, order, f, k);
    hide Distinct, View, Drop;
    ViewPush(nodes', Drop(order, k), f, order[k]);
    ViewFrame(nodes, nodes', Drop(order, k), f);
  }

  /** Taking the `k`-th node out of list and table; `nodes1` is the array just after unlinking. */
  lemma StateDetach<V>(nodes: seq<Node<V>>, nodes1: seq<Node<V>>, table: seq<int>, table': seq<int>, hash: Key -> nat,
                       head: int, tail: int, head': int, tail': int, order: seq<int>, spare: seq<int>,
                       k: nat, x: Node<V>)
    requires State(nodes, table, hash, head, tail, order, spare) && k < |order|
    requires Represents(table', hash, KeyMap(nodes, order) - {order[k]}) && |table'| == |table|
    requires Linked(nodes1, head', tail', Drop(order, k)) && SameContents(nodes1, nodes) && !x.valid
    ensures State(nodes1[order[k] := x], table', hash, head', tail', Drop(order, k), spare + [order[k]])
  {
    hide Partition, Represents, Keyed, Drop, LinkedAt, Distinct, At, KeyMap, View;
    var nodes' := nodes1[order[k] := x];
    DropDistinct(order, k, |nodes|);
    PartitionDrop(order, spare, |nodes|, k);
    FrameLinked(nodes1, nodes', head', tail', Drop(order, k));
    IndexedDrop(nodes, nodes', table, table', hash, order, k);
  }

  lemma ViewDetach<V, W>(nodes: seq<Node<V>>, nodes1: seq<Node<V>>, order: seq<int>, k: nat, x: Node<V>, f: V -> W)
    requires InRange(order, |nodes|) && k < |order| && Distinct(order) && SameContents(nodes1, nodes)
    ensures InRange(Drop(order, k), |nodes|)
    ensures var s := View(nodes, order, f);
            View(nodes1[order[k] := x], Drop(order, k), f) == s[..k] + s[k + 1..]
  {
    DropDistinct(order, k, |nodes|);
    ViewDrop(nodes, order, f, k);
    hide Distinct, View, Drop;
    ViewFrame(nodes, nodes1[order[k] := x], Drop(order, k), f);
  }

  /** Filling the last spare node with `x` and adding it to table and list. */
  lemma StatePush<V>(nodes: seq<Node<V>>, nodes': seq<Node<V>>, table: seq<int>, hash: Key -> nat,
                     head: int, tail: int, head': int, tail': int, order: seq<int>, spare: seq<int>,
                     idx: int, x: Node<V>, p: nat)
    requires State(nodes, table, hash, head, tail, order, spare + [idx]) && 0 <= idx < |nodes|
    requires x.valid && x.key !in KeyMap(nodes, order).Values && FirstEmpty(table, hash(x.key), p)
    requires Linked(nodes', head', tail', [idx] + order) && SameContents(nodes', nodes[idx := x])
    ensures State(nodes', table[p := idx], hash, head', tail', [idx] + order, spare)
  {
    PartitionParts(order, spare + [idx], |nodes|);
    PartitionPush(order, spare, |nodes|, idx);
    assert (spare + [idx])[|spare|] == idx;
    hide LinkedAt, Partition, Represents, Keyed, Distinct;
    IndexedPush(nodes, nodes', table, hash, order, idx, p);
  }

  /** A spare node is unlisted, and the table has room for it under a new key. */
  lemma SpareNode<V, W>(nodes: seq<Node<V>>, table: seq<int>, hash: Key -> nat, head: int, tail: int,
                        order: seq<int>, spare: seq<int>, idx: int, key: Key, f: V -> W)
    requires State(nodes, table, hash, head, tail, order, spare + [idx]) && InRange(order, |nodes|)
    requires !Has(View(nodes, order, f), key)
    ensures HashInto(hash, |table|) && idx !in order && key !in KeyMap(nodes, order).Values
    ensures exists s :: 0 <= s < |table| && table[s] == EMPTY
  {
    PartitionParts(order, spare + [idx], |nodes|);
    assert (spare + [idx])[|spare|] == idx;
    KeyMapSize(nodes, order);
    var e := HasEmpty(table, KeyMap(nodes, order));
    hide Represents, Keyed, LinkedAt, Distinct, Find;
    var s := View(nodes, order, f);
    forall i | i in KeyMap(nodes, order) ensures KeyMap(nodes, order)[i] != key {
      var j :| 0 <= j < |order| && order[j] == i;
      assert s[j].key == nodes[i].key;
    }
  }

  lemma ViewAdd<V, W>(nodes: seq<Node<V>>, nodes': seq<Node<V>>, order: seq<int>, idx: int, x: Node<V>, f: V -> W)
    requires InRange(order, |nodes|) && 0 <= idx < |nodes| && idx !in order
    requires SameContents(nodes', nodes[idx := x])
    ensures InRange([idx] + order, |nodes'|)
    ensures View(nodes', [idx] + order, f) == [Entry(x.key, f(x.value))] + View(nodes, order, f)
  {
    hide View;
    ViewPush(nodes', order, f, idx);
    ViewFrame(nodes, nodes', order, f);
  }
}
