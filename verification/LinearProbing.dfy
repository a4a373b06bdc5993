/**
 Open addressing with linear probing and tombstone-free deletion, as used by
 both fixed-size LRU caches: a table of node indices in which deletion empties
 a slot and then re-inserts the rest of the cluster.

 The table is specified by the map from node index to key that it represents.
 */
module LinearProbing {

  type Key = k: int | 0 <= k < 0x1_0000_0000

  const EMPTY := -1

  /** One element of the cache's node array: key, payload and list links. */
  datatype Node<V> = Node(key: Key, value: V, valid: bool, prev: int, next: int)

  // ---------------------------------------------------------------- cyclic slots

  /** The slot `x`, for an `x` that has gone past the end of the table at most once. */
  function Wrap(x: nat, n: nat): (s: nat)
    requires x < 2 * n
    ensures s < n
  {
    if x < n then x else x - n
  }

  /** The probe arithmetic of the table: a sum of a slot and a count, modulo the table size. */
  method SlotAt(base: nat, probe: nat, n: nat) returns (slot: nat)
    requires base < n && probe <= n
    ensures slot == Wrap(base + probe, n)
  {
    slot := (base + probe) % n;
    RemainderOnce(base + probe, n);
  }

  lemma RemainderOnce(x: nat, n: nat)
    requires n > 0 && x < 2 * n
    ensures x % n == Wrap(x, n)
  {
    if x >= n {
      UniqueRemainder(x, n, 1, x - n);
    }
  }

  lemma UniqueRemainder(x: nat, n: nat, q: int, r: nat)
    requires r < n && x == q * n + r
    ensures x % n == r
  {
    var d := x / n - q;
    assert d * n == r - x % n;
    if d >= 1 {
      AtLeast(d, n);
      assert false;
    }
    if d <= -1 {
      AtLeast(-d, n);
      assert false;
    }
  }

  lemma AtLeast(d: int, n: nat)
    requires d >= 1
    ensures d * n >= n && (0 - d) * n <= 0 - n
  {
  }

  /** Number of forward steps, cyclically, from slot `a` to slot `b`. */
  function Gap(a: nat, b: nat, n: nat): (g: nat)
    requires a < n && b < n
    ensures g < n && Wrap(a + g, n) == b
  {
    if a <= b then b - a else b + n - a
  }

  // ---------------------------------------------------------------- representation

  ghost predicate HashInto(hash: Key -> nat, n: nat) {
    forall k: Key :: hash(k) < n
  }

  /** Every occupied slot holds a node of `m`. */
  ghost predicate Within(t: seq<int>, m: map<int, Key>) {
    forall s :: 0 <= s < |t| && t[s] != EMPTY ==> t[s] in m
  }

  /** No two slots hold the same node. */
  ghost predicate NoRepeat(t: seq<int>) {
    forall a, b :: 0 <= a < b < |t| && t[a] != EMPTY ==> t[a] != t[b]
  }

  ghost predicate Covers(t: seq<int>, m: map<int, Key>) {
    forall i :: i in m ==> i in t
  }

  /** The occupied slots hold exactly the nodes of `m`, each of them once. */
  ghost predicate Holds(t: seq<int>, m: map<int, Key>) {
    EMPTY !in m && Within(t, m) && Covers(t, m) && NoRepeat(t)
  }

  ghost predicate DistinctKeys(m: map<int, Key>) {
    forall i, j :: i in m && j in m && m[i] == m[j] ==> i == j
  }

  /** Slot `q` is probed before slot `s` by a probe that starts at slot `home`. */
  ghost predicate Before(home: nat, q: nat, s: nat, n: nat)
    requires home < n && q < n && s < n
  {
    Gap(home, q, n) < Gap(home, s, n)
  }

  /** No empty slot lies between an entry's hash slot and its actual slot, cyclically. */
  ghost predicate Reachable(t: seq<int>, hash: Key -> nat, m: map<int, Key>)
    requires HashInto(hash, |t|) && Within(t, m)
  {
    forall s, q :: 0 <= s < |t| && 0 <= q < |t| && t[s] != EMPTY && Before(hash(m[t[s]]), q, s, |t|)
      ==> t[q] != EMPTY
  }

  ghost predicate Represents(t: seq<int>, hash: Key -> nat, m: map<int, Key>) {
    && HashInto(hash, |t|)
    && Holds(t, m)
    && DistinctKeys(m)
    && Reachable(t, hash, m)
  }

  /** The first empty slot of a probe from `home`. */
  ghost predicate FirstEmpty(t: seq<int>, home: nat, p: nat)
    requires home < |t|
  {
    && p < |t| && t[p] == EMPTY
    && forall q :: 0 <= q < |t| && Before(home, q, p, |t|) ==> t[q] != EMPTY
  }

  // ---------------------------------------------------------------- pigeonhole

  lemma {:induction false} InjectiveImage(t: seq<int>, m: map<int, Key>)
    requires forall s :: 0 <= s < |t| ==> t[s] in m
    requires forall a, b :: 0 <= a < b < |t| ==> t[a] != t[b]
    ensures |t| <= |m|
  {
    if |t| > 0 {
      var last := t[|t| - 1];
      var rest := m - {last};
      assert rest.Keys == m.Keys - {last};
      InjectiveImage(t[..|t| - 1], rest);
    }
  }

  /** A table larger than its contents has an empty slot. */
  lemma HasEmpty(t: seq<int>, m: map<int, Key>) returns (e: nat)
    requires Holds(t, m) && |m| < |t|
    ensures e < |t| && t[e] == EMPTY
  {
    if forall s :: 0 <= s < |t| ==> t[s] != EMPTY {
      InjectiveImage(t, m);
      assert false;
    }
    e :| 0 <= e < |t| && t[e] == EMPTY;
  }

  // ---------------------------------------------------------------- pure probing

  /** The node that probing for `key` from its `p`-th probe ends on, or `EMPTY`. */
  ghost function Probe(t: seq<int>, hash: Key -> nat, m: map<int, Key>, key: Key, p: nat): int
    requires HashInto(hash, |t|) && p <= |t|
    decreases |t| - p
  {
    if p == |t| then EMPTY
    else
      var i := t[Wrap(hash(key) + p, |t|)];
      if i == EMPTY then EMPTY
      else if i in m && m[i] == key then i
      else Probe(t, hash, m, key, p + 1)
  }

  /** A node is found before the first empty slot of its key's probe. */
  lemma FoundBeforeEmpty(t: seq<int>, hash: Key -> nat, m: map<int, Key>, i: int, s: nat)
    requires Represents(t, hash, m) && i in m && s < |t| && t[s] == EMPTY
    ensures exists q :: 0 <= q < |t| && Before(hash(m[i]), q, s, |t|) && t[q] == i
  {
    var at :| 0 <= at < |t| && t[at] == i;
    assert !Before(hash(m[i]), s, at, |t|);
  }

  /** Probing finds a node exactly when the represented map holds one for the key. */
  lemma {:induction false} ProbeFinds(t: seq<int>, hash: Key -> nat, m: map<int, Key>, key: Key, p: nat)
    requires Represents(t, hash, m) && p <= |t|
    requires p > 0 ==> forall q :: 0 <= q < |t| && Gap(hash(key), q, |t|) < p ==> t[q] in m && m[t[q]] != key
    ensures var r := Probe(t, hash, m, key, p);
            if r == EMPTY then key !in m.Values else r in m && m[r] == key
    decreases |t| - p
  {
    hide Reachable, DistinctKeys, NoRepeat;
    if p == |t| {
      forall i | i in m ensures m[i] != key {
        var at :| 0 <= at < |t| && t[at] == i;
      }
    } else {
      var s := Wrap(hash(key) + p, |t|);
      assert Gap(hash(key), s, |t|) == p;
      if t[s] == EMPTY {
        forall i | i in m ensures m[i] != key {
          FoundBeforeEmpty(t, hash, m, i, s);
        }
      } else if m[t[s]] != key {
        ProbeFinds(t, hash, m, key, p + 1);
      }
    }
  }

  /**
   Deletion is exact: once the table represents the map without `i`, every other
   key is looked up to the same node as before and the deleted key is absent.
   */
  lemma RemovalIsExact(t: seq<int>, t': seq<int>, hash: Key -> nat, m: map<int, Key>, i: int, key: Key)
    requires Represents(t, hash, m) && i in m
    requires Represents(t', hash, m - {i})
    ensures Probe(t', hash, m - {i}, key, 0) ==
            if key == m[i] then EMPTY else Probe(t, hash, m, key, 0)
  {
    var r, r' := Probe(t, hash, m, key, 0), Probe(t', hash, m - {i}, key, 0);
    ProbeFinds(t, hash, m, key, 0);
    ProbeFinds(t', hash, m - {i}, key, 0);
    if r' != EMPTY {
      assert m[r'] == key && r' != i;
    }
    assert r != EMPTY && r != i ==> r in m - {i};
  }

  // ---------------------------------------------------------------- insertion

  lemma InsertRepresents(t: seq<int>, hash: Key -> nat, m: map<int, Key>, key: Key, i: int, p: nat)
    requires Represents(t, hash, m)
    requires i != EMPTY && i !in m && key !in m.Values
    requires FirstEmpty(t, hash(key), p)
    ensures Represents(t[p := i], hash, m[i := key])
  {
    InsertHolds(t, m, key, i, p);
    InsertDistinct(m, key, i);
  }

  lemma InsertDistinct(m: map<int, Key>, key: Key, i: int)
    requires DistinctKeys(m) && i !in m && key !in m.Values
    ensures DistinctKeys(m[i := key])
  {
    forall j | j in m ensures m[j] != key {
      assert m[j] in m.Values;
    }
  }

  lemma KeyLeaves(m: map<int, Key>, i: int)
    requires DistinctKeys(m) && i in m
    ensures DistinctKeys(m - {i}) && m[i] !in (m - {i}).Values
    ensures (m - {i})[i := m[i]] == m
  {
    forall j | j in m - {i} ensures (m - {i})[j] != m[i] {
      assert m[j] == (m - {i})[j];
    }
  }

  lemma InsertHolds(t: seq<int>, m: map<int, Key>, key: Key, i: int, p: nat)
    requires Holds(t, m) && i != EMPTY && i !in m && p < |t| && t[p] == EMPTY
    ensures Holds(t[p := i], m[i := key])
  {
    var t', m' := t[p := i], m[i := key];
    forall j | j in m' ensures j in t' {
      if j == i {
        assert t'[p] == i;
      } else {
        var s :| 0 <= s < |t| && t[s] == j;
        assert t'[s] == j;
      }
    }
  }

  lemma RemoveHolds(t: seq<int>, m: map<int, Key>, s: nat)
    requires Holds(t, m) && s < |t| && t[s] != EMPTY
    ensures Holds(t[s := EMPTY], m - {t[s]})
  {
    var t', m' := t[s := EMPTY], m - {t[s]};
    forall j | j in m' ensures j in t' {
      var a :| 0 <= a < |t| && t[a] == j;
      assert t'[a] == j;
    }
  }

  // ---------------------------------------------------------------- deletion

  /**
   The state of the table in the middle of a deletion. Slot `d` was emptied, the
   cluster after it ends at the empty slot `e`, and its slots before `j` have been
   re-inserted. Only entries not yet re-inserted may have an empty slot on their
   probe path, and then only among the slots already visited.
   */
  ghost predicate Repairing(t: seq<int>, hash: Key -> nat, m: map<int, Key>, d: nat, j: nat, e: nat) {
    var n := |t|;
    && d < n && j < n && e < n
    && HashInto(hash, n) && Holds(t, m) && DistinctKeys(m)
    && t[e] == EMPTY && 0 < Gap(d, j, n) <= Gap(d, e, n)
    && (forall q :: 0 <= q < n && Gap(d, j, n) <= Gap(d, q, n) < Gap(d, e, n) ==> t[q] != EMPTY)
    && Excused(t, hash, m, d, j, e)
  }

  ghost predicate Excused(t: seq<int>, hash: Key -> nat, m: map<int, Key>, d: nat, j: nat, e: nat)
    requires d < |t| && j < |t| && e < |t| && HashInto(hash, |t|) && Within(t, m)
  {
    var n := |t|;
    forall s, q :: 0 <= s < n && 0 <= q < n && t[s] != EMPTY && t[q] == EMPTY &&
                   Before(hash(m[t[s]]), q, s, n) ==>
                     Gap(d, q, n) < Gap(d, j, n) <= Gap(d, s, n) < Gap(d, e, n)
  }

  /** The end of the cluster that follows slot `d`. */
  lemma {:induction false} ClusterEnd(t: seq<int>, d: nat, w: nat, g: nat) returns (e: nat)
    requires d < |t| && w < |t| && t[w] == EMPTY
    requires 0 < g <= Gap(d, w, |t|)
    requires forall q :: 0 <= q < |t| && 0 < Gap(d, q, |t|) < g ==> t[q] != EMPTY
    ensures e < |t| && t[e] == EMPTY && 0 < Gap(d, e, |t|)
    ensures forall q :: 0 <= q < |t| && 0 < Gap(d, q, |t|) < Gap(d, e, |t|) ==> t[q] != EMPTY
    decreases |t| - g
  {
    e := Wrap(d + g, |t|);
    if t[e] != EMPTY {
      e := ClusterEnd(t, d, w, g + 1);
    }
  }

  /** Emptying an entry's slot starts a repair just after it. */
  lemma RepairStarts(t: seq<int>, hash: Key -> nat, m: map<int, Key>, d: nat, e: nat)
    requires Represents(t, hash, m) && d < |t| && t[d] != EMPTY
    requires e < |t| && t[e] == EMPTY && 0 < Gap(d, e, |t|)
    requires forall q :: 0 <= q < |t| && 0 < Gap(d, q, |t|) < Gap(d, e, |t|) ==> t[q] != EMPTY
    ensures Repairing(t[d := EMPTY], hash, m - {t[d]}, d, Wrap(d + 1, |t|), e)
  {
    hide Covers, DistinctKeys;
    RemoveHolds(t, m, d);
    KeyLeaves(m, t[d]);
    assert Gap(d, Wrap(d + 1, |t|), |t|) == 1;
    forall s, q | 0 <= s < |t| && 0 <= q < |t| && s != d && t[s] != EMPTY && (q == d || t[q] == EMPTY) &&
                  Before(hash(m[t[s]]), q, s, |t|)
      ensures Gap(d, q, |t|) < 1 <= Gap(d, s, |t|) < Gap(d, e, |t|)
    {
      assert q == d;
      assert !Before(hash(m[t[s]]), e, s, |t|);
    }
  }

  lemma RepairBegins(t: seq<int>, hash: Key -> nat, m: map<int, Key>, d: nat) returns (e: nat)
    requires Represents(t, hash, m) && |m| < |t| && d < |t| && t[d] != EMPTY
    ensures Repairing(t[d := EMPTY], hash, m - {t[d]}, d, Wrap(d + 1, |t|), e)
  {
    hide Covers, DistinctKeys, NoRepeat, Reachable;
    var w := HasEmpty(t, m);
    e := ClusterEnd(t, d, w, 1);
    RepairStarts(t, hash, m, d, e);
  }

  /** An entry whose probe path crosses slot `j` lies in the part of the cluster behind `j`. */
  lemma CrossingEntry(home: nat, s: nat, d: nat, j: nat, e: nat, n: nat)
    requires home < n && s < n && d < n && j < n && e < n
    requires Before(home, j, s, n) && Gap(d, j, n) < Gap(d, e, n) && s != e
    requires Before(home, e, s, n) ==> Gap(d, s, n) < Gap(d, e, n) && Gap(d, j, n) <= Gap(d, s, n)
    ensures Gap(d, j, n) < Gap(d, s, n) < Gap(d, e, n)
  {
  }

  /** Taking the entry at `j` out leaves it as the only node missing. */
  lemma RepairPicksUp(t: seq<int>, hash: Key -> nat, m: map<int, Key>, d: nat, j: nat, e: nat)
    requires Repairing(t, hash, m, d, j, e) && j != e
    ensures t[j] != EMPTY && t[j] in m && Wrap(j + 1, |t|) < |t|
    ensures Repairing(t[j := EMPTY], hash, m - {t[j]}, d, Wrap(j + 1, |t|), e)
  {
    hide Covers, DistinctKeys, NoRepeat, Before;
    var n := |t|;
    RemoveHolds(t, m, j);
    KeyLeaves(m, t[j]);
    assert Gap(d, Wrap(j + 1, n), n) == Gap(d, j, n) + 1;
    forall s | 0 <= s < n && s != j && t[s] != EMPTY && Before(hash(m[t[s]]), j, s, n)
      ensures Gap(d, j, n) < Gap(d, s, n) < Gap(d, e, n)
    {
      CrossingEntry(hash(m[t[s]]), s, d, j, e, n);
    }
  }

  /** Re-inserting the node that was taken out of the slot before `j`. */
  lemma RepairPutsBack(t: seq<int>, hash: Key -> nat, m: map<int, Key>, d: nat, last: nat, e: nat,
                       i: int, key: Key, p: nat)
    requires last < |t| && Repairing(t, hash, m, d, Wrap(last + 1, |t|), e)
    requires t[last] == EMPTY && Gap(d, Wrap(last + 1, |t|), |t|) == Gap(d, last, |t|) + 1
    requires i != EMPTY && i !in m && key !in m.Values
    requires forall q :: 0 <= q < |t| && t[q] == EMPTY && Before(hash(key), q, last, |t|) ==>
                           Gap(d, q, |t|) <= Gap(d, last, |t|)
    requires FirstEmpty(t, hash(key), p)
    ensures Repairing(t[p := i], hash, m[i := key], d, Wrap(last + 1, |t|), e)
  {
    hide Covers, DistinctKeys, NoRepeat, Excused, Before;
    var n := |t|;
    InsertHolds(t, m, key, i, p);
    InsertDistinct(m, key, i);
    PutBackSlot(t, hash, d, last, e, key, p);
    PutBackExcused(t, hash, m, d, last, e, i, key, p);
  }

  /** The slot taken is the one before `j`, or one probed earlier; in any case not the end of the cluster. */
  lemma PutBackSlot(t: seq<int>, hash: Key -> nat, d: nat, last: nat, e: nat, key: Key, p: nat)
    requires d < |t| && last < |t| && e < |t| && HashInto(hash, |t|) && Gap(d, last, |t|) < Gap(d, e, |t|)
    requires t[last] == EMPTY && FirstEmpty(t, hash(key), p)
    requires forall q :: 0 <= q < |t| && t[q] == EMPTY && Before(hash(key), q, last, |t|) ==>
                           Gap(d, q, |t|) <= Gap(d, last, |t|)
    ensures p != e
  {
    assert !Before(hash(key), last, p, |t|);
    assert p == last || Before(hash(key), p, last, |t|);
  }

  lemma PutBackExcused(t: seq<int>, hash: Key -> nat, m: map<int, Key>, d: nat, last: nat, e: nat,
                       i: int, key: Key, p: nat)
    requires d < |t| && last < |t| && e < |t| && HashInto(hash, |t|) && Within(t, m) && i != EMPTY && i !in m
    requires Excused(t, hash, m, d, Wrap(last + 1, |t|), e) && FirstEmpty(t, hash(key), p)
    ensures Within(t[p := i], m[i := key]) && Excused(t[p := i], hash, m[i := key], d, Wrap(last + 1, |t|), e)
  {
    hide Before;
    var n, t', m' := |t|, t[p := i], m[i := key];
    forall s, q | 0 <= s < n && 0 <= q < n && t'[s] != EMPTY && t'[q] == EMPTY && Before(hash(m'[t'[s]]), q, s, n)
      ensures Gap(d, q, n) < Gap(d, Wrap(last + 1, n), n) <= Gap(d, s, n) < Gap(d, e, n)
    {
      assert t[q] == EMPTY;
      if s != p {
        assert t[s] == t'[s] && m'[t[s]] == m[t[s]];
      }
    }
  }

  /** When the scan reaches the end of the cluster the table is whole again. */
  lemma RepairEnds(t: seq<int>, hash: Key -> nat, m: map<int, Key>, d: nat, j: nat, e: nat)
    requires Repairing(t, hash, m, d, j, e) && t[j] == EMPTY
    ensures Represents(t, hash, m)
  {
    assert j == e;
  }

  // ---------------------------------------------------------------- the operations

  /** The nodes that the table refers to are in use and carry the keys of `m`. */
  ghost predicate Keyed<V>(nodes: seq<Node<V>>, m: map<int, Key>) {
    forall i :: i in m ==> 0 <= i < |nodes| && nodes[i].valid && nodes[i].key == m[i]
  }

  method HashClear(table: array<int>)
    modifies table
    ensures forall s :: 0 <= s < table.Length ==> table[s] == EMPTY
  {
    for i := 0 to table.Length
      invariant forall s :: 0 <= s < i ==> table[s] == EMPTY
    {
      table[i] := EMPTY;
    }
  }

  method HashLookupNode<V>(table: array<int>, nodes: array<Node<V>>, hash: Key -> nat, key: Key,
                           ghost m: map<int, Key>) returns (r: int)
    requires Represents(table[..], hash, m) && Keyed(nodes[..], m)
    ensures r == Probe(table[..], hash, m, key, 0)
    ensures if r == EMPTY then key !in m.Values else r in m && m[r] == key
  {
    hide Reachable, NoRepeat, Covers, DistinctKeys, Gap, Before;
    ghost var t := table[..];
    ProbeFinds(t, hash, m, key, 0);
    var base := hash(key);
    var probe := 0;
    while probe < table.Length
      invariant 0 <= probe <= table.Length
      invariant Probe(t, hash, m, key, 0) == Probe(t, hash, m, key, probe)
    {
      var slot := SlotAt(base, probe, table.Length);
      var nodeIdx := table[slot];
      assert nodeIdx == t[slot];
      if nodeIdx == EMPTY {
        return EMPTY;
      }
      if nodes[nodeIdx].valid && nodes[nodeIdx].key == key {
        return nodeIdx;
      }
      probe := probe + 1;
    }
    return EMPTY;
  }

  /** Puts the node in the first empty slot of its probe; fails exactly on a full table. */
  method HashInsert(table: array<int>, hash: Key -> nat, key: Key, node: int) returns (ok: bool, ghost at: nat)
    requires HashInto(hash, table.Length)
    modifies table
    ensures ok <==> exists s :: 0 <= s < table.Length && old(table[s]) == EMPTY
    ensures ok ==> FirstEmpty(old(table[..]), hash(key), at) && table[..] == old(table[..])[at := node]
    ensures !ok ==> table[..] == old(table[..])
  {
    var base := hash(key);
    var probe := 0;
    while probe < table.Length
      invariant 0 <= probe <= table.Length
      invariant table[..] == old(table[..])
      invariant forall q :: 0 <= q < table.Length && Gap(base, q, table.Length) < probe ==> table[q] != EMPTY
    {
      var slot := SlotAt(base, probe, table.Length);
      if table[slot] == EMPTY {
        at := slot;
        table[slot] := node;
        return true, at;
      }
      probe := probe + 1;
    }
    forall q | 0 <= q < table.Length ensures old(table[q]) != EMPTY {
      assert Gap(base, q, table.Length) < probe;
    }
    return false, 0;
  }

  /**
   Empties the key's slot and re-inserts the cluster behind it: afterwards the table
   represents the same map without the key's node, or is unchanged if the key is absent.
   */
  method HashRemove<V>(table: array<int>, nodes: array<Node<V>>, hash: Key -> nat, key: Key,
                       ghost m: map<int, Key>) returns (found: bool, ghost node: int)
    requires Represents(table[..], hash, m) && Keyed(nodes[..], m) && |m| < table.Length
    modifies table
    ensures found <==> key in m.Values
    ensures found ==> node in m && m[node] == key && Represents(table[..], hash, m - {node})
    ensures !found ==> table[..] == old(table[..])
  {
    hide Reachable, NoRepeat, Covers, DistinctKeys, Gap, Before;
    ghost var t := table[..];
    ProbeFinds(t, hash, m, key, 0);
    var base := hash(key);
    var probe := 0;
    while probe < table.Length
      invariant 0 <= probe <= table.Length
      invariant table[..] == t
      invariant Probe(t, hash, m, key, 0) == Probe(t, hash, m, key, probe)
    {
      var slot := SlotAt(base, probe, table.Length);
      var nodeIdx := table[slot];
      assert nodeIdx == t[slot];
      if nodeIdx == EMPTY {
        return false, EMPTY;
      }
      if nodes[nodeIdx].valid && nodes[nodeIdx].key == key {
        CloseGap(table, nodes, hash, slot, m);
        return true, nodeIdx;
      }
      probe := probe + 1;
    }
    return false, EMPTY;
  }

  /** The second half of a deletion: empty `slot`, then re-insert what follows it. */
  method CloseGap<V>(table: array<int>, nodes: array<Node<V>>, hash: Key -> nat, slot: nat, ghost m: map<int, Key>)
    requires Represents(table[..], hash, m) && Keyed(nodes[..], m) && |m| < table.Length
    requires slot < table.Length && table[slot] != EMPTY
    modifies table
    ensures Represents(table[..], hash, m - {old(table[slot])})
  {
    ghost var t, kept := table[..], m - {table[slot]};
    ghost var e := RepairBegins(t, hash, m, slot);
    table[slot] := EMPTY;
    assert table[..] == t[slot := EMPTY];
    var next := SlotAt(slot, 1, table.Length);
    ReinsertCluster(table, nodes, hash, next, kept, slot, e);
  }

  /** Re-inserts the entries from slot `first` up to the end `e` of its cluster. */
  method ReinsertCluster<V>(table: array<int>, nodes: array<Node<V>>, hash: Key -> nat, first: nat,
                            ghost m: map<int, Key>, ghost d: nat, ghost e: nat)
    requires Repairing(table[..], hash, m, d, first, e) && Keyed(nodes[..], m)
    modifies table
    ensures Represents(table[..], hash, m)
  {
    hide Excused, Within, Covers, NoRepeat, DistinctKeys, Reachable, HashInto, Keyed;
    var nextSlot := first;
    while table[nextSlot] != EMPTY
      invariant 0 <= nextSlot < table.Length
      invariant Repairing(table[..], hash, m, d, nextSlot, e)
      decreases Gap(d, e, table.Length) - Gap(d, nextSlot, table.Length)
    {
      Reinsert(table, nodes, hash, nextSlot, m, d, e);
      nextSlot := SlotAt(nextSlot, 1, table.Length);
    }
    RepairEnds(table[..], hash, m, d, nextSlot, e);
  }

  /** One round of the re-insertion loop: lift the entry at `j` and insert it afresh. */
  method Reinsert<V>(table: array<int>, nodes: array<Node<V>>, hash: Key -> nat, j: nat,
                     ghost m: map<int, Key>, ghost d: nat, ghost e: nat)
    requires Repairing(table[..], hash, m, d, j, e) && Keyed(nodes[..], m)
    requires table[j] != EMPTY
    modifies table
    ensures Repairing(table[..], hash, m, d, Wrap(j + 1, table.Length), e)
    ensures Gap(d, j, table.Length) < Gap(d, Wrap(j + 1, table.Length), table.Length) <= Gap(d, e, table.Length)
  {
    ghost var t := table[..];
    var reNode := table[j];
    RepairPicksUp(t, hash, m, d, j, e);
    table[j] := EMPTY;
    ghost var u := table[..];
    assert u == t[j := EMPTY];
    var ok, at := HashInsert(table, hash, nodes[reNode].key, reNode);
    assert u[j] == EMPTY;
    KeyLeaves(m, reNode);
    RepairPutsBack(u, hash, m - {reNode}, d, j, e, reNode, m[reNode], at);
  }
}
