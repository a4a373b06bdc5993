/**
 Tortoise-and-hare on singly linked lists: detecting a loop, finding where it starts
 and cutting it.
 */
module Floyd {

  class ListNode {
    var val: int
    var next: ListNode?

    constructor (x: int)
      ensures val == x && next == null
    {
      val := x;
      next := null;
    }
  }

  // ---------------------------------------------------------------- walks

  /** `S` is a finite set of nodes that the list never leaves. */
  ghost predicate Closed(S: set<ListNode>, head: ListNode?)
    reads S
  {
    && (head != null ==> head in S)
    && forall n :: n in S && n.next != null ==> n.next in S
  }

  /** The node reached after `k` steps; null once the list has ended. */
  ghost function Nth(S: set<ListNode>, head: ListNode?, k: nat): (n: ListNode?)
    requires Closed(S, head)
    reads S
    ensures n != null ==> n in S
  {
    if k == 0 then head
    else
      var p := Nth(S, head, k - 1);
      if p == null then null else p.next
  }

  /** The walk comes back to its `i`-th node. */
  ghost predicate Revisits(S: set<ListNode>, head: ListNode?, i: nat)
    requires Closed(S, head)
    reads S
  {
    Nth(S, head, i) != null && exists j :: j > i && Nth(S, head, j) == Nth(S, head, i)
  }

  ghost predicate HasLoop(S: set<ListNode>, head: ListNode?)
    requires Closed(S, head)
    reads S
  {
    exists i: nat :: Revisits(S, head, i)
  }

  /** Walks that meet stay together. */
  lemma {:induction false} Together(S: set<ListNode>, head: ListNode?, a: nat, b: nat, d: nat)
    requires Closed(S, head) && Nth(S, head, a) == Nth(S, head, b)
    ensures Nth(S, head, a + d) == Nth(S, head, b + d)
  {
    if d > 0 {
      Together(S, head, a, b, d - 1);
      assert a + d - 1 == a + (d - 1) && b + d - 1 == b + (d - 1);
    }
  }

  lemma {:induction false} EndedStaysEnded(S: set<ListNode>, head: ListNode?, a: nat, b: nat)
    requires Closed(S, head) && a <= b && Nth(S, head, a) == null
    ensures Nth(S, head, b) == null
  {
    if a < b {
      EndedStaysEnded(S, head, a, b - 1);
    }
  }

  // ---------------------------------------------------------------- shapes

  ghost predicate Distinct(nodes: seq<ListNode>) {
    forall i, j :: 0 <= i < j < |nodes| ==> nodes[i] != nodes[j]
  }

  /**
   `nodes` are the list's nodes in the order of their first visit. The last one leads back
   to `nodes[entry]`, or ends the list if `entry == |nodes|`.
   */
  ghost predicate Shape(head: ListNode?, nodes: seq<ListNode>, entry: nat)
    reads nodes
  {
    && entry <= |nodes|
    && Distinct(nodes)
    && head == (if nodes == [] then null else nodes[0])
    && (forall i :: 0 <= i < |nodes| - 1 ==> nodes[i].next == nodes[i + 1])
    && (nodes != [] ==> nodes[|nodes| - 1].next == if entry < |nodes| then nodes[entry] else null)
  }

  lemma {:induction false} DistinctInSet(nodes: seq<ListNode>, S: set<ListNode>)
    requires Distinct(nodes) && forall i :: 0 <= i < |nodes| ==> nodes[i] in S
    ensures |nodes| <= |S|
  {
    if nodes != [] {
      DistinctInSet(nodes[..|nodes| - 1], S - {nodes[|nodes| - 1]});
    }
  }

  /** Every list over finitely many nodes has a shape: follow it until a node repeats or it ends. */
  lemma {:induction false} Explore(S: set<ListNode>, head: ListNode?, prefix: seq<ListNode>)
      returns (nodes: seq<ListNode>, entry: nat)
    requires Closed(S, head) && head != null
    requires prefix != [] && prefix[0] == head && Distinct(prefix)
    requires forall i :: 0 <= i < |prefix| ==> prefix[i] in S
    requires forall i :: 0 <= i < |prefix| - 1 ==> prefix[i].next == prefix[i + 1]
    ensures Shape(head, nodes, entry) && forall i :: 0 <= i < |nodes| ==> nodes[i] in S
    decreases |S| - |prefix|
  {
    DistinctInSet(prefix, S);
    var last := prefix[|prefix| - 1];
    if last.next == null {
      return prefix, |prefix|;
    }
    if last.next in prefix {
      entry :| 0 <= entry < |prefix| && prefix[entry] == last.next;
      return prefix, entry;
    }
    DistinctInSet(prefix + [last.next], S);
    nodes, entry := Explore(S, head, prefix + [last.next]);
  }

  lemma ShapeOf(S: set<ListNode>, head: ListNode?) returns (nodes: seq<ListNode>, entry: nat)
    requires Closed(S, head)
    ensures Shape(head, nodes, entry) && forall i :: 0 <= i < |nodes| ==> nodes[i] in S
  {
    if head == null {
      return [], 0;
    }
    nodes, entry := Explore(S, head, [head]);
  }

  // ---------------------------------------------------------------- positions on a shape

  /** Which of the `n` nodes the walk is on after `k` steps, if the last leads back to `entry`. */
  function Position(entry: nat, n: nat, k: nat): (p: nat)
    requires entry < n
    ensures p < n && (k < n ==> p == k) && (k >= entry ==> p >= entry)
  {
    if k < n then k else Position(entry, n, k - (n - entry))
  }

  lemma {:induction false} PositionStep(entry: nat, n: nat, k: nat)
    requires entry < n
    ensures var p := Position(entry, n, k);
            Position(entry, n, k + 1) == if p + 1 < n then p + 1 else entry
  {
    if k >= n {
      PositionStep(entry, n, k - (n - entry));
      assert k - (n - entry) + 1 == k + 1 - (n - entry);
    }
  }

  /** The walk of a looping list. */
  lemma {:induction false} LoopWalk(S: set<ListNode>, head: ListNode?, nodes: seq<ListNode>, entry: nat, k: nat)
    requires Closed(S, head) && Shape(head, nodes, entry) && entry < |nodes|
    ensures Nth(S, head, k) == nodes[Position(entry, |nodes|, k)]
  {
    if k > 0 {
      LoopWalk(S, head, nodes, entry, k - 1);
      PositionStep(entry, |nodes|, k - 1);
    }
  }

  /** The walk of a list that ends. */
  lemma {:induction false} PathWalk(S: set<ListNode>, head: ListNode?, nodes: seq<ListNode>, k: nat)
    requires Closed(S, head) && Shape(head, nodes, |nodes|)
    ensures Nth(S, head, k) == if k < |nodes| then nodes[k] else null
  {
    if k > 0 {
      PathWalk(S, head, nodes, k - 1);
    }
  }

  /** The length of `laps` rounds of a loop of `loop` nodes. */
  function Rounds(laps: nat, loop: nat): (r: nat)
    requires loop >= 1
    ensures r >= laps
  {
    if laps == 0 then 0 else Rounds(laps - 1, loop) + loop
  }

  /** Whole rounds make no difference on the loop. */
  lemma {:induction false} Laps(S: set<ListNode>, head: ListNode?, nodes: seq<ListNode>, entry: nat, k: nat, laps: nat)
    requires Closed(S, head) && Shape(head, nodes, entry) && entry < |nodes| && k >= entry
    ensures Nth(S, head, k + Rounds(laps, |nodes| - entry)) == Nth(S, head, k)
  {
    if laps > 0 {
      Laps(S, head, nodes, entry, k, laps - 1);
      var far := k + Rounds(laps - 1, |nodes| - entry);
      LoopWalk(S, head, nodes, entry, far);
      LoopWalk(S, head, nodes, entry, far + |nodes| - entry);
    }
  }

  /** Exactly the nodes from the entry on are revisited. */
  lemma RevisitedNodes(S: set<ListNode>, head: ListNode?, nodes: seq<ListNode>, entry: nat, i: nat)
    requires Closed(S, head) && Shape(head, nodes, entry)
    ensures Revisits(S, head, i) <==> entry < |nodes| && i >= entry
  {
    if entry == |nodes| {
      PathWalk(S, head, nodes, i);
      forall j: nat | j > i ensures Nth(S, head, i) == null || Nth(S, head, j) != Nth(S, head, i) {
        PathWalk(S, head, nodes, j);
      }
    } else {
      LoopWalk(S, head, nodes, entry, i);
      if i >= entry {
        Laps(S, head, nodes, entry, i, 1);
      } else {
        forall j: nat | j > i ensures Nth(S, head, j) != Nth(S, head, i) {
          LoopWalk(S, head, nodes, entry, j);
          assert j < |nodes| || Position(entry, |nodes|, j) >= entry;
        }
      }
    }
  }

  // ---------------------------------------------------------------- meeting points

  /** Tortoise and hare are on the same node after this many rounds at the latest. */
  function MeetBy(nodes: nat, entry: nat): nat
    requires entry < nodes
  {
    Rounds(entry + 1, nodes - entry)
  }

  lemma TheyMeet(S: set<ListNode>, head: ListNode?, nodes: seq<ListNode>, entry: nat)
    requires Closed(S, head) && Shape(head, nodes, entry) && entry < |nodes|
    ensures var m := MeetBy(|nodes|, entry); m >= 1 && m >= entry && Nth(S, head, m) == Nth(S, head, 2 * m)
  {
    Laps(S, head, nodes, entry, MeetBy(|nodes|, entry), entry + 1);
  }

  /** From a meeting after `i` rounds, the walk from the head and the walk from the meeting node agree first at the entry. */
  lemma MeetingRevealsEntry(S: set<ListNode>, head: ListNode?, nodes: seq<ListNode>, entry: nat, i: nat, k: nat)
    requires Closed(S, head) && Shape(head, nodes, entry) && entry < |nodes|
    requires i >= 1 && Nth(S, head, i) == Nth(S, head, 2 * i) && k <= entry
    ensures i >= entry
    ensures Nth(S, head, k) == Nth(S, head, i + k) <==> k == entry
  {
    RevisitedNodes(S, head, nodes, entry, i);
    LoopWalk(S, head, nodes, entry, i);
    assert Revisits(S, head, i);
    LoopWalk(S, head, nodes, entry, k);
    LoopWalk(S, head, nodes, entry, i + k);
    if k == entry {
      var far := Rounds(i, |nodes| - entry);
      Laps(S, head, nodes, entry, entry, i);
      Laps(S, head, nodes, entry, i + entry, i);
      Together(S, head, i, 2 * i, entry + far - i);
      assert 2 * i + (entry + far - i) == i + entry + far;
    }
  }

  /** Loops are the same thing as a shape that leads back. */
  lemma LoopShape(S: set<ListNode>, head: ListNode?, nodes: seq<ListNode>, entry: nat)
    requires Closed(S, head) && Shape(head, nodes, entry)
    ensures HasLoop(S, head) <==> entry < |nodes|
  {
    RevisitedNodes(S, head, nodes, entry, entry);
    if HasLoop(S, head) {
      var i: nat :| Revisits(S, head, i);
      RevisitedNodes(S, head, nodes, entry, i);
    }
  }

  // ---------------------------------------------------------------- the programs

  /** How many more rounds the race can take. */
  ghost function Fuel(nodes: seq<ListNode>, entry: nat): nat
    requires entry <= |nodes|
  {
    if entry < |nodes| then MeetBy(|nodes|, entry) else |nodes| + 1
  }

  /**
   The race itself: the hare takes two steps for each step of the tortoise until they meet
   or the hare reaches the end. `i` counts the rounds.
   */
  method Race(head: ListNode?, ghost S: set<ListNode>, ghost nodes: seq<ListNode>, ghost entry: nat)
      returns (slow: ListNode?, fast: ListNode?, met: bool, ghost i: nat)
    requires Closed(S, head) && Shape(head, nodes, entry)
    ensures slow == Nth(S, head, i) && fast == Nth(S, head, 2 * i)
    ensures met <==> entry < |nodes|
    ensures met ==> i >= 1 && slow == fast && fast != null && fast.next != null
    ensures !met ==> fast == null || fast.next == null
    ensures !met && i >= 1 ==> slow != fast
    ensures i >= 1 ==> Nth(S, head, 2 * i - 1) != null
  {
    slow, fast, met, i := head, head, false, 0;
    while fast != null && fast.next != null
      invariant slow == Nth(S, head, i) && fast == Nth(S, head, 2 * i)
      invariant i >= 1 ==> slow != fast && Nth(S, head, 2 * i - 1) != null
      invariant i < Fuel(nodes, entry)
      decreases Fuel(nodes, entry) - i
    {
      RaceGoesOn(S, head, nodes, entry, i);
      slow := slow.next;
      fast := fast.next.next;
      i := i + 1;
      if slow == fast {
        MetInLoop(S, head, nodes, entry, i);
        met := true;
        return;
      }
    }
    if entry < |nodes| {
      LoopWalk(S, head, nodes, entry, 2 * i);
      LoopWalk(S, head, nodes, entry, 2 * i + 1);
    }
  }

  /** While the hare can move, the tortoise can, and they will not pass the meeting point. */
  lemma RaceGoesOn(S: set<ListNode>, head: ListNode?, nodes: seq<ListNode>, entry: nat, i: nat)
    requires Closed(S, head) && Shape(head, nodes, entry) && i < Fuel(nodes, entry)
    requires Nth(S, head, 2 * i) != null && Nth(S, head, 2 * i).next != null
    ensures Nth(S, head, i) != null
    ensures Nth(S, head, i + 1) == Nth(S, head, i).next
    ensures Nth(S, head, 2 * (i + 1)) == Nth(S, head, 2 * i).next.next
    ensures i + 1 < Fuel(nodes, entry) || Nth(S, head, i + 1) == Nth(S, head, 2 * (i + 1))
  {
    if Nth(S, head, i) == null {
      EndedStaysEnded(S, head, i, 2 * i);
    }
    assert Nth(S, head, 2 * i + 1) == Nth(S, head, 2 * i).next;
    assert 2 * (i + 1) - 1 == 2 * i + 1;
    if entry < |nodes| {
      TheyMeet(S, head, nodes, entry);
    } else {
      PathWalk(S, head, nodes, 2 * i + 1);
    }
  }

  lemma MetInLoop(S: set<ListNode>, head: ListNode?, nodes: seq<ListNode>, entry: nat, i: nat)
    requires Closed(S, head) && Shape(head, nodes, entry) && i >= 1
    requires Nth(S, head, i) == Nth(S, head, 2 * i) && Nth(S, head, 2 * i - 1) != null
    ensures entry < |nodes| && Nth(S, head, i) != null && Nth(S, head, i).next != null
  {
    if entry == |nodes| {
      PathWalk(S, head, nodes, i);
      PathWalk(S, head, nodes, 2 * i - 1);
      PathWalk(S, head, nodes, 2 * i);
    } else {
      LoopWalk(S, head, nodes, entry, i);
      LoopWalk(S, head, nodes, entry, i + 1);
    }
  }

  method DetectLoop(head: ListNode?, ghost S: set<ListNode>) returns (r: bool)
    requires Closed(S, head)
    ensures r <==> HasLoop(S, head)
  {
    ghost var nodes, entry := ShapeOf(S, head);
    LoopShape(S, head, nodes, entry);
    var slow, fast, met, i := Race(head, S, nodes, entry);
    return met;
  }

  /** The first node of the list that the walk comes back to, or null if there is none. */
  method StartOfLoop(head: ListNode?, ghost S: set<ListNode>) returns (r: ListNode?)
    requires Closed(S, head)
    ensures r == null <==> !HasLoop(S, head)
    ensures r != null ==> exists i: nat :: r == Nth(S, head, i) && Revisits(S, head, i) &&
                            forall j :: 0 <= j < i ==> !Revisits(S, head, j)
  {
    ghost var nodes, entry := ShapeOf(S, head);
    LoopShape(S, head, nodes, entry);
    var slow, fast, met, i := Race(head, S, nodes, entry);
    if fast == null || fast.next == null {
      return null;
    }
    slow := head;
    ghost var k := 0;
    MeetingRevealsEntry(S, head, nodes, entry, i, 0);
    while slow != fast
      invariant k <= entry && slow == Nth(S, head, k) && fast == Nth(S, head, i + k)
      invariant slow == fast <==> k == entry
      decreases entry - k
    {
      LoopWalk(S, head, nodes, entry, k);
      LoopWalk(S, head, nodes, entry, i + k);
      slow := slow.next;
      fast := fast.next;
      k := k + 1;
      MeetingRevealsEntry(S, head, nodes, entry, i, k);
    }
    forall j | 0 <= j <= entry ensures Revisits(S, head, j) <==> j == entry {
      RevisitedNodes(S, head, nodes, entry, j);
    }
    LoopWalk(S, head, nodes, entry, entry);
    return slow;
  }

  /** What `FixLoop` leaves of a list: all of it, unless the loop runs through the head of a longer list. */
  function Kept(nodes: seq<ListNode>, entry: nat): seq<ListNode> {
    if entry == 0 && |nodes| > 1 then nodes[..1] else nodes
  }

  /**
   Cuts the loop, by clearing one link. The result is always a list that ends. It consists of the
   same nodes in the same order exactly when the loop is not entered at the head of a longer list;
   otherwise only the head is left. The return value reports a loop, except that it is also true
   for a single node without one.
   */
  method FixLoop(head: ListNode, ghost S: set<ListNode>)
      returns (fixed: bool, ghost nodes: seq<ListNode>, ghost entry: nat)
    requires Closed(S, head)
    modifies S
    ensures forall j :: 0 <= j < |nodes| ==> nodes[j] in S
    ensures old(Shape(head, nodes, entry)) && entry <= |nodes| && nodes != []
    ensures Shape(head, Kept(nodes, entry), |Kept(nodes, entry)|)
    ensures fixed <==> entry < |nodes| || |nodes| == 1
    ensures Closed(S, head) && !HasLoop(S, head)
    ensures forall n :: n in S ==> n.val == old(n.val)
    ensures Shape(head, nodes, |nodes|) <==> entry >= 1 || |nodes| <= 1
    ensures forall n :: n in S && n != Cut(head, nodes, entry) ==> n.next == old(n.next)
    ensures entry < |nodes| ==> Cut(head, nodes, entry).next == null
  {
    nodes, entry := ShapeOf(S, head);
    var slow, fast, met, i := Race(head, S, nodes, entry);
    if entry == |nodes| {
      PathWalk(S, head, nodes, 1);
      if i >= 1 {
        PathWalk(S, head, nodes, 2 * i - 1);
      }
      assert i == 0 <==> |nodes| == 1;
    }
    if slow == fast {
      fast := FindTail(head, fast, S, nodes, entry, i);
      fast.next := null;
      fixed := true;
    } else {
      fixed := false;
    }
    LoopShape(S, head, Kept(nodes, entry), |Kept(nodes, entry)|);
  }

  /** The node whose link is cleared: the one that leads back to the entry, or the head if the loop runs through it. */
  function Cut(head: ListNode, nodes: seq<ListNode>, entry: nat): ListNode
    requires nodes != []
  {
    if entry == 0 then head else nodes[|nodes| - 1]
  }

  /** A loop of two nodes through the head: the second node is lost, still pointing back to the first. */
  method LosesNode() returns (head: ListNode, lost: ListNode, fixed: bool)
    ensures fixed && head != lost && head.next == null && lost.next == head
  {
    head := new ListNode(1);
    lost := new ListNode(2);
    head.next := lost;
    lost.next := head;
    ghost var S: set<ListNode> := {head, lost};
    ghost var nodes, entry;
    fixed, nodes, entry := FixLoop(head, S);
  }

  method FindTail(head: ListNode, meeting: ListNode, ghost S: set<ListNode>, ghost nodes: seq<ListNode>, ghost entry: nat, ghost i: nat)
      returns (fast: ListNode)
    requires Closed(S, head) && Shape(head, nodes, entry) && nodes != []
    requires meeting == Nth(S, head, i) == Nth(S, head, 2 * i)
    requires if entry < |nodes| then i >= 1 else i == 0 && |nodes| == 1
    ensures fast == Cut(head, nodes, entry)
  {
    var slow: ListNode := head;
    fast := meeting;
    if entry < |nodes| {
      MeetingRevealsEntry(S, head, nodes, entry, i, 0);
    }
    ghost var k := 0;
    while slow.next != fast.next
      invariant slow == Nth(S, head, k) && fast == Nth(S, head, i + k)
      invariant k == 0 || (entry < |nodes| && k < entry)
      invariant entry == 0 || entry == |nodes| ==> slow == fast
      decreases entry - k
    {
      MeetingRevealsEntry(S, head, nodes, entry, i, k + 1);
      LoopWalk(S, head, nodes, entry, k + 1);
      LoopWalk(S, head, nodes, entry, i + k + 1);
      slow := slow.next;
      fast := fast.next;
      k := k + 1;
    }
    if 0 < entry < |nodes| {
      TailReached(S, head, nodes, entry, i, k);
    }
  }

  /** Just before the two walks meet at the entry, the walk on the loop is on its last node. */
  lemma TailReached(S: set<ListNode>, head: ListNode, nodes: seq<ListNode>, entry: nat, i: nat, k: nat)
    requires Closed(S, head) && Shape(head, nodes, entry) && k < entry < |nodes|
    requires i >= 1 && Nth(S, head, i) == Nth(S, head, 2 * i)
    requires Nth(S, head, k + 1) == Nth(S, head, i + k + 1)
    ensures Nth(S, head, i + k) == nodes[|nodes| - 1]
  {
    MeetingRevealsEntry(S, head, nodes, entry, i, k + 1);
    LoopWalk(S, head, nodes, entry, i + k);
    PositionStep(entry, |nodes|, i + k);
    LoopWalk(S, head, nodes, entry, i + k + 1);
    LoopWalk(S, head, nodes, entry, entry);
  }
}
