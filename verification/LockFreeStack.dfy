/**
 The compare-and-swap stack as a state machine: every allocation, load, read of a link and
 compare-and-swap, successful, failed or spuriously failed, is one step of one of any number
 of threads. Nodes are never reused.
 */
module LockFreeStack {
  import opened Options
  import opened Tags

  const NULL := -1

  datatype Node = Node(value: int, next: int)

  /**
   Where a thread is. `Fresh(n)`: pushing, its new node not yet linked. `Linked(n)`: about to
   swap, expecting the head to be the node's `next`. `Popping`: about to load the head.
   `Loaded(h)`: has loaded the head. `Prepared(h, n)`: has also read the link of `h`.
   `Won(h, v)`: has swapped `h` out and will read its value; `v` is the value it had then.
   */
  datatype Thread =
    | Idle
    | Fresh(node: nat)
    | Linked(node: nat)
    | Popping
    | Loaded(seen: int)
    | Prepared(seen: int, next: int)
    | Won(taken: nat, value: int)

  /** What a step did to the stack, at the moment it did it. */
  datatype Event = Pushed(value: int) | Popped(value: int) | WasEmpty

  /** Memory, the head and the threads. The last three fields are history: ids on the stack, ids popped, events. */
  datatype State = State(nodes: seq<Node>, head: int, threads: seq<Thread>,
                         stack: seq<nat>, gone: set<nat>, events: seq<Event>)

  datatype Step =
    | CallPush(t: nat, value: int)
    | LoadForPush(t: nat)
    | SwapForPush(t: nat, spurious: bool)
    | CallPop(t: nat)
    | LoadForPop(t: nat)
    | ReadNext(t: nat)
    | SwapForPop(t: nat, spurious: bool)
    | ReturnEmpty(t: nat)
    | ReturnValue(t: nat)

  function Initial(threads: nat): State {
    State([], NULL, seq(threads, _ => Idle), [], {}, [])
  }

  predicate Enabled(s: State, step: Step) {
    && step.t < |s.threads|
    && var th := s.threads[step.t];
       match step
       case CallPush(_, _) => th.Idle?
       case LoadForPush(_) => th.Fresh? && th.node < |s.nodes|
       case SwapForPush(_, _) => th.Linked? && th.node < |s.nodes|
       case CallPop(_) => th.Idle?
       case LoadForPop(_) => th.Popping?
       case ReadNext(_) => th.Loaded? && 0 <= th.seen < |s.nodes|
       case SwapForPop(_, _) => th.Prepared? && 0 <= th.seen < |s.nodes|
       case ReturnEmpty(_) => th == Loaded(NULL)
       case ReturnValue(_) => th.Won? && th.taken < |s.nodes|
  }

  function Goes(s: State, t: nat, th: Thread): State
    requires t < |s.threads|
  {
    s.(threads := s.threads[t := th])
  }

  /** A pop that sees `head`: if that is null, the stack is empty at this moment. */
  function Sees(s: State, t: nat): State
    requires t < |s.threads|
  {
    var s' := Goes(s, t, Loaded(s.head));
    if s.head == NULL then s'.(events := s.events + [WasEmpty]) else s'
  }

  function Apply(s: State, step: Step): State
    requires Enabled(s, step)
  {
    var t, th := step.t, s.threads[step.t];
    match step
    case CallPush(_, v) => Goes(s, t, Fresh(|s.nodes|)).(nodes := s.nodes + [Node(v, NULL)])
    case LoadForPush(_) =>
      Goes(s, t, Linked(th.node)).(nodes := s.nodes[th.node := s.nodes[th.node].(next := s.head)])
    case SwapForPush(_, spurious) =>
      if !spurious && s.head == s.nodes[th.node].next then
        Goes(s, t, Idle).(head := th.node, stack := [th.node] + s.stack,
                          events := s.events + [Pushed(s.nodes[th.node].value)])
      else
        s.(nodes := s.nodes[th.node := s.nodes[th.node].(next := s.head)])
    case CallPop(_) => Goes(s, t, Popping)
    case LoadForPop(_) => Sees(s, t)
    case ReadNext(_) => Goes(s, t, Prepared(th.seen, s.nodes[th.seen].next))
    case SwapForPop(_, spurious) =>
      if !spurious && s.head == th.seen then
        Goes(s, t, Won(th.seen, s.nodes[th.seen].value))
          .(head := th.next, stack := if s.stack == [] then [] else s.stack[1..], gone := s.gone + {th.seen as nat},
            events := s.events + [Popped(s.nodes[th.seen].value)])
      else
        Sees(s, t)
    case ReturnEmpty(_) => Goes(s, t, Idle)
    case ReturnValue(_) => Goes(s, t, Idle)
  }

  // ---------------------------------------------------------------- the chain

  function At(stack: seq<nat>, k: nat): int {
    if k < |stack| then stack[k] else NULL
  }

  ghost predicate LinksAt(nodes: seq<Node>, stack: seq<nat>, k: nat) {
    k < |stack| && stack[k] < |nodes| && nodes[stack[k]].next == At(stack, k + 1)
  }

  /** Following `next` from the head visits exactly the nodes of `stack`, none of them twice. */
  ghost predicate Chain(nodes: seq<Node>, head: int, stack: seq<nat>) {
    && head == At(stack, 0)
    && (forall k :: 0 <= k < |stack| ==> stack[k] < |nodes|)
    && (forall k :: 0 <= k < |stack| ==> LinksAt(nodes, stack, k))
    && (forall a, b :: 0 <= a < b < |stack| ==> stack[a] != stack[b])
  }

  ghost predicate Published(s: State, n: int) {
    0 <= n < |s.nodes| && (n in s.stack || n in s.gone)
  }

  /** What a thread knows stays true whatever the others do. */
  ghost predicate Sound(s: State, th: Thread) {
    match th
    case Idle => true
    case Fresh(n) => n < |s.nodes| && n !in s.stack && n !in s.gone
    case Linked(n) => n < |s.nodes| && n !in s.stack && n !in s.gone
    case Popping => true
    case Loaded(h) => h == NULL || Published(s, h)
    case Prepared(h, n) => Published(s, h) && s.nodes[h].next == n
    case Won(h, v) => h in s.gone && h < |s.nodes| && s.nodes[h].value == v
  }

  /** The node that a thread alone may write or return. */
  function Owns(th: Thread): int {
    match th
    case Fresh(n) => n
    case Linked(n) => n
    case Won(h, _) => h
    case _ => NULL
  }

  /** No node has two owners: none is pushed twice or returned twice. */
  ghost predicate Exclusive(ts: seq<Thread>) {
    forall a, b :: 0 <= a < b < |ts| && Owns(ts[a]) != NULL ==> Owns(ts[a]) != Owns(ts[b])
  }

  ghost predicate Inv(s: State) {
    && Chain(s.nodes, s.head, s.stack)
    && (forall n :: n in s.stack ==> n !in s.gone)
    && (forall n :: n in s.gone ==> n < |s.nodes|)
    && (forall t :: 0 <= t < |s.threads| ==> Sound(s, s.threads[t]))
    && Exclusive(s.threads)
    && Linearized(s)
  }

  // ---------------------------------------------------------------- linearization

  /** The stack after a sequence of events, top first, if each is legal on a sequential stack. */
  function Replay(events: seq<Event>): Option<seq<int>> {
    if events == [] then Some([])
    else
      var before := Replay(events[..|events| - 1]);
      if before.None? then None
      else
        match events[|events| - 1]
        case Pushed(v) => Some([v] + before.value)
        case Popped(v) => if before.value != [] && before.value[0] == v then Some(before.value[1..]) else None
        case WasEmpty => if before.value == [] then Some([]) else None
  }

  function Values(nodes: seq<Node>, stack: seq<nat>): (vs: seq<int>)
    requires forall k :: 0 <= k < |stack| ==> stack[k] < |nodes|
    ensures |vs| == |stack| && forall k :: 0 <= k < |stack| ==> vs[k] == nodes[stack[k]].value
  {
    seq(|stack|, k requires 0 <= k < |stack| => nodes[stack[k]].value)
  }

  /** The events so far are a legal history of a sequential stack that ends in the current contents. */
  ghost predicate Linearized(s: State) {
    && (forall k :: 0 <= k < |s.stack| ==> s.stack[k] < |s.nodes|)
    && Replay(s.events) == Some(Values(s.nodes, s.stack))
  }

  // ---------------------------------------------------------------- what others rely on

  lemma OnlyMover(s: State, step: Step)
    requires Enabled(s, step)
    ensures var s', t := Apply(s, step), step.t;
            && s'.threads == s.threads[t := s'.threads[t]]
            && |s.nodes| <= |s'.nodes| && forall n :: 0 <= n < |s.nodes| ==> s'.nodes[n].value == s.nodes[n].value
  {
  }

  /** The memory of published nodes is stable, and only `owner` may become published. */
  ghost predicate Rely(s: State, s': State, owner: int) {
    && |s.nodes| <= |s'.nodes|
    && (forall n :: 0 <= n < |s.nodes| ==> s'.nodes[n].value == s.nodes[n].value)
    && (forall n :: Published(s, n) ==> Published(s', n) && s'.nodes[n].next == s.nodes[n].next)
    && (forall n :: 0 <= n < |s.nodes| && n != owner && n !in s.stack && n !in s.gone ==> n !in s'.stack && n !in s'.gone)
    && s.gone <= s'.gone
  }

  lemma OthersStaySound(s: State, s': State, owner: int, th: Thread)
    requires Sound(s, th) && Rely(s, s', owner) && (Owns(th) == NULL || Owns(th) != owner)
    ensures Sound(s', th)
  {
    match th
    case Loaded(h) => assert h != NULL ==> Published(s, h);
    case Prepared(h, n) => assert Published(s, h);
    case _ =>
  }

  lemma StepRely(s: State, step: Step)
    requires Inv(s) && Enabled(s, step)
    ensures Rely(s, Apply(s, step), Owns(s.threads[step.t]))
  {
    hide Linearized, Exclusive;
    var s', th := Apply(s, step), s.threads[step.t];
    assert Sound(s, th);
    if step.SwapForPop? && !step.spurious && s.head == th.seen {
      assert s.stack == [s.stack[0]] + s.stack[1..];
      assert s.stack[0] == th.seen;
    }
  }

  /** The thread that moved knows what its new place says. */
  lemma MoverIsSound(s: State, step: Step)
    requires Inv(s) && Enabled(s, step)
    ensures Sound(Apply(s, step), Apply(s, step).threads[step.t])
  {
    hide Linearized, Exclusive;
    var s', th := Apply(s, step), s.threads[step.t];
    assert Sound(s, th);
    HeadIsPublished(s);
  }

  lemma HeadIsPublished(s: State)
    requires Chain(s.nodes, s.head, s.stack)
    ensures s.head == NULL || Published(s, s.head)
  {
  }

  lemma StepKeepsSound(s: State, step: Step)
    requires Inv(s) && Enabled(s, step)
    ensures var s' := Apply(s, step);
            |s'.threads| == |s.threads| && forall t :: 0 <= t < |s'.threads| ==> Sound(s', s'.threads[t])
  {
    hide Linearized, Chain, Sound, Rely;
    var s' := Apply(s, step);
    StepRely(s, step);
    MoverIsSound(s, step);
    forall t | 0 <= t < |s'.threads| ensures Sound(s', s'.threads[t]) {
      if t != step.t {
        assert Sound(s, s.threads[t]);
        OthersStaySound(s, s', Owns(s.threads[step.t]), s.threads[t]);
      }
    }
  }

  lemma StepKeepsExclusive(s: State, step: Step)
    requires Inv(s) && Enabled(s, step)
    ensures Exclusive(Apply(s, step).threads)
  {
    hide Linearized;
    var s', th := Apply(s, step), s.threads[step.t];
    assert Sound(s, th);
    forall t | 0 <= t < |s.threads| && t != step.t
      ensures Owns(s.threads[t]) != NULL ==> Owns(s.threads[t]) != Owns(s'.threads[step.t])
    {
      assert Sound(s, s.threads[t]);
    }
  }

  // ---------------------------------------------------------------- the chain and the history

  lemma ChainPush(nodes: seq<Node>, head: int, stack: seq<nat>, n: nat)
    requires Chain(nodes, head, stack) && n < |nodes| && n !in stack && nodes[n].next == head
    ensures Chain(nodes, n, [n] + stack)
  {
    var longer := [n] + stack;
    forall k | 0 <= k < |longer| ensures LinksAt(nodes, longer, k) {
      assert k > 0 ==> LinksAt(nodes, stack, k - 1);
    }
  }

  lemma ChainPop(nodes: seq<Node>, head: int, stack: seq<nat>)
    requires Chain(nodes, head, stack) && head != NULL
    ensures stack != [] && head == stack[0] && head !in stack[1..]
    ensures Chain(nodes, nodes[head].next, stack[1..])
  {
    var rest := stack[1..];
    assert LinksAt(nodes, stack, 0);
    forall k | 0 <= k < |rest| ensures LinksAt(nodes, rest, k) && rest[k] != stack[0] {
      assert LinksAt(nodes, stack, k + 1);
    }
  }

  /** Nodes that are not on the stack may be written and added. */
  lemma ChainFrame(nodes: seq<Node>, nodes': seq<Node>, head: int, stack: seq<nat>)
    requires Chain(nodes, head, stack) && |nodes| <= |nodes'|
    requires forall n :: 0 <= n < |nodes| && n in stack ==> nodes'[n] == nodes[n]
    ensures Chain(nodes', head, stack)
  {
    forall k | 0 <= k < |stack| ensures LinksAt(nodes', stack, k) {
      assert LinksAt(nodes, stack, k) && stack[k] in stack;
    }
  }

  lemma StepKeepsChain(s: State, step: Step)
    requires Inv(s) && Enabled(s, step)
    ensures var s' := Apply(s, step);
            && Chain(s'.nodes, s'.head, s'.stack)
            && (forall n :: n in s'.stack ==> n !in s'.gone)
            && (forall n :: n in s'.gone ==> n < |s'.nodes|)
  {
    hide Linearized, Exclusive, Chain;
    var s', th := Apply(s, step), s.threads[step.t];
    assert Sound(s, th);
    if s'.stack == s.stack && s'.head == s.head {
      ChainFrame(s.nodes, s'.nodes, s.head, s.stack);
    } else if step.SwapForPush? {
      ChainPush(s.nodes, s.head, s.stack, th.node);
    } else {
      ChainPop(s.nodes, s.head, s.stack);
    }
  }

  lemma HistoryExtends(events: seq<Event>, e: Event)
    requires Replay(events).Some?
    ensures var vs := Replay(events).value;
            Replay(events + [e]) ==
              match e
              case Pushed(v) => Some([v] + vs)
              case Popped(v) => if vs != [] && vs[0] == v then Some(vs[1..]) else None
              case WasEmpty => if vs == [] then Some([]) else None
  {
    assert (events + [e])[..|events|] == events;
  }

  lemma HistoryPush(nodes: seq<Node>, stack: seq<nat>, events: seq<Event>, n: nat)
    requires n < |nodes| && forall k :: 0 <= k < |stack| ==> stack[k] < |nodes|
    requires Replay(events) == Some(Values(nodes, stack))
    ensures Replay(events + [Pushed(nodes[n].value)]) == Some(Values(nodes, [n] + stack))
  {
    hide Replay;
    HistoryExtends(events, Pushed(nodes[n].value));
    assert Values(nodes, [n] + stack) == [nodes[n].value] + Values(nodes, stack);
  }

  lemma HistoryPop(nodes: seq<Node>, stack: seq<nat>, events: seq<Event>)
    requires stack != [] && forall k :: 0 <= k < |stack| ==> stack[k] < |nodes|
    requires Replay(events) == Some(Values(nodes, stack))
    ensures Replay(events + [Popped(nodes[stack[0]].value)]) == Some(Values(nodes, stack[1..]))
  {
    hide Replay;
    HistoryExtends(events, Popped(nodes[stack[0]].value));
    assert Values(nodes, stack[1..]) == Values(nodes, stack)[1..];
  }

  lemma HistoryEmpty(nodes: seq<Node>, events: seq<Event>)
    requires Replay(events) == Some(Values(nodes, []))
    ensures Replay(events + [WasEmpty]) == Some(Values(nodes, []))
  {
    hide Replay;
    HistoryExtends(events, WasEmpty);
  }

  /** What a step that is no event leaves alone. */
  lemma HistoryFrame(nodes: seq<Node>, nodes': seq<Node>, stack: seq<nat>)
    requires |nodes| <= |nodes'| && forall k :: 0 <= k < |stack| ==> stack[k] < |nodes|
    requires forall n :: 0 <= n < |nodes| ==> nodes'[n].value == nodes[n].value
    ensures Values(nodes', stack) == Values(nodes, stack)
  {
  }

  lemma StepKeepsHistory(s: State, step: Step)
    requires Inv(s) && Enabled(s, step)
    ensures Linearized(Apply(s, step))
  {
    hide Exclusive, Replay, LinksAt, Values;
    var s', th := Apply(s, step), s.threads[step.t];
    assert Sound(s, th);
    OnlyMover(s, step);
    HistoryFrame(s.nodes, s'.nodes, s.stack);
    if step.SwapForPush? && s'.head != s.head {
      HistoryPush(s.nodes, s.stack, s.events, th.node);
    } else if step.SwapForPop? && |s'.stack| < |s.stack| {
      HistoryPop(s.nodes, s.stack, s.events);
    } else if s.stack == [] {
      HistoryEmpty(s.nodes, s.events);
    }
  }

  lemma StepInv(s: State, step: Step)
    requires Inv(s) && Enabled(s, step)
    ensures Inv(Apply(s, step))
  {
    hide Linearized, Exclusive, Sound, Chain, Apply;
    StepKeepsSound(s, step);
    StepKeepsExclusive(s, step);
    StepKeepsChain(s, step);
    StepKeepsHistory(s, step);
  }

  // ---------------------------------------------------------------- runs

  ghost predicate Possible(s: State, steps: seq<Step>)
    decreases |steps|
  {
    steps == [] || (Enabled(s, steps[0]) && Possible(Apply(s, steps[0]), steps[1..]))
  }

  ghost function Exec(s: State, steps: seq<Step>): State
    requires Possible(s, steps)
    decreases |steps|
  {
    if steps == [] then s else Exec(Apply(s, steps[0]), steps[1..])
  }

  lemma {:induction false} RunInv(s: State, steps: seq<Step>)
    requires Inv(s) && Possible(s, steps)
    ensures Inv(Exec(s, steps))
    decreases |steps|
  {
    hide Inv, Apply, Enabled;
    if steps != [] {
      StepInv(s, steps[0]);
      RunInv(Apply(s, steps[0]), steps[1..]);
    }
  }

  lemma InitialInv(threads: nat)
    ensures Inv(Initial(threads)) && Quiet(Initial(threads))
  {
  }

  /** What a pop returns, whenever it reads it, is the value it took at its swap, and no other thread holds that node. */
  lemma PopReturnsItsValue(s: State, t: nat)
    requires Inv(s) && Enabled(s, ReturnValue(t))
    ensures var th := s.threads[t];
            && s.nodes[th.taken].value == th.value && th.taken !in s.stack
            && forall u :: 0 <= u < |s.threads| && u != t ==> Owns(s.threads[u]) != th.taken
  {
    assert Sound(s, s.threads[t]);
    forall u | 0 <= u < |s.threads| && u != t ensures Owns(s.threads[u]) != s.threads[t].taken {
      assert Owns(s.threads[t]) == s.threads[t].taken;
    }
  }

  /**
   A thread is never stuck: in every reachable state it can go on with its call, or start either
   kind of call, whatever the others do. A swap may fail spuriously or not.
   */
  lemma NeverStuck(s: State, t: nat, v: int, spurious: bool)
    requires Inv(s) && t < |s.threads|
    ensures var th := s.threads[t];
            && (th.Idle? ==> Enabled(s, CallPush(t, v)) && Enabled(s, CallPop(t)))
            && (th.Fresh? ==> Enabled(s, LoadForPush(t)))
            && (th.Linked? ==> Enabled(s, SwapForPush(t, spurious)))
            && (th.Popping? ==> Enabled(s, LoadForPop(t)))
            && (th.Loaded? ==> Enabled(s, if th.seen == NULL then ReturnEmpty(t) else ReadNext(t)))
            && (th.Prepared? ==> Enabled(s, SwapForPop(t, spurious)))
            && (th.Won? ==> Enabled(s, ReturnValue(t)))
  {
    assert Sound(s, s.threads[t]);
  }

  // ---------------------------------------------------------------- what a history says

  function PushesOf(events: seq<Event>): multiset<int> {
    if events == [] then multiset{}
    else
      var e := events[|events| - 1];
      PushesOf(events[..|events| - 1]) + if e.Pushed? then multiset{e.value} else multiset{}
  }

  function PopsOf(events: seq<Event>): multiset<int> {
    if events == [] then multiset{}
    else
      var e := events[|events| - 1];
      PopsOf(events[..|events| - 1]) + if e.Popped? then multiset{e.value} else multiset{}
  }

  /** In a legal history, what was pushed has been popped or is on the stack. */
  lemma {:induction false} HistoryConserves(events: seq<Event>)
    requires Replay(events).Some?
    ensures PushesOf(events) == PopsOf(events) + multiset(Replay(events).value)
  {
    hide PushesOf, PopsOf;
    NothingYet();
    if events != [] {
      var before, e := events[..|events| - 1], events[|events| - 1];
      HistoryConserves(before);
      var vs := Replay(before).value;
      OneMoreEvent(before, e);
      assert events == before + [e];
      match e
      case Pushed(v) => PushBalance(PushesOf(before), PopsOf(before), vs, v);
      case Popped(v) => PopBalance(PushesOf(before), PopsOf(before), vs);
      case WasEmpty =>
    }
  }

  lemma PushBalance(pushes: multiset<int>, pops: multiset<int>, vs: seq<int>, v: int)
    requires pushes == pops + multiset(vs)
    ensures pushes + multiset{v} == pops + multiset([v] + vs)
  {
    assert multiset([v] + vs) == multiset{v} + multiset(vs);
  }

  lemma PopBalance(pushes: multiset<int>, pops: multiset<int>, vs: seq<int>)
    requires pushes == pops + multiset(vs) && vs != []
    ensures pushes + multiset{} == pops + multiset{vs[0]} + multiset(vs[1..])
  {
    assert vs == [vs[0]] + vs[1..];
    assert multiset(vs) == multiset{vs[0]} + multiset(vs[1..]);
  }

  // ---------------------------------------------------------------- arguments and results of the calls

  function Sum(bags: seq<multiset<int>>): multiset<int> {
    if bags == [] then multiset{} else Sum(bags[..|bags| - 1]) + bags[|bags| - 1]
  }

  lemma Exchange(rest: multiset<int>, last: multiset<int>, rest': multiset<int>, a: multiset<int>, b: multiset<int>)
    requires rest' + a == rest + b
    ensures rest' + last + a == rest + last + b
  {
    assert rest' + last + a == (rest' + a) + last;
    assert rest + last + b == (rest + b) + last;
  }

  lemma {:induction false} SumUpdate(bags: seq<multiset<int>>, i: nat, b: multiset<int>)
    requires i < |bags|
    ensures Sum(bags[i := b]) + bags[i] == Sum(bags) + b
  {
    var n := |bags| - 1;
    var rest, last := bags[..n], bags[n];
    if i == n {
      assert bags[i := b][..n] == rest;
      assert Sum(rest) + b + last == Sum(rest) + last + b;
    } else {
      SumUpdate(rest, i, b);
      assert bags[i := b][..n] == rest[i := b];
      Exchange(Sum(rest), last, Sum(rest[i := b]), bags[i], b);
    }
  }

  lemma {:induction false} SumOfNothing(bags: seq<multiset<int>>)
    requires forall i :: 0 <= i < |bags| ==> bags[i] == multiset{}
    ensures Sum(bags) == multiset{}
  {
    if bags != [] {
      SumOfNothing(bags[..|bags| - 1]);
    }
  }

  function Bag(v: Option<int>): multiset<int> {
    if v.Some? then multiset{v.value} else multiset{}
  }

  /** A thread takes a value on, keeps it or hands it over; `held` and `held'` are what it has before and after. */
  ghost predicate Moves(taken: Option<int>, held: Option<int>, held': Option<int>, given: Option<int>) {
    || (taken.None? && held' == held && given.None?)
    || (held.None? && held' == taken && given.None?)
    || (taken.None? && held'.None? && given == held)
  }

  lemma MovesBalance(taken: Option<int>, held: Option<int>, held': Option<int>, given: Option<int>)
    requires Moves(taken, held, held', given)
    ensures Bag(given) + Bag(held') == Bag(held) + Bag(taken)
    ensures Bag(taken) + Bag(held) == Bag(held') + Bag(given)
  {
  }

  /** The value that a thread is about to push. */
  function Carried(nodes: seq<Node>, th: Thread): Option<int> {
    if (th.Fresh? || th.Linked?) && th.node < |nodes| then Some(nodes[th.node].value) else None
  }

  /** The value that a thread has popped and not yet returned. */
  function Held(th: Thread): Option<int> {
    if th.Won? then Some(th.value) else None
  }

  function CarriedBy(s: State): (bags: seq<multiset<int>>)
    ensures |bags| == |s.threads| && forall t :: 0 <= t < |bags| ==> bags[t] == Bag(Carried(s.nodes, s.threads[t]))
  {
    seq(|s.threads|, t requires 0 <= t < |s.threads| => Bag(Carried(s.nodes, s.threads[t])))
  }

  function HeldBy(s: State): (bags: seq<multiset<int>>)
    ensures |bags| == |s.threads| && forall t :: 0 <= t < |bags| ==> bags[t] == Bag(Held(s.threads[t]))
  {
    seq(|s.threads|, t requires 0 <= t < |s.threads| => Bag(Held(s.threads[t])))
  }

  /** The argument of a push that is called. */
  function Argument(step: Step): Option<int> {
    if step.CallPush? then Some(step.value) else None
  }

  /** What a pop reads from its node and returns. */
  function Result(s: State, step: Step): Option<int>
    requires Enabled(s, step)
  {
    if step.ReturnValue? then Some(s.nodes[s.threads[step.t].taken].value) else None
  }

  /** The event of a step, if it is one. */
  function NewEvent(s: State, s': State): Option<Event> {
    if |s'.events| > |s.events| then Some(s'.events[|s.events|]) else None
  }

  function PushIn(e: Option<Event>): Option<int> {
    if e.Some? && e.value.Pushed? then Some(e.value.value) else None
  }

  function PopIn(e: Option<Event>): Option<int> {
    if e.Some? && e.value.Popped? then Some(e.value.value) else None
  }

  lemma OneMoreEvent(events: seq<Event>, e: Event)
    ensures PushesOf(events + [e]) == PushesOf(events) + Bag(PushIn(Some(e)))
    ensures PopsOf(events + [e]) == PopsOf(events) + Bag(PopIn(Some(e)))
  {
    assert (events + [e])[..|events|] == events;
  }

  lemma StepEvents(s: State, step: Step)
    requires Enabled(s, step)
    ensures var s' := Apply(s, step);
            && PushesOf(s'.events) == PushesOf(s.events) + Bag(PushIn(NewEvent(s, s')))
            && PopsOf(s'.events) == PopsOf(s.events) + Bag(PopIn(NewEvent(s, s')))
  {
    hide PushesOf, PopsOf, Apply, Enabled;
    var s' := Apply(s, step);
    AtMostOneEvent(s, step);
    if |s'.events| > |s.events| {
      OneMoreEvent(s.events, s'.events[|s.events|]);
    }
  }

  lemma AtMostOneEvent(s: State, step: Step)
    requires Enabled(s, step)
    ensures var s' := Apply(s, step);
            s'.events == s.events || (|s'.events| > |s.events| && s'.events == s.events + [s'.events[|s.events|]])
  {
  }

  lemma OwnNode(s: State, t: nat)
    requires Inv(s) && t < |s.threads|
    ensures var th := s.threads[t];
            && (th.Fresh? || th.Linked? ==> th.node < |s.nodes|)
            && (th.Won? ==> th.taken < |s.nodes| && s.nodes[th.taken].value == th.value)
  {
    assert Sound(s, s.threads[t]);
  }

  /** An argument is carried until it is pushed. */
  lemma MoverCarries(s: State, step: Step)
    requires Inv(s) && Enabled(s, step)
    ensures var s', t := Apply(s, step), step.t;
            Moves(Argument(step), Carried(s.nodes, s.threads[t]), Carried(s'.nodes, s'.threads[t]), PushIn(NewEvent(s, s')))
  {
    hide Inv;
    OwnNode(s, step.t);
  }

  /** A popped value is held until it is returned. */
  lemma MoverHolds(s: State, step: Step)
    requires Inv(s) && Enabled(s, step)
    ensures var s', t := Apply(s, step), step.t;
            Moves(PopIn(NewEvent(s, s')), Held(s.threads[t]), Held(s'.threads[t]), Result(s, step))
  {
    hide Inv;
    OwnNode(s, step.t);
  }

  /** Only the mover's account changes. */
  lemma OthersAccount(s: State, step: Step)
    requires Inv(s) && Enabled(s, step)
    ensures var s', t := Apply(s, step), step.t;
            && t < |s'.threads| == |s.threads|
            && CarriedBy(s') == CarriedBy(s)[t := Bag(Carried(s'.nodes, s'.threads[t]))]
            && HeldBy(s') == HeldBy(s)[t := Bag(Held(s'.threads[t]))]
  {
    hide Inv, Apply, Carried, Held, Bag;
    var s' := Apply(s, step);
    OnlyMover(s, step);
    forall t | 0 <= t < |s.threads| && t != step.t ensures Carried(s'.nodes, s'.threads[t]) == Carried(s.nodes, s.threads[t]) {
      OwnNode(s, t);
      SameCarried(s.nodes, s'.nodes, s.threads[t]);
    }
  }

  lemma SameCarried(nodes: seq<Node>, nodes': seq<Node>, th: Thread)
    requires |nodes| <= |nodes'| && forall n :: 0 <= n < |nodes| ==> nodes'[n].value == nodes[n].value
    requires th.Fresh? || th.Linked? ==> th.node < |nodes|
    ensures Carried(nodes', th) == Carried(nodes, th)
  {
  }

  lemma Balance(total: multiset<int>, total': multiset<int>, before: multiset<int>, after: multiset<int>,
                done: multiset<int>, more: multiset<int>, extra: multiset<int>)
    requires total' + before == total + after && more + after == before + extra
    ensures done + more + total' == done + total + extra
  {
    forall v ensures (done + more + total')[v] == (done + total + extra)[v] {
      assert (total' + before)[v] == (total + after)[v] && (more + after)[v] == (before + extra)[v];
    }
  }

  lemma StepAccounts(s: State, step: Step)
    requires Inv(s) && Enabled(s, step)
    ensures var s' := Apply(s, step);
            && PushesOf(s'.events) + Sum(CarriedBy(s')) == PushesOf(s.events) + Sum(CarriedBy(s)) + Bag(Argument(step))
            && PopsOf(s'.events) + Sum(HeldBy(s)) == PopsOf(s.events) + Sum(HeldBy(s')) + Bag(Result(s, step))
  {
    hide Inv, Apply, PushesOf, PopsOf, Sum, Carried, Held, Enabled, Argument, Result, PushIn, PopIn, NewEvent, Bag, Moves;
    var s', t := Apply(s, step), step.t;
    StepEvents(s, step);
    MoverCarries(s, step);
    MoverHolds(s, step);
    OthersAccount(s, step);
    var pushed, popped := PushIn(NewEvent(s, s')), PopIn(NewEvent(s, s'));
    var carried, held := Carried(s'.nodes, s'.threads[t]), Held(s'.threads[t]);
    MovesBalance(Argument(step), Carried(s.nodes, s.threads[t]), carried, pushed);
    MovesBalance(popped, Held(s.threads[t]), held, Result(s, step));
    SumUpdate(CarriedBy(s), t, Bag(carried));
    SumUpdate(HeldBy(s), t, Bag(held));
    Balance(Sum(CarriedBy(s)), Sum(CarriedBy(s')), CarriedBy(s)[t], Bag(carried), PushesOf(s.events), Bag(pushed), Bag(Argument(step)));
    Balance(Sum(HeldBy(s')), Sum(HeldBy(s)), Bag(held), HeldBy(s)[t], PopsOf(s.events), Bag(popped), Bag(Result(s, step)));
  }

  /** The arguments of all pushes called in a run. */
  ghost function ArgumentsOf(steps: seq<Step>): multiset<int> {
    if steps == [] then multiset{} else Bag(Argument(steps[0])) + ArgumentsOf(steps[1..])
  }

  /** The results of all pops that have returned a value in a run. */
  ghost function ResultsOf(s: State, steps: seq<Step>): multiset<int>
    requires Possible(s, steps)
    decreases |steps|
  {
    if steps == [] then multiset{} else Bag(Result(s, steps[0])) + ResultsOf(Apply(s, steps[0]), steps[1..])
  }

  lemma {:induction false} RunAccounts(s: State, steps: seq<Step>)
    requires Inv(s) && Possible(s, steps)
    ensures var e := Exec(s, steps);
            && PushesOf(e.events) + Sum(CarriedBy(e)) == PushesOf(s.events) + Sum(CarriedBy(s)) + ArgumentsOf(steps)
            && PopsOf(e.events) + Sum(HeldBy(s)) == PopsOf(s.events) + Sum(HeldBy(e)) + ResultsOf(s, steps)
    decreases |steps|
  {
    hide Inv, Apply, Enabled, PushesOf, PopsOf, Sum, CarriedBy, HeldBy, Argument, Result;
    if steps != [] {
      var s' := Apply(s, steps[0]);
      StepInv(s, steps[0]);
      StepAccounts(s, steps[0]);
      RunAccounts(s', steps[1..]);
      var e := Exec(s', steps[1..]);
      Accumulate(PushesOf(s.events) + Sum(CarriedBy(s)), PushesOf(s'.events) + Sum(CarriedBy(s')), Bag(Argument(steps[0])), ArgumentsOf(steps[1..]));
      Carry(PopsOf(e.events), PopsOf(s'.events), PopsOf(s.events), Sum(HeldBy(s)), Sum(HeldBy(s')), Sum(HeldBy(e)),
            Bag(Result(s, steps[0])), ResultsOf(s', steps[1..]));
    }
  }

  lemma Accumulate(a: multiset<int>, b: multiset<int>, x: multiset<int>, y: multiset<int>)
    requires b == a + x
    ensures b + y == a + (x + y)
  {
  }

  lemma Carry(e: multiset<int>, m: multiset<int>, s: multiset<int>, hs: multiset<int>, hm: multiset<int>, he: multiset<int>,
              x: multiset<int>, y: multiset<int>)
    requires m + hs == s + hm + x && e + hm == m + he + y
    ensures e + hs == s + he + (x + y)
  {
    forall v ensures (e + hs)[v] == (s + he + (x + y))[v] {
      assert (m + hs)[v] == (s + hm + x)[v] && (e + hm)[v] == (m + he + y)[v];
    }
  }

  /** No thread is in the middle of a call. */
  ghost predicate Quiet(s: State) {
    forall t :: 0 <= t < |s.threads| ==> s.threads[t].Idle?
  }

  /**
   Under every interleaving of any number of threads the chain from the head is acyclic, and the
   successful swaps and empty answers, in the order in which they happened, are a legal history of
   a sequential stack that ends in exactly the values on the chain. The values pushed in it, with
   those still being carried, are the arguments of the calls, and the values popped in it are the
   results returned, with those still being held.
   */
  lemma EveryRun(threads: nat, steps: seq<Step>)
    requires Possible(Initial(threads), steps)
    ensures var s := Exec(Initial(threads), steps);
            && |s.threads| == threads && Inv(s) && Chain(s.nodes, s.head, s.stack) && Replay(s.events) == Some(Values(s.nodes, s.stack))
            && PushesOf(s.events) + Sum(CarriedBy(s)) == ArgumentsOf(steps)
            && PopsOf(s.events) == Sum(HeldBy(s)) + ResultsOf(Initial(threads), steps)
  {
    hide Apply, Enabled, Possible, Exec, PushesOf, PopsOf, Replay, Sum, ArgumentsOf, ResultsOf, Sound, Exclusive, Chain;
    var i, e := Initial(threads), Exec(Initial(threads), steps);
    InitialInv(threads);
    RunInv(i, steps);
    ThreadCount(i, steps);
    RunAccounts(i, steps);
    NothingUnderway(i);
    NothingYet();
    FromNothing(PushesOf(e.events) + Sum(CarriedBy(e)), ArgumentsOf(steps));
    FromNothing(PopsOf(e.events), Sum(HeldBy(e)) + ResultsOf(i, steps));
  }

  lemma {:induction false} ThreadCount(s: State, steps: seq<Step>)
    requires Possible(s, steps)
    ensures |Exec(s, steps).threads| == |s.threads|
    decreases |steps|
  {
    hide Apply, Enabled;
    if steps != [] {
      StepInRange(s, steps[0]);
      ThreadCount(Apply(s, steps[0]), steps[1..]);
    }
  }

  lemma FromNothing(a: multiset<int>, b: multiset<int>)
    ensures multiset{} + multiset{} + b == b && a + multiset{} == a && multiset{} + b == b
  {
  }

  /**
   Nothing is lost, duplicated or made up: under every interleaving the arguments of the pushes
   called so far are the results returned, the values on the stack, and the values that calls in
   progress carry to it or have taken from it.
   */
  lemma Conservation(threads: nat, steps: seq<Step>)
    requires Possible(Initial(threads), steps)
    ensures var e := Exec(Initial(threads), steps);
            && (forall k :: 0 <= k < |e.stack| ==> e.stack[k] < |e.nodes|)
            && ArgumentsOf(steps) == ResultsOf(Initial(threads), steps) + multiset(Values(e.nodes, e.stack)) +
                                     Sum(CarriedBy(e)) + Sum(HeldBy(e))
            && (Quiet(e) ==> ArgumentsOf(steps) == ResultsOf(Initial(threads), steps) + multiset(Values(e.nodes, e.stack)))
  {
    hide Inv, Apply, Enabled, Possible, Exec, PushesOf, PopsOf, Replay, Sum, Quiet, ArgumentsOf, ResultsOf;
    var i, e := Initial(threads), Exec(Initial(threads), steps);
    EveryRun(threads, steps);
    InvLinearized(e);
    HistoryConserves(e.events);
    Settle(ArgumentsOf(steps), PushesOf(e.events), Sum(CarriedBy(e)), PopsOf(e.events), multiset(Values(e.nodes, e.stack)),
           Sum(HeldBy(e)), ResultsOf(i, steps));
    if Quiet(e) {
      NothingUnderway(e);
    }
  }

  lemma NothingYet()
    ensures PushesOf([]) == PopsOf([]) == multiset{}
  {
  }

  lemma NothingUnderway(s: State)
    requires Quiet(s)
    ensures Sum(CarriedBy(s)) == Sum(HeldBy(s)) == multiset{}
  {
    SumOfNothing(CarriedBy(s));
    SumOfNothing(HeldBy(s));
  }

  lemma InvLinearized(s: State)
    requires Inv(s)
    ensures Linearized(s)
  {
  }

  lemma Settle(args: multiset<int>, pushes: multiset<int>, carried: multiset<int>, pops: multiset<int>, left: multiset<int>,
               held: multiset<int>, results: multiset<int>)
    requires pushes + carried == args && pops == held + results && pushes == pops + left
    ensures args == results + left + carried + held
  {
    forall v ensures args[v] == (results + left + carried + held)[v] {
      assert args[v] == (pushes + carried)[v] && pops[v] == (held + results)[v];
    }
  }

  function AllPushed(vs: seq<int>): seq<Event> {
    seq(|vs|, i requires 0 <= i < |vs| => Pushed(vs[i]))
  }

  function AllPopped(vs: seq<int>): seq<Event> {
    seq(|vs|, i requires 0 <= i < |vs| => Popped(vs[i]))
  }

  function Reversed(vs: seq<int>): seq<int> {
    if vs == [] then [] else [vs[|vs| - 1]] + Reversed(vs[..|vs| - 1])
  }

  lemma {:induction false} PushedHistory(vs: seq<int>)
    ensures Replay(AllPushed(vs)) == Some(Reversed(vs))
  {
    if vs != [] {
      PushedHistory(vs[..|vs| - 1]);
      assert AllPushed(vs)[..|vs| - 1] == AllPushed(vs[..|vs| - 1]);
    }
  }

  lemma {:induction false} DrainedHistory(events: seq<Event>, pops: seq<int>)
    requires Replay(events).Some? && Replay(events + AllPopped(pops)).Some?
    ensures pops <= Replay(events).value
    ensures Replay(events + AllPopped(pops)).value == Replay(events).value[|pops|..]
    ensures Replay(events + AllPopped(pops) + [WasEmpty]).Some? ==> pops == Replay(events).value
  {
    var all := events + AllPopped(pops);
    if pops == [] {
      assert all == events;
    } else {
      var fewer := pops[..|pops| - 1];
      assert all[..|all| - 1] == events + AllPopped(fewer);
      DrainedHistory(events, fewer);
      assert all[|all| - 1] == Popped(pops[|pops| - 1]);
      assert pops == fewer + [pops[|pops| - 1]];
    }
    HistoryExtends(all, WasEmpty);
  }

  /** Whenever only pushes have succeeded, whatever their interleaving, the values lie in reverse order of the swaps. */
  lemma PushesStack(threads: nat, steps: seq<Step>, vs: seq<int>)
    requires Possible(Initial(threads), steps) && Exec(Initial(threads), steps).events == AllPushed(vs)
    ensures var e := Exec(Initial(threads), steps);
            && (forall k :: 0 <= k < |e.stack| ==> e.stack[k] < |e.nodes|)
            && Values(e.nodes, e.stack) == Reversed(vs)
  {
    hide Inv, Possible, Exec, Apply, Replay, Reversed;
    EveryRun(threads, steps);
    InvLinearized(Exec(Initial(threads), steps));
    PushedHistory(vs);
  }

  /** From any reachable state, pops that go on until one finds the stack empty take exactly its values, from the top down. */
  lemma DrainReturnsAll(s: State, steps: seq<Step>, pops: seq<int>)
    requires Inv(s) && Possible(s, steps) && Exec(s, steps).events == s.events + AllPopped(pops) + [WasEmpty]
    ensures pops == Values(s.nodes, s.stack)
  {
    hide Inv, Possible, Exec, Apply, Replay;
    RunInv(s, steps);
    InvLinearized(s);
    InvLinearized(Exec(s, steps));
    PrefixLegal(s.events + AllPopped(pops), WasEmpty);
    DrainedHistory(s.events, pops);
  }

  lemma PrefixLegal(events: seq<Event>, e: Event)
    requires Replay(events + [e]).Some?
    ensures Replay(events).Some?
  {
    assert (events + [e])[..|events|] == events;
  }

  /**
   Pushes by any threads in any interleaving, then pops until one finds the stack empty: each
   value is popped once, the last swap first. When no call is left in progress, the values
   returned are exactly the arguments of the pushes.
   */
  lemma PushThenDrain(threads: nat, steps: seq<Step>, vs: seq<int>, pops: seq<int>)
    requires Possible(Initial(threads), steps)
    requires Exec(Initial(threads), steps).events == AllPushed(vs) + AllPopped(pops) + [WasEmpty]
    ensures pops == Reversed(vs)
    ensures Quiet(Exec(Initial(threads), steps)) ==> ResultsOf(Initial(threads), steps) == ArgumentsOf(steps)
  {
    hide Inv, Possible, Exec, Apply, Replay, Reversed;
    var e := Exec(Initial(threads), steps);
    EveryRun(threads, steps);
    InvLinearized(e);
    PrefixLegal(AllPushed(vs) + AllPopped(pops), WasEmpty);
    PushedHistory(vs);
    DrainedHistory(AllPushed(vs), pops);
    HistoryExtends(AllPushed(vs) + AllPopped(pops), WasEmpty);
    Conservation(threads, steps);
  }

  // ---------------------------------------------------------------- every call has its event

  function Tag(t: nat, e: Option<Event>): seq<(nat, Event)> {
    if e.Some? then [(t, e.value)] else []
  }

  /** The events of a run in their order, each with the thread whose step it was. */
  ghost function Tagged(s: State, steps: seq<Step>): seq<(nat, Event)>
    requires Possible(s, steps)
    decreases |steps|
  {
    if steps == [] then []
    else
      var s' := Apply(s, steps[0]);
      Tag(steps[0].t, NewEvent(s, s')) + Tagged(s', steps[1..])
  }

  /** They are the history that the run adds. */
  lemma {:induction false} TaggedIsHistory(s: State, steps: seq<Step>)
    requires Possible(s, steps)
    ensures Exec(s, steps).events == s.events + Untag(Tagged(s, steps))
    decreases |steps|
  {
    hide Apply, Enabled;
    if steps != [] {
      var s' := Apply(s, steps[0]);
      AtMostOneEvent(s, steps[0]);
      TaggedIsHistory(s', steps[1..]);
      assert Untag(Tagged(s, steps)) == Untag(Tag(steps[0].t, NewEvent(s, s'))) + Untag(Tagged(s', steps[1..]));
    }
  }

  /** What a step returns from a pop of its thread, if it does: a value, or nothing from an empty stack. */
  function Return(s: State, step: Step): seq<Option<int>>
    requires Enabled(s, step)
  {
    if step.ReturnEmpty? then [None] else if step.ReturnValue? then [Result(s, step)] else []
  }

  /** What the pops of one thread return in a run. */
  ghost function Returns(s: State, steps: seq<Step>, t: nat): seq<Option<int>>
    requires Possible(s, steps)
    decreases |steps|
  {
    if steps == [] then []
    else (if steps[0].t == t then Return(s, steps[0]) else []) + Returns(Apply(s, steps[0]), steps[1..], t)
  }

  predicate IsCall(step: Step) {
    step.CallPush? || step.CallPop?
  }

  /** The event of a pop that returns `x`. */
  function PopEvent(x: Option<int>): Event {
    if x.Some? then Popped(x.value) else WasEmpty
  }

  /** The events and returns that a thread in the middle of a call has still to make. */
  ghost predicate Finishes(s: State, th: Thread, own: seq<Event>, rets: seq<Option<int>>) {
    match th
    case Idle => own == [] && rets == []
    case Fresh(n) => n < |s.nodes| && own == [Pushed(s.nodes[n].value)] && rets == []
    case Linked(n) => n < |s.nodes| && own == [Pushed(s.nodes[n].value)] && rets == []
    case Won(_, v) => own == [] && rets == [Some(v)]
    case Loaded(h) => |rets| == 1 && (if h == NULL then own == [] && rets[0] == None else own == [PopEvent(rets[0])])
    case _ => |rets| == 1 && own == [PopEvent(rets[0])]
  }

  function Own(s: State, step: Step): seq<Event>
    requires Enabled(s, step)
  {
    var e := NewEvent(s, Apply(s, step));
    if e.Some? then [e.value] else []
  }

  lemma MoverFinishes(s: State, step: Step, own: seq<Event>, rets: seq<Option<int>>)
    requires Inv(s) && Enabled(s, step) && !IsCall(step)
    requires Finishes(Apply(s, step), Apply(s, step).threads[step.t], own, rets)
    ensures Finishes(s, s.threads[step.t], Own(s, step) + own, Return(s, step) + rets)
  {
    hide Inv;
    OwnNode(s, step.t);
  }

  lemma OtherFinishes(s: State, step: Step, t: nat, own: seq<Event>, rets: seq<Option<int>>)
    requires Inv(s) && Enabled(s, step) && t < |s.threads| && t != step.t
    requires |Apply(s, step).threads| == |s.threads| && Finishes(Apply(s, step), Apply(s, step).threads[t], own, rets)
    ensures Finishes(s, s.threads[t], own, rets)
  {
    hide Inv, Apply;
    OnlyMover(s, step);
    OwnNode(s, t);
  }

  lemma ByTag(t: nat, e: Option<Event>, rest: seq<(nat, Event)>, u: nat)
    ensures By(Tag(t, e) + rest, u) == (if e.Some? && t == u then [e.value] else []) + By(rest, u)
  {
    ByConcat(Tag(t, e), rest, u);
  }

  lemma {:induction false} CallFinishes(s: State, steps: seq<Step>, t: nat)
    requires Inv(s) && Possible(s, steps) && t < |s.threads|
    requires forall n :: 0 <= n < |steps| && steps[n].t == t ==> !IsCall(steps[n])
    requires t < |Exec(s, steps).threads| && Exec(s, steps).threads[t].Idle?
    ensures Finishes(s, s.threads[t], By(Tagged(s, steps), t), Returns(s, steps, t))
    decreases |steps|
  {
    hide Inv, Apply, Enabled, Finishes, Return, By, NewEvent, Tag;
    if steps == [] {
      NothingLeft(s, t);
    } else {
      var s', step := Apply(s, steps[0]), steps[0];
      StepInv(s, step);
      StepInRange(s, step);
      CallFinishes(s', steps[1..], t);
      var own, rets := By(Tagged(s', steps[1..]), t), Returns(s', steps[1..], t);
      ByTag(step.t, NewEvent(s, s'), Tagged(s', steps[1..]), t);
      if step.t == t {
        MoverFinishes(s, step, own, rets);
      } else {
        OtherFinishes(s, step, t, own, rets);
        assert [] + own == own && [] + rets == rets;
      }
    }
  }

  lemma NothingLeft(s: State, t: nat)
    requires t < |s.threads| && s.threads[t].Idle?
    ensures By<Event>([], t) == [] && Finishes(s, s.threads[t], By([], t), [])
  {
  }

  /** The one event of a completed call: that of its own argument, or of what it returned. */
  ghost predicate HasItsEvent(call: Step, own: seq<Event>, rets: seq<Option<int>>) {
    if call.CallPush? then own == [Pushed(call.value)] && rets == []
    else |rets| == 1 && own == [PopEvent(rets[0])]
  }

  lemma CallStarts(s: State, call: Step, own: seq<Event>, rets: seq<Option<int>>)
    requires Enabled(s, call) && IsCall(call)
    requires Finishes(Apply(s, call), Apply(s, call).threads[call.t], own, rets)
    ensures NewEvent(s, Apply(s, call)) == None && Return(s, call) == []
    ensures HasItsEvent(call, own, rets)
  {
  }

  lemma {:induction false} RunSplits(s: State, before: seq<Step>, during: seq<Step>)
    requires Possible(s, before + during)
    ensures Possible(s, before) && Possible(Exec(s, before), during)
    ensures Exec(s, before + during) == Exec(Exec(s, before), during)
    ensures Tagged(s, before + during) == Tagged(s, before) + Tagged(Exec(s, before), during)
    decreases |before|
  {
    hide Apply, Enabled, NewEvent, Tag;
    if before == [] {
      assert before + during == during;
    } else {
      assert (before + during)[1..] == before[1..] + during;
      RunSplits(Apply(s, before[0]), before[1..], during);
    }
  }

  /**
   In every run, between the call and the return of each push or pop, its thread makes exactly one
   event: the push of its argument, the pop of the value it returns, or that it found the stack
   empty. With `EveryRun`, every run is thus equivalent to a sequential one with the same calls and
   results, in which each call takes effect at a moment between its start and its end.
   */
  lemma EveryCall(threads: nat, before: seq<Step>, during: seq<Step>, t: nat)
    requires Possible(Initial(threads), before + during)
    requires during != [] && during[0].t == t && IsCall(during[0])
    requires forall n :: 1 <= n < |during| && during[n].t == t ==> !IsCall(during[n])
    requires var e := Exec(Initial(threads), before + during); t < |e.threads| && e.threads[t].Idle?
    ensures var i := Initial(threads);
            && Possible(i, before) && Possible(Exec(i, before), during)
            && var events := Tagged(Exec(i, before), during);
               && Exec(i, before + during).events == Exec(i, before).events + Untag(events)
               && HasItsEvent(during[0], By(events, t), Returns(Exec(i, before), during, t))
  {
    hide Inv, Apply, Enabled, Finishes, HasItsEvent, By, NewEvent, Tag, Return;
    var i := Initial(threads);
    RunSplits(i, before, during);
    var s := Exec(i, before);
    InitialInv(threads);
    RunInv(i, before);
    TaggedIsHistory(s, during);
    var s' := Apply(s, during[0]);
    StepInv(s, during[0]);
    StepInRange(s, during[0]);
    CallFinishes(s', during[1..], t);
    var own, rets := By(Tagged(s', during[1..]), t), Returns(s', during[1..], t);
    CallStarts(s, during[0], own, rets);
    ByTag(t, NewEvent(s, s'), Tagged(s', during[1..]), t);
    assert [] + own == own && [] + rets == rets;
  }

  lemma StepInRange(s: State, step: Step)
    requires Enabled(s, step)
    ensures step.t < |s.threads| == |Apply(s, step).threads|
  {
  }

  // ---------------------------------------------------------------- lock-freedom

  /** What a thread expects the head to be when it swaps. */
  function Expects(s: State, th: Thread): int {
    match th
    case Linked(n) => if n < |s.nodes| then s.nodes[n].next else NULL
    case Loaded(h) => h
    case Prepared(h, _) => h
    case _ => s.head
  }

  predicate Stale(s: State, t: nat) {
    t < |s.threads| && Expects(s, s.threads[t]) != s.head
  }

  predicate IsSwap(step: Step) {
    step.SwapForPush? || step.SwapForPop?
  }

  /** The step compares with the head, or loads it. */
  predicate Refreshes(step: Step) {
    step.LoadForPush? || step.LoadForPop? || IsSwap(step)
  }

  /** The swap finds the head that its thread expects. */
  predicate Succeeds(s: State, step: Step) {
    Enabled(s, step) && IsSwap(step) && !step.spurious && !Stale(s, step.t)
  }

  /** The swap fails because the head is not the expected one. */
  predicate Overtaken(s: State, step: Step) {
    Enabled(s, step) && IsSwap(step) && !step.spurious && Stale(s, step.t)
  }

  /** Only a successful swap moves the head, and every successful swap completes a push or a pop. */
  lemma HeadMoves(s: State, step: Step)
    requires Inv(s) && Enabled(s, step)
    ensures !Succeeds(s, step) ==> Apply(s, step).head == s.head
    ensures Succeeds(s, step) ==> var s' := Apply(s, step);
                                  |s'.events| == |s.events| + 1 && !s'.events[|s.events|].WasEmpty?
  {
    hide Linearized, Exclusive, Chain, Sound;
  }

  /** While no swap succeeds nobody becomes stale, and loads and failed swaps bring their thread up to date. */
  lemma StaleStep(s: State, step: Step, t: nat)
    requires Inv(s) && Enabled(s, step) && !Succeeds(s, step)
    ensures Stale(Apply(s, step), t) ==> Stale(s, t)
    ensures t == step.t && Refreshes(step) ==> !Stale(Apply(s, step), t)
  {
    hide Linearized, Chain;
    assert Sound(s, s.threads[step.t]);
    if t < |s.threads| {
      assert Sound(s, s.threads[t]);
    }
  }

  /** A thread whose swap is overtaken was up to date at its last load: since then another thread's swap has succeeded. */
  lemma {:induction false} OvertakenByAnother(s: State, steps: seq<Step>, t: nat) returns (k: nat)
    requires Inv(s) && Possible(s, steps) && !Stale(s, t) && Stale(Exec(s, steps), t)
    requires forall n :: 0 <= n < |steps| && steps[n].t == t ==> !IsSwap(steps[n])
    ensures k < |steps| && steps[k].t != t && Possible(s, steps[..k]) && Succeeds(Exec(s, steps[..k]), steps[k])
    decreases |steps|
  {
    hide Inv, Apply, Enabled, Stale;
    assert steps != [];
    if Succeeds(s, steps[0]) {
      k := 0;
    } else {
      StaleStep(s, steps[0], t);
      StepInv(s, steps[0]);
      k := OvertakenByAnother(Apply(s, steps[0]), steps[1..], t);
      assert steps[..k + 1][1..] == steps[1..][..k];
      k := k + 1;
    }
  }

  function StaleCount(s: State, n: nat): (c: nat)
    requires n <= |s.threads|
    ensures c <= n
  {
    if n == 0 then 0 else StaleCount(s, n - 1) + if Stale(s, n - 1) then 1 else 0
  }

  lemma {:induction false} StaleCountFalls(s: State, s': State, n: nat, t: int)
    requires n <= |s.threads| == |s'.threads|
    requires forall u :: 0 <= u < n && Stale(s', u) ==> Stale(s, u)
    requires 0 <= t < n ==> Stale(s, t) && !Stale(s', t)
    ensures StaleCount(s', n) + (if 0 <= t < n then 1 else 0) <= StaleCount(s, n)
  {
    if n > 0 {
      StaleCountFalls(s, s', n - 1, t);
    }
  }

  function Successes(s: State, steps: seq<Step>): nat
    requires Possible(s, steps)
    decreases |steps|
  {
    if steps == [] then 0
    else (if Succeeds(s, steps[0]) then 1 else 0) + Successes(Apply(s, steps[0]), steps[1..])
  }

  function Failures(s: State, steps: seq<Step>): nat
    requires Possible(s, steps)
    decreases |steps|
  {
    if steps == [] then 0
    else (if Overtaken(s, steps[0]) then 1 else 0) + Failures(Apply(s, steps[0]), steps[1..])
  }

  lemma StepPays(s: State, step: Step)
    requires Inv(s) && Enabled(s, step)
    ensures var s', n := Apply(s, step), |s.threads|;
            && |s'.threads| == n
            && StaleCount(s', n) + (if Overtaken(s, step) then 1 else 0)
               <= StaleCount(s, n) + if Succeeds(s, step) then n else 0
  {
    hide Inv, StaleCount, Stale;
    var s' := Apply(s, step);
    if !Succeeds(s, step) {
      forall u: nat ensures Stale(s', u) ==> Stale(s, u) {
        StaleStep(s, step, u);
      }
      StaleStep(s, step, step.t);
      StaleCountFalls(s, s', |s.threads|, if Overtaken(s, step) then step.t else -1);
    }
  }

  lemma {:induction false} RunPays(s: State, steps: seq<Step>)
    requires Inv(s) && Possible(s, steps)
    ensures var n := |s.threads|;
            Failures(s, steps) <= n * Successes(s, steps) + StaleCount(s, n)
    decreases |steps|
  {
    hide Inv, Apply, Enabled, StaleCount, Succeeds, Overtaken;
    if steps != [] {
      StepInv(s, steps[0]);
      StepPays(s, steps[0]);
      RunPays(Apply(s, steps[0]), steps[1..]);
    }
  }

  /** Lock-freedom: in every run each successful swap accounts for at most one overtaken swap per thread. */
  lemma LockFree(threads: nat, steps: seq<Step>)
    requires Possible(Initial(threads), steps)
    ensures Failures(Initial(threads), steps) <= threads * Successes(Initial(threads), steps)
  {
    var i := Initial(threads);
    InitialInv(threads);
    RunPays(i, steps);
    NobodyStale(i, threads);
  }

  lemma {:induction false} NobodyStale(s: State, n: nat)
    requires n <= |s.threads| && forall t :: 0 <= t < |s.threads| ==> !Stale(s, t)
    ensures StaleCount(s, n) == 0
  {
    if n > 0 {
      NobodyStale(s, n - 1);
    }
  }
}
