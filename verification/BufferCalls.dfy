/**
 The bounded buffer as its callers see it: what whole runs return, in terms of the arguments of
 the calls.
 */
module BufferCalls {
  import opened BoundedBuffer
  import opened Options
  import opened Tags

  // ---------------------------------------------------------------- arguments and results of the calls

  /** The arguments of the push calls of producer `p`, in order. */
  ghost function Arguments(steps: seq<Step>, p: nat): seq<Item> {
    if steps == [] then [] else Argument(steps[0], p) + Arguments(steps[1..], p)
  }

  function Argument(step: Step, p: nat): seq<Item> {
    if step.CallPush? && step.p == p then [step.item] else []
  }

  /** What a step returns from the push of its producer, if it does. */
  function PushReturn(s: State, step: Step): seq<(nat, bool)>
    requires Enabled(s, step)
  {
    if step.EnterPush? && Apply(s, step).producers[step.p].Outside? then [(step.p, Apply(s, step).producers[step.p].result)] else []
  }

  /** What a step returns from the pop of its consumer, if it does. */
  function PopReturn(s: State, step: Step): seq<(nat, Option<Item>)>
    requires Enabled(s, step)
  {
    if step.EnterPop? && Apply(s, step).consumers[step.c].Outside? then [(step.c, Apply(s, step).consumers[step.c].result)] else []
  }

  /** What a step puts into the ring, with its producer. */
  function Accept(s: State, step: Step): seq<(nat, Item)>
    requires Enabled(s, step)
  {
    var s' := Apply(s, step);
    if step.EnterPush? && |s'.accepted| > |s.accepted| then [(step.p, s'.accepted[|s.accepted|])] else []
  }

  ghost function PushReturns(s: State, steps: seq<Step>): seq<(nat, bool)>
    requires Possible(s, steps)
    decreases |steps|
  {
    if steps == [] then [] else PushReturn(s, steps[0]) + PushReturns(Apply(s, steps[0]), steps[1..])
  }

  ghost function PopReturns(s: State, steps: seq<Step>): seq<(nat, Option<Item>)>
    requires Possible(s, steps)
    decreases |steps|
  {
    if steps == [] then [] else PopReturn(s, steps[0]) + PopReturns(Apply(s, steps[0]), steps[1..])
  }

  ghost function Accepts(s: State, steps: seq<Step>): seq<(nat, Item)>
    requires Possible(s, steps)
    decreases |steps|
  {
    if steps == [] then [] else Accept(s, steps[0]) + Accepts(Apply(s, steps[0]), steps[1..])
  }

  /** The argument of a call in progress. */
  function Pending<T, R>(th: Thread<T, R>): seq<T> {
    if th.Outside? then [] else [th.arg]
  }

  /** The arguments whose call has returned true. */
  function Successful(args: seq<Item>, oks: seq<bool>): seq<Item>
    requires |oks| <= |args|
  {
    if oks == [] then [] else (if oks[0] then [args[0]] else []) + Successful(args[1..], oks[1..])
  }

  /** The items among results. */
  function Items(results: seq<Option<Item>>): seq<Item> {
    if results == [] then [] else (if results[0].Some? then [results[0].value] else []) + Items(results[1..])
  }

  /** One step, as seen by a producer: an argument is pending until its call returns, and is put into the ring if that returns true. */
  lemma ProducerStep(s: State, step: Step, p: nat)
    requires Enabled(s, step) && p < |s.producers|
    ensures var s' := Apply(s, step);
            && |s'.producers| == |s.producers|
            && |PushReturn(s, step)| <= 1 && |Accept(s, step)| <= 1
            && (if PushReturn(s, step) != [] && step.p == p then
                  && Pending(s'.producers[p]) == [] && Argument(step, p) == [] && !s.producers[p].Outside?
                  && Accept(s, step) == if PushReturn(s, step)[0].1 then [(p, s.producers[p].arg)] else []
                else
                  && Pending(s'.producers[p]) == Pending(s.producers[p]) + Argument(step, p)
                  && (step.EnterPush? && step.p == p ==> Accept(s, step) == []))
  {
    hide Ring;
  }

  lemma PushReturnTag(s: State, step: Step)
    requires Enabled(s, step)
    ensures PushReturn(s, step) != [] ==> step.EnterPush? && PushReturn(s, step)[0].0 == step.p
    ensures Accept(s, step) != [] ==> step.EnterPush? && Accept(s, step)[0].0 == step.p
  {
    hide Apply;
  }

  /**
   In every run, what a producer puts into the ring are the arguments of its own push calls that
   returned true, in order; each call returns once, and only the last one may still be in progress.
   */
  lemma {:induction false} ProducerRun(s: State, steps: seq<Step>, p: nat)
    requires Possible(s, steps) && p < |s.producers|
    ensures var e, args, oks := Exec(s, steps), Pending(s.producers[p]) + Arguments(steps, p), By(PushReturns(s, steps), p);
            && p < |e.producers| == |s.producers|
            && |oks| <= |args| && args[|oks|..] == Pending(e.producers[p])
            && By(Accepts(s, steps), p) == Successful(args, oks)
    decreases |steps|
  {
    hide Apply, Enabled, PushReturn, Accept, Argument, By, Pending;
    if steps == [] {
      NothingBy<bool>(p);
      NothingBy<Item>(p);
      assert Pending(s.producers[p]) + [] == Pending(s.producers[p]);
    } else {
      var s', step := Apply(s, steps[0]), steps[0];
      ProducerStep(s, step, p);
      PushReturnTag(s, step);
      ProducerRun(s', steps[1..], p);
      ByConcat(PushReturn(s, step), PushReturns(s', steps[1..]), p);
      ByConcat(Accept(s, step), Accepts(s', steps[1..]), p);
      var args', oks' := Pending(s'.producers[p]) + Arguments(steps[1..], p), By(PushReturns(s', steps[1..]), p);
      var args, oks := Pending(s.producers[p]) + Arguments(steps, p), By(PushReturns(s, steps), p);
      if PushReturn(s, step) != [] && step.p == p {
        PendingIs(s.producers[p]);
        assert args == [s.producers[p].arg] + args' && oks == [PushReturn(s, step)[0].1] + oks';
        assert args[1..] == args' && oks[1..] == oks';
      } else {
        assert args == args';
        assert oks == oks';
      }
    }
  }

  lemma PendingIs<T, R>(th: Thread<T, R>)
    requires !th.Outside?
    ensures Pending(th) == [th.arg]
  {
  }

  /** The items put into the ring, in order, are the history. */
  lemma {:induction false} AcceptsAreHistory(s: State, steps: seq<Step>)
    requires Possible(s, steps)
    ensures Exec(s, steps).accepted == s.accepted + Untag(Accepts(s, steps))
    decreases |steps|
  {
    hide Apply, Enabled, Accept;
    if steps != [] {
      var s' := Apply(s, steps[0]);
      AcceptStep(s, steps[0]);
      AcceptsAreHistory(s', steps[1..]);
      assert Untag(Accepts(s, steps)) == Untag(Accept(s, steps[0])) + Untag(Accepts(s', steps[1..]));
    }
  }

  lemma AcceptStep(s: State, step: Step)
    requires Enabled(s, step)
    ensures Apply(s, step).accepted == s.accepted + Untag(Accept(s, step))
  {
    hide Ring;
  }

  lemma PopStep(s: State, step: Step)
    requires Enabled(s, step)
    ensures Apply(s, step).popped == s.popped + Items(Untag(PopReturn(s, step)))
  {
    hide Ring;
  }

  lemma ItemsConcat(a: seq<Option<Item>>, b: seq<Option<Item>>)
    requires |a| <= 1
    ensures Items(a + b) == Items(a) + Items(b)
  {
    if a == [] {
      assert a + b == b;
    } else {
      assert (a + b)[1..] == b;
      assert a[1..] == [];
    }
  }

  /** The items that the pops return, in order, are the items popped. */
  lemma {:induction false} PopsReturnHistory(s: State, steps: seq<Step>)
    requires Possible(s, steps)
    ensures Exec(s, steps).popped == s.popped + Items(Untag(PopReturns(s, steps)))
    decreases |steps|
  {
    hide Apply, Enabled, PopReturn, Items;
    if steps == [] {
      NoItems();
    } else {
      var s' := Apply(s, steps[0]);
      PopStep(s, steps[0]);
      OnePopReturn(s, steps[0]);
      PopsReturnHistory(s', steps[1..]);
      var now, later := PopReturn(s, steps[0]), PopReturns(s', steps[1..]);
      assert Untag(now + later) == Untag(now) + Untag(later);
      ItemsConcat(Untag(now), Untag(later));
    }
  }

  lemma NoItems()
    ensures Items([]) == []
  {
  }

  lemma OnePopReturn(s: State, step: Step)
    requires Enabled(s, step)
    ensures |PopReturn(s, step)| <= 1 && (PopReturn(s, step) != [] ==> step.EnterPop? && PopReturn(s, step)[0].0 == step.c)
  {
    hide Apply;
  }

  /** The pop calls of consumer `c`. */
  ghost function PopCalls(steps: seq<Step>, c: nat): nat {
    if steps == [] then 0 else (if steps[0] == CallPop(c) then 1 else 0) + PopCalls(steps[1..], c)
  }

  lemma ConsumerStep(s: State, step: Step, c: nat)
    requires Enabled(s, step) && c < |s.consumers|
    ensures var s' := Apply(s, step);
            && |s'.consumers| == |s.consumers|
            && |Pending(s'.consumers[c])| + (if PopReturn(s, step) != [] && step.c == c then 1 else 0)
               == |Pending(s.consumers[c])| + if step == CallPop(c) then 1 else 0
  {
    hide Ring;
  }

  /** Each pop call returns once; only the last one may still be in progress. */
  lemma {:induction false} ConsumerRun(s: State, steps: seq<Step>, c: nat)
    requires Possible(s, steps) && c < |s.consumers|
    ensures var e := Exec(s, steps);
            && c < |e.consumers| == |s.consumers|
            && |By(PopReturns(s, steps), c)| + |Pending(e.consumers[c])| == |Pending(s.consumers[c])| + PopCalls(steps, c)
    decreases |steps|
  {
    hide Apply, Enabled, PopReturn, By, Pending;
    if steps == [] {
      NothingBy<Option<Item>>(c);
    } else {
      var s' := Apply(s, steps[0]);
      ConsumerStep(s, steps[0], c);
      OnePopReturn(s, steps[0]);
      ConsumerRun(s', steps[1..], c);
      ByConcat(PopReturn(s, steps[0]), PopReturns(s', steps[1..]), c);
    }
  }

  /**
   In every run from the start: the items returned by pops, in the order in which these return, are
   the first of the items accepted; these are, for each producer, the arguments of those of its push
   calls that returned true, in order; and every call returns once, if it is not still in progress.
   */
  lemma EveryCall(capacity: nat, producers: nat, consumers: nat, steps: seq<Step>)
    requires Possible(Initial(capacity, producers, consumers), steps)
    ensures var i := Initial(capacity, producers, consumers);
            var e := Exec(i, steps);
            && |e.producers| == producers && |e.consumers| == consumers
            && Items(Untag(PopReturns(i, steps))) == e.popped <= e.accepted == Untag(Accepts(i, steps))
            && (forall p: nat :: p < producers ==>
                  var args, oks := Arguments(steps, p), By(PushReturns(i, steps), p);
                  && |oks| <= |args| && args[|oks|..] == Pending(e.producers[p])
                  && By(Accepts(i, steps), p) == Successful(args, oks))
            && (forall c: nat :: c < consumers ==>
                  |By(PopReturns(i, steps), c)| + |Pending(e.consumers[c])| == PopCalls(steps, c))
  {
    hide Possible, Exec, Apply, Enabled, PopReturns, PushReturns, Accepts, By, Arguments, Items, Untag, Successful, PopCalls;
    var i := Initial(capacity, producers, consumers);
    EveryRun(capacity, producers, consumers, steps);
    ThreadCount(i, steps);
    AcceptsAreHistory(i, steps);
    PopsReturnHistory(i, steps);
    forall p: nat | p < producers
      ensures var args, oks := Arguments(steps, p), By(PushReturns(i, steps), p);
              && |oks| <= |args| && args[|oks|..] == Pending(Exec(i, steps).producers[p])
              && By(Accepts(i, steps), p) == Successful(args, oks)
    {
      ProducerRun(i, steps, p);
      assert [] + Arguments(steps, p) == Arguments(steps, p);
    }
    forall c: nat | c < consumers
      ensures |By(PopReturns(i, steps), c)| + |Pending(Exec(i, steps).consumers[c])| == PopCalls(steps, c)
    {
      ConsumerRun(i, steps, c);
    }
  }

  lemma {:induction false} ThreadCount(s: State, steps: seq<Step>)
    requires Possible(s, steps)
    ensures |Exec(s, steps).producers| == |s.producers| && |Exec(s, steps).consumers| == |s.consumers|
    decreases |steps|
  {
    hide Apply, Enabled;
    if steps != [] {
      SameThreads(s, steps[0]);
      ThreadCount(Apply(s, steps[0]), steps[1..]);
    }
  }

  lemma SameThreads(s: State, step: Step)
    requires Enabled(s, step)
    ensures |Apply(s, step).producers| == |s.producers| && |Apply(s, step).consumers| == |s.consumers|
  {
  }

  // ---------------------------------------------------------------- no item is lost

  function ArgumentBag(th: Thread<Item, bool>): multiset<Item> {
    multiset(Pending(th))
  }

  /** The items of all pushes in progress. */
  function PendingItems(ts: seq<Thread<Item, bool>>): multiset<Item> {
    if ts == [] then multiset{} else PendingItems(ts[..|ts| - 1]) + ArgumentBag(ts[|ts| - 1])
  }

  lemma {:induction false} PendingUpdate(ts: seq<Thread<Item, bool>>, i: nat, x: Thread<Item, bool>)
    requires i < |ts|
    ensures PendingItems(ts[i := x]) + ArgumentBag(ts[i]) == PendingItems(ts) + ArgumentBag(x)
  {
    hide ArgumentBag;
    var n := |ts| - 1;
    if i == n {
      assert ts[i := x][..n] == ts[..n];
    } else {
      assert ts[i := x][..n] == ts[..n][i := x];
      PendingUpdate(ts[..n], i, x);
      AddLast(PendingItems(ts[..n][i := x]), ArgumentBag(ts[i]), PendingItems(ts[..n]), ArgumentBag(x), ArgumentBag(ts[n]));
    }
  }

  lemma AddLast(a: multiset<Item>, b: multiset<Item>, c: multiset<Item>, d: multiset<Item>, last: multiset<Item>)
    requires a + b == c + d
    ensures a + last + b == c + last + d
  {
    assert a + last + b == (a + b) + last && c + last + d == (c + d) + last;
  }

  lemma {:induction false} WakeAllPending(ts: seq<Thread<Item, bool>>)
    ensures PendingItems(WakeAll(ts)) == PendingItems(ts)
  {
    hide ArgumentBag, WakeAll;
    if ts != [] {
      var n := |ts| - 1;
      WakeAllPending(ts[..n]);
      assert WakeAll(ts)[..n] == WakeAll(ts[..n]);
      SameArgument(ts[n], WakeAll(ts)[n]);
    }
  }

  lemma SameArgument(a: Thread<Item, bool>, b: Thread<Item, bool>)
    requires Pending(a) == Pending(b)
    ensures ArgumentBag(a) == ArgumentBag(b)
  {
  }

  lemma SamePending(ts: seq<Thread<Item, bool>>, i: nat, x: Thread<Item, bool>)
    requires i < |ts| && Pending(x) == Pending(ts[i])
    ensures PendingItems(ts[i := x]) == PendingItems(ts)
  {
    PendingUpdate(ts, i, x);
    Cancel(PendingItems(ts[i := x]), PendingItems(ts), ArgumentBag(x));
  }

  lemma Cancel(a: multiset<Item>, b: multiset<Item>, c: multiset<Item>)
    requires a + c == b + c
    ensures a == b
  {
    forall x ensures a[x] == b[x] {
      assert (a + c)[x] == (b + c)[x];
    }
  }

  /** The argument of a push that is called. */
  function Called(step: Step): multiset<Item> {
    if step.CallPush? then multiset{step.item} else multiset{}
  }

  /** The argument of a push that returns false. */
  function Refused(s: State, step: Step): multiset<Item>
    requires Enabled(s, step)
  {
    var r := PushReturn(s, step);
    if r != [] && !r[0].1 then ArgumentBag(s.producers[step.p]) else multiset{}
  }

  lemma StepConserves(s: State, step: Step)
    requires Enabled(s, step)
    ensures var s' := Apply(s, step);
            multiset(s'.accepted) + PendingItems(s'.producers) + Refused(s, step)
            == multiset(s.accepted) + PendingItems(s.producers) + Called(step)
  {
    hide Enabled, PendingItems, Apply, ArgumentBag;
    match step
    case CallPush(p, item) => CallConserves(s, p, item);
    case EnterPush(p, target) => EnterConserves(s, p, target);
    case _ => OthersConserve(s, step);
  }

  /** A step other than of a push leaves the items of pushes alone. */
  lemma OthersConserve(s: State, step: Step)
    requires Enabled(s, step) && !step.CallPush? && !step.EnterPush?
    ensures Apply(s, step).accepted == s.accepted && PendingItems(Apply(s, step).producers) == PendingItems(s.producers)
  {
    hide Ring, PendingItems;
    match step
    case CallPop(c) =>
    case EnterPop(c, target) =>
      if s.size > 0 && target != NOBODY {
        SamePending(s.producers, target, Woken(s.producers[target].arg));
      }
    case SpuriousPush(p) =>
      SamePending(s.producers, p, Woken(s.producers[p].arg));
    case SpuriousPop(c) =>
    case Stop =>
      WakeAllPending(s.producers);
  }

  lemma CallConserves(s: State, p: nat, item: Item)
    requires Enabled(s, CallPush(p, item))
    ensures var s' := Apply(s, CallPush(p, item));
            s'.accepted == s.accepted && PendingItems(s'.producers) == PendingItems(s.producers) + multiset{item}
  {
    hide Ring, PendingItems;
    PendingUpdate(s.producers, p, Ready(item));
    Outsider(s.producers[p]);
    assert ArgumentBag(Ready(item)) == multiset{item};
    assert PendingItems(s.producers[p := Ready(item)]) + multiset{} == PendingItems(s.producers[p := Ready(item)]);
  }

  lemma Outsider(th: Thread<Item, bool>)
    requires th.Outside?
    ensures ArgumentBag(th) == multiset{}
  {
  }

  lemma EnterConserves(s: State, p: nat, target: int)
    requires Enabled(s, EnterPush(p, target))
    ensures var s' := Apply(s, EnterPush(p, target));
            multiset(s'.accepted) + PendingItems(s'.producers) + Refused(s, EnterPush(p, target))
            == multiset(s.accepted) + PendingItems(s.producers)
  {
    hide PendingItems, ArgumentBag, Refused, Ring;
    PendingUpdate(s.producers, p, EnterPushBy(s, p, target).producers[p]);
    PushConserves(s, p, target);
  }

  lemma PushConserves(s: State, p: nat, target: int)
    requires Enabled(s, EnterPush(p, target))
    requires var s' := EnterPushBy(s, p, target);
             PendingItems(s.producers[p := s'.producers[p]]) + ArgumentBag(s.producers[p])
             == PendingItems(s.producers) + ArgumentBag(s'.producers[p])
    ensures var s' := EnterPushBy(s, p, target);
            multiset(s'.accepted) + PendingItems(s'.producers) + Refused(s, EnterPush(p, target))
            == multiset(s.accepted) + PendingItems(s.producers)
  {
    hide Ring, PendingItems;
    var s', arg := EnterPushBy(s, p, target), s.producers[p].arg;
    assert s'.producers == s.producers[p := s'.producers[p]];
    assert ArgumentBag(s.producers[p]) == multiset{arg};
    if s'.producers[p].Outside? {
      assert ArgumentBag(s'.producers[p]) == multiset{};
      assert PendingItems(s.producers) == PendingItems(s'.producers) + multiset{arg};
      if s.running {
        assert multiset(s.accepted + [arg]) == multiset(s.accepted) + multiset{arg};
      }
    } else {
      Cancel(PendingItems(s'.producers), PendingItems(s.producers), multiset{arg});
    }
  }

  ghost function AllCalled(steps: seq<Step>): multiset<Item> {
    if steps == [] then multiset{} else Called(steps[0]) + AllCalled(steps[1..])
  }

  ghost function AllRefused(s: State, steps: seq<Step>): multiset<Item>
    requires Possible(s, steps)
    decreases |steps|
  {
    if steps == [] then multiset{} else Refused(s, steps[0]) + AllRefused(Apply(s, steps[0]), steps[1..])
  }

  lemma {:induction false} RunConserves(s: State, steps: seq<Step>)
    requires Possible(s, steps)
    ensures var e := Exec(s, steps);
            multiset(e.accepted) + PendingItems(e.producers) + AllRefused(s, steps)
            == multiset(s.accepted) + PendingItems(s.producers) + AllCalled(steps)
    decreases |steps|
  {
    hide Apply, Enabled, Refused, Called, PendingItems;
    if steps != [] {
      var s' := Apply(s, steps[0]);
      StepConserves(s, steps[0]);
      RunConserves(s', steps[1..]);
      var e := Exec(s', steps[1..]);
      Chain(multiset(s.accepted) + PendingItems(s.producers), Called(steps[0]), multiset(s'.accepted) + PendingItems(s'.producers),
            Refused(s, steps[0]), AllCalled(steps[1..]), multiset(e.accepted) + PendingItems(e.producers), AllRefused(s', steps[1..]));
    }
  }

  lemma Chain(a: multiset<Item>, c: multiset<Item>, b: multiset<Item>, r: multiset<Item>, c': multiset<Item>, e: multiset<Item>, r': multiset<Item>)
    requires b + r == a + c && e + r' == b + c'
    ensures e + (r + r') == a + (c + c')
  {
    forall x ensures (e + (r + r'))[x] == (a + (c + c'))[x] {
      assert (b + r)[x] == (a + c)[x] && (e + r')[x] == (b + c')[x];
    }
  }

  /** In every run the arguments of all pushes are the items popped, those in the ring, those of pushes in progress and those refused. */
  lemma Conservation(capacity: nat, producers: nat, consumers: nat, steps: seq<Step>)
    requires Possible(Initial(capacity, producers, consumers), steps)
    ensures var i := Initial(capacity, producers, consumers);
            var e := Exec(i, steps);
            && Ring(e)
            && AllCalled(steps) == multiset(e.popped) + multiset(Contents(e)) + PendingItems(e.producers) + AllRefused(i, steps)
  {
    hide Possible, Exec, Apply, Enabled, AllRefused, AllCalled, PendingItems, Contents, Wakeups;
    var i := Initial(capacity, producers, consumers);
    InitialInv(capacity, producers, consumers);
    RunKeeps(i, steps);
    RunConserves(i, steps);
    NobodyPending(i.producers);
    var e := Exec(i, steps);
    InvQueue(e);
    assert multiset(e.popped + Contents(e)) == multiset(e.popped) + multiset(Contents(e));
    assert AllCalled(steps) == multiset{} + multiset{} + AllCalled(steps);
  }

  lemma {:induction false} NobodyPending(ts: seq<Thread<Item, bool>>)
    requires forall p :: 0 <= p < |ts| ==> ts[p].Outside?
    ensures PendingItems(ts) == multiset{}
  {
    if ts != [] {
      NobodyPending(ts[..|ts| - 1]);
    }
  }
}
