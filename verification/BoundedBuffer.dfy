/**
 The blocking circular buffer with its two condition variables, as a state machine: each
 section under the mutex (including the notification made there) and each wake-up is one
 step, for any number of producers and consumers and any interleaving.
 */
module BoundedBuffer {
  import opened Options

  type Item = int

  /**
   A thread is outside the buffer, with the result of its last call, or inside a call with an
   argument: about to lock the buffer, asleep on its condition variable, or woken from it.
   */
  datatype Thread<+T, +R> = Outside(result: R) | Ready(arg: T) | Asleep(arg: T) | Woken(arg: T)

  /** The ring and its threads. `accepted` and `popped` are history: all items pushed and popped so far. */
  datatype State = State(buffer: seq<Item>, head: nat, tail: nat, size: nat, running: bool,
                         producers: seq<Thread<Item, bool>>, consumers: seq<Thread<(), Option<Item>>>,
                         accepted: seq<Item>, popped: seq<Item>)

  /** `target` is the sleeping thread that a notification wakes, or `NOBODY` if none sleeps. */
  datatype Step =
    | CallPush(p: nat, item: Item)
    | CallPop(c: nat)
    | EnterPush(p: nat, target: int)
    | EnterPop(c: nat, target: int)
    | SpuriousPush(p: nat)
    | SpuriousPop(c: nat)
    | Stop

  const NOBODY := -1

  predicate SomeAsleep<T, R>(ts: seq<Thread<T, R>>) {
    exists i :: 0 <= i < |ts| && ts[i].Asleep?
  }

  predicate CanEnter<T, R>(ts: seq<Thread<T, R>>, i: nat) {
    i < |ts| && (ts[i].Ready? || ts[i].Woken?)
  }

  predicate IsTarget<T, R>(ts: seq<Thread<T, R>>, target: int) {
    if SomeAsleep(ts) then 0 <= target < |ts| && ts[target].Asleep? else target == NOBODY
  }

  function Wake<T, R>(ts: seq<Thread<T, R>>, target: int): (r: seq<Thread<T, R>>)
    requires IsTarget(ts, target)
    ensures |r| == |ts| && forall i :: 0 <= i < |ts| ==> r[i] == if i == target then Woken(ts[i].arg) else ts[i]
  {
    if target == NOBODY then ts else ts[target := Woken(ts[target].arg)]
  }

  function WakeAll<T, R>(ts: seq<Thread<T, R>>): (r: seq<Thread<T, R>>)
    ensures |r| == |ts| && forall i :: 0 <= i < |ts| ==> r[i] == if ts[i].Asleep? then Woken(ts[i].arg) else ts[i]
  {
    seq(|ts|, i requires 0 <= i < |ts| => if ts[i].Asleep? then Woken(ts[i].arg) else ts[i])
  }

  /** The next slot of a ring of `n`. */
  function Advance(i: nat, n: nat): (r: nat)
    requires i < n
    ensures r == if i + 1 < n then i + 1 else 0
  {
    (i + 1) % n
  }

  predicate Ring(s: State) {
    && s.size <= |s.buffer|
    && (|s.buffer| == 0 ==> s.head == 0 && s.tail == 0)
    && (|s.buffer| > 0 ==> s.head < |s.buffer| && s.tail < |s.buffer|)
    && (s.head == s.tail + s.size || s.head == s.tail + s.size - |s.buffer|)
  }

  predicate Enabled(s: State, step: Step) {
    && Ring(s)
    && match step
       case CallPush(p, _) => p < |s.producers| && s.producers[p].Outside?
       case CallPop(c) => c < |s.consumers| && s.consumers[c].Outside?
       case EnterPush(p, target) => CanEnter(s.producers, p) && IsTarget(s.consumers, target)
       case EnterPop(c, target) => CanEnter(s.consumers, c) && IsTarget(s.producers, target)
       case SpuriousPush(p) => p < |s.producers| && s.producers[p].Asleep?
       case SpuriousPop(c) => c < |s.consumers| && s.consumers[c].Asleep?
       case Stop => true
  }

  /** `push` with the mutex held: wait while full, give up once stopped, else store and notify a consumer. */
  function EnterPushBy(s: State, p: nat, target: int): State
    requires Ring(s) && CanEnter(s.producers, p) && IsTarget(s.consumers, target)
  {
    var item := s.producers[p].arg;
    if s.size == |s.buffer| && s.running then s.(producers := s.producers[p := Asleep(item)])
    else if !s.running then s.(producers := s.producers[p := Outside(false)])
    else
      s.(buffer := s.buffer[s.head := item], head := Advance(s.head, |s.buffer|), size := s.size + 1,
         producers := s.producers[p := Outside(true)], consumers := Wake(s.consumers, target),
         accepted := s.accepted + [item])
  }

  /** `pop` with the mutex held: wait while empty, give up once stopped and empty, else take and notify a producer. */
  function EnterPopBy(s: State, c: nat, target: int): State
    requires Ring(s) && CanEnter(s.consumers, c) && IsTarget(s.producers, target)
  {
    if s.size == 0 && s.running then s.(consumers := s.consumers[c := Asleep(())])
    else if s.size == 0 then s.(consumers := s.consumers[c := Outside(None)])
    else
      s.(tail := Advance(s.tail, |s.buffer|), size := s.size - 1,
         consumers := s.consumers[c := Outside(Some(s.buffer[s.tail]))], producers := Wake(s.producers, target),
         popped := s.popped + [s.buffer[s.tail]])
  }

  function Apply(s: State, step: Step): State
    requires Enabled(s, step)
  {
    match step
    case CallPush(p, item) => s.(producers := s.producers[p := Ready(item)])
    case CallPop(c) => s.(consumers := s.consumers[c := Ready(())])
    case EnterPush(p, target) => EnterPushBy(s, p, target)
    case EnterPop(c, target) => EnterPopBy(s, c, target)
    case SpuriousPush(p) => s.(producers := s.producers[p := Woken(s.producers[p].arg)])
    case SpuriousPop(c) => s.(consumers := s.consumers[c := Woken(())])
    case Stop => s.(running := false, producers := WakeAll(s.producers), consumers := WakeAll(s.consumers))
  }

  function Initial(capacity: nat, producers: nat, consumers: nat): State {
    State(seq(capacity, _ => 0), 0, 0, 0, true, seq(producers, _ => Outside(false)), seq(consumers, _ => Outside(None)), [], [])
  }

  // ---------------------------------------------------------------- the ring is a queue

  function At(s: State, i: nat): Item
    requires Ring(s) && i < s.size
  {
    if s.tail + i < |s.buffer| then s.buffer[s.tail + i] else s.buffer[s.tail + i - |s.buffer|]
  }

  /** The items in the ring, oldest first. */
  function Contents(s: State): (q: seq<Item>)
    requires Ring(s)
    ensures |q| == s.size && forall i :: 0 <= i < s.size ==> q[i] == At(s, i)
  {
    seq(s.size, i requires 0 <= i < s.size => At(s, i))
  }

  /** What was accepted has been popped, in order, or is still in the ring. */
  ghost predicate Queue(s: State) {
    Ring(s) && s.accepted == s.popped + Contents(s)
  }

  lemma PushKeepsQueue(s: State, p: nat, target: int)
    requires Queue(s) && CanEnter(s.producers, p) && IsTarget(s.consumers, target)
    ensures Queue(EnterPushBy(s, p, target))
  {
    hide Advance, Wake;
    var s' := EnterPushBy(s, p, target);
    if s.running && s.size < |s.buffer| {
      assert Contents(s') == Contents(s) + [s.producers[p].arg];
    } else {
      assert Contents(s') == Contents(s);
    }
  }

  lemma PopKeepsQueue(s: State, c: nat, target: int)
    requires Queue(s) && CanEnter(s.consumers, c) && IsTarget(s.producers, target)
    ensures Queue(EnterPopBy(s, c, target))
  {
    hide Advance, Wake;
    var s' := EnterPopBy(s, c, target);
    if s.size > 0 {
      assert Contents(s) == [s.buffer[s.tail]] + Contents(s');
    } else {
      assert Contents(s') == Contents(s);
    }
  }

  lemma StepKeepsQueue(s: State, step: Step)
    requires Queue(s) && Enabled(s, step)
    ensures Queue(Apply(s, step)) && |Apply(s, step).buffer| == |s.buffer|
    ensures s.popped <= Apply(s, step).popped && s.accepted <= Apply(s, step).accepted
    ensures !s.running ==> Apply(s, step).accepted == s.accepted && !Apply(s, step).running
  {
    hide Contents;
    match step
    case EnterPush(p, target) => PushKeepsQueue(s, p, target);
    case EnterPop(c, target) => PopKeepsQueue(s, c, target);
    case _ => SameRing(s, Apply(s, step));
  }

  lemma SameRing(s: State, s': State)
    requires Ring(s) && s'.buffer == s.buffer && s'.head == s.head && s'.tail == s.tail && s'.size == s.size
    ensures Ring(s') && Contents(s') == Contents(s)
  {
  }

  // ---------------------------------------------------------------- wake-ups

  function WokenCount<T, R>(ts: seq<Thread<T, R>>): nat {
    if ts == [] then 0 else WokenCount(ts[..|ts| - 1]) + if ts[|ts| - 1].Woken? then 1 else 0
  }

  lemma {:induction false} WokenUpdate<T, R>(ts: seq<Thread<T, R>>, i: nat, x: Thread<T, R>)
    requires i < |ts|
    ensures WokenCount(ts[i := x]) + (if ts[i].Woken? then 1 else 0) == WokenCount(ts) + if x.Woken? then 1 else 0
  {
    var n := |ts| - 1;
    if i == n {
      assert ts[i := x][..n] == ts[..n];
    } else {
      assert ts[i := x][..n] == ts[..n][i := x];
      WokenUpdate(ts[..n], i, x);
    }
  }

  /** While one of the threads sleeps, there is a woken one for each of the `available` units it could use. */
  ghost predicate Covered<T, R>(ts: seq<Thread<T, R>>, available: int) {
    SomeAsleep(ts) ==> available <= WokenCount(ts)
  }

  /** One more unit and a notification: still covered. */
  lemma NotifyCovers<T, R>(ts: seq<Thread<T, R>>, available: int, target: int)
    requires Covered(ts, available) && IsTarget(ts, target)
    ensures Covered(Wake(ts, target), available + 1)
  {
    if target != NOBODY {
      WokenUpdate(ts, target, Woken(ts[target].arg));
    }
  }

  /** A thread that enters and uses up a unit, or finds none to use: still covered. */
  lemma EnterCovers<T, R>(ts: seq<Thread<T, R>>, available: int, i: nat, x: Thread<T, R>)
    requires Covered(ts, available) && CanEnter(ts, i) && !x.Asleep?
    ensures Covered(ts[i := x], available - 1)
  {
    WokenUpdate(ts, i, x);
    NoNewSleeper(ts, i, x);
  }

  lemma NoNewSleeper<T, R>(ts: seq<Thread<T, R>>, i: nat, x: Thread<T, R>)
    requires i < |ts| && !x.Asleep?
    ensures SomeAsleep(ts[i := x]) ==> SomeAsleep(ts)
  {
    if SomeAsleep(ts[i := x]) {
      var j :| 0 <= j < |ts| && ts[i := x][j].Asleep?;
      assert ts[j].Asleep?;
    }
  }

  lemma OtherCovers<T, R>(ts: seq<Thread<T, R>>, available: int, i: nat, x: Thread<T, R>)
    requires Covered(ts, available) && i < |ts| && !x.Asleep? && (ts[i].Woken? ==> x.Woken?)
    ensures Covered(ts[i := x], available)
  {
    WokenUpdate(ts, i, x);
    NoNewSleeper(ts, i, x);
  }

  /**
   Items in the ring are covered by woken consumers, free slots by woken producers; once the
   buffer is stopped nobody sleeps.
   */
  ghost predicate Wakeups(s: State) {
    && Covered(s.consumers, s.size)
    && Covered(s.producers, |s.buffer| - s.size)
    && (!s.running ==> !SomeAsleep(s.producers) && !SomeAsleep(s.consumers))
  }

  ghost predicate Inv(s: State) {
    Queue(s) && Wakeups(s)
  }

  lemma PushKeepsWakeups(s: State, p: nat, target: int)
    requires Ring(s) && Wakeups(s) && CanEnter(s.producers, p) && IsTarget(s.consumers, target)
    ensures Wakeups(EnterPushBy(s, p, target))
  {
    if s.running && s.size < |s.buffer| {
      EnterCovers(s.producers, |s.buffer| - s.size, p, Outside(true));
      NotifyCovers(s.consumers, s.size, target);
    } else if !s.running {
      NoNewSleeper(s.producers, p, Outside(false));
    }
  }

  lemma PopKeepsWakeups(s: State, c: nat, target: int)
    requires Ring(s) && Wakeups(s) && CanEnter(s.consumers, c) && IsTarget(s.producers, target)
    ensures Wakeups(EnterPopBy(s, c, target))
  {
    if s.size > 0 {
      var taken := Outside(Some(s.buffer[s.tail]));
      EnterCovers(s.consumers, s.size, c, taken);
      NotifyCovers(s.producers, |s.buffer| - s.size, target);
      if !s.running {
        NoNewSleeper(s.consumers, c, taken);
      }
    } else if !s.running {
      NoNewSleeper(s.consumers, c, Outside(None));
    }
  }

  lemma StepKeepsWakeups(s: State, step: Step)
    requires Ring(s) && Wakeups(s) && Enabled(s, step)
    ensures Wakeups(Apply(s, step))
  {
    match step
    case CallPush(p, item) =>
      OtherCovers(s.producers, |s.buffer| - s.size, p, Ready(item));
      NoNewSleeper(s.producers, p, Ready(item));
    case CallPop(c) =>
      OtherCovers(s.consumers, s.size, c, Ready(()));
      NoNewSleeper(s.consumers, c, Ready(()));
    case EnterPush(p, target) => PushKeepsWakeups(s, p, target);
    case EnterPop(c, target) => PopKeepsWakeups(s, c, target);
    case SpuriousPush(p) =>
      OtherCovers(s.producers, |s.buffer| - s.size, p, Woken(s.producers[p].arg));
    case SpuriousPop(c) =>
      OtherCovers(s.consumers, s.size, c, Woken(()));
    case Stop =>
  }

  // ---------------------------------------------------------------- runs

  lemma InitialInv(capacity: nat, producers: nat, consumers: nat)
    ensures Inv(Initial(capacity, producers, consumers))
  {
  }

  lemma StepInv(s: State, step: Step)
    requires Inv(s) && Enabled(s, step)
    ensures Inv(Apply(s, step))
  {
    hide Wakeups, Contents, Apply;
    StepKeepsQueue(s, step);
    StepKeepsWakeups(s, step);
  }

  ghost predicate Possible(s: State, steps: seq<Step>)
    decreases |steps|
  {
    steps == [] || (Enabled(s, steps[0]) && Possible(Apply(s, steps[0]), steps[1..]))
  }

  ghost function Exec(s: State, steps: seq<Step>): State
    requires Possible(s, steps)
    decreases |steps|
  {
    if steps == [] then s else Exec(Apply(s, steps[0]), steps[1..])
  }

  /** Every run keeps the invariant and the capacity, and once stopped nothing more is accepted. */
  lemma {:induction false} RunKeeps(s: State, steps: seq<Step>)
    requires Inv(s) && Possible(s, steps)
    ensures var e := Exec(s, steps);
            && Inv(e) && |e.buffer| == |s.buffer|
            && s.popped <= e.popped && s.accepted <= e.accepted
            && (!s.running ==> !e.running && e.accepted == s.accepted)
    decreases |steps|
  {
    hide Inv, Apply, Enabled;
    if steps != [] {
      StepInv(s, steps[0]);
      InvQueue(s);
      StepKeepsQueue(s, steps[0]);
      RunKeeps(Apply(s, steps[0]), steps[1..]);
    }
  }

  lemma InvQueue(s: State)
    requires Inv(s)
    ensures Queue(s) && Wakeups(s)
  {
  }

  /**
   Any run of any number of threads: the popped items are a prefix of the accepted ones, the
   difference is what the ring holds, which is never more than its capacity; and after a stop
   nobody sleeps.
   */
  lemma EveryRun(capacity: nat, producers: nat, consumers: nat, steps: seq<Step>)
    requires Possible(Initial(capacity, producers, consumers), steps)
    ensures var e := Exec(Initial(capacity, producers, consumers), steps);
            && e.popped <= e.accepted
            && e.size == |e.accepted| - |e.popped| <= capacity
            && (SomeAsleep(e.consumers) ==> e.size <= WokenCount(e.consumers))
            && (SomeAsleep(e.producers) ==> capacity - e.size <= WokenCount(e.producers))
            && (!e.running ==> !SomeAsleep(e.producers) && !SomeAsleep(e.consumers))
  {
    InitialInv(capacity, producers, consumers);
    RunKeeps(Initial(capacity, producers, consumers), steps);
  }

  /** The call of `pop` by `c` ends without an item. */
  predicate PopFails(s: State, c: nat, target: int)
    requires Enabled(s, EnterPop(c, target))
  {
    EnterPopBy(s, c, target).consumers[c] == Outside(None)
  }

  predicate PushFails(s: State, p: nat, target: int)
    requires Enabled(s, EnterPush(p, target))
  {
    EnterPushBy(s, p, target).producers[p] == Outside(false)
  }

  /** A pop fails exactly when the buffer is stopped and everything ever accepted has been popped; a push exactly when it is stopped. */
  lemma FailuresExplained(s: State, i: nat, target: int)
    requires Inv(s)
    ensures Enabled(s, EnterPop(i, target)) ==>
              (PopFails(s, i, target) <==> !s.running && s.popped == s.accepted)
    ensures Enabled(s, EnterPush(i, target)) ==>
              (PushFails(s, i, target) <==> !s.running)
  {
    assert |s.accepted| == |s.popped| + s.size;
    if s.size == 0 {
      assert s.popped == s.accepted;
    }
  }

  // ---------------------------------------------------------------- no deadlock

  lemma {:induction false} SomeWoken<T, R>(ts: seq<Thread<T, R>>) returns (i: nat)
    requires WokenCount(ts) > 0
    ensures i < |ts| && ts[i].Woken?
  {
    if ts[|ts| - 1].Woken? {
      i := |ts| - 1;
    } else {
      i := SomeWoken(ts[..|ts| - 1]);
    }
  }

  lemma HasTarget<T, R>(ts: seq<Thread<T, R>>) returns (target: int)
    ensures IsTarget(ts, target)
  {
    if SomeAsleep(ts) {
      target :| 0 <= target < |ts| && ts[target].Asleep?;
    } else {
      target := NOBODY;
    }
  }

  /** The step lets a thread into the buffer and out again, its call completed. */
  ghost predicate Serves(s: State, step: Step) {
    && Enabled(s, step)
    && match step
       case EnterPush(p, _) => Apply(s, step).producers[p].Outside?
       case EnterPop(c, _) => Apply(s, step).consumers[c].Outside?
       case _ => false
  }

  /**
   Nobody waits without reason: if a consumer is inside and there is an item, or a producer is
   inside and there is room, or anyone is inside a stopped buffer, then some thread can enter and
   complete its call.
   */
  lemma SomeoneIsServed(s: State) returns (step: Step)
    requires Inv(s)
    requires (exists c :: 0 <= c < |s.consumers| && !s.consumers[c].Outside? && (s.size > 0 || !s.running)) ||
             (exists p :: 0 <= p < |s.producers| && !s.producers[p].Outside? && (s.size < |s.buffer| || !s.running))
    ensures Serves(s, step)
  {
    hide Queue, Contents;
    assert Ring(s) by {
      InvQueue(s);
      QueueRing(s);
    }
    if c: nat :| c < |s.consumers| && !s.consumers[c].Outside? && (s.size > 0 || !s.running) {
      var i := c;
      if s.consumers[c].Asleep? {
        i := SomeWoken(s.consumers);
      }
      var target := HasTarget(s.producers);
      step := EnterPop(i, target);
    } else {
      var p: nat :| p < |s.producers| && !s.producers[p].Outside? && (s.size < |s.buffer| || !s.running);
      var i := p;
      if s.producers[p].Asleep? {
        i := SomeWoken(s.producers);
      }
      var target := HasTarget(s.consumers);
      step := EnterPush(i, target);
    }
  }

  lemma QueueRing(s: State)
    requires Queue(s)
    ensures Ring(s)
  {
  }

  /** Producers and consumers of a buffer with room for something are never all asleep at once. */
  lemma NeverAllAsleep(s: State)
    requires Inv(s) && |s.buffer| >= 1 && SomeAsleep(s.producers) && SomeAsleep(s.consumers)
    ensures (exists p :: 0 <= p < |s.producers| && s.producers[p].Woken?) ||
            (exists c :: 0 <= c < |s.consumers| && s.consumers[c].Woken?)
  {
    if WokenCount(s.producers) > 0 {
      var i := SomeWoken(s.producers);
    } else {
      var i := SomeWoken(s.consumers);
    }
  }

  // ---------------------------------------------------------------- stopping

  function InsideCount<T, R>(ts: seq<Thread<T, R>>): nat {
    if ts == [] then 0 else InsideCount(ts[..|ts| - 1]) + if ts[|ts| - 1].Outside? then 0 else 1
  }

  lemma {:induction false} InsideUpdate<T, R>(ts: seq<Thread<T, R>>, i: nat, x: Thread<T, R>)
    requires i < |ts| && !ts[i].Outside? && x.Outside?
    ensures InsideCount(ts[i := x]) == InsideCount(ts) - 1
  {
    var n := |ts| - 1;
    if i == n {
      assert ts[i := x][..n] == ts[..n];
    } else {
      assert ts[i := x][..n] == ts[..n][i := x];
      InsideUpdate(ts[..n], i, x);
    }
  }

  lemma {:induction false} SomeInside<T, R>(ts: seq<Thread<T, R>>) returns (i: nat)
    requires InsideCount(ts) > 0
    ensures i < |ts| && !ts[i].Outside?
  {
    if !ts[|ts| - 1].Outside? {
      i := |ts| - 1;
    } else {
      i := SomeInside(ts[..|ts| - 1]);
    }
  }

  /** The number of calls in progress. */
  function Inside(s: State): nat {
    InsideCount(s.producers) + InsideCount(s.consumers)
  }

  predicate IsCall(step: Step) {
    step.CallPush? || step.CallPop? || step.Stop?
  }

  /** In a stopped buffer every step of a call in progress completes it. */
  lemma StoppedStep(s: State, step: Step)
    requires Inv(s) && !s.running && Enabled(s, step) && !IsCall(step)
    ensures Inside(Apply(s, step)) == Inside(s) - 1 && !Apply(s, step).running
  {
    hide Queue, InsideCount;
    match step
    case EnterPush(p, _) => InsideUpdate(s.producers, p, Apply(s, step).producers[p]);
    case EnterPop(c, _) => InsideUpdate(s.consumers, c, Apply(s, step).consumers[c]);
    case SpuriousPush(p) =>
    case SpuriousPop(c) =>
  }

  /**
   After a stop, under every schedule, the calls in progress complete in exactly as many steps as
   there are of them: as long as one is left, some step completes one, and no step does anything else.
   */
  lemma {:induction false} StopReleasesAll(s: State, steps: seq<Step>)
    requires Inv(s) && !s.running && Possible(s, steps) && forall n :: 0 <= n < |steps| ==> !IsCall(steps[n])
    ensures var e := Exec(s, steps);
            && |steps| + Inside(e) == Inside(s)
            && (Inside(e) > 0 ==> exists step :: Serves(e, step))
    decreases |steps|
  {
    hide Inv, Apply, Enabled, Serves, Inside;
    if steps == [] {
      if Inside(s) > 0 {
        var step := StopServes(s);
      }
    } else {
      StoppedStep(s, steps[0]);
      StepInv(s, steps[0]);
      StopReleasesAll(Apply(s, steps[0]), steps[1..]);
    }
  }

  lemma StopServes(s: State) returns (step: Step)
    requires Inv(s) && !s.running && Inside(s) > 0
    ensures Serves(s, step)
  {
    hide Inv, Serves;
    if InsideCount(s.producers) > 0 {
      var p := SomeInside(s.producers);
    } else {
      var c := SomeInside(s.consumers);
    }
    step := SomeoneIsServed(s);
  }

  // ---------------------------------------------------------------- nobody is held up

  /** A push or pop moves its own thread and wakes at most the one that it notifies; only a stop wakes everybody. */
  lemma OnlyNamed(s: State, step: Step, i: nat)
    requires Enabled(s, step) && !step.Stop?
    ensures var s' := Apply(s, step);
            && |s'.producers| == |s.producers| && |s'.consumers| == |s.consumers|
            && (i < |s.producers| && s'.producers[i] != s.producers[i] ==>
                  if step.EnterPop? then step.target == i && s'.producers[i] == Woken(s.producers[i].arg)
                  else (step.CallPush? || step.EnterPush? || step.SpuriousPush?) && step.p == i)
            && (i < |s.consumers| && s'.consumers[i] != s.consumers[i] ==>
                  if step.EnterPush? then step.target == i && s'.consumers[i] == Woken(s.consumers[i].arg)
                  else (step.CallPop? || step.EnterPop? || step.SpuriousPop?) && step.c == i)
  {
    hide Ring;
  }

  /** What the threads can do in every reachable state: call from outside, enter when not asleep, wake up spuriously when asleep. */
  lemma EveryoneCanMove(s: State, p: nat, c: nat, item: Item)
    requires Inv(s) && p < |s.producers| && c < |s.consumers|
    ensures s.producers[p].Outside? ==> Enabled(s, CallPush(p, item))
    ensures s.consumers[c].Outside? ==> Enabled(s, CallPop(c))
    ensures s.producers[p].Ready? || s.producers[p].Woken? ==>
              forall target :: IsTarget(s.consumers, target) ==> Enabled(s, EnterPush(p, target))
    ensures s.consumers[c].Ready? || s.consumers[c].Woken? ==>
              forall target :: IsTarget(s.producers, target) ==> Enabled(s, EnterPop(c, target))
    ensures s.producers[p].Asleep? ==> Enabled(s, SpuriousPush(p)) && IsTarget(s.producers, p)
    ensures s.consumers[c].Asleep? ==> Enabled(s, SpuriousPop(c)) && IsTarget(s.consumers, c)
    ensures Enabled(s, Stop)
  {
  }
}
