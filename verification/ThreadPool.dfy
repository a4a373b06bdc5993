/**
 The thread pool as a state machine: each section under the mutex, each notification,
 each wake-up (also spurious) and each end of a task is one step, for any number of
 workers and any interleaving.
 */
module ThreadPool {
  import opened Tags

  type Task = int

  /**
   Where a worker is: about to lock the mutex at the top of its loop, asleep on the
   condition variable, woken but not yet holding the mutex, running a task, or returned.
   */
  datatype Worker = Ready | Asleep | Woken | Running(task: Task) | Exited

  /**
   `pending` counts the enqueue calls that have released the mutex but not yet notified;
   `announced` says that the destructor's notify_all has happened. The last three fields
   are history: everything enqueued, dequeued and finished so far.
   */
  datatype State = State(workers: seq<Worker>, tasks: seq<Task>, stop: bool, pending: nat, announced: bool,
                         enqueued: seq<Task>, started: seq<Task>, finished: multiset<Task>)

  datatype Step =
    | Enqueue(task: Task)
    | NotifyOne(target: int)
    | SpuriousWake(w: nat)
    | Acquire(w: nat)
    | Finish(w: nat)
    | Stop
    | NotifyAll

  const NOBODY := -1

  function Idle(n: nat): seq<Worker> {
    seq(n, _ => Ready)
  }

  /** A pool asked for `n` threads; it always has at least one. */
  function Initial(n: nat): State {
    State(Idle(if n == 0 then 1 else n), [], false, 0, false, [], [], multiset{})
  }

  predicate SomeAsleep(ws: seq<Worker>) {
    exists w :: 0 <= w < |ws| && ws[w].Asleep?
  }

  /** A worker gets the mutex: it goes to sleep, returns, or takes the oldest task. */
  function AcquireBy(s: State, w: nat): State
    requires w < |s.workers|
  {
    if s.tasks == [] then
      s.(workers := s.workers[w := if s.stop then Exited else Asleep])
    else
      s.(workers := s.workers[w := Running(s.tasks[0])], tasks := s.tasks[1..], started := s.started + [s.tasks[0]])
  }

  function WakeAll(ws: seq<Worker>): (r: seq<Worker>)
    ensures |r| == |ws| && forall w :: 0 <= w < |ws| ==> r[w] == if ws[w].Asleep? then Woken else ws[w]
  {
    seq(|ws|, w requires 0 <= w < |ws| => if ws[w].Asleep? then Woken else ws[w])
  }

  /** Enqueueing and stopping are only legal before the destructor has set the stop flag. */
  predicate Enabled(s: State, step: Step) {
    match step
    case Enqueue(t) => !s.stop
    case NotifyOne(w) =>
      s.pending > 0 && (if SomeAsleep(s.workers) then 0 <= w < |s.workers| && s.workers[w].Asleep? else w == NOBODY)
    case SpuriousWake(w) => w < |s.workers| && s.workers[w].Asleep?
    case Acquire(w) => w < |s.workers| && (s.workers[w].Ready? || s.workers[w].Woken?)
    case Finish(w) => w < |s.workers| && s.workers[w].Running?
    case Stop => !s.stop
    case NotifyAll => s.stop && !s.announced
  }

  function Apply(s: State, step: Step): State
    requires Enabled(s, step)
  {
    match step
    case Enqueue(t) => s.(tasks := s.tasks + [t], pending := s.pending + 1, enqueued := s.enqueued + [t])
    case NotifyOne(w) =>
      s.(pending := s.pending - 1, workers := if w == NOBODY then s.workers else s.workers[w := Woken])
    case SpuriousWake(w) => s.(workers := s.workers[w := Woken])
    case Acquire(w) => AcquireBy(s, w)
    case Finish(w) => s.(workers := s.workers[w := Ready], finished := s.finished + multiset{s.workers[w].task})
    case Stop => s.(stop := true)
    case NotifyAll => s.(announced := true, workers := WakeAll(s.workers))
  }

  // ---------------------------------------------------------------- sums over workers

  function Sum(ws: seq<Worker>, f: Worker -> nat): nat {
    if ws == [] then 0 else Sum(ws[..|ws| - 1], f) + f(ws[|ws| - 1])
  }

  lemma {:induction false} SumUpdate(ws: seq<Worker>, w: nat, x: Worker, f: Worker -> nat)
    requires w < |ws|
    ensures Sum(ws[w := x], f) + f(ws[w]) == Sum(ws, f) + f(x)
  {
    var n := |ws| - 1;
    if w == n {
      assert ws[w := x][..n] == ws[..n];
    } else {
      assert ws[w := x][..n] == ws[..n][w := x];
      SumUpdate(ws[..n], w, x, f);
    }
  }

  function IsWoken(w: Worker): nat {
    if w.Woken? then 1 else 0
  }

  /** The tasks being run. */
  function InProgress(ws: seq<Worker>): multiset<Task> {
    if ws == [] then multiset{}
    else InProgress(ws[..|ws| - 1]) + TaskOf(ws[|ws| - 1])
  }

  function TaskOf(w: Worker): multiset<Task> {
    if w.Running? then multiset{w.task} else multiset{}
  }

  lemma {:induction false} InProgressUpdate(ws: seq<Worker>, w: nat, x: Worker)
    requires w < |ws|
    ensures InProgress(ws[w := x]) + TaskOf(ws[w]) == InProgress(ws) + TaskOf(x)
  {
    hide InProgress, TaskOf;
    var n := |ws| - 1;
    InProgressLast(ws);
    InProgressLast(ws[w := x]);
    if w == n {
      assert ws[w := x][..n] == ws[..n];
      Swapped(InProgress(ws[..n]), TaskOf(x), TaskOf(ws[n]));
    } else {
      assert ws[w := x][..n] == ws[..n][w := x];
      InProgressUpdate(ws[..n], w, x);
      AddBoth(InProgress(ws[..n][w := x]), TaskOf(ws[w]), InProgress(ws[..n]), TaskOf(x), TaskOf(ws[n]));
    }
  }

  lemma InProgressLast(ws: seq<Worker>)
    requires ws != []
    ensures InProgress(ws) == InProgress(ws[..|ws| - 1]) + TaskOf(ws[|ws| - 1])
  {
  }

  lemma Swapped(a: multiset<Task>, b: multiset<Task>, c: multiset<Task>)
    ensures a + b + c == a + c + b
  {
  }

  lemma AddBoth(a: multiset<Task>, b: multiset<Task>, c: multiset<Task>, d: multiset<Task>, e: multiset<Task>)
    requires a + b == c + d
    ensures a + e + b == c + e + d
  {
    assert a + e + b == a + b + e && c + e + d == c + d + e;
  }

  lemma IdleUpdate(ws: seq<Worker>, w: nat, x: Worker)
    requires w < |ws| && !ws[w].Running? && !x.Running?
    ensures InProgress(ws[w := x]) == InProgress(ws)
  {
    InProgressUpdate(ws, w, x);
    assert InProgress(ws[w := x]) + multiset{} == InProgress(ws[w := x]);
    assert InProgress(ws) + multiset{} == InProgress(ws);
  }

  lemma StartUpdate(ws: seq<Worker>, w: nat, t: Task)
    requires w < |ws| && !ws[w].Running?
    ensures InProgress(ws[w := Running(t)]) == InProgress(ws) + multiset{t}
  {
    InProgressUpdate(ws, w, Running(t));
    assert InProgress(ws[w := Running(t)]) + multiset{} == InProgress(ws[w := Running(t)]);
  }

  lemma EndUpdate(ws: seq<Worker>, w: nat)
    requires w < |ws| && ws[w].Running?
    ensures InProgress(ws) == multiset{ws[w].task} + InProgress(ws[w := Ready])
  {
    InProgressUpdate(ws, w, Ready);
    assert InProgress(ws) + multiset{} == InProgress(ws);
  }

  lemma {:induction false} WakeAllInProgress(ws: seq<Worker>)
    ensures InProgress(WakeAll(ws)) == InProgress(ws)
  {
    if ws != [] {
      WakeAllInProgress(ws[..|ws| - 1]);
      assert WakeAll(ws)[..|ws| - 1] == WakeAll(ws[..|ws| - 1]);
    }
  }

  // ---------------------------------------------------------------- invariants

  /** Tasks are dequeued in the order in which they were enqueued. */
  ghost predicate Fifo(s: State) {
    s.enqueued == s.started + s.tasks
  }

  /** Every dequeued task is being run by one worker or has finished once. */
  ghost predicate ExactlyOnce(s: State) {
    multiset(s.started) == s.finished + InProgress(s.workers)
  }

  /** A worker returns only after the stop, with nothing left to do. */
  ghost predicate ExitsDry(s: State) {
    forall w :: 0 <= w < |s.workers| && s.workers[w].Exited? ==> s.stop && s.tasks == []
  }

  /** Once the stop has been announced nobody sleeps. */
  ghost predicate NobodyLeftAsleep(s: State) {
    s.announced ==> s.stop && !SomeAsleep(s.workers)
  }

  /** No wake-up is lost: while a worker sleeps, every queued task has a woken worker or an undelivered notification. */
  ghost predicate NoLostWakeup(s: State) {
    SomeAsleep(s.workers) ==> |s.tasks| <= Sum(s.workers, IsWoken) + s.pending
  }

  ghost predicate Inv(s: State) {
    && |s.workers| >= 1
    && Fifo(s) && ExactlyOnce(s) && ExitsDry(s) && NobodyLeftAsleep(s) && NoLostWakeup(s)
  }

  lemma {:induction false} IdleInProgress(n: nat)
    ensures InProgress(Idle(n)) == multiset{}
  {
    if n > 0 {
      IdleInProgress(n - 1);
      assert Idle(n)[..n - 1] == Idle(n - 1);
    }
  }

  lemma InitialInv(n: nat)
    ensures Inv(Initial(n))
  {
    IdleInProgress(if n == 0 then 1 else n);
  }

  lemma AcquireKeepsOnce(s: State, w: nat)
    requires Enabled(s, Acquire(w)) && ExactlyOnce(s)
    ensures ExactlyOnce(AcquireBy(s, w))
  {
    if s.tasks == [] {
      IdleUpdate(s.workers, w, if s.stop then Exited else Asleep);
    } else {
      hide InProgress;
      var t := s.tasks[0];
      StartUpdate(s.workers, w, t);
      assert multiset(s.started + [t]) == multiset(s.started) + multiset{t};
    }
  }

  lemma StepKeepsOnce(s: State, step: Step)
    requires Enabled(s, step) && ExactlyOnce(s)
    ensures ExactlyOnce(Apply(s, step))
  {
    match step
    case Enqueue(t) =>
    case NotifyOne(w) =>
      if w != NOBODY { IdleUpdate(s.workers, w, Woken); }
    case SpuriousWake(w) => IdleUpdate(s.workers, w, Woken);
    case Acquire(w) => AcquireKeepsOnce(s, w);
    case Finish(w) => EndUpdate(s.workers, w);
    case Stop =>
    case NotifyAll => WakeAllInProgress(s.workers);
  }

  lemma StepKeepsWakeups(s: State, step: Step)
    requires Enabled(s, step) && NoLostWakeup(s)
    ensures NoLostWakeup(Apply(s, step))
  {
    match step
    case Enqueue(t) =>
    case NotifyOne(w) =>
      if w != NOBODY { SumUpdate(s.workers, w, Woken, IsWoken); }
    case SpuriousWake(w) =>
      SumUpdate(s.workers, w, Woken, IsWoken);
    case Acquire(w) =>
      if s.tasks != [] {
        SumUpdate(s.workers, w, Running(s.tasks[0]), IsWoken);
        StillAsleep(s.workers, w, Running(s.tasks[0]));
      }
    case Finish(w) =>
      SumUpdate(s.workers, w, Ready, IsWoken);
      StillAsleep(s.workers, w, Ready);
    case Stop =>
    case NotifyAll =>
  }

  /** A worker that does not go to sleep adds no sleeper. */
  lemma StillAsleep(ws: seq<Worker>, w: nat, x: Worker)
    requires w < |ws| && !x.Asleep?
    ensures SomeAsleep(ws[w := x]) ==> SomeAsleep(ws)
  {
    if SomeAsleep(ws[w := x]) {
      var v :| 0 <= v < |ws| && ws[w := x][v].Asleep?;
      assert ws[v].Asleep?;
    }
  }

  lemma StepInv(s: State, step: Step)
    requires Inv(s) && Enabled(s, step)
    ensures Inv(Apply(s, step))
  {
    hide ExactlyOnce, NoLostWakeup, ExitsDry, NobodyLeftAsleep, Fifo, Apply;
    StepKeepsOnce(s, step);
    StepKeepsWakeups(s, step);
    StepKeepsShutdown(s, step);
    StepKeepsFifo(s, step);
  }

  lemma StepKeepsFifo(s: State, step: Step)
    requires Enabled(s, step) && Fifo(s)
    ensures Fifo(Apply(s, step)) && |Apply(s, step).workers| == |s.workers|
  {
  }

  lemma StepKeepsShutdown(s: State, step: Step)
    requires Enabled(s, step) && ExitsDry(s) && NobodyLeftAsleep(s)
    ensures ExitsDry(Apply(s, step)) && NobodyLeftAsleep(Apply(s, step))
  {
    var s' := Apply(s, step);
    if s'.announced {
      forall w | 0 <= w < |s'.workers| ensures !s'.workers[w].Asleep? {
        assert s.announced ==> !s.workers[w].Asleep?;
      }
    }
  }

  // ---------------------------------------------------------------- runs

  /** The steps can be taken one after the other from `s`. */
  ghost predicate Possible(s: State, steps: seq<Step>)
    decreases |steps|
  {
    steps == [] || (Enabled(s, steps[0]) && Possible(Apply(s, steps[0]), steps[1..]))
  }

  ghost function Exec(s: State, steps: seq<Step>): State
    requires Possible(s, steps)
    decreases |steps|
  {
    if steps == [] then s else Exec(Apply(s, steps[0]), steps[1..])
  }

  /** The invariant holds after every run from every state that satisfies it. */
  lemma {:induction false} RunInv(s: State, steps: seq<Step>)
    requires Inv(s) && Possible(s, steps)
    ensures Inv(Exec(s, steps))
    decreases |steps|
  {
    if steps != [] {
      StepInv(s, steps[0]);
      RunInv(Apply(s, steps[0]), steps[1..]);
    }
  }

  /** The tasks that are handed to the pool in a run, in order. */
  ghost function Tasks(steps: seq<Step>): seq<Task> {
    if steps == [] then [] else (if steps[0].Enqueue? then [steps[0].task] else []) + Tasks(steps[1..])
  }

  /** They are what the pool has enqueued; and the pool keeps its workers. */
  lemma {:induction false} EnqueuedAre(s: State, steps: seq<Step>)
    requires Possible(s, steps)
    ensures Exec(s, steps).enqueued == s.enqueued + Tasks(steps) && |Exec(s, steps).workers| == |s.workers|
    decreases |steps|
  {
    hide Apply, Enabled;
    if steps != [] {
      EnqueueStep(s, steps[0]);
      EnqueuedAre(Apply(s, steps[0]), steps[1..]);
    }
  }

  lemma EnqueueStep(s: State, step: Step)
    requires Enabled(s, step)
    ensures Apply(s, step).enqueued == s.enqueued + if step.Enqueue? then [step.task] else []
    ensures |Apply(s, step).workers| == |s.workers|
  {
  }

  /**
   Any run of a pool: the tasks handed to it start in FIFO order, none twice; and when all
   workers have returned, so that join completes, every one of them has been run exactly once.
   */
  lemma EveryRun(n: nat, steps: seq<Step>)
    requires Possible(Initial(n), steps)
    ensures var s := Exec(Initial(n), steps);
            && Inv(s) && |s.workers| == (if n == 0 then 1 else n)
            && Tasks(steps) == s.started + s.tasks
            && ((forall w :: 0 <= w < |s.workers| ==> s.workers[w].Exited?) ==>
                  s.tasks == [] && s.started == Tasks(steps) && s.finished == multiset(Tasks(steps)))
  {
    hide Possible, Exec, Tasks, InProgress, NoLostWakeup;
    InitialInv(n);
    RunInv(Initial(n), steps);
    EnqueuedAre(Initial(n), steps);
    var s := Exec(Initial(n), steps);
    assert Fifo(s) && [] + Tasks(steps) == Tasks(steps);
    if forall w :: 0 <= w < |s.workers| ==> s.workers[w].Exited? {
      assert s.workers[0].Exited?;
      NothingInProgress(s.workers);
      assert s.finished + multiset{} == s.finished;
    }
  }

  lemma {:induction false} NothingInProgress(ws: seq<Worker>)
    requires forall w :: 0 <= w < |ws| ==> !ws[w].Running?
    ensures InProgress(ws) == multiset{}
  {
    if ws != [] {
      NothingInProgress(ws[..|ws| - 1]);
    }
  }

  // ---------------------------------------------------------------- progress

  /** A step that does not depend on the environment or on a spurious wake-up. */
  predicate Internal(step: Step) {
    step.NotifyOne? || step.NotifyAll? || step.Acquire? || step.Finish?
  }

  /** While there is work to do, or the stop is not complete, the pool itself can take a step: it never deadlocks. */
  lemma Progress(s: State)
    requires Inv(s)
    requires s.tasks != [] || (s.stop && exists w :: 0 <= w < |s.workers| && !s.workers[w].Exited?)
    ensures exists step :: Internal(step) && Enabled(s, step)
  {
    var w: nat;
    if s.tasks != [] {
      w := 0;
    } else {
      w :| w < |s.workers| && !s.workers[w].Exited?;
    }
    match s.workers[w]
    case Ready => assert Enabled(s, Acquire(w));
    case Woken => assert Enabled(s, Acquire(w));
    case Running(t) => assert Enabled(s, Finish(w));
    case Asleep =>
      assert SomeAsleep(s.workers);
      if s.stop {
        assert Enabled(s, NotifyAll);
      } else if s.pending > 0 {
        assert Enabled(s, NotifyOne(w));
      } else {
        var v := SomeWoken(s.workers);
        assert Enabled(s, Acquire(v));
      }
    case Exited =>
  }

  lemma {:induction false} SomeWoken(ws: seq<Worker>) returns (w: nat)
    requires Sum(ws, IsWoken) > 0
    ensures w < |ws| && ws[w].Woken?
  {
    if ws[|ws| - 1].Woken? {
      w := |ws| - 1;
    } else {
      w := SomeWoken(ws[..|ws| - 1]);
    }
  }

  // ---------------------------------------------------------------- a running pool catches up

  /** How much a worker has to do before it comes to rest. */
  function Busy(w: Worker): nat {
    match w
    case Exited => 0
    case Asleep => 0
    case Ready => 1
    case Woken => 1
    case Running(_) => 2
  }

  /** A bound on the number of steps that the pool can take by itself. */
  function Load(s: State): nat {
    2 * |s.tasks| + Sum(s.workers, Busy) + 2 * s.pending + if s.announced then 0 else |s.workers| + 1
  }

  lemma InternalDecreases(s: State, step: Step)
    requires Internal(step) && Enabled(s, step)
    ensures Load(Apply(s, step)) < Load(s)
  {
    match step
    case NotifyOne(w) =>
      if w != NOBODY { SumUpdate(s.workers, w, Woken, Busy); }
    case Acquire(w) =>
      SumUpdate(s.workers, w, if s.tasks != [] then Running(s.tasks[0]) else if s.stop then Exited else Asleep, Busy);
    case Finish(w) => SumUpdate(s.workers, w, Ready, Busy);
    case NotifyAll => WakeAllBusy(s.workers);
  }

  lemma {:induction false} WakeAllBusy(ws: seq<Worker>)
    ensures Sum(WakeAll(ws), Busy) <= Sum(ws, Busy) + |ws|
  {
    if ws != [] {
      WakeAllBusy(ws[..|ws| - 1]);
      assert WakeAll(ws)[..|ws| - 1] == WakeAll(ws[..|ws| - 1]);
    }
  }

  /** A pool that cannot take a step by itself has run every task that was enqueued, exactly once. */
  lemma RestingIsDone(s: State)
    requires Inv(s) && forall step :: Internal(step) ==> !Enabled(s, step)
    ensures s.tasks == [] && s.finished == multiset(s.enqueued)
  {
    if s.tasks != [] {
      Progress(s);
      assert false;
    }
    forall w | 0 <= w < |s.workers| ensures !s.workers[w].Running? {
      assert !Enabled(s, Finish(w));
    }
    NothingInProgress(s.workers);
    assert s.finished + multiset{} == s.finished;
    assert s.started + [] == s.started;
  }

  /**
   Left to itself, in whatever order its threads run, a pool comes to rest within `Load` steps, and
   it can only rest when every task enqueued has been run exactly once.
   */
  lemma {:induction false} CatchesUp(s: State, steps: seq<Step>)
    requires Inv(s) && Possible(s, steps) && forall n :: 0 <= n < |steps| ==> Internal(steps[n])
    ensures var e := Exec(s, steps);
            && |steps| + Load(e) <= Load(s)
            && ((forall step :: Internal(step) ==> !Enabled(e, step)) ==>
                  e.tasks == [] && e.finished == multiset(e.enqueued) && e.enqueued == s.enqueued)
    decreases |steps|
  {
    hide Inv, Enabled, Load, Internal, Apply;
    if steps == [] {
      if forall step :: Internal(step) ==> !Enabled(s, step) {
        RestingIsDone(s);
      }
    } else {
      InternalDecreases(s, steps[0]);
      SameTasks(s, steps[0]);
      StepInv(s, steps[0]);
      CatchesUp(Apply(s, steps[0]), steps[1..]);
    }
  }

  lemma SameTasks(s: State, step: Step)
    requires Internal(step) && Enabled(s, step)
    ensures Apply(s, step).enqueued == s.enqueued
  {
  }

  /** Whenever a pool cannot take a step by itself, every task handed to it so far has been run exactly once. */
  lemma RestingRun(n: nat, steps: seq<Step>)
    requires Possible(Initial(n), steps)
    requires var e := Exec(Initial(n), steps); forall step :: Internal(step) ==> !Enabled(e, step)
    ensures var e := Exec(Initial(n), steps);
            e.started == Tasks(steps) && e.finished == multiset(Tasks(steps))
  {
    hide Possible, Exec, Internal, Enabled;
    EveryRun(n, steps);
    var e := Exec(Initial(n), steps);
    RestingIsDone(e);
    EnqueuedAre(Initial(n), steps);
    assert e.started + [] == e.started;
  }

  // ---------------------------------------------------------------- which worker runs what

  /** The task that a step lets its worker take. */
  function Start(s: State, step: Step): seq<(nat, Task)>
    requires Enabled(s, step)
  {
    var s' := Apply(s, step);
    if step.Acquire? && |s'.started| > |s.started| then [(step.w, s'.started[|s.started|])] else []
  }

  /** The task that a worker has run when it finishes. */
  function End(s: State, step: Step): seq<(nat, Task)>
    requires Enabled(s, step)
  {
    if step.Finish? then [(step.w, s.workers[step.w].task)] else []
  }

  ghost function Starts(s: State, steps: seq<Step>): seq<(nat, Task)>
    requires Possible(s, steps)
    decreases |steps|
  {
    if steps == [] then [] else Start(s, steps[0]) + Starts(Apply(s, steps[0]), steps[1..])
  }

  ghost function Ends(s: State, steps: seq<Step>): seq<(nat, Task)>
    requires Possible(s, steps)
    decreases |steps|
  {
    if steps == [] then [] else End(s, steps[0]) + Ends(Apply(s, steps[0]), steps[1..])
  }

  function Current(w: Worker): seq<Task> {
    if w.Running? then [w.task] else []
  }

  lemma WorkerStep(s: State, step: Step, w: nat)
    requires Enabled(s, step) && w < |s.workers|
    ensures var s' := Apply(s, step);
            && |s'.workers| == |s.workers| && |Start(s, step)| <= 1 && |End(s, step)| <= 1
            && Current(s.workers[w]) + By(Start(s, step), w) == By(End(s, step), w) + Current(s'.workers[w])
  {
    hide By, Sum, WakeAll;
    NothingBy<Task>(w);
    StartStep(s, step, w);
    if Start(s, step) != [] {
      ByJust(Start(s, step)[0], w);
    }
    if step.Finish? {
      ByJust(End(s, step)[0], w);
    }
  }

  lemma ByJust(x: (nat, Task), t: nat)
    ensures By([x], t) == if x.0 == t then [x.1] else []
  {
    ByConcat([x], [], t);
    assert [x] + [] == [x];
  }

  lemma StartStep(s: State, step: Step, w: nat)
    requires Enabled(s, step) && w < |s.workers|
    ensures var s' := Apply(s, step);
            && |s'.workers| == |s.workers| && |Start(s, step)| <= 1
            && (if Start(s, step) != [] && step.w == w then
                  && Start(s, step)[0].0 == w && s'.workers[w] == Running(Start(s, step)[0].1) && !s.workers[w].Running? && !step.Finish?
                else if step == Finish(w) then Start(s, step) == [] && !s'.workers[w].Running?
                else Current(s'.workers[w]) == Current(s.workers[w]))
            && (Start(s, step) != [] ==> step.Acquire? && Start(s, step)[0].0 == step.w)
  {
    hide By, Sum;
  }

  /** Every worker runs exactly the tasks that it took, in the order in which it took them, one at a time. */
  lemma {:induction false} WorkerRun(s: State, steps: seq<Step>, w: nat)
    requires Possible(s, steps) && w < |s.workers|
    ensures var e := Exec(s, steps);
            && w < |e.workers|
            && Current(s.workers[w]) + By(Starts(s, steps), w) == By(Ends(s, steps), w) + Current(e.workers[w])
    decreases |steps|
  {
    hide Apply, Enabled, Start, End, By, Current;
    if steps == [] {
      NothingBy<Task>(w);
      assert Current(s.workers[w]) + [] == [] + Current(s.workers[w]);
    } else {
      var s', now, done := Apply(s, steps[0]), Start(s, steps[0]), End(s, steps[0]);
      WorkerStep(s, steps[0], w);
      WorkerRun(s', steps[1..], w);
      ByOne(now, Starts(s', steps[1..]), w);
      ByOne(done, Ends(s', steps[1..]), w);
      var e := Exec(s', steps[1..]);
      assert Current(s.workers[w]) + (By(now, w) + By(Starts(s', steps[1..]), w))
          == (Current(s.workers[w]) + By(now, w)) + By(Starts(s', steps[1..]), w);
      assert (By(done, w) + Current(s'.workers[w])) + By(Starts(s', steps[1..]), w)
          == By(done, w) + (Current(s'.workers[w]) + By(Starts(s', steps[1..]), w));
      assert By(done, w) + (By(Ends(s', steps[1..]), w) + Current(e.workers[w]))
          == (By(done, w) + By(Ends(s', steps[1..]), w)) + Current(e.workers[w]);
    }
  }

  lemma ByOne(a: seq<(nat, Task)>, b: seq<(nat, Task)>, t: nat)
    requires |a| <= 1
    ensures By(a + b, t) == By(a, t) + By(b, t)
  {
    ByConcat(a, b, t);
    ByConcat(a, [], t);
    assert a + [] == a;
  }

  /** The tasks taken, in order, are those started; the tasks run are those finished. */
  lemma {:induction false} RunsAreHistory(s: State, steps: seq<Step>)
    requires Possible(s, steps)
    ensures Exec(s, steps).started == s.started + Untag(Starts(s, steps))
    ensures Exec(s, steps).finished == s.finished + multiset(Untag(Ends(s, steps)))
    decreases |steps|
  {
    hide Apply, Enabled, Start, End, Untag;
    if steps == [] {
      assert Untag<Task>([]) == [];
    } else {
      var s' := Apply(s, steps[0]);
      RunStep(s, steps[0]);
      RunsAreHistory(s', steps[1..]);
      UntagConcat(Start(s, steps[0]), Starts(s', steps[1..]));
      UntagConcat(End(s, steps[0]), Ends(s', steps[1..]));
      SeqConcat(s.started, Untag(Start(s, steps[0])), Untag(Starts(s', steps[1..])));
      BagConcat(s.finished, Untag(End(s, steps[0])), Untag(Ends(s', steps[1..])));
    }
  }

  lemma SeqConcat(a: seq<Task>, b: seq<Task>, c: seq<Task>)
    ensures a + b + c == a + (b + c)
  {
  }

  lemma BagConcat(a: multiset<Task>, b: seq<Task>, c: seq<Task>)
    ensures a + multiset(b) + multiset(c) == a + multiset(b + c)
  {
    assert multiset(b + c) == multiset(b) + multiset(c);
  }

  lemma RunStep(s: State, step: Step)
    requires Enabled(s, step)
    ensures Apply(s, step).started == s.started + Untag(Start(s, step))
    ensures Apply(s, step).finished == s.finished + multiset(Untag(End(s, step)))
  {
    hide Untag, WakeAll;
    if step.Finish? {
      assert Untag(End(s, step)) == [s.workers[step.w].task];
    } else {
      assert s.finished + multiset{} == s.finished;
    }
  }

  /** Only the announcement of the stop wakes everybody; any other step moves at most the worker that it names. */
  lemma OnlyNamed(s: State, step: Step, i: nat)
    requires Enabled(s, step) && !step.NotifyAll? && i < |s.workers|
    ensures var s' := Apply(s, step);
            && |s'.workers| == |s.workers|
            && (s'.workers[i] != s.workers[i] ==>
                  if step.NotifyOne? then step.target == i && s'.workers[i] == Woken
                  else (step.SpuriousWake? || step.Acquire? || step.Finish?) && step.w == i)
  {
  }

  /** What can happen in every state: nobody is held up except by the mutex and the condition variable. */
  lemma EveryoneCanMove(s: State, w: nat, t: Task)
    requires w < |s.workers|
    ensures !s.stop ==> Enabled(s, Enqueue(t)) && Enabled(s, Stop)
    ensures s.workers[w].Ready? || s.workers[w].Woken? ==> Enabled(s, Acquire(w))
    ensures s.workers[w].Running? ==> Enabled(s, Finish(w))
    ensures s.workers[w].Asleep? ==> Enabled(s, SpuriousWake(w)) && (s.pending > 0 ==> Enabled(s, NotifyOne(w)))
    ensures s.pending > 0 && (forall v :: 0 <= v < |s.workers| ==> !s.workers[v].Asleep?) ==> Enabled(s, NotifyOne(NOBODY))
    ensures s.stop && !s.announced ==> Enabled(s, NotifyAll)
  {
  }

  // ---------------------------------------------------------------- shutdown terminates

  /** How far a worker is from returning. */
  function Rank(w: Worker): nat {
    match w
    case Exited => 0
    case Ready => 1
    case Woken => 1
    case Asleep => 2
    case Running(_) => 2
  }

  /** A bound on the number of steps that a stopped pool can still take. */
  function Remaining(s: State): nat {
    2 * |s.tasks| + Sum(s.workers, Rank) + s.pending + if s.announced then 0 else 1
  }

  /** After the stop flag is set, every step whatsoever brings the pool closer to its end. */
  lemma StopDecreases(s: State, step: Step)
    requires s.stop && Enabled(s, step)
    ensures Apply(s, step).stop && Remaining(Apply(s, step)) < Remaining(s)
  {
    match step
    case NotifyOne(w) =>
      if w != NOBODY { SumUpdate(s.workers, w, Woken, Rank); }
    case SpuriousWake(w) => SumUpdate(s.workers, w, Woken, Rank);
    case Acquire(w) =>
      SumUpdate(s.workers, w, if s.tasks == [] then Exited else Running(s.tasks[0]), Rank);
    case Finish(w) => SumUpdate(s.workers, w, Ready, Rank);
    case NotifyAll => WakeAllRank(s.workers);
  }

  lemma {:induction false} WakeAllRank(ws: seq<Worker>)
    ensures Sum(WakeAll(ws), Rank) <= Sum(ws, Rank)
  {
    if ws != [] {
      WakeAllRank(ws[..|ws| - 1]);
      assert WakeAll(ws)[..|ws| - 1] == WakeAll(ws[..|ws| - 1]);
    }
  }

  lemma {:induction false} StoppedRunsAreShort(s: State, steps: seq<Step>)
    requires s.stop && Possible(s, steps)
    ensures Exec(s, steps).stop && |steps| + Remaining(Exec(s, steps)) <= Remaining(s)
    decreases |steps|
  {
    if steps != [] {
      StopDecreases(s, steps[0]);
      StoppedRunsAreShort(Apply(s, steps[0]), steps[1..]);
    }
  }

  /**
   The destructor always completes: from any reachable stopped state, under every schedule, the pool
   comes to rest within `Remaining` steps, and it can only rest with all workers returned and every
   task run exactly once.
   */
  lemma ShutdownCompletes(s: State, steps: seq<Step>)
    requires Inv(s) && s.stop && Possible(s, steps)
    ensures |steps| <= Remaining(s)
    ensures var e := Exec(s, steps);
            (forall step :: !Enabled(e, step)) ==>
              && (forall w :: 0 <= w < |e.workers| ==> e.workers[w].Exited?)
              && e.enqueued == s.enqueued + Tasks(steps) && e.finished == multiset(s.enqueued + Tasks(steps))
  {
    StoppedRunsAreShort(s, steps);
    RunInv(s, steps);
    EnqueuedAre(s, steps);
    var e := Exec(s, steps);
    if forall step :: !Enabled(e, step) {
      if exists w :: 0 <= w < |e.workers| && !e.workers[w].Exited? {
        Progress(e);
        assert false;
      }
      assert e.workers[0].Exited?;
      NothingInProgress(e.workers);
      assert e.finished + multiset{} == e.finished;
    }
  }
}
