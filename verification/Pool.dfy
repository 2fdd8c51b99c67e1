/** `ThreadPool` as a monitor, interleaved at its critical sections: a section under `queue_mutex` is one step (a worker
    that waits gives the mutex up in that same step), and every notification is a step of its own. */
module Pool {
  import opened Text

  type Task = nat

  /** `Checking` is about to take the mutex and evaluate the wait condition. */
  datatype Worker = Checking | Waiting | Running(task: Task) | Exited

  /** `notifyOne` counts calls of `notify_one` still to come, `notifyAll` says the destructor's `notify_all` is still to
      come; `accepted`, `dequeued` and `finished` are history. */
  datatype State = State(
    tasks: seq<Task>,
    stop: bool,
    workers: seq<Worker>,
    notifyOne: nat,
    notifyAll: bool,
    accepted: seq<Task>,
    dequeued: seq<Task>,
    finished: seq<Task>)

  datatype Action =
    | Enqueue(task: Task)
    | NotifyOne(waiter: Option<nat>)
    | Stop
    | NotifyAll
    | Work(worker: nat)
    | Spurious(worker: nat)

  function Init(threads: nat): State {
    State([], false, seq(threads, _ => Checking), 0, false, [], [], [])
  }

  predicate SomeWaiting(workers: seq<Worker>) {
    exists w :: 0 <= w < |workers| && workers[w].Waiting?
  }

  predicate Enabled(s: State, a: Action) {
    match a
    case Enqueue(_) => true
    case NotifyOne(None) => s.notifyOne > 0 && !SomeWaiting(s.workers)
    case NotifyOne(Some(w)) => s.notifyOne > 0 && w < |s.workers| && s.workers[w].Waiting?
    case Stop => !s.stop
    case NotifyAll => s.notifyAll
    case Work(w) => w < |s.workers| && (s.workers[w].Checking? || s.workers[w].Running?)
    case Spurious(w) => w < |s.workers| && s.workers[w].Waiting?
  }

  function Wake(w: Worker): Worker {
    if w.Waiting? then Checking else w
  }

  function WakeAll(workers: seq<Worker>): seq<Worker> {
    seq(|workers|, i requires 0 <= i < |workers| => Wake(workers[i]))
  }

  /** One turn of the worker loop: wait, leave, take the front task, or finish the task at hand. */
  function WorkStep(s: State, w: nat): State
    requires Enabled(s, Work(w))
  {
    match s.workers[w]
    case Running(task) => s.(workers := s.workers[w := Checking], finished := s.finished + [task])
    case _ =>
      if !s.stop && s.tasks == [] then s.(workers := s.workers[w := Waiting])
      else if s.tasks == [] then s.(workers := s.workers[w := Exited])
      else s.(workers := s.workers[w := Running(s.tasks[0])],
              tasks := s.tasks[1..],
              dequeued := s.dequeued + [s.tasks[0]])
  }

  function Step(s: State, a: Action): State
    requires Enabled(s, a)
  {
    match a
    case Enqueue(task) =>
      if s.stop then s  // throws
      else s.(tasks := s.tasks + [task], accepted := s.accepted + [task], notifyOne := s.notifyOne + 1)
    case NotifyOne(None) => s.(notifyOne := s.notifyOne - 1)
    case NotifyOne(Some(w)) => s.(notifyOne := s.notifyOne - 1, workers := s.workers[w := Checking])
    case Stop => s.(stop := true, notifyAll := true)
    case NotifyAll => s.(notifyAll := false, workers := WakeAll(s.workers))
    case Work(w) => WorkStep(s, w)
    case Spurious(w) => s.(workers := s.workers[w := Checking])
  }

  /** The state after some actions; None when one of them is not possible. */
  function RunFrom(s: State, actions: seq<Action>): Option<State>
    decreases |actions|
  {
    if actions == [] then Some(s)
    else if Enabled(s, actions[0]) then RunFrom(Step(s, actions[0]), actions[1..])
    else None
  }

  // ---------- sums over the workers ----------

  function Sum(workers: seq<Worker>, f: Worker -> nat): nat {
    if workers == [] then 0 else f(workers[0]) + Sum(workers[1..], f)
  }

  lemma {:induction false} SumUpdate(workers: seq<Worker>, f: Worker -> nat, w: nat, x: Worker)
    requires w < |workers|
    ensures Sum(workers[w := x], f) + f(workers[w]) == Sum(workers, f) + f(x)
  {
    if w > 0 {
      SumUpdate(workers[1..], f, w - 1, x);
      assert workers[w := x][1..] == workers[1..][w - 1 := x];
    } else {
      assert workers[w := x][1..] == workers[1..];
    }
  }

  lemma {:induction false} SumPointwise(a: seq<Worker>, b: seq<Worker>, f: Worker -> nat)
    requires |a| == |b| && forall i :: 0 <= i < |a| ==> f(a[i]) <= f(b[i])
    ensures Sum(a, f) <= Sum(b, f)
  {
    if a != [] {
      SumPointwise(a[1..], b[1..], f);
    }
  }

  function IsChecking(w: Worker): nat { if w.Checking? then 1 else 0 }

  /** How many workers will evaluate the wait condition next. */
  function CheckingCount(workers: seq<Worker>): nat { Sum(workers, IsChecking) }

  // ---------- no lost wakeup ----------

  /** While any worker waits, every queued task has a wakeup of its own: a notification still to come, or a worker
      about to look at the queue. */
  ghost predicate NoLostWakeup(s: State) {
    SomeWaiting(s.workers) ==> |s.tasks| <= s.notifyOne + CheckingCount(s.workers)
  }

  /** After `stop`, nobody waits once `notify_all` has been called. */
  ghost predicate StopReaches(s: State) {
    && (s.stop ==> s.notifyAll || !SomeWaiting(s.workers))
    && (s.notifyAll ==> s.stop)
  }

  /** A worker leaves only a stopped pool with an empty queue, which stays empty. */
  ghost predicate ExitsDrained(s: State) {
    (exists w :: 0 <= w < |s.workers| && s.workers[w].Exited?) ==> s.stop && s.tasks == []
  }

  lemma WakeupStep(s: State, a: Action)
    requires NoLostWakeup(s) && Enabled(s, a)
    ensures NoLostWakeup(Step(s, a))
  {
    var s' := Step(s, a);
    match a
    case NotifyOne(Some(w)) => SumUpdate(s.workers, IsChecking, w, Checking);
    case Work(w) => SumUpdate(s.workers, IsChecking, w, s'.workers[w]);
    case Spurious(w) => SumUpdate(s.workers, IsChecking, w, Checking);
    case _ =>
  }

  lemma StopStep(s: State, a: Action)
    requires StopReaches(s) && ExitsDrained(s) && Enabled(s, a)
    ensures StopReaches(Step(s, a)) && ExitsDrained(Step(s, a))
  {
    var s' := Step(s, a);
    forall w | 0 <= w < |s'.workers| ensures s'.workers[w].Exited? ==> s'.stop && s'.tasks == [] { }
  }

  // ---------- every task exactly once, in order ----------

  function Runs(task: Task): Worker -> nat {
    (w: Worker) => if w == Running(task) then 1 else 0
  }

  /** How many workers are running a task. */
  function InHand(workers: seq<Worker>, task: Task): nat { Sum(workers, Runs(task)) }

  /** Every dequeued task is in hand or finished, with multiplicity. */
  ghost predicate Accounted(dequeued: seq<Task>, finished: seq<Task>, workers: seq<Worker>) {
    forall task :: multiset(dequeued)[task] == multiset(finished)[task] + InHand(workers, task)
  }

  /** Tasks leave the queue in the order they were accepted, and each is queued, in hand or finished, once. */
  ghost predicate Conserved(s: State) {
    s.accepted == s.dequeued + s.tasks && Accounted(s.dequeued, s.finished, s.workers)
  }

  lemma MovedWorker(s: State, w: nat, x: Worker)
    requires w < |s.workers| && !s.workers[w].Running? && !x.Running?
    requires Accounted(s.dequeued, s.finished, s.workers)
    ensures Accounted(s.dequeued, s.finished, s.workers[w := x])
  {
    forall task ensures InHand(s.workers[w := x], task) == InHand(s.workers, task) {
      SumUpdate(s.workers, Runs(task), w, x);
    }
  }

  lemma TakenTask(s: State, w: nat, task: Task)
    requires w < |s.workers| && !s.workers[w].Running?
    requires Accounted(s.dequeued, s.finished, s.workers)
    ensures Accounted(s.dequeued + [task], s.finished, s.workers[w := Running(task)])
  {
    forall t
      ensures multiset(s.dequeued + [task])[t] == multiset(s.finished)[t] + InHand(s.workers[w := Running(task)], t)
    {
      SumUpdate(s.workers, Runs(t), w, Running(task));
    }
  }

  lemma FinishedTask(s: State, w: nat, task: Task)
    requires w < |s.workers| && s.workers[w] == Running(task)
    requires Accounted(s.dequeued, s.finished, s.workers)
    ensures Accounted(s.dequeued, s.finished + [task], s.workers[w := Checking])
  {
    forall t ensures multiset(s.dequeued)[t] == multiset(s.finished + [task])[t] + InHand(s.workers[w := Checking], t) {
      SumUpdate(s.workers, Runs(t), w, Checking);
    }
  }

  lemma AllWoken(s: State)
    requires Accounted(s.dequeued, s.finished, s.workers)
    ensures Accounted(s.dequeued, s.finished, WakeAll(s.workers))
  {
    forall t ensures InHand(WakeAll(s.workers), t) == InHand(s.workers, t) {
      SumPointwise(WakeAll(s.workers), s.workers, Runs(t));
      SumPointwise(s.workers, WakeAll(s.workers), Runs(t));
    }
  }

  lemma ConservedStep(s: State, a: Action)
    requires Conserved(s) && Enabled(s, a)
    ensures Conserved(Step(s, a))
  {
    hide Accounted;
    match a
    case NotifyOne(Some(w)) => MovedWorker(s, w, Checking);
    case NotifyAll => AllWoken(s);
    case Work(w) => ConservedWork(s, w);
    case Spurious(w) => MovedWorker(s, w, Checking);
    case Enqueue(task) =>
      if !s.stop {
        assert s.accepted + [task] == s.dequeued + (s.tasks + [task]);
      }
    case _ =>
  }

  lemma ConservedWork(s: State, w: nat)
    requires Conserved(s) && Enabled(s, Work(w))
    ensures Conserved(WorkStep(s, w))
  {
    hide Accounted;
    match s.workers[w]
    case Running(task) =>
      FinishedTask(s, w, task);
    case _ =>
      if s.tasks != [] {
        TakenTask(s, w, s.tasks[0]);
        assert s.dequeued + s.tasks == s.dequeued + [s.tasks[0]] + s.tasks[1..];
      } else {
        MovedWorker(s, w, WorkStep(s, w).workers[w]);
      }
  }

  // ---------- every run ----------

  ghost predicate Inv(s: State) {
    NoLostWakeup(s) && StopReaches(s) && ExitsDrained(s) && Conserved(s)
  }

  lemma InitInv(threads: nat)
    ensures Inv(Init(threads))
  {
    NothingInHand(Init(threads));
  }

  lemma NothingInHand(s: State)
    requires forall w :: 0 <= w < |s.workers| ==> !s.workers[w].Running?
    ensures forall task :: InHand(s.workers, task) == 0
  {
    forall task ensures InHand(s.workers, task) == 0 {
      NobodyRuns(s.workers, task);
    }
  }

  lemma {:induction false} NobodyRuns(workers: seq<Worker>, task: Task)
    requires forall w :: 0 <= w < |workers| ==> !workers[w].Running?
    ensures InHand(workers, task) == 0
  {
    if workers != [] {
      NobodyRuns(workers[1..], task);
    }
  }

  lemma {:induction false} RunKeepsInv(s: State, actions: seq<Action>)
    requires Inv(s) && RunFrom(s, actions).Some?
    ensures Inv(RunFrom(s, actions).value) && |RunFrom(s, actions).value.workers| == |s.workers|
    decreases |actions|
  {
    hide NoLostWakeup, StopReaches, ExitsDrained, Conserved, Enabled, Step;
    if actions != [] {
      SameWorkers(s, actions[0]);
      WakeupStep(s, actions[0]);
      StopStep(s, actions[0]);
      ConservedStep(s, actions[0]);
      RunKeepsInv(Step(s, actions[0]), actions[1..]);
    }
  }

  lemma SameWorkers(s: State, a: Action)
    requires Enabled(s, a)
    ensures |Step(s, a).workers| == |s.workers|
  {
  }

  /** In any interleaving: while a worker waits every queued task has its own wakeup under way; so with at least one
      worker a queued task is never left with all workers asleep and no notification to come. */
  lemma WakeupsNeverLost(threads: nat, actions: seq<Action>)
    requires RunFrom(Init(threads), actions).Some?
    ensures var s := RunFrom(Init(threads), actions).value;
            && NoLostWakeup(s)
            && (threads > 0 && s.tasks != [] ==>
                  || s.notifyOne > 0
                  || exists w :: 0 <= w < |s.workers| && (s.workers[w].Checking? || s.workers[w].Running?))
            && (s.stop ==> s.notifyAll || !SomeWaiting(s.workers))
  {
    InitInv(threads);
    RunKeepsInv(Init(threads), actions);
    var s := RunFrom(Init(threads), actions).value;
    if threads > 0 && s.tasks != [] && s.notifyOne == 0 {
      if s.workers[0].Waiting? {
        var w := CheckingExists(s.workers);
      }
    }
  }

  lemma {:induction false} CheckingExists(workers: seq<Worker>) returns (w: nat)
    requires CheckingCount(workers) > 0
    ensures w < |workers| && workers[w].Checking?
  {
    if workers[0].Checking? {
      w := 0;
    } else {
      w := CheckingExists(workers[1..]);
      w := w + 1;
    }
  }

  ghost predicate Joined(s: State) {
    s.stop && forall w :: 0 <= w < |s.workers| ==> s.workers[w].Exited?
  }

  /** In any interleaving tasks are dequeued in the order accepted, and none is run twice; once all workers have been
      joined, every accepted task has been run exactly when there was a worker at all or nothing was accepted. */
  lemma EachTaskOnce(threads: nat, actions: seq<Action>)
    requires RunFrom(Init(threads), actions).Some?
    ensures var s := RunFrom(Init(threads), actions).value;
            && s.dequeued <= s.accepted
            && multiset(s.finished) <= multiset(s.accepted)
            && (Joined(s) ==>
                  (s.tasks == [] && multiset(s.finished) == multiset(s.accepted) <==> threads > 0 || s.accepted == []))
  {
    InitInv(threads);
    RunKeepsInv(Init(threads), actions);
    var s := RunFrom(Init(threads), actions).value;
    assert multiset(s.accepted) == multiset(s.dequeued) + multiset(s.tasks);
    assert forall task :: multiset(s.finished)[task] <= multiset(s.dequeued)[task];
    if Joined(s) {
      NothingInHand(s);
      if threads > 0 {
        assert s.workers[0].Exited?;
        assert s.accepted == s.dequeued;
      } else {
        NoWorkersNoWork(Init(threads), actions);
      }
    }
  }

  /** A pool of no workers accepts a task, is joined at once, and has not run it. */
  lemma NoWorkersDropTasks(task: Task)
    ensures var r := RunFrom(Init(0), [Enqueue(task), Stop]);
            && r.Some? && Joined(r.value)
            && r.value.accepted == [task] && r.value.tasks == [task] && r.value.finished == []
  {
    var actions := [Enqueue(task), Stop];
    var s1 := Step(Init(0), Enqueue(task));
    var s2 := Step(s1, Stop);
    assert actions[1..] == [Stop] && actions[1..][1..] == [];
    assert RunFrom(s2, []) == Some(s2);
    assert RunFrom(s1, [Stop]) == Some(s2);
  }

  lemma {:induction false} NoWorkersNoWork(s: State, actions: seq<Action>)
    requires s.workers == [] && s.finished == [] && RunFrom(s, actions).Some?
    ensures RunFrom(s, actions).value.finished == []
    decreases |actions|
  {
    if actions != [] {
      NoWorkersNoWork(Step(s, actions[0]), actions[1..]);
    }
  }

  /** In any run `enqueue` can be called, and takes the task exactly until the pool is stopped: it goes to the end of
      the queue, and one notification is due for it. */
  lemma EnqueueAccepts(threads: nat, actions: seq<Action>, task: Task)
    requires RunFrom(Init(threads), actions).Some?
    ensures var s := RunFrom(Init(threads), actions).value;
            && RunFrom(s, [Enqueue(task)]).Some?
            && RunFrom(s, [Enqueue(task)]).value ==
               if s.stop then s
               else s.(tasks := s.tasks + [task], accepted := s.accepted + [task], notifyOne := s.notifyOne + 1)
  {
    var s := RunFrom(Init(threads), actions).value;
    assert [Enqueue(task)][1..] == [];
    assert RunFrom(Step(s, Enqueue(task)), []) == Some(Step(s, Enqueue(task)));
  }

  /** What the pool does not decide: which of the waiting workers a due notification wakes, if any waits; that one wakes
      without a notification; and that the destructor runs, once. */
  lemma Unscheduled(s: State, w: nat)
    ensures w < |s.workers| && s.workers[w].Waiting? ==>
              Enabled(s, Spurious(w)) && (s.notifyOne > 0 ==> Enabled(s, NotifyOne(Some(w))))
    ensures s.notifyOne > 0 && (forall i :: 0 <= i < |s.workers| ==> !s.workers[i].Waiting?) ==>
              Enabled(s, NotifyOne(None))
    ensures Enabled(s, Stop) <==> !s.stop
  {
  }

  // ---------- the queue drains ----------

  /** What workers do by themselves, and the notifications already due to them. */
  predicate Internal(a: Action) {
    a.Work? || a.NotifyOne?
  }

  ghost predicate Drained(s: State) {
    s.tasks == [] && forall w :: 0 <= w < |s.workers| ==> !s.workers[w].Running?
  }

  /** As long as a task is queued or running, somebody can bring it forward. */
  lemma UsefulStep(s: State) returns (a: Action)
    requires Inv(s) && s.workers != [] && !Drained(s)
    ensures Internal(a) && Enabled(s, a) && Measure(Step(s, a)) < Measure(s)
  {
    if w: nat :| w < |s.workers| && s.workers[w].Running? {
      a := Work(w);
      SumUpdate(s.workers, Weight, w, Checking);
    } else if CheckingCount(s.workers) > 0 {
      var w := CheckingExists(s.workers);
      a := Work(w);
      SumUpdate(s.workers, Weight, w, Running(s.tasks[0]));
    } else {
      NoneChecking(s.workers, 0);
      assert s.workers[0].Waiting?;
      a := NotifyOne(Some(0));
      SumUpdate(s.workers, Weight, 0, Checking);
    }
  }

  lemma {:induction false} NoneChecking(workers: seq<Worker>, w: nat)
    requires CheckingCount(workers) == 0 && w < |workers|
    ensures !workers[w].Checking?
  {
    if w > 0 {
      NoneChecking(workers[1..], w - 1);
    }
  }

  lemma {:induction false} Drain(s: State) returns (more: seq<Action>)
    requires Inv(s) && s.workers != []
    ensures forall a :: a in more ==> Internal(a)
    ensures RunFrom(s, more).Some? && Drained(RunFrom(s, more).value)
    ensures Inv(RunFrom(s, more).value) && RunFrom(s, more).value.accepted == s.accepted
    decreases Measure(s)
  {
    hide NoLostWakeup, StopReaches, ExitsDrained, Conserved, Drained, Measure;
    more := [];
    if !Drained(s) {
      var a := UsefulStep(s);
      SameWorkers(s, a);
      WakeupStep(s, a);
      StopStep(s, a);
      ConservedStep(s, a);
      var rest := Drain(Step(s, a));
      more := [a] + rest;
      assert more[1..] == rest;
    }
  }

  lemma DrainedIsFinished(s: State)
    requires Conserved(s) && Drained(s)
    ensures multiset(s.finished) == multiset(s.accepted)
  {
    NothingInHand(s);
    assert s.accepted == s.dequeued;
    forall t ensures multiset(s.finished)[t] == multiset(s.accepted)[t] { }
  }

  /** From every state of every run of a pool with workers, stopped or not, what is under way suffices to run all tasks
      accepted so far: the workers' own steps and the notifications due, without another call from outside. */
  lemma QueueDrains(threads: nat, actions: seq<Action>) returns (more: seq<Action>)
    requires threads > 0 && RunFrom(Init(threads), actions).Some?
    ensures forall a :: a in more ==> a.Work? || a.NotifyOne?
    ensures var s := RunFrom(Init(threads), actions).value;
            && RunFrom(s, more).Some?
            && RunFrom(s, more).value.tasks == []
            && RunFrom(s, more).value.accepted == s.accepted
            && multiset(RunFrom(s, more).value.finished) == multiset(s.accepted)
  {
    hide Conserved, NoLostWakeup, StopReaches, ExitsDrained;
    InitInv(threads);
    RunKeepsInv(Init(threads), actions);
    var s := RunFrom(Init(threads), actions).value;
    more := Drain(s);
    DrainedIsFinished(RunFrom(s, more).value);
    assert forall a :: a in more ==> Internal(a);
  }

  // ---------- shutdown ----------

  function Weight(w: Worker): nat {
    match w
    case Exited => 0
    case Checking => 1
    case Waiting => 2
    case Running(_) => 2
  }

  /** What a stopped pool still has to do. */
  function Measure(s: State): nat {
    2 * |s.tasks| + Sum(s.workers, Weight) + s.notifyOne + if s.notifyAll then 1 else 0
  }

  lemma MeasureDrops(s: State, a: Action)
    requires s.stop && Enabled(s, a) && !a.Enqueue?
    ensures Measure(Step(s, a)) < Measure(s) && Step(s, a).stop
  {
    var s' := Step(s, a);
    match a
    case NotifyOne(Some(w)) => SumUpdate(s.workers, Weight, w, Checking);
    case NotifyAll => SumPointwise(WakeAll(s.workers), s.workers, Weight);
    case Work(w) => SumUpdate(s.workers, Weight, w, s'.workers[w]);
    case Spurious(w) => SumUpdate(s.workers, Weight, w, Checking);
    case _ =>
  }

  function Accomplished(actions: seq<Action>): nat {
    if actions == [] then 0 else (if actions[0].Enqueue? then 0 else 1) + Accomplished(actions[1..])
  }

  lemma {:induction false} BoundedWork(s: State, actions: seq<Action>)
    requires s.stop && RunFrom(s, actions).Some?
    ensures RunFrom(s, actions).value.stop
    ensures Accomplished(actions) + Measure(RunFrom(s, actions).value) <= Measure(s)
    decreases |actions|
  {
    if actions != [] {
      if !actions[0].Enqueue? {
        MeasureDrops(s, actions[0]);
      }
      BoundedWork(Step(s, actions[0]), actions[1..]);
    }
  }

  /** Shutdown comes to an end: from a stopped state only boundedly many steps are left (refused calls of `enqueue`
      aside), and as long as a worker has not left, one of them can be taken by a worker or by the destructor. */
  lemma ShutdownTerminates(threads: nat, actions: seq<Action>, more: seq<Action>)
    requires RunFrom(Init(threads), actions).Some? && RunFrom(Init(threads), actions).value.stop
    requires RunFrom(RunFrom(Init(threads), actions).value, more).Some?
    ensures var s := RunFrom(Init(threads), actions).value;
            var s' := RunFrom(s, more).value;
            && Accomplished(more) <= Measure(s)
            && (Joined(s') || Enabled(s', NotifyAll) || exists w: nat :: Enabled(s', Work(w)))
  {
    InitInv(threads);
    RunKeepsInv(Init(threads), actions);
    var s := RunFrom(Init(threads), actions).value;
    RunKeepsInv(s, more);
    BoundedWork(s, more);
    var s' := RunFrom(s, more).value;
    if !Joined(s') && !s'.notifyAll {
      var w: nat :| w < |s'.workers| && !s'.workers[w].Exited?;
      assert !s'.workers[w].Waiting?;
      assert Enabled(s', Work(w));
    }
  }
}
