/** What holds of every run of the thread pool, from `init` to the return of `stop`. */
module PoolRuns {
  import opened Bytes
  import opened Folds
  import opened Pool
  import opened PoolSteps
  import opened QueueSpec

  // ---- Safety in every reachable state ----

  /**
   In every reachable state, with a task pending some worker is not asleep; a
   caller of `wait_empty` asleep with nothing pending has a running worker.
   */
  lemma NoLostWakeUp(n: nat, actions: seq<Action>, s: State)
    requires 0 < n < UINT32_RANGE && Reaches(Initial(n), actions, s)
    ensures !s.mq.IsEmpty() ==> SomeWorkerAwake(s)
    ensures forall i :: 0 <= i < |s.threads| && (s.threads[i].WaitingAsleep? || s.threads[i].StoppingAsleep?) && s.mq.IsEmpty() ==>
      SomeWorkerRuns(s)
  {
    InitialInv(n);
    InvariantOverRuns(Initial(n), actions, s);
  }

  /** Every counter is exactly the number of workers between `front` and `pop` on its queue, and never above a limit. */
  lemma ConcurrencyLimit(n: nat, actions: seq<Action>, s: State, i: nat)
    requires 0 < n < UINT32_RANGE && Reaches(Initial(n), actions, s) && i < |s.mq.queues|
    ensures var q := s.mq.queues[i]; q.cnt == Total(s.threads, OnQueue(q.qid)) && (q.max != 0 ==> Total(s.threads, OnQueue(q.qid)) <= q.max)
  {
    InitialInv(n);
    InvariantOverRuns(Initial(n), actions, s);
  }

  /**
   In every reachable state a fetching worker gets a task iff the nearest queue
   with work has no limit, or fewer workers than its limit are on its tasks.
   */
  lemma FetchUnderLimit(n: nat, actions: seq<Action>, s: State, a: Action, i: nat)
    requires 0 < n < UINT32_RANGE && Reaches(Initial(n), actions, s)
    requires Enabled(s, a) && a.Fetch? && Nearest(s.mq, i)
    ensures a.t < |Apply(s, a).threads|
    ensures var q, worker := s.mq.queues[i], Apply(s, a).threads[a.t];
      && (worker.Running? <==> q.max == 0 || Total(s.threads, OnQueue(q.qid)) < q.max)
      && (worker.Running? ==> worker == Running(q.qid, q.tasks[0]))
  {
    InitialInv(n);
    InvariantOverRuns(Initial(n), actions, s);
    FetchExact(s, a, i);
  }

  lemma {:induction false} OccursOnce(tasks: seq<Task>, i: nat, base: nat)
    requires i < |tasks| && forall k :: 0 <= k < |tasks| ==> tasks[k].id == base + k
    ensures Occurs(tasks, tasks[i]) == 1
  {
    TotalSplit(tasks, i, IsTask(tasks[i]));
    TotalZero(tasks[..i], IsTask(tasks[i]));
    TotalZero(tasks[i + 1..], IsTask(tasks[i]));
  }

  lemma {:induction false} OccursIsMultiplicity(tasks: seq<Task>, task: Task)
    ensures Occurs(tasks, task) == multiset(tasks)[task]
  {
    if tasks != [] {
      OccursIsMultiplicity(tasks[1..], task);
      assert tasks == [tasks[0]] + tasks[1..];
    }
  }

  /**
   At every moment an accepted task is in exactly one place, once: pending,
   running or finished; nothing else is anywhere.
   */
  lemma {:induction false} EveryTaskOnce(n: nat, actions: seq<Action>, s: State, task: Task)
    requires 0 < n < UINT32_RANGE && Reaches(Initial(n), actions, s)
    ensures Total(s.mq.queues, InQueue(task)) + Total(s.threads, RunsTask(task)) + Occurs(s.finished, task) ==
            if task in s.accepted then 1 else 0
  {
    InitialInv(n);
    InvariantOverRuns(Initial(n), actions, s);
    if task in s.accepted {
      var i :| 0 <= i < |s.accepted| && s.accepted[i] == task;
      OccursOnce(s.accepted, i, 0);
    } else {
      OccursIsMultiplicity(s.accepted, task);
    }
  }

  /**
   When `stop` returns, every accepted task has run, exactly once, and nothing
   is pending, running or about to be added.
   */
  lemma DrainingStop(n: nat, actions: seq<Action>, s: State)
    requires 0 < n < UINT32_RANGE && Reaches(Initial(n), actions, s)
    requires exists i :: 0 <= i < |s.threads| && s.threads[i].Stopped?
    ensures multiset(s.finished) == multiset(s.accepted)
    ensures s.mq.IsEmpty() && s.adding == 0 && !SomeWorkerRuns(s) && AllExited(s)
  {
    InitialInv(n);
    InvariantOverRuns(Initial(n), actions, s);
    StoppedIsDrained(s);
  }

  /** With nothing pending, everything accepted has finished exactly when no worker is in the middle of a task. */
  lemma AllFinishedExact(s: State)
    requires Inv(s) && s.mq.IsEmpty()
    ensures multiset(s.finished) == multiset(s.accepted) <==> !SomeWorkerRuns(s)
  {
    forall task: Task
      ensures multiset(s.finished)[task] + Total(s.threads, RunsTask(task)) == multiset(s.accepted)[task]
    {
      IdleQueuesHoldNothing(s, task);
      OccursIsMultiplicity(s.finished, task);
      OccursIsMultiplicity(s.accepted, task);
    }
    if SomeWorkerRuns(s) {
      var i :| 0 <= i < |s.threads| && s.threads[i].Running?;
      TotalAtLeast(s.threads, i, RunsTask(s.threads[i].task));
    } else {
      forall task: Task
        ensures multiset(s.finished)[task] == multiset(s.accepted)[task]
      {
        TotalZero(s.threads, RunsTask(task));
      }
    }
  }

  /** Every `m_cnt` is zero. */
  predicate NothingCounted(s: State) {
    forall i :: 0 <= i < |s.mq.queues| ==> s.mq.queues[i].cnt == 0
  }

  /** The counters tell whether some worker is in the middle of a task. */
  lemma CountersExact(s: State)
    requires Inv(s)
    ensures NothingCounted(s) <==> !SomeWorkerRuns(s)
  {
    if SomeWorkerRuns(s) {
      var w :| 0 <= w < |s.threads| && s.threads[w].Running?;
      var i :| 0 <= i < |s.mq.queues| && s.mq.queues[i].qid == s.threads[w].qid;
      TotalAtLeast(s.threads, w, OnQueue(s.mq.queues[i].qid));
      assert s.mq.queues[i].cnt > 0;
    } else {
      forall i | 0 <= i < |s.mq.queues|
        ensures s.mq.queues[i].cnt == 0
      {
        TotalZero(s.threads, OnQueue(s.mq.queues[i].qid));
      }
    }
  }

  lemma StoppedIsDrained(s: State)
    requires Inv(s) && exists i :: 0 <= i < |s.threads| && s.threads[i].Stopped?
    ensures multiset(s.finished) == multiset(s.accepted)
    ensures s.mq.IsEmpty() && s.adding == 0 && !SomeWorkerRuns(s) && AllExited(s)
  {
    var i :| 0 <= i < |s.threads| && s.threads[i].Stopped?;
    assert InOrder(s, s.threads[i]);
    assert forall k :: 0 <= k < |s.threads| && s.threads[k].IsWorker() ==> s.threads[k].Exited?;
    AllFinishedExact(s);
  }

  lemma IdleQueuesHoldNothing(s: State, task: Task)
    requires s.mq.IsEmpty()
    ensures Total(s.mq.queues, InQueue(task)) == 0
  {
    TotalZero(s.mq.queues, InQueue(task));
  }

  /**
   `wait_empty` returns with nothing pending, and with everything accepted
   finished exactly when every queue's counter is zero.
   */
  lemma WaitEmptyExact(s: State, i: nat)
    requires Inv(s) && Enabled(s, CheckEmpty(i)) && s.threads[i].Waiting?
    ensures var s' := Apply(s, CheckEmpty(i));
      s'.threads[i].Returned? ==> s'.mq.IsEmpty() && (multiset(s'.finished) == multiset(s'.accepted) <==> NothingCounted(s'))
  {
    InvKept(s, CheckEmpty(i));
    if s.mq.IsEmpty() {
      AllFinishedExact(Apply(s, CheckEmpty(i)));
      CountersExact(Apply(s, CheckEmpty(i)));
    }
  }

  // ---- Shutting down ----

  /** Steps a worker takes. */
  predicate OfWorker(a: Action) {
    a.ReadStop? || a.Fetch? || a.Finish? || a.CheckCloseable?
  }

  /** How many steps a worker is from its exit, once nothing is pending and the stop flag is up. */
  function Rank(): Thread -> nat {
    (t: Thread) =>
      match t
      case Looping => 1
      case Checking => 2
      case Running(_, _) => 2
      case Fetching => 3
      case Sleeping => 3
      case _ => 0
  }

  function WorkerSteps(actions: seq<Action>): nat {
    if actions == [] then 0 else (if OfWorker(actions[0]) then 1 else 0) + WorkerSteps(actions[1..])
  }

  /** A worker's step brings it one nearer to its exit, and leaves the other workers where they are. */
  lemma WorkerComesNearer(s: State, a: Action, i: nat)
    requires Inv(s) && s.fstop && Steps(s, a) && OfWorker(a) && i < |s.threads|
    ensures |Apply(s, a).threads| == |s.threads|
    ensures Rank()(Apply(s, a).threads[i]) + (if i == a.t then 1 else 0) == Rank()(s.threads[i])
  {
    assert InOrder(s, s.threads[i]);
    assert !s.threads[i].Sleeping?;
  }

  lemma RankOfWorkerStep(s: State, a: Action)
    requires Inv(s) && s.fstop && Steps(s, a) && OfWorker(a)
    ensures Total(Apply(s, a).threads, Rank()) + 1 == Total(s.threads, Rank())
  {
    var after := Apply(s, a).threads;
    WorkerComesNearer(s, a, a.t);
    forall i | 0 <= i < |s.threads|
      ensures Rank()(s.threads[a.t := after[a.t]][i]) == Rank()(after[i])
    {
      WorkerComesNearer(s, a, i);
    }
    TotalUpdate(s.threads, a.t, after[a.t], Rank());
    TotalSame(s.threads[a.t := after[a.t]], after, Rank());
  }

  /** A step of another thread leaves each worker where it is. */
  lemma OthersLeaveWorkers(s: State, a: Action, i: nat)
    requires Inv(s) && s.fstop && Steps(s, a) && !OfWorker(a) && i < |s.threads|
    ensures i < |Apply(s, a).threads| && Rank()(Apply(s, a).threads[i]) == Rank()(s.threads[i])
  {
    assert InOrder(s, s.threads[i]);
    assert !s.threads[i].Sleeping?;
  }

  lemma RankOfOtherStep(s: State, a: Action)
    requires Inv(s) && s.fstop && Steps(s, a) && !OfWorker(a)
    ensures Total(Apply(s, a).threads, Rank()) == Total(s.threads, Rank())
  {
    var after := Apply(s, a).threads;
    forall i | 0 <= i < |s.threads|
      ensures i < |after| && Rank()(after[i]) == Rank()(s.threads[i])
    {
      OthersLeaveWorkers(s, a, i);
    }
    if a.CallWaitEmpty? {
      TotalAppend(s.threads, Waiting, Rank());
    } else {
      TotalSame(s.threads, after, Rank());
    }
  }

  /** Once `stop` has raised its flag it stays up, and no worker sleeps again. */
  lemma {:induction false} NoWorkerLeftBehind(s: State, actions: seq<Action>, t: State)
    requires Inv(s) && s.fstop && Reaches(s, actions, t)
    ensures t.fstop && forall i :: 0 <= i < |t.threads| ==> !t.threads[i].Sleeping?
    decreases |actions|
  {
    if actions == [] {
      assert forall i :: 0 <= i < |t.threads| ==> InOrder(t, t.threads[i]);
    } else {
      InvKept(s, actions[0]);
      NoWorkerLeftBehind(Apply(s, actions[0]), actions[1..], t);
    }
  }

  /** From then on the workers have a fixed number of steps left before the last one exits, however they interleave. */
  lemma {:induction false} ShutdownIsBounded(s: State, actions: seq<Action>, t: State)
    requires Inv(s) && s.fstop && Reaches(s, actions, t)
    ensures WorkerSteps(actions) + Total(t.threads, Rank()) == Total(s.threads, Rank())
    ensures Total(t.threads, Rank()) == 0 <==> AllExited(t)
    decreases |actions|
  {
    if actions == [] {
      RankZero(t);
    } else {
      var a, next := actions[0], Apply(s, actions[0]);
      InvKept(s, a);
      NoWorkerLeftBehind(s, [a], next);
      if OfWorker(a) {
        RankOfWorkerStep(s, a);
      } else {
        RankOfOtherStep(s, a);
      }
      ShutdownIsBounded(next, actions[1..], t);
    }
  }

  lemma RankZero(s: State)
    requires Inv(s)
    ensures Total(s.threads, Rank()) == 0 <==> AllExited(s)
  {
    TotalZero(s.threads, Rank());
    forall i | 0 <= i < |s.threads|
      ensures Rank()(s.threads[i]) == 0 <==> (i < s.workers ==> s.threads[i].Exited?)
    {
      assert s.threads[i].IsWorker() <==> i < s.workers;
    }
  }

  // ---- Progress ----

  lemma {:induction false} Compose(s: State, a: seq<Action>, t: State, b: seq<Action>, u: State)
    requires Reaches(s, a, t) && Reaches(t, b, u)
    ensures Reaches(s, a + b, u)
    decreases |a|
  {
    if a == [] {
      assert a + b == b;
    } else {
      Compose(Apply(s, a[0]), a[1..], t, b, u);
      assert (a + b)[1..] == a[1..] + b;
    }
  }

  lemma OneStep(s: State, a: Action)
    requires Steps(s, a)
    ensures Reaches(s, [a], Apply(s, a))
  {
    assert [a][1..] == [];
  }

  /** Only workers have taken steps between `s` and `t`. */
  ghost predicate OnlyWorkers(s: State, t: State) {
    && |t.threads| == |s.threads| && t.workers == s.workers && t.fstop == s.fstop && t.faccept == s.faccept
    && t.adding == s.adding && t.accepted == s.accepted
    && (forall i :: s.workers <= i < |s.threads| ==> t.threads[i] == s.threads[i] || t.threads[i] == s.threads[i].Wake())
  }

  lemma WorkerStepIsOwn(s: State, a: Action)
    requires Inv(s) && Enabled(s, a) && OfWorker(a)
    ensures OnlyWorkers(s, Apply(s, a))
  {
    assert s.threads[a.t].IsWorker();
  }

  /**
   With tasks pending and no worker running, `front` hands out a task: a
   saturated queue cannot block an idle pool.
   */
  lemma ProgressUnderLimits(s: State)
    requires Inv(s) && !s.mq.IsEmpty() && !SomeWorkerRuns(s)
    ensures FrontOf(s.mq).Served?
  {
    FrontServesNearest(s.mq);
    var q := s.mq.queues[NextBusy(s.mq, 1)];
    TotalZero(s.threads, OnQueue(q.qid));
  }

  predicate StepsTo(s: State, a: Action, s': State) {
    Enabled(s, a) && s' == Apply(s, a)
  }

  /** One worker step, and what it leads to. */
  lemma ThenOwn(s: State, a: Action, s': State, actions: seq<Action>, t: State)
    requires Inv(s) && StepsTo(s, a, s') && OfWorker(a)
    requires Reaches(s', actions, t) && OnlyWorkers(s', t)
    ensures Reaches(s, [a] + actions, t) && OnlyWorkers(s, t)
  {
    assert ([a] + actions)[1..] == actions;
    WorkerStepIsOwn(s, a);
  }

  function IsRunning(): Thread -> nat {
    (t: Thread) => if t.Running? then 1 else 0
  }

  function Length(): Queue -> nat {
    (q: Queue) => |q.tasks|
  }

  /** Work left: two steps for a pending task, one for a running one. */
  function Backlog(s: State): nat {
    2 * Total(s.mq.queues, Length()) + Total(s.threads, IsRunning())
  }

  /** How far an awake worker is from its next `front`. */
  function ToFront(t: Thread): nat {
    match t
    case Fetching => 0
    case Looping => 1
    case _ => 2
  }

  lemma FinishLowersBacklog(s: State, w: nat)
    requires Inv(s) && w < |s.threads| && s.threads[w].Running?
    ensures Backlog(Apply(s, Finish(w))) < Backlog(s)
  {
    var c := Complete(s, w);
    var i := IndexOf(s.mq.queues, s.threads[w].qid);
    TotalUpdate(s.mq.queues, i, s.mq.queues[i].Pop(), Length());
    TotalUpdate(s.threads, w, Looping, IsRunning());
    TotalSame(c.threads, c.Broadcast().threads, IsRunning());
  }

  lemma FetchLowersBacklog(s: State, w: nat, wake: Option<nat>)
    requires Inv(s) && w < |s.threads| && FrontOf(s.mq).Served? && Enabled(s, Fetch(w, wake))
    ensures Backlog(Apply(s, Fetch(w, wake))) < Backlog(s)
  {
    var i, c := FrontOf(s.mq).index, Start(s, w);
    TotalUpdate(s.mq.queues, i, s.mq.queues[i].Front(), Length());
    TotalUpdate(s.threads, w, c.threads[w], IsRunning());
    TotalSame(c.threads, c.Signal(wake).threads, IsRunning());
  }

  /**
   The next worker step of a pool with work left: finish a running task, or
   bring an awake worker to a `front` that succeeds.
   */
  lemma NextStep(s: State, w: nat) returns (a: Action, s': State)
    requires Inv(s) && CanLower(s, w)
    ensures OfWorker(a) && StepsTo(s, a, s') && Inv(s')
    ensures
      Backlog(s') < Backlog(s) ||
      (Backlog(s') == Backlog(s) && CanLower(s', w) && ToFront(s'.threads[w]) < ToFront(s.threads[w]))
  {
    if s.threads[w].Running? {
      a := Finish(w);
      FinishLowersBacklog(s, w);
    } else if s.threads[w].Fetching? {
      ProgressUnderLimits(s);
      var wake := SomeSignal(s);
      a := Fetch(w, wake);
      FetchLowersBacklog(s, w, wake);
    } else {
      a := if s.threads[w].Looping? then ReadStop(w) else CheckCloseable(w);
      TotalUpdate(s.threads, w, Apply(s, a).threads[w], IsRunning());
    }
    s' := Apply(s, a);
    InvKept(s, a);
  }

  /** Whether `w` can be the next to move in a pool with work left. */
  ghost predicate CanLower(s: State, w: nat) {
    && w < |s.threads| && s.threads[w].Awake()
    && (SomeWorkerRuns(s) ==> s.threads[w].Running?)
    && (!SomeWorkerRuns(s) ==> !s.mq.IsEmpty())
  }

  lemma WhoCanLower(s: State) returns (w: nat)
    requires Inv(s) && (SomeWorkerRuns(s) || !s.mq.IsEmpty())
    ensures CanLower(s, w)
  {
    if SomeWorkerRuns(s) {
      w :| w < |s.threads| && s.threads[w].Running?;
    } else {
      w :| w < |s.threads| && s.threads[w].Awake();
    }
  }

  lemma {:induction false} Lower(s: State, w: nat) returns (actions: seq<Action>, t: State)
    requires Inv(s) && CanLower(s, w)
    ensures Reaches(s, actions, t) && OnlyWorkers(s, t) && Inv(t) && Backlog(t) < Backlog(s)
    decreases ToFront(s.threads[w])
  {
    var a, s' := NextStep(s, w);
    var rest: seq<Action> := [];
    t := s';
    if Backlog(s') == Backlog(s) {
      rest, t := Lower(s', w);
    }
    actions := [a] + rest;
    ThenOwn(s, a, s', rest, t);
  }

  /** From any state the workers alone can run everything that is pending. */
  lemma Drain(s: State) returns (actions: seq<Action>, t: State)
    requires Inv(s)
    ensures Reaches(s, actions, t) && OnlyWorkers(s, t) && Inv(t) && t.mq.IsEmpty() && !SomeWorkerRuns(t)
    decreases Backlog(s)
  {
    if s.mq.IsEmpty() && !SomeWorkerRuns(s) {
      return [], s;
    }
    var w := WhoCanLower(s);
    var first, s' := Lower(s, w);
    var rest;
    rest, t := Drain(s');
    Compose(s, first, s', rest, t);
    actions := first + rest;
  }

  /** No sleeping caller is forgotten: whoever is in `wait_empty` can still return. */
  lemma WaitEmptyCanReturn(s: State, i: nat)
    requires Inv(s) && i < |s.threads| && (s.threads[i].Waiting? || s.threads[i].WaitingAsleep?)
    ensures exists actions, t :: Reaches(s, actions, t) && i < |t.threads| && t.threads[i].Returned?
  {
    var actions, t := Drain(s);
    assert !s.threads[i].IsWorker();
    assert t.threads[i].Waiting?;
    var a := CheckEmpty(i);
    OneStep(t, a);
    Compose(s, actions, t, [a], Apply(t, a));
  }

  /** The next step of a worker on its way out. */
  lemma ExitStep(s: State) returns (a: Action, s': State)
    requires Inv(s) && s.fstop && !AllExited(s)
    ensures OfWorker(a) && StepsTo(s, a, s') && Inv(s') && s'.fstop
    ensures Total(s'.threads, Rank()) < Total(s.threads, Rank())
  {
    var w: nat :| w < |s.threads| && w < s.workers && !s.threads[w].Exited?;
    assert s.threads[w].IsWorker() && InOrder(s, s.threads[w]);
    a := match s.threads[w]
      case Looping => ReadStop(w)
      case Fetching => Fetch(w, None)
      case Checking => CheckCloseable(w)
      case _ => Finish(w);
    s' := Apply(s, a);
    InvKept(s, a);
    RankOfWorkerStep(s, a);
  }

  /** With the flag up the workers can all exit on their own. */
  lemma ExitAll(s: State) returns (actions: seq<Action>, t: State)
    requires Inv(s) && s.fstop
    ensures Reaches(s, actions, t) && OnlyWorkers(s, t) && Inv(t) && AllExited(t)
    decreases Total(s.threads, Rank())
  {
    if AllExited(s) {
      return [], s;
    }
    var a, s' := ExitStep(s);
    var rest;
    rest, t := ExitAll(s');
    actions := [a] + rest;
    ThenOwn(s, a, s', rest, t);
  }

  /** The step of the caller of `stop` once nothing is pending. */
  lemma StopMoves(s: State, i: nat, a: Action) returns (t: State)
    requires Inv(s) && i < |s.threads| && Steps(s, a)
    requires (a == CheckEmpty(i) && s.threads[i].Stopping? && s.mq.IsEmpty()) || a == RaiseStop(i) || a == Join(i)
    ensures Reaches(s, [a], t) && Inv(t) && |t.threads| == |s.threads| && t.adding == s.adding && t.accepted == s.accepted
    ensures t.threads[i] == if a.CheckEmpty? then Drained else if a.RaiseStop? then Joining else Stopped
  {
    t := Apply(s, a);
    OneStep(s, a);
    InvKept(s, a);
  }

  lemma JoinReturns(s: State, i: nat) returns (actions: seq<Action>, t: State)
    requires Inv(s) && i < |s.threads| && s.threads[i].Joining?
    ensures Reaches(s, actions, t) && Inv(t) && i < |t.threads| && t.threads[i].Stopped? && t.adding == s.adding && t.accepted == s.accepted
  {
    assert InOrder(s, s.threads[i]) && !s.threads[i].IsWorker();
    var first, s1 := ExitAll(s);
    t := StopMoves(s1, i, Join(i));
    actions := first + [Join(i)];
    Compose(s, first, s1, [Join(i)], t);
  }

  lemma RaiseReturns(s: State, i: nat) returns (actions: seq<Action>, t: State)
    requires Inv(s) && i < |s.threads| && s.threads[i].Drained?
    ensures Reaches(s, actions, t) && Inv(t) && i < |t.threads| && t.threads[i].Stopped? && t.adding == s.adding && t.accepted == s.accepted
  {
    var s1 := StopMoves(s, i, RaiseStop(i));
    var rest;
    rest, t := JoinReturns(s1, i);
    actions := [RaiseStop(i)] + rest;
    Compose(s, [RaiseStop(i)], s1, rest, t);
  }

  lemma DrainReturns(s: State, i: nat) returns (actions: seq<Action>, t: State)
    requires Inv(s) && i < |s.threads| && (s.threads[i].Stopping? || s.threads[i].StoppingAsleep?)
    ensures Reaches(s, actions, t) && Inv(t) && i < |t.threads| && t.threads[i].Stopped? && t.adding == s.adding && t.accepted == s.accepted
  {
    assert !s.threads[i].IsWorker();
    var first, s1 := Drain(s);
    var s2 := StopMoves(s1, i, CheckEmpty(i));
    var rest;
    rest, t := RaiseReturns(s2, i);
    Compose(s1, [CheckEmpty(i)], s2, rest, t);
    Compose(s, first, s1, [CheckEmpty(i)] + rest, t);
    actions := first + ([CheckEmpty(i)] + rest);
  }

  /** Wherever a caller of `stop` stands, it can get to the end: nothing it waits for is stuck. */
  lemma StopCanReturn(s: State, i: nat)
    requires Inv(s) && i < |s.threads| && s.threads[i].CallsStop()
    ensures exists actions, t :: Reaches(s, actions, t) && i < |t.threads| && t.threads[i].Stopped?
  {
    if s.threads[i].Stopped? {
      assert Reaches(s, [], s);
    } else if s.threads[i].Joining? {
      var actions, t := JoinReturns(s, i);
    } else if s.threads[i].Drained? {
      var actions, t := RaiseReturns(s, i);
    } else {
      var actions, t := DrainReturns(s, i);
    }
  }

  /** One call of `add` on the default queue, from its test to its end. */
  lemma OneAdd(s: State, fn: nat, argument: nat) returns (actions: seq<Action>, t: State)
    requires Inv(s) && s.faccept && s.adding == 0 && s.mq.Has(0)
    ensures Reaches(s, actions, t) && Inv(t) && t.faccept && t.adding == 0 && t.mq.Has(0)
    ensures |t.accepted| == |s.accepted| + 1
  {
    var wake := SomeSignal(s);
    var s1, push := Apply(s, BeginAdd), PushTask(0, fn, argument, wake);
    InvKept(s, BeginAdd);
    InvKept(s1, push);
    AddReaches(s1, push);
    t := Apply(s1, push);
    actions := [BeginAdd] + [push];
    OneStep(s, BeginAdd);
    OneStep(s1, push);
    Compose(s, [BeginAdd], s1, [push], t);
    var k :| 0 <= k < |s.mq.queues| && s.mq.queues[k].qid == 0;
    assert t.mq.queues[k].qid == 0;
  }

  lemma {:induction false} ManyAdds(s: State, k: nat) returns (actions: seq<Action>, t: State)
    requires Inv(s) && s.faccept && s.adding == 0 && s.mq.Has(0)
    ensures Reaches(s, actions, t) && Inv(t) && t.faccept && t.adding == 0
    ensures |t.accepted| == |s.accepted| + k
    decreases k
  {
    if k == 0 {
      return [], s;
    }
    var first, s1 := OneAdd(s, 0, 0);
    var rest;
    rest, t := ManyAdds(s1, k - 1);
    Compose(s, first, s1, rest, t);
    actions := first + rest;
  }

  ghost predicate HasStopped(s: State) {
    exists i :: 0 <= i < |s.threads| && s.threads[i].Stopped?
  }

  /** A call of `stop` that enters now can get to its end. */
  lemma StopCompletes(s: State) returns (actions: seq<Action>, t: State)
    requires Inv(s) && s.faccept && s.adding == 0
    ensures Reaches(s, actions, t) && HasStopped(t) && t.accepted == s.accepted
  {
    var i, s1 := |s.threads|, Apply(s, CallStop);
    InvKept(s, CallStop);
    OneStep(s, CallStop);
    var rest;
    rest, t := DrainReturns(s1, i);
    Compose(s, [CallStop], s1, rest, t);
    actions := [CallStop] + rest;
  }

  /**
   There is something to drain: for every number of workers and of tasks, some
   disciplined run accepts that many and has `stop` return.
   */
  lemma StopAfterTasks(n: nat, k: nat)
    requires 0 < n < UINT32_RANGE
    ensures exists actions, t :: Reaches(Initial(n), actions, t) && HasStopped(t) && |t.accepted| == k
  {
    InitialInv(n);
    InitialExact(n);
    assert Initial(n).mq.queues[0].qid == 0;
    var first, s := ManyAdds(Initial(n), k);
    var rest, t := StopCompletes(s);
    Compose(Initial(n), first, s, rest, t);
  }

  // ---- An add that overlaps the start of stop ----

  /** The run of `stop` up to its return, with a task pending at the end. */
  predicate LosesTask(s: State, actions: seq<Action>, t: State) {
    && actions != [] && actions[0] == CallStop && Runs(s, actions, t)
    && (exists i :: 0 <= i < |t.threads| && t.threads[i].Stopped?) && !t.mq.IsEmpty()
  }

  /** After `stop` has begun, no second call is possible, so every run is disciplined. */
  lemma {:induction false} RunsAfterStop(s: State, actions: seq<Action>, t: State)
    requires !s.faccept && Runs(s, actions, t)
    ensures Reaches(s, actions, t)
    decreases |actions|
  {
    if actions != [] {
      RunsAfterStop(Apply(s, actions[0]), actions[1..], t);
    }
  }

  /** A run that begins no `add` and pushes nothing does not depend on how many adds stand before their push. */
  lemma {:induction false} AddsApart(s: State, actions: seq<Action>, t: State, k: nat)
    requires !s.faccept && s.adding == 0 && Inv(s) && Reaches(s, actions, t)
    ensures Runs(s.(adding := k), actions, t.(adding := k))
    decreases |actions|
  {
    if actions != [] {
      var a := actions[0];
      InvKept(s, a);
      assert Enabled(s.(adding := k), a);
      assert Apply(s.(adding := k), a) == Apply(s, a).(adding := k);
      AddsApart(Apply(s, a), actions[1..], t, k);
    }
  }

  lemma {:induction false} RunsThen(s: State, actions: seq<Action>, t: State, a: Action)
    requires Runs(s, actions, t) && Enabled(t, a)
    ensures Runs(s, actions + [a], Apply(t, a))
    decreases |actions|
  {
    if actions == [] {
      assert [] + [a] == [a] && [a][1..] == [];
    } else {
      RunsThen(Apply(s, actions[0]), actions[1..], t, a);
      assert (actions + [a])[1..] == actions[1..] + [a];
    }
  }

  /** The schedule that loses a task: `stop` runs to its end while an `add` stands before its push. */
  lemma LateAdd(s: State) returns (actions: seq<Action>, t: State)
    requires Inv(s) && s.faccept && s.adding > 0
    ensures LosesTask(s, actions, t)
  {
    var s0, i := s.(adding := 0), |s.threads|;
    WithoutAdds(s);
    InvKept(s0, CallStop);
    var s1 := Apply(s0, CallStop);
    var rest, s2 := DrainReturns(s1, i);
    AddsApart(s1, rest, s2, s.adding);
    var s3 := s2.(adding := s.adding);
    assert Apply(s, CallStop) == s1.(adding := s.adding);
    var qid := s2.mq.queues[0].qid;
    StoppedIsDrained(s2);
    var wake := SomeSignal(s2);
    var push := PushTask(qid, 0, 0, wake);
    t := Apply(s3, push);
    RunsThen(Apply(s, CallStop), rest, s3, push);
    actions := [CallStop] + (rest + [push]);
    assert actions[1..] == rest + [push];
    assert t.threads[i].Stopped?;
    assert t.mq.queues[0].tasks != [];
  }

  lemma WithoutAdds(s: State)
    requires Inv(s) && s.faccept
    ensures Inv(s.(adding := 0))
  {
    forall i | 0 <= i < |s.threads|
      ensures InOrder(s.(adding := 0), s.threads[i])
    {
      assert InOrder(s, s.threads[i]);
    }
  }

  /**
   A task accepted by `add` can be left behind by `stop` exactly when `stop`
   starts while some `add` stands between its test of m_faccept and its push.
   */
  lemma LateAddIsLost(s: State)
    requires Inv(s) && s.faccept
    ensures s.adding > 0 <==> exists actions, t :: LosesTask(s, actions, t)
  {
    if s.adding > 0 {
      var actions, t := LateAdd(s);
    } else if actions: seq<Action>, t: State :| LosesTask(s, actions, t) {
      InvKept(s, CallStop);
      RunsAfterStop(Apply(s, CallStop), actions[1..], t);
      InvariantOverRuns(Apply(s, CallStop), actions[1..], t);
      StoppedIsDrained(t);
    }
  }

  // ---- A caller of wait_empty that returns while a task runs ----

  lemma Extend(s: State, actions: seq<Action>, t: State, a: Action)
    requires Reaches(s, actions, t) && Steps(t, a)
    ensures Reaches(s, actions + [a], Apply(t, a))
  {
    OneStep(t, a);
    Compose(s, actions, t, [a], Apply(t, a));
  }

  /** One `add`. */
  lemma OneTaskPending() returns (actions: seq<Action>, t: State)
    ensures Reaches(Initial(2), actions, t) && t.faccept && !t.fstop
    ensures |t.mq.queues| == 1 && t.mq.cursor == 0 && |t.mq.queues[0].tasks| == 1 && t.mq.queues[0].max == 0
    ensures t.threads == [Looping, Looping]
  {
    var s, push := Initial(2), PushTask(0, 1, 1, None);
    OneStep(s, BeginAdd);
    var s1 := Apply(s, BeginAdd);
    Extend(s, [BeginAdd], s1, push);
    t := Apply(s1, push);
    actions := [BeginAdd] + [push];
  }

  /** And one fetch: a worker is running the only task. */
  lemma OneTaskRunning() returns (actions: seq<Action>, t: State)
    ensures Reaches(Initial(2), actions, t) && t.faccept
    ensures t.mq.IsEmpty() && |t.mq.queues| == 1 && t.mq.cursor == 0
    ensures |t.threads| == 2 && t.threads[0].Running?
  {
    var first, s := OneTaskPending();
    Extend(Initial(2), first, s, ReadStop(0));
    var s1 := Apply(s, ReadStop(0));
    Extend(Initial(2), first + [ReadStop(0)], s1, Fetch(0, None));
    t := Apply(s1, Fetch(0, None));
    actions := first + [ReadStop(0)] + [Fetch(0, None)];
  }

  ghost predicate ReturnedEarly(s: State, i: nat) {
    i < |s.threads| && s.threads[i].Returned? && SomeWorkerRuns(s) && multiset(s.finished) != multiset(s.accepted)
  }

  /** Whenever nothing is pending but a task still runs, a call of `wait_empty` returns early. */
  lemma CallReturnsEarly(s: State) returns (t: State)
    requires Inv(s) && s.mq.IsEmpty() && SomeWorkerRuns(s)
    ensures Reaches(s, [CallWaitEmpty, CheckEmpty(|s.threads|)], t) && ReturnedEarly(t, |s.threads|)
  {
    var i, s1 := |s.threads|, Apply(s, CallWaitEmpty);
    t := Apply(s1, CheckEmpty(i));
    OneStep(s1, CheckEmpty(i));
    assert [CallWaitEmpty, CheckEmpty(i)][1..] == [CheckEmpty(i)];
    var w :| 0 <= w < |s.threads| && s.threads[w].Running?;
    assert t.threads[w].Running?;
    InvKept(s, CallWaitEmpty);
    InvKept(s1, CheckEmpty(i));
    AllFinishedExact(t);
  }

  /**
   `wait_empty` can return while an accepted task is still running, so its
   return does not mean that the tasks are done.
   */
  lemma WaitEmptyIsNotCompletion()
    ensures exists actions, t, i :: Reaches(Initial(2), actions, t) && ReturnedEarly(t, i)
  {
    var first, s := OneTaskRunning();
    InitialInv(2);
    InvariantOverRuns(Initial(2), first, s);
    var t := CallReturnsEarly(s);
    Compose(Initial(2), first, s, [CallWaitEmpty, CheckEmpty(|s.threads|)], t);
  }
}
