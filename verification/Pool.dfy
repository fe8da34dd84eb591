/**
 The thread pool as a state machine. Every critical section under the pool's
 mutex, and every unlocked read of its stop flag, is one step.
 */
module Pool {
  import opened Bytes
  import opened Folds
  import opened QueueSpec

  /** Where a thread stands: a worker, a caller of `wait_empty`, or the caller of `stop`. */
  datatype Thread =
    | Looping                             // about to read m_fstop
    | Fetching                            // about to lock and call front
    | Checking                            // in wait_closeable, about to test its condition
    | Sleeping                            // in wait_closeable, in pthread_cond_wait
    | Running(qid: nat, task: Task)       // between front and pop
    | Exited
    | Waiting | WaitingAsleep | Returned  // wait_empty
    | Stopping | StoppingAsleep           // stop, inside wait_empty
    | Drained                             // stop, about to raise m_fstop
    | Joining | Stopped
  {
    predicate IsWorker() {
      Looping? || Fetching? || Checking? || Sleeping? || Running? || Exited?
    }

    predicate Awake() {
      Looping? || Fetching? || Checking? || Running?
    }

    predicate Asleep() {
      Sleeping? || WaitingAsleep? || StoppingAsleep?
    }

    predicate CallsStop() {
      Stopping? || StoppingAsleep? || Drained? || Joining? || Stopped?
    }

    /** Out of `pthread_cond_wait`: the condition is tested again. */
    function Wake(): Thread {
      match this
      case Sleeping => Checking
      case WaitingAsleep => Waiting
      case StoppingAsleep => Stopping
      case _ => this
    }
  }

  /**
   `accepted` and `finished` record the tasks ever pushed and run; `adding`
   counts callers of `add` past its test of m_faccept.
   */
  datatype State = State(
    mq: MultiQueue,
    workers: nat,
    threads: seq<Thread>,
    fstop: bool,
    faccept: bool,
    adding: nat,
    accepted: seq<Task>,
    finished: seq<Task>)
  {
    function With(i: nat, t: Thread): State
      requires i < |threads|
    {
      this.(threads := threads[i := t])
    }

    /** `pthread_cond_signal`, waking the given sleeper if there is one. */
    function Signal(wake: Option<nat>): State
      requires wake.Some? ==> wake.value < |threads|
    {
      if wake == None then this else With(wake.value, threads[wake.value].Wake())
    }

    function Broadcast(): State {
      this.(threads := seq(|threads|, i requires 0 <= i < |threads| => threads[i].Wake()))
    }

    /** A signal wakes some sleeper unless there is none. */
    predicate CanWake(wake: Option<nat>) {
      match wake
      case None => forall i :: 0 <= i < |threads| ==> !threads[i].Asleep()
      case Some(i) => i < |threads| && threads[i].Asleep()
    }
  }

  /** The pool after `init` with `n` workers. */
  function Initial(n: nat): State {
    State(MultiQueue([NewQueue(0, 0)], 0), n, seq(n, _ => Looping), false, true, 0, [], [])
  }

  datatype Action =
    | ReadStop(t: nat)
    | Fetch(t: nat, wake: Option<nat>)
    | Finish(t: nat)
    | CheckCloseable(t: nat)
    | WakeSpuriously(t: nat)
    | BeginAdd
    | PushTask(qid: nat, fn: nat, argument: nat, wake: Option<nat>)
    | CreateQueue(qid: nat, max: nat, at: nat)
    | DeleteQueue(qid: nat, wake: Option<nat>)
    | CallWaitEmpty
    | CheckEmpty(t: nat)
    | CallStop
    | RaiseStop(t: nat)
    | Join(t: nat)

  predicate Enabled(s: State, a: Action) {
    s.mq.cursor < |s.mq.queues| &&
    match a
    case ReadStop(t) => t < |s.threads| && s.threads[t].Looping?
    case Fetch(t, wake) =>
      && t < |s.threads| && s.threads[t].Fetching?
      && (if FrontOf(s.mq).Served? then s.CanWake(wake) else wake == None)
    case Finish(t) => t < |s.threads| && s.threads[t].Running?
    case CheckCloseable(t) => t < |s.threads| && s.threads[t].Checking?
    case WakeSpuriously(t) => t < |s.threads| && s.threads[t].Asleep()
    case BeginAdd => s.faccept
    case PushTask(_, _, _, wake) => s.adding > 0 && s.CanWake(wake)
    case CreateQueue(qid, _, at) => at <= |s.mq.queues| && !s.mq.Has(qid)
    case DeleteQueue(qid, wake) =>
      var i := IndexOf(s.mq.queues, qid);
      && qid != 0 && s.CanWake(wake)
      && (i < |s.mq.queues| ==> i != s.mq.cursor && s.mq.queues[i].tasks == [] && s.mq.queues[i].cnt == 0)
    case CallWaitEmpty => true
    case CheckEmpty(t) => t < |s.threads| && (s.threads[t].Waiting? || s.threads[t].Stopping?)
    case CallStop => s.faccept
    case RaiseStop(t) => t < |s.threads| && s.threads[t].Drained?
    case Join(t) => t < |s.threads| && s.threads[t].Joining? && (forall w :: 0 <= w < s.workers && w < |s.threads| ==> s.threads[w].Exited?)
  }

  /** `stop` is not called while an `add` stands between its test of m_faccept and its push. */
  predicate Disciplined(s: State, a: Action) {
    a.CallStop? ==> s.adding == 0
  }

  /** A worker leaves `front` with a task. */
  function Start(s: State, t: nat): State
    requires t < |s.threads| && s.mq.cursor < |s.mq.queues| && FrontOf(s.mq).Served?
  {
    var r := FrontOf(s.mq);
    s.(mq := r.after).With(t, Running(s.mq.queues[r.index].qid, r.task))
  }

  /** A worker has run its task and pops the counter. */
  function Complete(s: State, t: nat): State
    requires t < |s.threads| && s.threads[t].Running?
  {
    var i := IndexOf(s.mq.queues, s.threads[t].qid);
    var mq := if i < |s.mq.queues| then s.mq.Update(i, s.mq.queues[i].Pop()) else s.mq;
    s.(mq := mq, finished := s.finished + [s.threads[t].task]).With(t, Looping)
  }

  /** A task is pushed. */
  function Accept(s: State, i: nat, task: Task): State
    requires i < |s.mq.queues|
  {
    s.(mq := s.mq.Update(i, s.mq.queues[i].Push(task)), accepted := s.accepted + [task])
  }

  /** `remove_queue` of the queue at `i`; of an unknown one, it changes nothing. */
  function Remove(s: State, i: nat): State
    requires i < |s.mq.queues| ==> i != s.mq.cursor
  {
    if i < |s.mq.queues| then s.(mq := RemoveAt(s.mq, i)) else s
  }

  function Apply(s: State, a: Action): State
    requires Enabled(s, a)
  {
    match a
    case ReadStop(t) => s.With(t, if s.fstop then Exited else Fetching)
    case Fetch(t, wake) => if FrontOf(s.mq).Served? then Start(s, t).Signal(wake) else s.With(t, Checking)
    case Finish(t) => Complete(s, t).Broadcast()
    case CheckCloseable(t) => s.With(t, if s.mq.IsEmpty() && !s.fstop then Sleeping else Looping)
    case WakeSpuriously(t) => s.With(t, s.threads[t].Wake())
    case BeginAdd => s.(adding := s.adding + 1)
    case PushTask(qid, fn, argument, wake) => (
      var i := IndexOf(s.mq.queues, qid);
      var s0 := s.(adding := s.adding - 1);
      (if i < |s.mq.queues| then Accept(s0, i, Task(|s.accepted|, fn, argument)) else s0).Signal(wake))
    case CreateQueue(qid, max, at) => s.(mq := InsertQueue(s.mq, NewQueue(qid, max), at))
    case DeleteQueue(qid, wake) => Remove(s, IndexOf(s.mq.queues, qid)).Signal(wake)
    case CallWaitEmpty => s.(threads := s.threads + [Waiting])
    case CheckEmpty(t) => (
      var caller := s.threads[t];
      s.With(t, if s.mq.IsEmpty() then (if caller.Waiting? then Returned else Drained)
                else if caller.Waiting? then WaitingAsleep else StoppingAsleep))
    case CallStop => s.(fstop := false, faccept := false, threads := s.threads + [Stopping])
    case RaiseStop(t) => s.(fstop := true).With(t, Joining).Broadcast()
    case Join(t) => s.With(t, Stopped)
  }

  predicate Steps(s: State, a: Action) {
    Enabled(s, a) && Disciplined(s, a)
  }

  /** `t` is reached from `s` by the given steps, in any interleaving. */
  predicate Runs(s: State, actions: seq<Action>, t: State)
    decreases |actions|
  {
    if actions == [] then s == t
    else Enabled(s, actions[0]) && Runs(Apply(s, actions[0]), actions[1..], t)
  }

  /** `t` is reached from `s` with `stop` called only at disciplined moments. */
  predicate Reaches(s: State, actions: seq<Action>, t: State)
    decreases |actions|
  {
    if actions == [] then s == t
    else Steps(s, actions[0]) && Reaches(Apply(s, actions[0]), actions[1..], t)
  }

  // ---- The invariant ----

  ghost predicate Shape(s: State) {
    && s.mq.Valid()
    && 0 < s.workers < UINT32_RANGE && s.workers <= |s.threads|
    && forall i :: 0 <= i < |s.threads| ==> (s.threads[i].IsWorker() <==> i < s.workers)
  }

  function OnQueue(qid: nat): Thread -> nat {
    (t: Thread) => if t.Running? && t.qid == qid then 1 else 0
  }

  function RunsTask(task: Task): Thread -> nat {
    (t: Thread) => if t.Running? && t.task == task then 1 else 0
  }

  function IsTask(task: Task): Task -> nat {
    (x: Task) => if x == task then 1 else 0
  }

  function Occurs(tasks: seq<Task>, task: Task): nat {
    Total(tasks, IsTask(task))
  }

  function InQueue(task: Task): Queue -> nat {
    (q: Queue) => Occurs(q.tasks, task)
  }

  /** Every counter is the number of workers between `front` and `pop` on its queue, and within its limit. */
  ghost predicate Counted(s: State) {
    && (forall i :: 0 <= i < |s.mq.queues| ==>
         var q := s.mq.queues[i];
         q.cnt == Total(s.threads, OnQueue(q.qid)) && (q.max != 0 ==> q.cnt <= q.max))
    && (forall i :: 0 <= i < |s.threads| && s.threads[i].Running? ==> s.mq.Has(s.threads[i].qid))
  }

  /** Every accepted task is in exactly one place: in a queue, with a worker, or finished. */
  ghost predicate Conserved(s: State) {
    && (forall i :: 0 <= i < |s.accepted| ==> s.accepted[i].id == i)
    && (forall task :: Total(s.mq.queues, InQueue(task)) + Total(s.threads, RunsTask(task)) + Occurs(s.finished, task)
                       == Occurs(s.accepted, task))
  }

  ghost predicate SomeWorkerAwake(s: State) {
    exists i :: 0 <= i < |s.threads| && s.threads[i].Awake()
  }

  ghost predicate SomeWorkerRuns(s: State) {
    exists i :: 0 <= i < |s.threads| && s.threads[i].Running?
  }

  /**
   With work pending some worker is not asleep; a caller of `wait_empty`
   asleep with nothing pending has a running worker to wake it.
   */
  ghost predicate WakeUps(s: State) {
    && (!s.fstop && !s.mq.IsEmpty() ==> SomeWorkerAwake(s))
    && (s.mq.IsEmpty() && (exists i :: 0 <= i < |s.threads| && s.threads[i].Asleep() && !s.threads[i].Sleeping?)
        ==> SomeWorkerRuns(s))
  }

  ghost predicate AllExited(s: State) {
    forall w :: 0 <= w < s.workers && w < |s.threads| ==> s.threads[w].Exited?
  }

  /** How far `stop` has come, as seen by one thread. */
  ghost predicate InOrder(s: State, t: Thread) {
    && (t.CallsStop() ==> !s.faccept)
    && (t.Drained? ==> s.mq.IsEmpty())
    && (t.Joining? || t.Stopped? || t.Exited? ==> s.fstop)
    && (t.Sleeping? ==> !s.fstop)
    && (t.Stopped? ==> AllExited(s))
  }

  /**
   Once `stop` has closed the pool nothing is added; once it has raised its
   flag nothing is pending and no worker sleeps.
   */
  ghost predicate StopOrder(s: State) {
    && (!s.faccept ==> s.adding == 0)
    && (s.fstop ==> !s.faccept && s.mq.IsEmpty())
    && forall i :: 0 <= i < |s.threads| ==> InOrder(s, s.threads[i])
  }

  ghost predicate Inv(s: State) {
    Shape(s) && Counted(s) && Conserved(s) && WakeUps(s) && StopOrder(s)
  }

  lemma InitialInv(n: nat)
    requires 0 < n < UINT32_RANGE
    ensures Inv(Initial(n))
  {
    var s := Initial(n);
    TotalZero(s.threads, OnQueue(0));
    forall task
      ensures Total(s.mq.queues, InQueue(task)) == 0 && Total(s.threads, RunsTask(task)) == 0
    {
      TotalZero(s.mq.queues, InQueue(task));
      TotalZero(s.threads, RunsTask(task));
    }
  }

  // ---- Every step keeps it: the books ----

  /** The part of the invariant that is about tasks and counters. */
  ghost predicate Books(s: State) {
    Shape(s) && Counted(s) && Conserved(s)
  }

  /** Sums over the threads that only count running workers. */
  ghost predicate CountsRunning(f: Thread -> nat) {
    forall t: Thread :: !t.Running? ==> f(t) == 0
  }

  /** The same running workers, as far as sums can tell. */
  ghost predicate SameRunning(a: seq<Thread>, b: seq<Thread>) {
    && (forall f: Thread -> nat :: CountsRunning(f) ==> Total(a, f) == Total(b, f))
    && (forall i :: 0 <= i < |b| && b[i].Running? ==> i < |a| && a[i] == b[i])
  }

  lemma MoveIdle(threads: seq<Thread>, i: nat, t: Thread)
    requires i < |threads| && !threads[i].Running? && !t.Running?
    ensures SameRunning(threads, threads[i := t])
  {
    forall f: Thread -> nat | CountsRunning(f)
      ensures Total(threads, f) == Total(threads[i := t], f)
    {
      TotalUpdate(threads, i, t, f);
    }
  }

  lemma AppendIdle(threads: seq<Thread>, t: Thread)
    requires !t.Running?
    ensures SameRunning(threads, threads + [t])
  {
    forall f: Thread -> nat | CountsRunning(f)
      ensures Total(threads, f) == Total(threads + [t], f)
    {
      TotalAppend(threads, t, f);
    }
  }

  lemma BroadcastIdle(s: State)
    ensures SameRunning(s.threads, s.Broadcast().threads)
  {
    forall f: Thread -> nat | CountsRunning(f)
      ensures Total(s.threads, f) == Total(s.Broadcast().threads, f)
    {
      TotalSame(s.threads, s.Broadcast().threads, f);
    }
  }

  /** Changing threads that do not run leaves the books as they are. */
  lemma IdleThreads(s: State, s': State)
    requires Books(s) && Shape(s') && SameRunning(s.threads, s'.threads)
    requires s'.mq == s.mq && s'.accepted == s.accepted && s'.finished == s.finished
    ensures Books(s')
  {
    forall task
      ensures Total(s'.threads, RunsTask(task)) == Total(s.threads, RunsTask(task))
    {
      assert CountsRunning(RunsTask(task));
    }
    forall i | 0 <= i < |s.mq.queues|
      ensures Total(s'.threads, OnQueue(s.mq.queues[i].qid)) == Total(s.threads, OnQueue(s.mq.queues[i].qid))
    {
      assert CountsRunning(OnQueue(s.mq.queues[i].qid));
    }
  }

  lemma SignalBooks(s: State, wake: Option<nat>)
    requires Books(s) && s.CanWake(wake)
    ensures Books(s.Signal(wake))
  {
    if wake.Some? {
      MoveIdle(s.threads, wake.value, s.threads[wake.value].Wake());
      IdleThreads(s, s.Signal(wake));
    }
  }

  lemma BroadcastBooks(s: State)
    requires Books(s)
    ensures Books(s.Broadcast())
  {
    BroadcastIdle(s);
    IdleThreads(s, s.Broadcast());
  }

  lemma MoveBooks(s: State, i: nat, t: Thread)
    requires Books(s) && i < |s.threads| && !s.threads[i].Running? && !t.Running?
    requires t.IsWorker() <==> i < s.workers
    ensures Books(s.With(i, t))
  {
    MoveIdle(s.threads, i, t);
    IdleThreads(s, s.With(i, t));
  }

  lemma StartCounted(s: State, t: nat)
    requires Books(s) && t < |s.threads| && s.threads[t].Fetching? && FrontOf(s.mq).Served?
    ensures Shape(Start(s, t)) && Counted(Start(s, t))
  {
    var i := FrontOf(s.mq).index;
    var s', qid := Start(s, t), s.mq.queues[i].qid;
    FrontKeepsValid(s.mq);
    assert s.mq.queues[i].cnt + 1 == Total(s'.threads, OnQueue(qid)) <= s.workers by {
      TotalUpdate(s.threads, t, s'.threads[t], OnQueue(qid));
      TotalBound(s'.threads, s.workers, OnQueue(qid));
    }
    forall k | 0 <= k < |s'.mq.queues|
      ensures var q := s'.mq.queues[k]; q.cnt == Total(s'.threads, OnQueue(q.qid)) && (q.max != 0 ==> q.cnt <= q.max)
    {
      if k != i {
        TotalUpdate(s.threads, t, s'.threads[t], OnQueue(s.mq.queues[k].qid));
      }
    }
    assert s'.mq.queues[i].qid == qid;
    SameIds(s, s');
  }

  /** Queue ids stay known when every queue keeps its id. */
  lemma SameIds(s: State, s': State)
    requires |s'.mq.queues| == |s.mq.queues|
    requires forall k :: 0 <= k < |s.mq.queues| ==> s'.mq.queues[k].qid == s.mq.queues[k].qid
    ensures forall qid :: s.mq.Has(qid) <==> s'.mq.Has(qid)
  {
    forall qid
      ensures s.mq.Has(qid) <==> s'.mq.Has(qid)
    {
      if s.mq.Has(qid) {
        var k :| 0 <= k < |s.mq.queues| && s.mq.queues[k].qid == qid;
        assert s'.mq.queues[k].qid == qid;
      }
      if s'.mq.Has(qid) {
        var k :| 0 <= k < |s.mq.queues| && s'.mq.queues[k].qid == qid;
        assert s.mq.queues[k].qid == qid;
      }
    }
  }

  lemma {:induction false} StartConserved(s: State, t: nat)
    requires Books(s) && t < |s.threads| && s.threads[t].Fetching? && FrontOf(s.mq).Served?
    ensures Conserved(Start(s, t))
  {
    var i, s' := FrontOf(s.mq).index, Start(s, t);
    var q := s.mq.queues[i];
    forall task
      ensures Total(s'.mq.queues, InQueue(task)) + Total(s'.threads, RunsTask(task)) ==
              Total(s.mq.queues, InQueue(task)) + Total(s.threads, RunsTask(task))
    {
      TotalUpdate(s.mq.queues, i, q.Front(), InQueue(task));
      TotalUpdate(s.threads, t, s'.threads[t], RunsTask(task));
    }
  }

  lemma CompleteCounted(s: State, t: nat)
    requires Books(s) && t < |s.threads| && s.threads[t].Running?
    ensures Shape(Complete(s, t)) && Counted(Complete(s, t))
  {
    var qid, s' := s.threads[t].qid, Complete(s, t);
    var i := IndexOf(s.mq.queues, qid);
    assert i < |s.mq.queues|;
    assert s.mq.queues[i].Fifo();
    SameIds(s, s');
    forall k | 0 <= k < |s'.mq.queues|
      ensures var q := s'.mq.queues[k]; q.cnt == Total(s'.threads, OnQueue(q.qid)) && (q.max != 0 ==> q.cnt <= q.max)
    {
      var f := OnQueue(s.mq.queues[k].qid);
      TotalUpdate(s.threads, t, Looping, f);
      TotalBound(s.threads, s.workers, f);
      assert k != i ==> f(s.threads[t]) == 0;
    }
  }

  lemma {:induction false} CompleteConserved(s: State, t: nat)
    requires Books(s) && t < |s.threads| && s.threads[t].Running?
    ensures Conserved(Complete(s, t))
  {
    var i, s' := IndexOf(s.mq.queues, s.threads[t].qid), Complete(s, t);
    forall task
      ensures Total(s'.mq.queues, InQueue(task)) == Total(s.mq.queues, InQueue(task))
      ensures Total(s'.threads, RunsTask(task)) + Occurs(s'.finished, task) == Total(s.threads, RunsTask(task)) + Occurs(s.finished, task)
    {
      if i < |s.mq.queues| {
        TotalUpdate(s.mq.queues, i, s.mq.queues[i].Pop(), InQueue(task));
      }
      TotalUpdate(s.threads, t, Looping, RunsTask(task));
      TotalAppend(s.finished, s.threads[t].task, IsTask(task));
    }
  }

  lemma AcceptBooks(s: State, i: nat, task: Task)
    requires Books(s) && i < |s.mq.queues| && task.id == |s.accepted|
    ensures Books(Accept(s, i, task))
  {
    var s', q := Accept(s, i, task), s.mq.queues[i];
    PushKeepsFifo(q, task);
    SameIds(s, s');
    forall x
      ensures Total(s'.mq.queues, InQueue(x)) == Total(s.mq.queues, InQueue(x)) + IsTask(x)(task)
      ensures Occurs(s'.accepted, x) == Occurs(s.accepted, x) + IsTask(x)(task)
    {
      TotalUpdate(s.mq.queues, i, q.Push(task), InQueue(x));
      TotalAppend(q.tasks, task, IsTask(x));
      TotalAppend(s.accepted, task, IsTask(x));
    }
  }

  lemma CreateCounted(s: State, qid: nat, max: nat, at: nat)
    requires Books(s) && at <= |s.mq.queues| && !s.mq.Has(qid)
    ensures var s' := s.(mq := InsertQueue(s.mq, NewQueue(qid, max), at)); Shape(s') && Counted(s')
  {
    var s' := s.(mq := InsertQueue(s.mq, NewQueue(qid, max), at));
    InsertKeepsValid(s.mq, qid, max, at);
    TotalZero(s.threads, OnQueue(qid));
    forall k | 0 <= k < |s'.mq.queues|
      ensures var q := s'.mq.queues[k]; q.cnt == Total(s'.threads, OnQueue(q.qid)) && (q.max != 0 ==> q.cnt <= q.max)
    {
      if k != at {
        assert s'.mq.queues[k] == s.mq.queues[if k < at then k else k - 1];
      }
    }
    forall i | 0 <= i < |s.threads| && s.threads[i].Running?
      ensures s'.mq.Has(s.threads[i].qid)
    {
      var k :| 0 <= k < |s.mq.queues| && s.mq.queues[k].qid == s.threads[i].qid;
      assert s'.mq.queues[if k < at then k else k + 1].qid == s.threads[i].qid;
    }
  }

  lemma CreateBooks(s: State, qid: nat, max: nat, at: nat)
    requires Books(s) && at <= |s.mq.queues| && !s.mq.Has(qid)
    ensures Books(s.(mq := InsertQueue(s.mq, NewQueue(qid, max), at)))
  {
    var s' := s.(mq := InsertQueue(s.mq, NewQueue(qid, max), at));
    CreateCounted(s, qid, max, at);
    forall task
      ensures Total(s'.mq.queues, InQueue(task)) == Total(s.mq.queues, InQueue(task))
    {
      TotalInsert(s.mq.queues, at, NewQueue(qid, max), InQueue(task));
    }
  }

  lemma DeleteBooks(s: State, i: nat)
    requires Books(s) && i < |s.mq.queues| && i != s.mq.cursor
    requires s.mq.queues[i].tasks == [] && s.mq.queues[i].cnt == 0
    ensures Books(s.(mq := RemoveAt(s.mq, i)))
  {
    var s', qid := s.(mq := RemoveAt(s.mq, i)), s.mq.queues[i].qid;
    RemoveKeepsValid(s.mq, i);
    TotalZero(s.threads, OnQueue(qid));
    forall k | 0 <= k < |s.threads| && s.threads[k].Running?
      ensures s'.mq.Has(s.threads[k].qid)
    {
      assert OnQueue(qid)(s.threads[k]) == 0;
      var j :| 0 <= j < |s.mq.queues| && s.mq.queues[j].qid == s.threads[k].qid;
      assert s'.mq.queues[if j < i then j else j - 1].qid == s.threads[k].qid;
    }
    forall task
      ensures Total(s'.mq.queues, InQueue(task)) == Total(s.mq.queues, InQueue(task))
    {
      TotalDrop(s.mq.queues, i, InQueue(task));
    }
  }

  lemma WorkerStepsKeepBooks(s: State, a: Action)
    requires Books(s) && Enabled(s, a) && (a.Fetch? || a.Finish?)
    ensures Books(Apply(s, a))
  {
    if a.Finish? {
      CompleteCounted(s, a.t);
      CompleteConserved(s, a.t);
      BroadcastBooks(Complete(s, a.t));
    } else if FrontOf(s.mq).Served? {
      StartCounted(s, a.t);
      StartConserved(s, a.t);
      SignalBooks(Start(s, a.t), a.wake);
    } else {
      MoveBooks(s, a.t, Checking);
    }
  }

  lemma PushKeepsBooks(s: State, a: Action)
    requires Books(s) && Enabled(s, a) && a.PushTask?
    ensures Books(Apply(s, a))
  {
    var i, s0 := IndexOf(s.mq.queues, a.qid), s.(adding := s.adding - 1);
    if i < |s.mq.queues| {
      var task := Task(|s.accepted|, a.fn, a.argument);
      AcceptBooks(s0, i, task);
      SignalBooks(Accept(s0, i, task), a.wake);
      assert Apply(s, a) == Accept(s0, i, task).Signal(a.wake);
    } else {
      SignalBooks(s0, a.wake);
      assert Apply(s, a) == s0.Signal(a.wake);
    }
  }

  lemma QueueStepsKeepBooks(s: State, a: Action)
    requires Books(s) && Enabled(s, a) && (a.CreateQueue? || a.DeleteQueue?)
    ensures Books(Apply(s, a))
  {
    if a.CreateQueue? {
      CreateBooks(s, a.qid, a.max, a.at);
    } else {
      var i := IndexOf(s.mq.queues, a.qid);
      if i < |s.mq.queues| {
        DeleteBooks(s, i);
      }
      SignalBooks(Remove(s, i), a.wake);
    }
  }

  /** Every step keeps counters exact and limits observed, and no task is lost, doubled or invented. */
  lemma BooksKept(s: State, a: Action)
    requires Books(s) && Enabled(s, a)
    ensures Books(Apply(s, a))
  {
    var s' := Apply(s, a);
    if a.Fetch? || a.Finish? {
      WorkerStepsKeepBooks(s, a);
    } else if a.PushTask? {
      PushKeepsBooks(s, a);
    } else if a.CreateQueue? || a.DeleteQueue? {
      QueueStepsKeepBooks(s, a);
    } else if a.BeginAdd? {
    } else if a.CallWaitEmpty? || a.CallStop? {
      AppendIdle(s.threads, s'.threads[|s.threads|]);
      IdleThreads(s, s');
    } else if a.RaiseStop? {
      MoveBooks(s.(fstop := true), a.t, Joining);
      BroadcastBooks(s.(fstop := true).With(a.t, Joining));
    } else {
      MoveBooks(s, a.t, s'.threads[a.t]);
    }
  }

  // ---- Every step keeps it: wake-ups and stopping ----

  lemma SignalOrder(s: State, wake: Option<nat>)
    requires StopOrder(s) && s.CanWake(wake)
    ensures StopOrder(s.Signal(wake))
  {
    var s' := s.Signal(wake);
    assert AllExited(s) ==> AllExited(s');
    forall i | 0 <= i < |s'.threads|
      ensures InOrder(s', s'.threads[i])
    {
      assert InOrder(s, s.threads[i]);
    }
  }

  lemma BroadcastOrder(s: State)
    requires StopOrder(s)
    ensures StopOrder(s.Broadcast())
  {
    var s' := s.Broadcast();
    assert AllExited(s) ==> AllExited(s');
    forall i | 0 <= i < |s'.threads|
      ensures InOrder(s', s'.threads[i])
    {
      assert InOrder(s, s.threads[i]);
    }
  }

  /** One thread moves, and the queues may change, but do not come alive once `stop` has drained them. */
  lemma MoveOrder(s: State, s': State, i: nat, t: Thread)
    requires StopOrder(s) && i < |s.threads| && s'.threads == s.threads[i := t] && s'.workers == s.workers
    requires s'.fstop == s.fstop && s'.faccept == s.faccept && (s.faccept || s'.adding == 0)
    requires !s.faccept && s.mq.IsEmpty() ==> s'.mq.IsEmpty()
    requires InOrder(s', t) && (s.threads[i].Exited? ==> t.Exited?)
    ensures StopOrder(s')
  {
    assert AllExited(s) ==> AllExited(s');
    forall k | 0 <= k < |s'.threads|
      ensures InOrder(s', s'.threads[k])
    {
      if k != i {
        assert InOrder(s, s.threads[k]);
      }
    }
  }

  /** No thread moves. */
  lemma QueueOrder(s: State, s': State)
    requires StopOrder(s) && s'.threads == s.threads && s'.workers == s.workers
    requires s'.fstop == s.fstop && s'.faccept == s.faccept && (s.faccept || s'.adding == 0)
    requires !s.faccept && s.mq.IsEmpty() ==> s'.mq.IsEmpty()
    ensures StopOrder(s')
  {
    assert AllExited(s) ==> AllExited(s');
    forall k | 0 <= k < |s'.threads|
      ensures InOrder(s', s'.threads[k])
    {
      assert InOrder(s, s.threads[k]);
    }
  }

  lemma CompleteSameEmpty(s: State, t: nat)
    requires Shape(s) && t < |s.threads| && s.threads[t].Running?
    ensures Complete(s, t).mq.IsEmpty() <==> s.mq.IsEmpty()
  {
    var mq := Complete(s, t).mq;
    assert forall k :: 0 <= k < |s.mq.queues| ==> mq.queues[k].tasks == s.mq.queues[k].tasks;
    if mq.IsEmpty() {
      assert forall k :: 0 <= k < |s.mq.queues| ==> mq.queues[k].tasks == [];
    }
  }

  lemma CreateSameEmpty(mq: MultiQueue, q: Queue, at: nat)
    requires at <= |mq.queues| && q.tasks == []
    ensures InsertQueue(mq, q, at).IsEmpty() <==> mq.IsEmpty()
  {
    var mq' := InsertQueue(mq, q, at);
    if mq'.IsEmpty() {
      forall k | 0 <= k < |mq.queues|
        ensures mq.queues[k].tasks == []
      {
        assert mq'.queues[if k < at then k else k + 1].tasks == [];
      }
    }
  }

  lemma DeleteSameEmpty(mq: MultiQueue, i: nat)
    requires i < |mq.queues| && i != mq.cursor && mq.queues[i].tasks == []
    ensures RemoveAt(mq, i).IsEmpty() <==> mq.IsEmpty()
  {
    var mq' := RemoveAt(mq, i);
    if mq'.IsEmpty() {
      forall k | 0 <= k < |mq.queues|
        ensures mq.queues[k].tasks == []
      {
        if k != i {
          assert mq'.queues[if k < i then k else k - 1].tasks == [];
        }
      }
    }
  }

  /** The broadcast with the flag raised leaves no worker asleep. */
  lemma RaiseOrder(s: State, t: nat)
    requires Shape(s) && StopOrder(s) && t < |s.threads| && s.threads[t].Drained?
    ensures StopOrder(Apply(s, RaiseStop(t)))
  {
    var s' := Apply(s, RaiseStop(t));
    assert InOrder(s, s.threads[t]);
    forall k | 0 <= k < |s'.threads|
      ensures InOrder(s', s'.threads[k])
    {
      assert InOrder(s, s.threads[k]);
    }
  }

  lemma {:induction false} WorkerStepsKeepOrder(s: State, a: Action)
    requires Shape(s) && StopOrder(s) && Enabled(s, a) && (a.Fetch? || a.Finish?)
    ensures StopOrder(Apply(s, a))
  {
    assert InOrder(s, s.threads[a.t]);
    if a.Finish? {
      CompleteSameEmpty(s, a.t);
      MoveOrder(s, Complete(s, a.t), a.t, Looping);
      BroadcastOrder(Complete(s, a.t));
    } else if FrontOf(s.mq).Served? {
      MoveOrder(s, Start(s, a.t), a.t, Start(s, a.t).threads[a.t]);
      SignalOrder(Start(s, a.t), a.wake);
    } else {
      MoveOrder(s, s.With(a.t, Checking), a.t, Checking);
    }
  }

  lemma QueueStepsKeepOrder(s: State, a: Action)
    requires Shape(s) && StopOrder(s) && Enabled(s, a) && (a.PushTask? || a.CreateQueue? || a.DeleteQueue?)
    ensures StopOrder(Apply(s, a))
  {
    var i := IndexOf(s.mq.queues, a.qid);
    if a.CreateQueue? {
      CreateSameEmpty(s.mq, NewQueue(a.qid, a.max), a.at);
      QueueOrder(s, Apply(s, a));
    } else if a.DeleteQueue? {
      if i < |s.mq.queues| {
        DeleteSameEmpty(s.mq, i);
      }
      QueueOrder(s, Remove(s, i));
      SignalOrder(Remove(s, i), a.wake);
    } else {
      var s0 := s.(adding := s.adding - 1);
      var s1 := if i < |s.mq.queues| then Accept(s0, i, Task(|s.accepted|, a.fn, a.argument)) else s0;
      QueueOrder(s, s1);
      SignalOrder(s1, a.wake);
    }
  }

  /** A new caller of `wait_empty` or `stop`. */
  lemma ArriveOrder(s: State, a: Action)
    requires Shape(s) && StopOrder(s) && Steps(s, a) && (a.CallWaitEmpty? || a.CallStop?)
    ensures StopOrder(Apply(s, a))
  {
    var s' := Apply(s, a);
    assert AllExited(s) ==> AllExited(s');
    forall k | 0 <= k < |s'.threads|
      ensures InOrder(s', s'.threads[k])
    {
      if k < |s.threads| {
        assert InOrder(s, s.threads[k]);
      }
    }
  }

  lemma {:induction false} StopOrderKept(s: State, a: Action)
    requires Shape(s) && StopOrder(s) && Steps(s, a)
    ensures StopOrder(Apply(s, a))
  {
    if a.Fetch? || a.Finish? {
      WorkerStepsKeepOrder(s, a);
    } else if a.PushTask? || a.CreateQueue? || a.DeleteQueue? {
      QueueStepsKeepOrder(s, a);
    } else if a.BeginAdd? {
      QueueOrder(s, Apply(s, a));
    } else if a.CallWaitEmpty? || a.CallStop? {
      ArriveOrder(s, a);
    } else if a.RaiseStop? {
      RaiseOrder(s, a.t);
    } else {
      assert InOrder(s, s.threads[a.t]);
      MoveOrder(s, Apply(s, a), a.t, Apply(s, a).threads[a.t]);
    }
  }

  /** Waking a sleeper takes nobody from work. */
  lemma SignalWakes(s: State, wake: Option<nat>)
    requires WakeUps(s) && s.CanWake(wake)
    ensures WakeUps(s.Signal(wake))
  {
    var s' := s.Signal(wake);
    assert forall i :: 0 <= i < |s.threads| && s.threads[i].Awake() ==> s'.threads[i] == s.threads[i];
    assert forall i :: 0 <= i < |s.threads| && s'.threads[i].Asleep() ==> s.threads[i] == s'.threads[i];
  }

  lemma BroadcastWakes(s: State)
    requires s.mq.IsEmpty() || s.fstop || SomeWorkerAwake(s)
    ensures WakeUps(s.Broadcast())
  {
    var s' := s.Broadcast();
    assert forall i :: 0 <= i < |s.threads| && s.threads[i].Awake() ==> s'.threads[i] == s.threads[i];
  }

  /** A thread moves over unchanged queues. */
  lemma MoveWakes(s: State, i: nat, t: Thread)
    requires WakeUps(s) && i < |s.threads| && !s.threads[i].Running?
    requires s.threads[i].Awake() ==> t.Awake() || s.fstop || s.mq.IsEmpty()
    requires t.Asleep() && !t.Sleeping? ==> !s.mq.IsEmpty()
    ensures WakeUps(s.With(i, t))
  {
    var s' := s.With(i, t);
    assert forall k :: 0 <= k < |s.threads| && k != i ==> s'.threads[k] == s.threads[k];
    assert s'.threads[i] == t;
  }

  /** The queues change, but not whether they are empty. */
  lemma SameEmptyWakes(s: State, s': State)
    requires WakeUps(s) && s'.threads == s.threads && s'.fstop == s.fstop
    requires s'.mq.IsEmpty() <==> s.mq.IsEmpty()
    ensures WakeUps(s')
  {
  }

  /**
   The signal of `add` reaches a worker when it must: a sleeping caller of
   `wait_empty` could take it instead, but then some worker is running.
   */
  lemma PushWakes(s: State, s': State, wake: Option<nat>)
    requires Shape(s) && StopOrder(s) && WakeUps(s) && s.faccept && s'.CanWake(wake)
    requires s'.threads == s.threads && s'.fstop == s.fstop && s'.workers == s.workers
    requires !s'.mq.IsEmpty()
    ensures WakeUps(s'.Signal(wake))
  {
    if SomeWorkerAwake(s) {
      assert SomeWorkerAwake(s') by {
        var i :| 0 <= i < |s.threads| && s.threads[i].Awake();
        assert s'.threads[i].Awake();
      }
      SignalWakes(s', wake);
    } else {
      assert s.mq.IsEmpty();
      assert !s.threads[0].Awake() && s.threads[0].IsWorker() && InOrder(s, s.threads[0]);
      assert s'.threads[0].Asleep() && wake.Some?;
      assert forall i :: 0 <= i < |s.threads| && s.threads[i].Running? ==> s.threads[i].Awake();
      assert !SomeWorkerRuns(s);
      assert s.threads[wake.value].Sleeping?;
      assert s'.Signal(wake).threads[wake.value].Awake();
    }
  }

  lemma WorkerStepsKeepWakeUps(s: State, a: Action)
    requires Shape(s) && StopOrder(s) && WakeUps(s) && Enabled(s, a) && (a.Fetch? || a.Finish?)
    ensures WakeUps(Apply(s, a))
  {
    if a.Finish? {
      assert Complete(s, a.t).threads[a.t].Awake();
      BroadcastWakes(Complete(s, a.t));
    } else if FrontOf(s.mq).Served? {
      assert Start(s, a.t).threads[a.t].Running?;
      SignalWakes(Start(s, a.t), a.wake);
    } else {
      MoveWakes(s, a.t, Checking);
    }
  }

  lemma QueueStepsKeepWakeUps(s: State, a: Action)
    requires Shape(s) && StopOrder(s) && WakeUps(s) && Enabled(s, a) && (a.PushTask? || a.CreateQueue? || a.DeleteQueue?)
    ensures WakeUps(Apply(s, a))
  {
    var i := IndexOf(s.mq.queues, a.qid);
    if a.CreateQueue? {
      CreateSameEmpty(s.mq, NewQueue(a.qid, a.max), a.at);
      SameEmptyWakes(s, Apply(s, a));
    } else if a.DeleteQueue? {
      if i < |s.mq.queues| {
        DeleteSameEmpty(s.mq, i);
      }
      SameEmptyWakes(s, Remove(s, i));
      SignalWakes(Remove(s, i), a.wake);
    } else {
      var s0 := s.(adding := s.adding - 1);
      if i < |s.mq.queues| {
        var s1 := Accept(s0, i, Task(|s.accepted|, a.fn, a.argument));
        assert s1.mq.queues[i].tasks != [];
        PushWakes(s, s1, a.wake);
      } else {
        SameEmptyWakes(s, s0);
        SignalWakes(s0, a.wake);
      }
    }
  }

  lemma ArriveWakes(s: State, s': State, t: Thread)
    requires WakeUps(s) && s'.mq == s.mq && s'.fstop == s.fstop && s'.threads == s.threads + [t] && !t.Asleep()
    ensures WakeUps(s')
  {
    assert forall k :: 0 <= k < |s.threads| ==> s'.threads[k] == s.threads[k];
    if SomeWorkerAwake(s) {
      var i :| 0 <= i < |s.threads| && s.threads[i].Awake();
      assert s'.threads[i].Awake();
    }
    if SomeWorkerRuns(s) {
      var i :| 0 <= i < |s.threads| && s.threads[i].Running?;
      assert s'.threads[i].Running?;
    }
  }

  /** No step loses a wake-up. */
  lemma WakeUpsKept(s: State, a: Action)
    requires Shape(s) && StopOrder(s) && WakeUps(s) && Steps(s, a)
    ensures WakeUps(Apply(s, a))
  {
    if a.Fetch? || a.Finish? {
      WorkerStepsKeepWakeUps(s, a);
    } else if a.PushTask? || a.CreateQueue? || a.DeleteQueue? {
      QueueStepsKeepWakeUps(s, a);
    } else if a.BeginAdd? {
      SameEmptyWakes(s, Apply(s, a));
    } else if a.CallWaitEmpty? {
      ArriveWakes(s, Apply(s, a), Waiting);
    } else if a.CallStop? {
      ArriveWakes(s, Apply(s, a), Stopping);
    } else if a.RaiseStop? {
      BroadcastWakes(s.(fstop := true).With(a.t, Joining));
    } else {
      MoveWakes(s, a.t, Apply(s, a).threads[a.t]);
    }
  }

  lemma {:induction false} InvKept(s: State, a: Action)
    requires Inv(s) && Steps(s, a)
    ensures Inv(Apply(s, a))
  {
    BooksKept(s, a);
    StopOrderKept(s, a);
    WakeUpsKept(s, a);
  }

  /** Nothing accepted or finished is ever forgotten. */
  lemma HistoryGrows(s: State, a: Action)
    requires Enabled(s, a)
    ensures s.accepted <= Apply(s, a).accepted && s.finished <= Apply(s, a).finished
  {
  }

  lemma {:induction false} InvariantOverRuns(s: State, actions: seq<Action>, t: State)
    requires Inv(s) && Reaches(s, actions, t)
    ensures Inv(t) && s.accepted <= t.accepted && s.finished <= t.finished
    decreases |actions|
  {
    if actions != [] {
      InvKept(s, actions[0]);
      HistoryGrows(s, actions[0]);
      InvariantOverRuns(Apply(s, actions[0]), actions[1..], t);
    }
  }
}
