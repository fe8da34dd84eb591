/** What each step of the thread pool means, by queue id and field, for whoever takes it. */
module PoolSteps {
  import opened Bytes
  import opened Folds
  import opened Pool
  import opened QueueSpec

  // ---- Waking ----

  /** Out of `pthread_cond_wait`, back at the test of its loop. */
  predicate Woken(t: Thread, t': Thread) {
    || (t.Sleeping? && t'.Checking?)
    || (t.WaitingAsleep? && t'.Waiting?)
    || (t.StoppingAsleep? && t'.Stopping?)
  }

  ghost predicate NoneAsleep(threads: seq<Thread>) {
    forall i :: 0 <= i < |threads| ==> !threads[i].Asleep()
  }

  predicate WokenAt(before: seq<Thread>, after: seq<Thread>, i: nat) {
    i < |before| == |after| && Woken(before[i], after[i]) && after == before[i := after[i]]
  }

  /** `pthread_cond_signal` wakes exactly one sleeper, of any kind, unless there is none. */
  ghost predicate OneWoken(before: seq<Thread>, after: seq<Thread>) {
    if NoneAsleep(before) then after == before else exists i :: WokenAt(before, after, i)
  }

  /** `pthread_cond_broadcast` wakes every sleeper, and nobody else moves. */
  ghost predicate AllWoken(before: seq<Thread>, after: seq<Thread>) {
    |after| == |before| &&
    forall i :: 0 <= i < |before| ==> if before[i].Asleep() then Woken(before[i], after[i]) else after[i] == before[i]
  }

  lemma SignalWakesOne(s: State, wake: Option<nat>)
    requires s.CanWake(wake)
    ensures OneWoken(s.threads, s.Signal(wake).threads)
    ensures s.Signal(wake) == s.(threads := s.Signal(wake).threads)
  {
    if wake.Some? {
      assert WokenAt(s.threads, s.Signal(wake).threads, wake.value);
    }
  }

  lemma BroadcastWakesAll(s: State)
    ensures AllWoken(s.threads, s.Broadcast().threads) && NoneAsleep(s.Broadcast().threads)
    ensures s.Broadcast() == s.(threads := s.Broadcast().threads)
  {
  }

  /** Any sleeper may be the one a signal wakes, and may wake without any. */
  lemma AnySleeperMayWake(s: State, i: nat)
    requires i < |s.threads| && s.threads[i].Asleep() && s.mq.cursor < |s.mq.queues|
    ensures s.CanWake(Some(i)) && Enabled(s, WakeSpuriously(i))
    ensures WokenAt(s.threads, Apply(s, WakeSpuriously(i)).threads, i)
    ensures Apply(s, WakeSpuriously(i)) == s.(threads := Apply(s, WakeSpuriously(i)).threads)
  {
  }

  // ---- Queues ----

  /** Queue by queue the same, except the one with this id. */
  ghost predicate OnlyQueue(mq: MultiQueue, mq': MultiQueue, qid: nat) {
    && |mq'.queues| == |mq.queues|
    && forall k :: 0 <= k < |mq.queues| ==>
         var q, q' := mq.queues[k], mq'.queues[k];
         q'.qid == q.qid && q'.max == q.max && (q.qid != qid ==> q' == q)
  }

  /**
   `add` puts one task with its function and argument behind the others of the
   queue it names, and into no other; for an unknown queue it changes nothing.
   Either way it is over, and signals once.
   */
  lemma AddReaches(s: State, a: Action)
    requires Shape(s) && Enabled(s, a) && a.PushTask?
    ensures var s', task := Apply(s, a), Task(|s.accepted|, a.fn, a.argument);
      && OnlyQueue(s.mq, s'.mq, a.qid) && s'.mq.cursor == s.mq.cursor
      && (forall k :: 0 <= k < |s.mq.queues| && s.mq.queues[k].qid == a.qid ==>
           s'.mq.queues[k].tasks == s.mq.queues[k].tasks + [task] && s'.mq.queues[k].cnt == s.mq.queues[k].cnt)
      && s'.accepted == (if s.mq.Has(a.qid) then s.accepted + [task] else s.accepted)
      && (!s.mq.Has(a.qid) ==> s'.mq == s.mq)
      && s'.adding == s.adding - 1 && OneWoken(s.threads, s'.threads)
      && s' == s.(mq := s'.mq, threads := s'.threads, accepted := s'.accepted, adding := s'.adding)
  {
    var i, s0 := IndexOf(s.mq.queues, a.qid), s.(adding := s.adding - 1);
    var s1 := if i < |s.mq.queues| then Accept(s0, i, Task(|s.accepted|, a.fn, a.argument)) else s0;
    SignalWakesOne(s1, a.wake);
    if i < |s.mq.queues| {
      assert s.mq.Has(a.qid) by { assert s.mq.queues[i].qid == a.qid; }
      assert forall k :: 0 <= k < |s.mq.queues| && s.mq.queues[k].qid == a.qid ==> k == i;
    }
  }

  /** The queues other than the one with this id, wherever they are. */
  ghost predicate SameOthers(mq: MultiQueue, mq': MultiQueue, qid: nat) {
    && (forall q :: q in mq.queues && q.qid != qid ==> q in mq'.queues)
    && (forall q :: q in mq'.queues && q.qid != qid ==> q in mq.queues)
  }

  /** `new_queue` adds an empty queue with this id and limit, keeps all others, and moves the cursor off none. */
  lemma CreateReaches(s: State, a: Action)
    requires Shape(s) && Enabled(s, a) && a.CreateQueue?
    ensures var s' := Apply(s, a);
      && s'.mq.Has(a.qid)
      && (forall q :: q in s'.mq.queues && q.qid == a.qid ==> q.max == a.max && q.cnt == 0 && q.tasks == [])
      && SameOthers(s.mq, s'.mq, a.qid) && s'.mq.Valid()
      && s'.mq.queues[s'.mq.cursor] == s.mq.queues[s.mq.cursor]
      && s' == s.(mq := s'.mq)
  {
    var q := NewQueue(a.qid, a.max);
    InsertExact(s.mq, q, a.at);
    InsertKeepsValid(s.mq, a.qid, a.max, a.at);
    InsertOthers(s.mq, q, a.at);
  }

  lemma InsertOthers(mq: MultiQueue, q: Queue, at: nat)
    requires mq.Valid() && at <= |mq.queues| && !mq.Has(q.qid)
    ensures var mq' := InsertQueue(mq, q, at);
      SameOthers(mq, mq', q.qid) && mq'.Has(q.qid) && forall x :: x in mq'.queues && x.qid == q.qid ==> x == q
  {
    var mq' := InsertQueue(mq, q, at);
    assert mq'.queues[at] == q;
    forall x | x in mq.queues
      ensures x in mq'.queues && x.qid != q.qid
    {
      var k :| 0 <= k < |mq.queues| && mq.queues[k] == x;
      assert mq'.queues[if k < at then k else k + 1] == x;
    }
    forall x | x in mq'.queues
      ensures x == q || x in mq.queues
    {
      var k :| 0 <= k < |mq'.queues| && mq'.queues[k] == x;
      assert k != at ==> mq.queues[if k < at then k else k - 1] == x;
    }
  }

  /** `remove_queue` takes away the queue with this id and no other; an unknown id changes no queue. It signals once. */
  lemma DeleteReaches(s: State, a: Action)
    requires Shape(s) && Enabled(s, a) && a.DeleteQueue?
    ensures var s' := Apply(s, a);
      && !s'.mq.Has(a.qid) && SameOthers(s.mq, s'.mq, a.qid) && s'.mq.Valid()
      && s'.mq.queues[s'.mq.cursor] == s.mq.queues[s.mq.cursor]
      && OneWoken(s.threads, s'.threads) && s' == s.(mq := s'.mq, threads := s'.threads)
  {
    var i := IndexOf(s.mq.queues, a.qid);
    SignalWakesOne(Remove(s, i), a.wake);
    if i < |s.mq.queues| {
      RemoveExact(s.mq, i);
      RemoveKeepsValid(s.mq, i);
      RemoveOthers(s.mq, i);
    }
  }

  lemma KeptQueue(mq: MultiQueue, i: nat, q: Queue)
    requires mq.Valid() && i < |mq.queues| && i != mq.cursor && q in mq.queues && q.qid != mq.queues[i].qid
    ensures q in RemoveAt(mq, i).queues
  {
    var k :| 0 <= k < |mq.queues| && mq.queues[k] == q;
    assert RemoveAt(mq, i).queues[if k < i then k else k - 1] == q;
  }

  lemma OldQueue(mq: MultiQueue, i: nat, q: Queue)
    requires i < |mq.queues| && i != mq.cursor && q in RemoveAt(mq, i).queues
    ensures q in mq.queues
  {
    var k :| 0 <= k < |RemoveAt(mq, i).queues| && RemoveAt(mq, i).queues[k] == q;
    assert mq.queues[if k < i then k else k + 1] == q;
  }

  lemma RemoveOthers(mq: MultiQueue, i: nat)
    requires mq.Valid() && i < |mq.queues| && i != mq.cursor
    ensures SameOthers(mq, RemoveAt(mq, i), mq.queues[i].qid)
  {
    forall q | q in mq.queues && q.qid != mq.queues[i].qid
      ensures q in RemoveAt(mq, i).queues
    {
      KeptQueue(mq, i, q);
    }
    forall q | q in RemoveAt(mq, i).queues
      ensures q in mq.queues
    {
      OldQueue(mq, i, q);
    }
  }

  // ---- Workers ----

  /** A worker that reads the flag raised exits; otherwise it goes on to fetch. */
  lemma ReadStopExact(s: State, t: nat)
    requires Enabled(s, ReadStop(t))
    ensures var s' := Apply(s, ReadStop(t));
      && (if s.fstop then s'.threads[t].Exited? else s'.threads[t].Fetching?)
      && s' == s.(threads := s.threads[t := s'.threads[t]])
  {
  }

  /** It falls asleep iff every queue is empty and the flag is down; otherwise it reads the flag again. */
  lemma SleepExact(s: State, t: nat)
    requires Enabled(s, CheckCloseable(t))
    ensures var s' := Apply(s, CheckCloseable(t));
      && (s'.threads[t].Sleeping? <==> !s.fstop && forall i :: 0 <= i < |s.mq.queues| ==> s.mq.queues[i].tasks == [])
      && (!s'.threads[t].Sleeping? ==> s'.threads[t].Looping?)
      && s' == s.(threads := s.threads[t := s'.threads[t]])
  {
  }

  /** The queue has no limit, or fewer workers than its limit are in the middle of one of its tasks. */
  predicate HasRoom(s: State, q: Queue) {
    q.max == 0 || Total(s.threads, OnQueue(q.qid)) < q.max
  }

  lemma FetcherCounts(s: State, t: nat, qid: nat)
    requires Shape(s) && t < |s.threads| && s.threads[t].Fetching?
    ensures Total(s.threads, OnQueue(qid)) + 1 <= s.workers
  {
    var after := s.threads[t := Running(qid, Task(0, 0, 0))];
    TotalUpdate(s.threads, t, after[t], OnQueue(qid));
    TotalBound(after, s.workers, OnQueue(qid));
  }

  /** A worker gets a task iff the nearest queue with work has room. */
  lemma ServedExact(s: State, i: nat)
    requires Inv(s) && Nearest(s.mq, i)
    ensures FrontOf(s.mq).Served? <==> HasRoom(s, s.mq.queues[i])
  {
    FrontLimitExact(s.mq, i);
  }

  /**
   A fetching worker gets the first task of the nearest queue with work iff that
   queue has room; that task is then with the worker and no longer in the queue,
   one sleeper is woken, and no other queue changes.
   */
  lemma FetchExact(s: State, a: Action, i: nat)
    requires Inv(s) && Enabled(s, a) && a.Fetch? && Nearest(s.mq, i)
    ensures var s', q := Apply(s, a), s.mq.queues[i];
      && |s'.threads| == |s.threads|
      && s'.threads[a.t] == (if HasRoom(s, q) then Running(q.qid, q.tasks[0]) else Checking)
      && OnlyQueue(s.mq, s'.mq, q.qid) && s' == s.(mq := s'.mq, threads := s'.threads)
      && (HasRoom(s, q) ==>
           && s'.mq.queues[i].tasks == q.tasks[1..] && s'.mq.queues[i].cnt == q.cnt + 1 && s'.mq.cursor == i
           && OneWoken(s.threads[a.t := s'.threads[a.t]], s'.threads))
      && (!HasRoom(s, q) ==> s' == s.(threads := s.threads[a.t := Checking]))
  {
    var q := s.mq.queues[i];
    ServedExact(s, i);
    if FrontOf(s.mq).Served? {
      FetcherCounts(s, a.t, q.qid);
      FrontTakesFirst(s.mq, i);
      StartWakes(s, a);
    }
  }

  lemma StartWakes(s: State, a: Action)
    requires Enabled(s, a) && a.Fetch? && FrontOf(s.mq).Served?
    ensures var s', r := Apply(s, a), FrontOf(s.mq);
      && s'.mq == r.after && |s'.threads| == |s.threads| && s' == s.(mq := s'.mq, threads := s'.threads)
      && s'.threads[a.t] == Running(s.mq.queues[r.index].qid, r.task)
      && OneWoken(s.threads[a.t := s'.threads[a.t]], s'.threads)
  {
    SignalWakesOne(Start(s, a.t), a.wake);
  }

  /** With nothing pending it gets nothing, and nothing changes. */
  lemma FetchNothing(s: State, a: Action)
    requires Shape(s) && Enabled(s, a) && a.Fetch? && forall i :: 0 <= i < |s.mq.queues| ==> s.mq.queues[i].tasks == []
    ensures Apply(s, a) == s.(threads := s.threads[a.t := Checking])
  {
  }

  /** A worker that has run its task counts it as finished, gives its place in the queue back, and wakes everybody. */
  lemma FinishExact(s: State, t: nat)
    requires Inv(s) && Enabled(s, Finish(t))
    ensures var s', qid := Apply(s, Finish(t)), s.threads[t].qid;
      && s'.finished == s.finished + [s.threads[t].task]
      && s' == s.(mq := s'.mq, threads := s'.threads, finished := s'.finished)
      && OnlyQueue(s.mq, s'.mq, qid) && s'.mq.cursor == s.mq.cursor
      && (forall k :: 0 <= k < |s.mq.queues| && s.mq.queues[k].qid == qid ==>
           s'.mq.queues[k].cnt == s.mq.queues[k].cnt - 1 && s'.mq.queues[k].tasks == s.mq.queues[k].tasks)
      && AllWoken(s.threads[t := Looping], s'.threads)
  {
    var qid := s.threads[t].qid;
    var i := IndexOf(s.mq.queues, qid);
    assert i < |s.mq.queues|;
    assert forall k :: 0 <= k < |s.mq.queues| && s.mq.queues[k].qid == qid ==> k == i;
    TotalAtLeast(s.threads, t, OnQueue(qid));
    TotalBound(s.threads, s.workers, OnQueue(qid));
    BroadcastWakesAll(Complete(s, t));
  }

  // ---- Callers of wait_empty and stop ----

  /** A caller in `wait_empty` goes on iff every queue is empty, and otherwise falls asleep. */
  lemma WaitExact(s: State, t: nat)
    requires Enabled(s, CheckEmpty(t))
    ensures var s', caller := Apply(s, CheckEmpty(t)), Apply(s, CheckEmpty(t)).threads[t];
      && (caller.Returned? || caller.Drained? <==> forall i :: 0 <= i < |s.mq.queues| ==> s.mq.queues[i].tasks == [])
      && (if s.threads[t].Waiting? then caller.Returned? || caller.WaitingAsleep? else caller.Drained? || caller.StoppingAsleep?)
      && s' == s.(threads := s.threads[t := caller])
  {
  }

  /**
   `stop` closes the pool before it waits; it raises the flag and wakes
   everybody; it returns once every worker has exited.
   */
  lemma StopExact(s: State, a: Action)
    requires Shape(s) && Enabled(s, a) && (a.CallStop? || a.RaiseStop? || a.Join?)
    ensures var s' := Apply(s, a);
      && (a.CallStop? ==> s' == s.(faccept := false, fstop := false, threads := s.threads + [Stopping]))
      && (a.RaiseStop? ==> s'.fstop && AllWoken(s.threads[a.t := Joining], s'.threads) && s' == s.(fstop := true, threads := s'.threads))
      && (a.Join? ==> AllExited(s) && s' == s.(threads := s.threads[a.t := Stopped]))
  {
    if a.RaiseStop? {
      BroadcastWakesAll(s.(fstop := true).With(a.t, Joining));
    }
  }

  lemma SomeSignal(s: State) returns (wake: Option<nat>)
    ensures s.CanWake(wake)
  {
    if i: nat :| i < |s.threads| && s.threads[i].Asleep() {
      wake := Some(i);
    } else {
      wake := None;
    }
  }

  /** Not the default queue, not under the cursor, and idle and empty if there is one with this id. */
  ghost predicate Removable(mq: MultiQueue, qid: nat)
    requires mq.cursor < |mq.queues|
  {
    && qid != 0 && mq.queues[mq.cursor].qid != qid
    && forall q :: q in mq.queues && q.qid == qid ==> q.tasks == [] && q.cnt == 0
  }

  /** Clients are never blocked: what they may call at any time is possible in every state of the invariant. */
  lemma CallsPossible(s: State, qid: nat, max: nat, fn: nat, argument: nat)
    requires Inv(s)
    ensures Enabled(s, CallWaitEmpty)
    ensures s.faccept ==> Enabled(s, BeginAdd) && Enabled(s, CallStop)
    ensures s.adding > 0 ==> exists wake :: Enabled(s, PushTask(qid, fn, argument, wake))
    ensures !s.mq.Has(qid) ==> Enabled(s, CreateQueue(qid, max, |s.mq.queues|))
    ensures Removable(s.mq, qid) ==> exists wake :: Enabled(s, DeleteQueue(qid, wake))
  {
    var wake := SomeSignal(s);
    assert s.adding > 0 ==> Enabled(s, PushTask(qid, fn, argument, wake));
    var i := IndexOf(s.mq.queues, qid);
    assert i < |s.mq.queues| ==> s.mq.queues[i] in s.mq.queues;
    if Removable(s.mq, qid) {
      assert Enabled(s, DeleteQueue(qid, wake));
    }
  }

  /** After `init`: one unlimited, empty queue with id 0, all workers about to work, open to tasks. */
  lemma InitialExact(n: nat)
    ensures var s := Initial(n);
      && |s.mq.queues| == 1 && s.mq.queues[0].qid == 0 && s.mq.queues[0].max == 0 && s.mq.queues[0].cnt == 0
      && s.mq.queues[0].tasks == [] && s.mq.cursor == 0
      && s.workers == |s.threads| == n && (forall i :: 0 <= i < n ==> s.threads[i].Looping?)
      && s.faccept && !s.fstop && s.adding == 0 && s.accepted == [] && s.finished == []
  {
  }

  // ---- Adds in progress ----

  function Begins(actions: seq<Action>): nat {
    if actions == [] then 0 else (if actions[0].BeginAdd? then 1 else 0) + Begins(actions[1..])
  }

  function Pushes(actions: seq<Action>): nat {
    if actions == [] then 0 else (if actions[0].PushTask? then 1 else 0) + Pushes(actions[1..])
  }

  lemma AddingAfter(s: State, a: Action)
    requires Enabled(s, a)
    ensures Apply(s, a).adding + (if a.PushTask? then 1 else 0) == s.adding + (if a.BeginAdd? then 1 else 0)
  {
  }

  /** Over every run, `adding` counts the calls of `add` that have begun and not yet pushed. */
  lemma {:induction false} AddingExact(s: State, actions: seq<Action>, t: State)
    requires Runs(s, actions, t)
    ensures t.adding + Pushes(actions) == s.adding + Begins(actions)
    decreases |actions|
  {
    if actions != [] {
      AddingAfter(s, actions[0]);
      AddingExact(Apply(s, actions[0]), actions[1..], t);
    }
  }
}
