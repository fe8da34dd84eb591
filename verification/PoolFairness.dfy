/** The runs of the pool as runs of its queues: every queue with work is served in bounded time. */
module PoolFairness {
  import opened Bytes
  import opened Folds
  import opened Pool
  import opened QueueSpec
  import F = Fairness

  /** Steps that leave the set of queues as it is. */
  predicate KeepsQueues(a: Action) {
    !a.CreateQueue? && !a.DeleteQueue?
  }

  /** What a step does to the queues. */
  function EventOf(s: State, a: Action): seq<F.Event>
    requires Enabled(s, a)
  {
    match a
    case Fetch(_, _) => [F.Fronted]
    case Finish(t) =>
      var i := IndexOf(s.mq.queues, s.threads[t].qid);
      if i < |s.mq.queues| then [F.Popped(i)] else []
    case PushTask(qid, fn, argument, _) =>
      var i := IndexOf(s.mq.queues, qid);
      if i < |s.mq.queues| then [F.Pushed(i, Task(|s.accepted|, fn, argument))] else []
    case _ => []
  }

  lemma StepIsEvent(s: State, a: Action)
    requires Enabled(s, a) && KeepsQueues(a)
    ensures |EventOf(s, a)| <= 1 && F.PossibleRun(|s.mq.queues|, EventOf(s, a))
    ensures Apply(s, a).mq == if EventOf(s, a) == [] then s.mq else F.Apply(s.mq, EventOf(s, a)[0])
    ensures |Apply(s, a).mq.queues| == |s.mq.queues|
  {
  }

  function Events(s: State, actions: seq<Action>): seq<F.Event>
    requires FixedRun(s, actions)
    decreases |actions|
  {
    if actions == [] then [] else EventOf(s, actions[0]) + Events(Apply(s, actions[0]), actions[1..])
  }

  /** A run in which no queue is created or removed. */
  predicate FixedRun(s: State, actions: seq<Action>)
    decreases |actions|
  {
    actions == [] || (Enabled(s, actions[0]) && KeepsQueues(actions[0]) && FixedRun(Apply(s, actions[0]), actions[1..]))
  }

  function StateAfter(s: State, actions: seq<Action>): State
    requires FixedRun(s, actions)
    decreases |actions|
  {
    if actions == [] then s else StateAfter(Apply(s, actions[0]), actions[1..])
  }

  /** Fetches that get a task. */
  function Fetches(s: State, actions: seq<Action>): nat
    requires FixedRun(s, actions)
    decreases |actions|
  {
    if actions == [] then 0
    else (if actions[0].Fetch? && FrontOf(s.mq).Served? then 1 else 0) + Fetches(Apply(s, actions[0]), actions[1..])
  }

  /** Some worker fetches a task of the queue at `i`. */
  predicate ServesQueue(s: State, actions: seq<Action>, i: nat)
    requires FixedRun(s, actions)
    decreases |actions|
  {
    actions != [] &&
    ((actions[0].Fetch? && FrontOf(s.mq).Served? && FrontOf(s.mq).index == i)
     || ServesQueue(Apply(s, actions[0]), actions[1..], i))
  }

  /** The pool does to its queues what the events say, one after the other. */
  lemma {:induction false} RunIsEvents(s: State, actions: seq<Action>, i: nat)
    requires s.mq.cursor < |s.mq.queues| && FixedRun(s, actions)
    ensures F.PossibleRun(|s.mq.queues|, Events(s, actions))
    ensures F.RunOf(s.mq, Events(s, actions)) == StateAfter(s, actions).mq
    ensures F.Fronts(s.mq, Events(s, actions)) == Fetches(s, actions)
    ensures F.Serves(s.mq, Events(s, actions), i) <==> ServesQueue(s, actions, i)
    decreases |actions|
  {
    if actions != [] {
      var a := actions[0];
      var first, rest := EventOf(s, a), Events(Apply(s, a), actions[1..]);
      StepIsEvent(s, a);
      RunIsEvents(Apply(s, a), actions[1..], i);
      if first == [] {
        assert first + rest == rest;
      } else {
        assert (first + rest)[0] == first[0] && (first + rest)[1..] == rest;
      }
    }
  }

  /**
   In the pool, whatever its threads and clients do, a queue with work is served
   before as many fetches have got a task as there are queues.
   */
  lemma WaitIsBoundedInPool(s: State, actions: seq<Action>, i: nat)
    requires Inv(s) && FixedRun(s, actions) && i < |s.mq.queues| && s.mq.queues[i].tasks != []
    requires Fetches(s, actions) >= |s.mq.queues|
    ensures ServesQueue(s, actions, i)
  {
    RunIsEvents(s, actions, i);
    F.ServedWithinAllQueues(s.mq, Events(s, actions), i);
  }

  /** And each queue hands out its tasks in the order in which they were added. */
  lemma FifoInPool(s: State, actions: seq<Action>)
    requires Inv(s) && FixedRun(s, actions)
    ensures var after := StateAfter(s, actions).mq;
      |after.queues| == |s.mq.queues| &&
      forall i :: 0 <= i < |s.mq.queues| ==>
        after.queues[i].pushed == after.queues[i].handed + after.queues[i].tasks
        && s.mq.queues[i].pushed <= after.queues[i].pushed && s.mq.queues[i].handed <= after.queues[i].handed
  {
    RunIsEvents(s, actions, 0);
    F.FifoOverRuns(s.mq, Events(s, actions));
    assert forall i :: 0 <= i < |s.mq.queues| ==> StateAfter(s, actions).mq.queues[i].Fifo();
  }
}
