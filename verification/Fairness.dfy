/** Runs of a fixed set of queues: first in, first out, and a bounded wait for every queue with work. */
module Fairness {
  import opened Bytes
  import opened QueueSpec

  /** What workers and clients do to the queues, each under the mutex; queues are named by position. */
  datatype Event = Pushed(index: nat, task: Task) | Fronted | Popped(index: nat)

  /** An event on one of `n` queues. */
  predicate Possible(n: nat, e: Event) {
    e.Fronted? || e.index < n
  }

  /** A `front` that throws changes nothing. */
  function Apply(mq: MultiQueue, e: Event): (after: MultiQueue)
    requires mq.cursor < |mq.queues| && Possible(|mq.queues|, e)
    ensures |after.queues| == |mq.queues| && after.cursor < |after.queues|
  {
    match e
    case Pushed(i, task) => mq.Update(i, mq.queues[i].Push(task))
    case Popped(i) => mq.Update(i, mq.queues[i].Pop())
    case Fronted => match FrontOf(mq) { case Throws => mq case Served(after, _, _) => after }
  }

  predicate PossibleRun(n: nat, events: seq<Event>) {
    forall k :: 0 <= k < |events| ==> Possible(n, events[k])
  }

  function RunOf(mq: MultiQueue, events: seq<Event>): (after: MultiQueue)
    requires mq.cursor < |mq.queues| && PossibleRun(|mq.queues|, events)
    ensures |after.queues| == |mq.queues| && after.cursor < |after.queues|
    decreases |events|
  {
    if events == [] then mq else RunOf(Apply(mq, events[0]), events[1..])
  }

  /** Number of `front` calls in the run that hand out a task. */
  function Fronts(mq: MultiQueue, events: seq<Event>): nat
    requires mq.cursor < |mq.queues| && PossibleRun(|mq.queues|, events)
    decreases |events|
  {
    if events == [] then 0
    else (if events[0].Fronted? && FrontOf(mq).Served? then 1 else 0) + Fronts(Apply(mq, events[0]), events[1..])
  }

  /** Some `front` of the run hands out a task of queue `i`. */
  predicate Serves(mq: MultiQueue, events: seq<Event>, i: nat)
    requires mq.cursor < |mq.queues| && PossibleRun(|mq.queues|, events)
    decreases |events|
  {
    events != [] &&
    ((events[0].Fronted? && FrontOf(mq).Served? && FrontOf(mq).index == i) || Serves(Apply(mq, events[0]), events[1..], i))
  }

  lemma ApplyKeepsValid(mq: MultiQueue, e: Event)
    requires mq.Valid() && Possible(|mq.queues|, e)
    ensures Apply(mq, e).Valid()
    ensures forall i :: 0 <= i < |mq.queues| ==> Apply(mq, e).queues[i].qid == mq.queues[i].qid && Apply(mq, e).queues[i].max == mq.queues[i].max
  {
    match e
    case Pushed(i, task) => PushKeepsFifo(mq.queues[i], task);
    case Popped(i) => assert mq.queues[i].Fifo();
    case Fronted =>
      if FrontOf(mq).Served? {
        FrontKeepsValid(mq);
      }
  }

  /**
   Over any run, what was pushed into a queue is what it handed out, in that
   order, followed by what is still in it.
   */
  lemma {:induction false} FifoOverRuns(mq: MultiQueue, events: seq<Event>)
    requires mq.Valid() && PossibleRun(|mq.queues|, events)
    ensures RunOf(mq, events).Valid()
    ensures forall i :: 0 <= i < |mq.queues| ==> mq.queues[i].pushed <= RunOf(mq, events).queues[i].pushed
    ensures forall i :: 0 <= i < |mq.queues| ==> mq.queues[i].handed <= RunOf(mq, events).queues[i].handed
    decreases |events|
  {
    if events != [] {
      ApplyKeepsValid(mq, events[0]);
      FifoOverRuns(Apply(mq, events[0]), events[1..]);
    }
  }

  /** Serving another queue brings the cursor strictly nearer to a queue that has work. */
  lemma FrontComesNearer(mq: MultiQueue, i: nat)
    requires mq.Valid() && i < |mq.queues| && mq.queues[i].tasks != []
    requires FrontOf(mq).Served? && FrontOf(mq).index != i
    ensures var n := |mq.queues|; Distance(FrontOf(mq).index, i, n) < Distance(mq.cursor, i, n)
  {
    FrontServesNearest(mq);
  }

  /** As long as a queue with work is not served, fewer `front` calls succeed than its distance from the cursor. */
  lemma {:induction false} WaitIsBounded(mq: MultiQueue, events: seq<Event>, i: nat)
    requires mq.Valid() && PossibleRun(|mq.queues|, events)
    requires i < |mq.queues| && mq.queues[i].tasks != []
    requires !Serves(mq, events, i)
    ensures Fronts(mq, events) < Distance(mq.cursor, i, |mq.queues|) <= |mq.queues|
    decreases |events|
  {
    if events != [] {
      var next := Apply(mq, events[0]);
      ApplyKeepsValid(mq, events[0]);
      if events[0].Fronted? && FrontOf(mq).Served? {
        FrontComesNearer(mq, i);
      }
      WaitIsBounded(next, events[1..], i);
    }
  }

  /**
   A queue with work is served within as many successful `front` calls as
   there are queues, whatever is interleaved.
   */
  lemma {:induction false} ServedWithinAllQueues(mq: MultiQueue, events: seq<Event>, i: nat)
    requires mq.Valid() && PossibleRun(|mq.queues|, events)
    requires i < |mq.queues| && mq.queues[i].tasks != []
    requires Fronts(mq, events) >= |mq.queues|
    ensures Serves(mq, events, i)
  {
    if !Serves(mq, events, i) {
      WaitIsBounded(mq, events, i);
    }
  }
}
