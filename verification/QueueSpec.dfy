/** Pure description of the task queues: limits, histories, and the round-robin choice of `front`. */
module QueueSpec {
  import opened Bytes

  /** A task on the heap; `id` stands for its address. */
  datatype Task = Task(id: nat, fn: nat, argument: nat)

  const UINT32_RANGE := 0x1_0000_0000

  /** One queue with its limit and counter; `pushed` and `handed` record everything that went in and out. */
  datatype Queue = Queue(qid: nat, max: nat, cnt: nat, tasks: seq<Task>, pushed: seq<Task>, handed: seq<Task>) {
    predicate Saturated() {
      cnt >= max && max != 0
    }

    /** First in, first out. */
    predicate Fifo() {
      pushed == handed + tasks
    }

    function Push(task: Task): Queue {
      this.(tasks := tasks + [task], pushed := pushed + [task])
    }

    function Front(): Queue
      requires tasks != []
    {
      this.(tasks := tasks[1..], handed := handed + [tasks[0]], cnt := (cnt + 1) % UINT32_RANGE)
    }

    function Pop(): Queue {
      this.(cnt := (cnt - 1) % UINT32_RANGE)
    }
  }

  function NewQueue(qid: nat, max: nat): Queue {
    Queue(qid, max, 0, [], [], [])
  }

  /** The queues in iteration order, and the one served last. */
  datatype MultiQueue = MultiQueue(queues: seq<Queue>, cursor: nat) {
    predicate Valid() {
      && cursor < |queues|
      && (forall i, j :: 0 <= i < j < |queues| ==> queues[i].qid != queues[j].qid)
      && (forall i :: 0 <= i < |queues| ==> queues[i].Fifo())
    }

    predicate IsEmpty() {
      forall i :: 0 <= i < |queues| ==> queues[i].tasks == []
    }

    predicate Has(qid: nat) {
      exists i :: 0 <= i < |queues| && queues[i].qid == qid
    }

    function Update(i: nat, q: Queue): MultiQueue
      requires i < |queues|
    {
      this.(queues := queues[i := q])
    }
  }

  /** Where a queue id is. */
  function IndexOf(queues: seq<Queue>, qid: nat): (i: nat)
    ensures i <= |queues|
    ensures i < |queues| ==> queues[i].qid == qid
    ensures i == |queues| ==> forall k :: 0 <= k < |queues| ==> queues[k].qid != qid
  {
    if queues == [] || queues[0].qid == qid then 0 else 1 + IndexOf(queues[1..], qid)
  }

  /** How many steps the search from `cursor` takes to reach `i`: 1 for its successor, `n` for the cursor itself. */
  function Distance(cursor: nat, i: nat, n: nat): nat
    requires cursor < n && i < n
  {
    if i > cursor then i - cursor else i + n - cursor
  }

  function AtDistance(cursor: nat, d: nat, n: nat): (i: nat)
    requires cursor < n && 1 <= d <= n
    ensures i < n && Distance(cursor, i, n) == d
  {
    if cursor + d < n then cursor + d else cursor + d - n
  }

  /** The non-empty queue with the smallest distance from the cursor that is at least `d`. */
  function NextBusy(mq: MultiQueue, d: nat): (i: nat)
    requires mq.cursor < |mq.queues| && 1 <= d <= |mq.queues|
    ensures i < |mq.queues|
    decreases |mq.queues| - d
  {
    var i := AtDistance(mq.cursor, d, |mq.queues|);
    if mq.queues[i].tasks != [] || d == |mq.queues| then i else NextBusy(mq, d + 1)
  }

  lemma {:induction false} NextBusyIsNearest(mq: MultiQueue, d: nat)
    requires mq.cursor < |mq.queues| && 1 <= d <= |mq.queues|
    requires exists j :: 0 <= j < |mq.queues| && mq.queues[j].tasks != [] && d <= Distance(mq.cursor, j, |mq.queues|)
    ensures mq.queues[NextBusy(mq, d)].tasks != []
    ensures d <= Distance(mq.cursor, NextBusy(mq, d), |mq.queues|)
    ensures forall j :: 0 <= j < |mq.queues| && mq.queues[j].tasks != [] && d <= Distance(mq.cursor, j, |mq.queues|) ==>
      Distance(mq.cursor, NextBusy(mq, d), |mq.queues|) <= Distance(mq.cursor, j, |mq.queues|)
    decreases |mq.queues| - d
  {
    var n := |mq.queues|;
    var j :| 0 <= j < n && mq.queues[j].tasks != [] && d <= Distance(mq.cursor, j, n);
    var i := AtDistance(mq.cursor, d, n);
    assert forall k :: 0 <= k < n && Distance(mq.cursor, k, n) == d ==> k == i;
    if mq.queues[i].tasks == [] {
      assert d < Distance(mq.cursor, j, n);
      NextBusyIsNearest(mq, d + 1);
    }
  }

  /** `front`: the task handed out and the new state, or an exception. */
  datatype FrontResult = Throws | Served(after: MultiQueue, index: nat, task: Task)

  function FrontOf(mq: MultiQueue): FrontResult
    requires mq.cursor < |mq.queues|
  {
    if mq.IsEmpty() then Throws
    else
      var i := NextBusy(mq, 1);
      var q := mq.queues[i];
      if q.Saturated() || q.tasks == [] then Throws
      else Served(MultiQueue(mq.queues[i := q.Front()], i), i, q.tasks[0])
  }

  /**
   `front` serves the first non-empty queue in cyclic order after the one
   served last, itself considered last, and throws iff there is none or that
   queue is saturated.
   */
  lemma FrontServesNearest(mq: MultiQueue)
    requires mq.Valid()
    ensures FrontOf(mq) == Throws <==> mq.IsEmpty() || mq.queues[NextBusy(mq, 1)].Saturated()
    ensures !mq.IsEmpty() ==> mq.queues[NextBusy(mq, 1)].tasks != []
    ensures !mq.IsEmpty() ==> forall j :: 0 <= j < |mq.queues| && mq.queues[j].tasks != [] ==>
      Distance(mq.cursor, NextBusy(mq, 1), |mq.queues|) <= Distance(mq.cursor, j, |mq.queues|)
  {
    if !mq.IsEmpty() {
      var j :| 0 <= j < |mq.queues| && mq.queues[j].tasks != [];
      assert 1 <= Distance(mq.cursor, j, |mq.queues|);
      NextBusyIsNearest(mq, 1);
    }
  }

  /** `i` is the first queue with work in cyclic order after the cursor, the cursor's own last. */
  predicate Nearest(mq: MultiQueue, i: nat)
    requires mq.cursor < |mq.queues|
  {
    && i < |mq.queues| && mq.queues[i].tasks != []
    && forall j :: 0 <= j < |mq.queues| && mq.queues[j].tasks != [] ==>
         Distance(mq.cursor, i, |mq.queues|) <= Distance(mq.cursor, j, |mq.queues|)
  }

  lemma NearestIsBusy(mq: MultiQueue, i: nat)
    requires mq.Valid() && Nearest(mq, i)
    ensures !mq.IsEmpty() && NextBusy(mq, 1) == i
  {
    FrontServesNearest(mq);
    var k := NextBusy(mq, 1);
    assert Distance(mq.cursor, k, |mq.queues|) <= Distance(mq.cursor, i, |mq.queues|);
  }

  lemma NearestExists(mq: MultiQueue) returns (i: nat)
    requires mq.Valid() && !mq.IsEmpty()
    ensures Nearest(mq, i)
  {
    FrontServesNearest(mq);
    i := NextBusy(mq, 1);
  }

  /** `front` throws iff there is no work, or the nearest queue with work has a limit and as many tasks running. */
  lemma FrontLimitExact(mq: MultiQueue, i: nat)
    requires mq.Valid() && Nearest(mq, i)
    ensures FrontOf(mq) == Throws <==> mq.queues[i].max != 0 && mq.queues[i].cnt >= mq.queues[i].max
  {
    NearestIsBusy(mq, i);
  }

  /** Otherwise it takes that queue's first task and counts it as running, and touches no other queue. */
  lemma FrontTakesFirst(mq: MultiQueue, i: nat)
    requires mq.Valid() && Nearest(mq, i) && FrontOf(mq).Served? && mq.queues[i].cnt + 1 < UINT32_RANGE
    ensures FrontOf(mq).index == i && FrontOf(mq).task == mq.queues[i].tasks[0]
    ensures var after, q := FrontOf(mq).after, FrontOf(mq).after.queues[i];
      && after.cursor == i && |after.queues| == |mq.queues|
      && q.tasks == mq.queues[i].tasks[1..] && q.cnt == mq.queues[i].cnt + 1
      && q.qid == mq.queues[i].qid && q.max == mq.queues[i].max
      && forall k :: 0 <= k < |mq.queues| && k != i ==> after.queues[k] == mq.queues[k]
  {
    NearestIsBusy(mq, i);
  }

  /** `front` keeps the queues well-formed and every history first in, first out. */
  lemma FrontKeepsValid(mq: MultiQueue)
    requires mq.Valid() && FrontOf(mq).Served?
    ensures FrontOf(mq).after.Valid()
  {
    var i, q := FrontOf(mq).index, mq.queues[FrontOf(mq).index];
    assert q.Fifo();
    assert q.handed + q.tasks == (q.handed + [q.tasks[0]]) + q.tasks[1..];
  }

  lemma PushKeepsFifo(q: Queue, task: Task)
    requires q.Fifo()
    ensures q.Push(task).Fifo()
  {
    assert (q.handed + q.tasks) + [task] == q.handed + (q.tasks + [task]);
  }

  function InsertAt<T>(s: seq<T>, at: nat, x: T): (r: seq<T>)
    requires at <= |s|
    ensures |r| == |s| + 1
    ensures forall i :: 0 <= i < |r| ==> r[i] == if i < at then s[i] else if i == at then x else s[i - 1]
  {
    s[..at] + [x] + s[at..]
  }

  function DropAt<T>(s: seq<T>, at: nat): (r: seq<T>)
    requires at < |s|
    ensures |r| == |s| - 1
    ensures forall i :: 0 <= i < |r| ==> r[i] == if i < at then s[i] else s[i + 1]
  {
    s[..at] + s[at + 1..]
  }

  /** `m_queues.emplace`: the hash order puts the new queue anywhere; the cursor stays with its queue. */
  function InsertQueue(mq: MultiQueue, q: Queue, at: nat): MultiQueue
    requires at <= |mq.queues|
  {
    MultiQueue(InsertAt(mq.queues, at, q), if mq.cursor < at then mq.cursor else mq.cursor + 1)
  }

  /** `m_queues.erase` of a queue the cursor is not on. */
  function RemoveAt(mq: MultiQueue, i: nat): MultiQueue
    requires i < |mq.queues| && i != mq.cursor
  {
    MultiQueue(DropAt(mq.queues, i), if mq.cursor < i then mq.cursor else mq.cursor - 1)
  }

  lemma InsertKeepsValid(mq: MultiQueue, qid: nat, max: nat, at: nat)
    requires mq.Valid() && at <= |mq.queues| && !mq.Has(qid)
    ensures InsertQueue(mq, NewQueue(qid, max), at).Valid()
  {
  }

  lemma RemoveKeepsValid(mq: MultiQueue, i: nat)
    requires mq.Valid() && i < |mq.queues| && i != mq.cursor
    ensures RemoveAt(mq, i).Valid()
  {
  }

  /** The new queue is where the hash order puts it, all others are as they were, and the cursor stays on its queue. */
  lemma InsertExact(mq: MultiQueue, q: Queue, at: nat)
    requires mq.Valid() && at <= |mq.queues|
    ensures var r := InsertQueue(mq, q, at);
      && |r.queues| == |mq.queues| + 1 && r.queues[at] == q
      && (forall k :: 0 <= k < |mq.queues| ==> r.queues[if k < at then k else k + 1] == mq.queues[k])
      && r.cursor < |r.queues| && r.queues[r.cursor] == mq.queues[mq.cursor]
  {
  }

  /** Only the removed queue is gone, and the cursor stays on its queue. */
  lemma RemoveExact(mq: MultiQueue, i: nat)
    requires mq.Valid() && i < |mq.queues| && i != mq.cursor
    ensures var r := RemoveAt(mq, i);
      && |r.queues| == |mq.queues| - 1
      && (forall k :: 0 <= k < |mq.queues| && k != i ==> r.queues[if k < i then k else k - 1] == mq.queues[k])
      && r.cursor < |r.queues| && r.queues[r.cursor] == mq.queues[mq.cursor]
      && !r.Has(mq.queues[i].qid)
  {
    var r := RemoveAt(mq, i);
    forall k | 0 <= k < |r.queues|
      ensures r.queues[k].qid != mq.queues[i].qid
    {
      assert r.queues[k] == mq.queues[if k < i then k else k + 1];
    }
  }
}
