/** `AsyncQueue` and `AsyncMultiQueue` as objects. */
module TaskQueues {
  import opened Bytes
  import opened QueueSpec

  class AsyncQueue {
    var queue: seq<Task>
    const max: nat
    var cnt: nat
    ghost var pushed: seq<Task>
    ghost var handed: seq<Task>

    ghost function View(qid: nat): Queue
      reads this
    {
      Queue(qid, max, cnt, queue, pushed, handed)
    }

    constructor (limit: nat)
      ensures max == limit && cnt == 0 && queue == [] && forall qid :: View(qid) == NewQueue(qid, limit)
    {
      max := limit;
      cnt, queue, pushed, handed := 0, [], [], [];
    }

    method Push(task: Task)
      modifies this
      ensures queue == old(queue) + [task] && cnt == old(cnt) && forall qid :: View(qid) == old(View(qid)).Push(task)
    {
      queue := queue + [task];
      pushed := pushed + [task];
    }

    /** None is the exception "reached max parallel tasks". */
    method Front() returns (task: Option<Task>)
      requires queue != []
      modifies this
      ensures task == None <==> max != 0 && old(cnt) >= max
      ensures task == None ==> unchanged(this)
      ensures task != None ==>
        task == Some(old(queue[0])) && queue == old(queue[1..]) && forall qid :: View(qid) == old(View(qid)).Front()
    {
      if cnt >= max && max != 0 {
        return None;
      }
      task := Some(queue[0]);
      handed := handed + [queue[0]];
      queue := queue[1..];
      cnt := (cnt + 1) % UINT32_RANGE;
    }

    method Pop()
      modifies this
      ensures cnt == (old(cnt) - 1) % UINT32_RANGE && queue == old(queue) && forall qid :: View(qid) == old(View(qid)).Pop()
    {
      cnt := (cnt - 1) % UINT32_RANGE;
    }

    method Empty() returns (empty: bool)
      ensures empty <==> queue == []
    {
      empty := queue == [];
    }
  }

  /** An element of `m_queues`. */
  datatype Slot = Slot(qid: nat, queue: AsyncQueue)

  ghost function Queues(entries: seq<Slot>): set<AsyncQueue> {
    set e | e in entries :: e.queue
  }

  ghost function Views(entries: seq<Slot>): (queues: seq<Queue>)
    reads Queues(entries)
    ensures |queues| == |entries|
    ensures forall i :: 0 <= i < |entries| ==> queues[i] == entries[i].queue.View(entries[i].qid)
  {
    seq(|entries|, i requires 0 <= i < |entries| reads Queues(entries) => entries[i].queue.View(entries[i].qid))
  }

  ghost predicate Apart(entries: seq<Slot>) {
    forall i, j :: 0 <= i < j < |entries| ==> entries[i].queue != entries[j].queue
  }

  lemma ApartInsert(entries: seq<Slot>, at: nat, e: Slot)
    requires at <= |entries| && Apart(entries) && forall k :: 0 <= k < |entries| ==> entries[k].queue != e.queue
    ensures Apart(InsertAt(entries, at, e))
  {
    var r := InsertAt(entries, at, e);
    forall i, j | 0 <= i < j < |r|
      ensures r[i].queue != r[j].queue
    {
      if i != at && j != at {
        assert entries[if i < at then i else i - 1].queue != entries[if j < at then j else j - 1].queue;
      }
    }
  }

  lemma ApartDrop(entries: seq<Slot>, at: nat)
    requires at < |entries| && Apart(entries)
    ensures Apart(DropAt(entries, at))
  {
    var r := DropAt(entries, at);
    forall i, j | 0 <= i < j < |r|
      ensures r[i].queue != r[j].queue
    {
      assert entries[if i < at then i else i + 1].queue != entries[if j < at then j else j + 1].queue;
    }
  }

  lemma ViewsInsert(entries: seq<Slot>, at: nat, e: Slot)
    requires at <= |entries|
    ensures Views(InsertAt(entries, at, e)) == InsertAt(Views(entries), at, e.queue.View(e.qid))
  {
  }

  lemma ViewsDrop(entries: seq<Slot>, at: nat)
    requires at < |entries|
    ensures Views(DropAt(entries, at)) == DropAt(Views(entries), at)
  {
  }

  /** Outcome of `front`; Throws stands for either `out_of_range`. */
  datatype Fetched = Throws | Fetched(qid: nat, task: Task)

  class AsyncMultiQueue {
    /** The hash map in its iteration order. */
    var entries: seq<Slot>
    /** The iterator `m_it`. */
    var it: nat

    ghost function View(): MultiQueue
      reads this, Queues(entries)
    {
      MultiQueue(Views(entries), it)
    }

    ghost predicate Valid()
      reads this, Queues(entries)
    {
      Apart(entries) && View().Valid()
    }

    constructor ()
      ensures Valid() && fresh(Queues(entries)) && View() == MultiQueue([QueueSpec.NewQueue(0, 0)], 0)
    {
      var q := new AsyncQueue(0);
      entries := [Slot(0, q)];
      it := 0;
    }

    method Find(qid: nat) returns (i: nat)
      requires Valid()
      ensures i == IndexOf(View().queues, qid)
    {
      i := 0;
      assert View().queues[0..] == View().queues;
      while i < |entries| && entries[i].qid != qid
        invariant i <= |entries|
        invariant i + IndexOf(View().queues[i..], qid) == IndexOf(View().queues, qid)
      {
        assert View().queues[i..][1..] == View().queues[i + 1..];
        i := i + 1;
      }
    }

    method Insert(qid: nat, q: AsyncQueue, ghost limit: nat, at: nat)
      requires Valid() && at <= |entries| && !View().Has(qid)
      requires q !in Queues(entries) && q.View(qid) == QueueSpec.NewQueue(qid, limit)
      modifies this
      ensures forall k :: 0 <= k < |entries| ==> entries[k].queue in old(Queues(entries)) || entries[k].queue == q
      ensures Valid() && View() == InsertQueue(old(View()), QueueSpec.NewQueue(qid, limit), at)
    {
      ghost var e := Slot(qid, q);
      ViewsInsert(entries, at, e);
      assert forall k :: 0 <= k < |entries| ==> entries[k].queue in Queues(entries);
      ApartInsert(entries, at, e);
      InsertKeepsValid(View(), qid, limit, at);
      entries := InsertAt(entries, at, Slot(qid, q));
      it := if it < at then it else it + 1;
    }

    /** False is the exception "queue already exists"; `at` is where the hash order puts the queue. */
    method NewQueue(qid: nat, cnt: nat, at: nat) returns (ok: bool)
      requires Valid() && at <= |entries|
      modifies this
      ensures Valid() && forall k :: 0 <= k < |entries| ==> entries[k].queue in old(Queues(entries)) || fresh(entries[k].queue)
      ensures ok <==> !old(View()).Has(qid)
      ensures View() == if ok then InsertQueue(old(View()), QueueSpec.NewQueue(qid, cnt), at) else old(View())
    {
      var i := Find(qid);
      ok := i == |entries|;
      if ok {
        var q := new AsyncQueue(cnt);
        Insert(qid, q, cnt, at);
      }
    }

    method Drop(i: nat)
      requires Valid() && i < |entries| && i != it
      modifies this
      ensures forall k :: 0 <= k < |entries| ==> entries[k].queue in old(Queues(entries))
      ensures Valid() && View() == RemoveAt(old(View()), i)
    {
      ViewsDrop(entries, i);
      ApartDrop(entries, i);
      RemoveKeepsValid(View(), i);
      entries := DropAt(entries, i);
      it := if it < i then it else it - 1;
    }

    /** False is the exception "queue not found". The iterator must not be on the queue. */
    method RemoveQueue(qid: nat) returns (ok: bool)
      requires Valid() && View().queues[it].qid != qid
      modifies this
      ensures Valid() && forall k :: 0 <= k < |entries| ==> entries[k].queue in old(Queues(entries))
      ensures ok <==> old(View()).Has(qid)
      ensures View() == if ok then RemoveAt(old(View()), IndexOf(old(View()).queues, qid)) else old(View())
    {
      var i := Find(qid);
      ok := i < |entries|;
      if ok {
        Drop(i);
      }
    }

    /** False is the `out_of_range` of `m_queues.at`. */
    method Push(qid: nat, task: Task) returns (ok: bool)
      requires Valid()
      modifies Queues(entries)
      ensures Valid() && entries == old(entries)
      ensures ok <==> old(View()).Has(qid)
      ensures var i := IndexOf(old(View()).queues, qid);
        View() == if ok then old(View()).Update(i, old(View()).queues[i].Push(task)) else old(View())
    {
      var i := Find(qid);
      if i == |entries| {
        return false;
      }
      ghost var before := View();
      PushKeepsFifo(before.queues[i], task);
      entries[i].queue.Push(task);
      ok := true;
      forall k | 0 <= k < |entries|
        ensures View().queues[k] == before.Update(i, before.queues[i].Push(task)).queues[k]
      {
        assert k != i ==> entries[k].queue != entries[i].queue;
      }
    }

    method Pop(qid: nat) returns (ok: bool)
      requires Valid()
      modifies Queues(entries)
      ensures Valid() && entries == old(entries)
      ensures ok <==> old(View()).Has(qid)
      ensures var i := IndexOf(old(View()).queues, qid);
        View() == if ok then old(View()).Update(i, old(View()).queues[i].Pop()) else old(View())
    {
      var i := Find(qid);
      if i == |entries| {
        return false;
      }
      ghost var before := View();
      entries[i].queue.Pop();
      ok := true;
      forall k | 0 <= k < |entries|
        ensures View().queues[k] == before.Update(i, before.queues[i].Pop()).queues[k]
      {
        assert k != i ==> entries[k].queue != entries[i].queue;
      }
    }

    method Empty() returns (empty: bool)
      requires Valid()
      ensures empty <==> View().IsEmpty()
    {
      for i := 0 to |entries|
        invariant forall k :: 0 <= k < i ==> entries[k].queue.queue == []
      {
        var e := entries[i].queue.Empty();
        if !e {
          assert View().queues[i].tasks != [];
          return false;
        }
      }
      return true;
    }

    /** The wrap-around search of `front`: `|entries|` is the end iterator. */
    method Search() returns (newit: nat)
      requires Valid() && !View().IsEmpty()
      ensures newit == NextBusy(View(), 1)
    {
      ghost var mq, n := View(), |entries|;
      FrontServesNearest(mq);
      ghost var d := 1;
      newit := it;
      newit := newit + 1;
      while newit != it
        invariant 1 <= d <= n && NextBusy(mq, d) == NextBusy(mq, 1)
        invariant newit == if it + d <= n then it + d else it + d - n
        decreases n - d
      {
        if newit == |entries| {
          newit := 0;
        }
        assert newit == AtDistance(it, d, n);
        var e := entries[newit].queue.Empty();
        assert e <==> mq.queues[newit].tasks == [];
        if !e {
          break;
        }
        assert NextBusy(mq, d) == NextBusy(mq, d + 1);
        newit := newit + 1;
        d := d + 1;
      }
      assert newit == AtDistance(it, d, n);
      assert d == n || mq.queues[newit].tasks != [];
      assert NextBusy(mq, d) == newit;
      assert View() == mq;
    }

    method Front() returns (r: Fetched)
      requires Valid()
      modifies this, Queues(entries)
      ensures Valid() && entries == old(entries)
      ensures match FrontOf(old(View()))
        case Throws => r == Fetched.Throws && View() == old(View())
        case Served(after, i, task) => r == Fetched(entries[i].qid, task) && View() == after
    {
      var empty := Empty();
      if empty {
        return Fetched.Throws;
      }
      ghost var before := View();
      FrontServesNearest(before);
      var newit := Search();
      assert before.queues[newit].tasks != [];
      var task := entries[newit].queue.Front();
      if task == None {
        assert View() == before;
        return Fetched.Throws;
      }
      it := newit;
      r := Fetched(entries[newit].qid, task.value);
      FrontKeepsValid(before);
      assert View() == FrontOf(before).after;
    }
  }
}
