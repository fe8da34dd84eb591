/**
 What each worker does with the request it has taken, step by step, whatever
 the other workers do in between: accepting, reading, closing, writing, leaving.
 */
module EventSteps {
  import opened Bytes
  import opened Folds
  import opened ReadSpec
  import opened Reassembly
  import ListSpec
  import opened EventLoop

  // ---- A busy worker and its socket are its own ----

  predicate Busy(t: Worker) {
    !t.Idle? && !t.Left?
  }

  /** Steps of this worker. */
  function Dos(actions: seq<Action>, w: nat): nat {
    if actions == [] then 0 else (if actions[0].Do? && actions[0].w == w then 1 else 0) + Dos(actions[1..], w)
  }

  ghost predicate Untouched(s: State, s': State, w: nat)
    requires w < |s.workers|
  {
    && w < |s'.workers| && s'.workers[w] == s.workers[w]
    && (s.workers[w].HasSocket() ==> Agree(s, s', s.workers[w].fd))
  }

  lemma OtherStep(s: State, a: Action, w: nat)
    requires Inv(s) && Enabled(s, a) && w < |s.workers| && Busy(s.workers[w]) && !(a.Do? && a.w == w)
    ensures Untouched(s, Apply(s, a), w)
  {
    var t := s.workers[w];
    if t.HasSocket() {
      assert WorkerOn(t, t.fd) && WorkerReads(s, t);
      HolderIsAlone(s, t.fd);
      if a.Do? {
        OtherConnsAgree(s, a, t.fd);
      } else if a.Complete? {
        assert !ReqOn(s.outstanding[a.k], t.fd);
      }
    }
  }

  /** Nothing that anybody else does, in any run, moves a busy worker or touches its socket. */
  lemma {:induction false} Undisturbed(s: State, actions: seq<Action>, t: State, w: nat)
    requires Inv(s) && Reaches(s, actions, t) && w < |s.workers| && Busy(s.workers[w]) && Dos(actions, w) == 0
    ensures Untouched(s, t, w)
    decreases |actions|
  {
    if actions != [] {
      InvKept(s, actions[0]);
      OtherStep(s, actions[0], w);
      Undisturbed(Apply(s, actions[0]), actions[1..], t, w);
    }
  }

  // ---- Its own steps ----

  /** One request of this kind is listed and submitted to a ring. */
  ghost predicate Submitted(s: State, s': State, kind: Kind, ring: nat) {
    exists id :: Unused(s, id) && s'.outstanding == s.outstanding + [Req(id, ring, kind)] && s'.registry == s.registry + [ListSpec.Entry(id, [])]
  }

  ghost predicate NothingSubmitted(s: State, s': State) {
    s'.outstanding == s.outstanding && s'.registry == s.registry
  }

  /**
   Of a new socket: on_connected is called, then the next accept is submitted
   to the master's ring, then a first read of the socket.
   */
  lemma AcceptSteps(s: State, a: Action)
    requires Enabled(s, a) && a.Do? && (s.workers[a.w].Connecting? || s.workers[a.w].Reaccepting?)
    ensures var s', t, fd := Apply(s, a), s.workers[a.w], s.workers[a.w].fd;
      if t.Connecting? then
        && s'.workers[a.w] == Reaccepting(t.id, fd) && NothingSubmitted(s, s')
        && s'.conns == s.conns[fd := s.conns[fd].(connects := s.conns[fd].connects + 1)]
      else
        s'.workers[a.w] == Handling(t.id, fd, [], Fresh) && Submitted(s, s', Accepting, 0) && s'.conns == s.conns
  {
    assert Unused(s, a.id);
  }

  /** Of a read: the calls of on_readed are made one by one, then exactly one read of the same socket is submitted. */
  lemma ReadSteps(s: State, a: Action)
    requires Enabled(s, a) && a.Do? && s.workers[a.w].Handling?
    ensures var s', t, fd := Apply(s, a), s.workers[a.w], s.workers[a.w].fd;
      if t.calls != [] then
        && s'.workers[a.w] == Handling(t.id, fd, t.calls[1..], t.next) && NothingSubmitted(s, s')
        && s'.conns == s.conns[fd := s.conns[fd].(log := s.conns[fd].log + [t.calls[0]])]
      else
        s'.workers[a.w] == Deleting(t.id, false) && Submitted(s, s', Reading(fd, t.next), a.ring) && s'.conns == s.conns
  {
    assert Unused(s, a.id);
  }

  /** Of end of file: on_closed is called, then the socket is closed; no request is submitted. */
  lemma CloseSteps(s: State, a: Action)
    requires Enabled(s, a) && a.Do? && (s.workers[a.w].Closing? || s.workers[a.w].Shutting?)
    ensures var s', t, fd := Apply(s, a), s.workers[a.w], s.workers[a.w].fd;
      && NothingSubmitted(s, s')
      && if t.Closing? then
           && s'.workers[a.w] == Shutting(t.id, fd) && s'.ended == s.ended
           && s'.conns == s.conns[fd := s.conns[fd].(closes := s.conns[fd].closes + 1)]
         else
           s'.workers[a.w] == Deleting(t.id, false) && s'.ended == s.ended + [s.conns[fd]] && s'.conns == s.conns - {fd}
  {
  }

  /**
   Of a write: on_wrote is called. Then, as of every request, it is deleted
   from the list, and the worker waits again or leaves.
   */
  lemma LastSteps(s: State, a: Action)
    requires Enabled(s, a) && a.Do? && (s.workers[a.w].Wrote? || s.workers[a.w].Deleting?)
    ensures var s', t := Apply(s, a), s.workers[a.w];
      && s'.outstanding == s.outstanding && s'.conns == s.conns
      && if t.Wrote? then
           s'.workers[a.w] == Deleting(t.id, false) && s'.registry == s.registry && s'.wrote == s.wrote + multiset{t.fd}
         else
           && s'.workers[a.w] == (if t.leave then Left else Idle) && s'.wrote == s.wrote
           && s'.registry == ListSpec.RemoveFirst(s.registry, t.id)
  {
  }

  /** A starting worker adds the request that will stop it, to its own ring; the master then adds the first accept. */
  lemma BootSteps(s: State, a: Action)
    requires Enabled(s, a) && a.Do? && (s.workers[a.w].Booting? || s.workers[a.w].BootAccept?)
    ensures var s', t := Apply(s, a), s.workers[a.w];
      && s'.conns == s.conns
      && if t.Booting? then
           Submitted(s, s', Stopping, a.w) && s'.workers[a.w] == if t.master then BootAccept else Idle
         else
           Submitted(s, s', Accepting, 0) && s'.workers[a.w].Idle?
  {
    assert Unused(s, a.id);
  }

  /** Which handler a completed request goes to. */
  lemma DispatchExact(s: State, a: Action)
    requires Enabled(s, a) && a.Complete?
    ensures var q, t := s.outstanding[a.k], Apply(s, a).workers[a.w];
      && q.ring == a.w && t.HasRequest() && t.id == q.id
      && (q.kind.Accepting? <==> t.Connecting?) && (q.kind.Accepting? ==> t.fd == a.result.fd && a.result.fd !in s.conns)
      && (q.kind.Reading? ==> t.fd == q.kind.fd)
      && (q.kind.Reading? && a.result.data == [] <==> t.Closing?)
      && (q.kind.Reading? && a.result.data != [] <==> t.Handling?)
      && (q.kind.Writing? <==> t.Wrote?) && (q.kind.Writing? ==> t.fd == q.kind.fd)
      && (q.kind.Stopping? <==> t == Deleting(q.id, true))
  {
  }

  /** Taking a completion takes that request off its ring, and the bytes that arrived are recorded. */
  lemma CompleteExact(s: State, a: Action)
    requires Enabled(s, a) && a.Complete?
    ensures var q, s' := s.outstanding[a.k], Apply(s, a);
      && s'.outstanding == s.outstanding[..a.k] + s.outstanding[a.k + 1..] && s'.registry == s.registry
      && (q.kind.Accepting? ==> s'.conns == s.conns[a.result.fd := Conn([], 0, [], 0)])
      && (q.kind.Reading? && a.result.data != [] ==>
           s'.conns == s.conns[q.kind.fd := s.conns[q.kind.fd].(arrivals := s.conns[q.kind.fd].arrivals + [a.result.data])])
      && (!q.kind.Accepting? && !(q.kind.Reading? && a.result.data != []) ==> s'.conns == s.conns)
  {
  }

  // ---- Somebody can always move ----

  /** An address beyond all that are in use. */
  function Above(entries: seq<ListSpec.Entry>): nat {
    if entries == [] then 0
    else
      var rest := Above(entries[1..]);
      if entries[0].ptr < rest then rest else entries[0].ptr + 1
  }

  lemma {:induction false} AboveUnused(entries: seq<ListSpec.Entry>, id: nat)
    requires Above(entries) <= id
    ensures ListSpec.CountFor(entries, id) == 0
  {
    if entries != [] {
      AboveUnused(entries[1..], id);
    }
  }

  /** A busy worker can always take its next step. */
  lemma BusyWorkerMoves(s: State, w: nat)
    requires Inv(s) && w < |s.workers| && Busy(s.workers[w])
    ensures exists id :: Enabled(s, Do(w, w, id))
  {
    AboveUnused(s.registry, Above(s.registry));
    assert WorkerReads(s, s.workers[w]);
    assert Enabled(s, Do(w, w, Above(s.registry)));
  }

  /** An idle worker takes any completion on its ring: a new socket of any free number, a finished write, a stop. */
  lemma IdleWorkerTakes(s: State, k: nat, fd: nat)
    requires Inv(s) && k < |s.outstanding| && s.workers[s.outstanding[k].ring].Idle?
    ensures var q := s.outstanding[k];
      && (q.kind.Accepting? && fd !in s.conns ==> Enabled(s, Complete(q.ring, k, Accepted(fd))))
      && (q.kind.Writing? ==> Enabled(s, Complete(q.ring, k, Written)))
      && (q.kind.Stopping? ==> Enabled(s, Complete(q.ring, k, Signalled)))
  {
    assert OnRing(s, s.outstanding[k]);
  }

  /** `saurion_send` is possible at any time, and submits one write to the socket. */
  lemma SendExact(s: State, fd: nat, ring: nat)
    requires ring < |s.workers|
    ensures exists id :: Enabled(s, Send(fd, ring, id))
    ensures forall id :: Enabled(s, Send(fd, ring, id)) ==>
      var s' := Apply(s, Send(fd, ring, id));
      Submitted(s, s', Writing(fd), ring) && s'.sent == s.sent + multiset{fd} && s'.workers == s.workers && s'.conns == s.conns
  {
    AboveUnused(s.registry, Above(s.registry));
    assert Enabled(s, Send(fd, ring, Above(s.registry)));
    forall id | Enabled(s, Send(fd, ring, id))
      ensures Submitted(s, Apply(s, Send(fd, ring, id)), Writing(fd), ring)
    {
      assert Unused(s, id);
    }
  }

  // ---- End of file ----

  /** The run accepts no new socket with this number. */
  predicate NeverAccepts(actions: seq<Action>, fd: nat) {
    forall i :: 0 <= i < |actions| ==> !(actions[i].Complete? && actions[i].result == Accepted(fd))
  }

  /** A socket at end of file, after `d` steps of the worker that took it. */
  ghost predicate Ending(s: State, w: nat, d: nat, id: nat, fd: nat, c: Conn) {
    && w < |s.workers| && !ReadOutstanding(s, fd)
    && (d == 0 ==> s.workers[w] == Closing(id, fd) && fd in s.conns && s.conns[fd] == c)
    && (d == 1 ==> s.workers[w] == Shutting(id, fd) && fd in s.conns && s.conns[fd] == c.(closes := c.closes + 1))
    && (d == 2 ==> s.workers[w] == Deleting(id, false))
    && (d >= 2 ==> fd !in s.conns)
  }

  lemma NoReadWhileHeld(s: State, w: nat)
    requires Inv(s) && w < |s.workers| && s.workers[w].HasSocket()
    ensures !ReadOutstanding(s, s.workers[w].fd)
  {
    HolderIsAlone(s, s.workers[w].fd);
    assert WorkerOn(s.workers[w], s.workers[w].fd);
  }

  lemma ClosedStaysClosed(s: State, a: Action, fd: nat)
    requires Inv(s) && Enabled(s, a) && fd !in s.conns && !(a.Complete? && a.result == Accepted(fd))
    ensures fd !in Apply(s, a).conns && !ReadOutstanding(Apply(s, a), fd)
  {
    InvKept(s, a);
    HolderIsAlone(Apply(s, a), fd);
    if a.Do? {
      assert WorkerReads(s, s.workers[a.w]);
    }
  }

  lemma EndingOwnStep(s: State, a: Action, d: nat, id: nat, fd: nat, c: Conn)
    requires Inv(s) && Enabled(s, a) && a.Do? && d < 2 && Ending(s, a.w, d, id, fd, c)
    ensures Ending(Apply(s, a), a.w, d + 1, id, fd, c)
  {
    CloseSteps(s, a);
    assert Apply(s, a).outstanding == s.outstanding;
    assert !ReadOutstanding(Apply(s, a), fd);
  }

  lemma EndingOtherStep(s: State, a: Action, w: nat, d: nat, id: nat, fd: nat, c: Conn)
    requires Inv(s) && Enabled(s, a) && d < 2 && Ending(s, w, d, id, fd, c) && !(a.Do? && a.w == w)
    ensures Ending(Apply(s, a), w, d, id, fd, c)
  {
    InvKept(s, a);
    OtherStep(s, a, w);
    NoReadWhileHeld(Apply(s, a), w);
  }

  lemma EndingKept(s: State, a: Action, w: nat, d: nat, id: nat, fd: nat, c: Conn)
    requires Inv(s) && Enabled(s, a) && Ending(s, w, d, id, fd, c) && !(a.Complete? && a.result == Accepted(fd))
    ensures Ending(Apply(s, a), w, if a.Do? && a.w == w then d + 1 else d, id, fd, c)
  {
    if d >= 2 {
      ClosedStaysClosed(s, a, fd);
      if d == 2 && !(a.Do? && a.w == w) {
        OtherStep(s, a, w);
      }
    } else if a.Do? && a.w == w {
      EndingOwnStep(s, a, d, id, fd, c);
    } else {
      EndingOtherStep(s, a, w, d, id, fd, c);
    }
  }

  lemma {:induction false} EndingOverRuns(s: State, actions: seq<Action>, t: State, w: nat, d: nat, id: nat, fd: nat, c: Conn)
    requires Inv(s) && Reaches(s, actions, t) && Ending(s, w, d, id, fd, c) && NeverAccepts(actions, fd)
    ensures Inv(t) && Ending(t, w, d + Dos(actions, w), id, fd, c)
    decreases |actions|
  {
    if actions != [] {
      var a := actions[0];
      InvKept(s, a);
      EndingKept(s, a, w, d, id, fd, c);
      EndingOverRuns(Apply(s, a), actions[1..], t, w, if a.Do? && a.w == w then d + 1 else d, id, fd, c);
    }
  }

  /**
   A read that returns no bytes ends its socket. From then on, whatever is
   interleaved, no read of it is outstanding until its number is accepted again;
   the worker's next steps call on_closed once and close the socket, and submit
   nothing; no bytes and no on_readed come in between.
   */
  lemma EndOfFile(s: State, a: Action, actions: seq<Action>, t: State)
    requires Inv(s) && Enabled(s, a) && a.Complete? && s.outstanding[a.k].kind.Reading? && a.result.data == []
    requires Reaches(Apply(s, a), actions, t) && NeverAccepts(actions, s.outstanding[a.k].kind.fd)
    ensures var fd, d := s.outstanding[a.k].kind.fd, Dos(actions, a.w);
      && !ReadOutstanding(t, fd)
      && (fd in t.conns <==> d < 2)
      && (d < 2 ==> fd in s.conns && t.conns[fd] == s.conns[fd].(closes := s.conns[fd].closes + d))
    ensures Dos(actions, a.w) < 3 ==> forall ring, id :: Enabled(t, Do(a.w, ring, id)) ==>
      Apply(t, Do(a.w, ring, id)).outstanding == t.outstanding
  {
    var q := s.outstanding[a.k];
    EndingBegins(s, a);
    InvKept(s, a);
    EndingOverRuns(Apply(s, a), actions, t, a.w, 0, q.id, q.kind.fd, s.conns[q.kind.fd]);
    if Dos(actions, a.w) < 3 {
      EndingSubmitsNothing(t, a.w, Dos(actions, a.w), q.id, q.kind.fd, s.conns[q.kind.fd]);
    }
  }

  lemma EndingSubmitsNothing(s: State, w: nat, d: nat, id: nat, fd: nat, c: Conn)
    requires Ending(s, w, d, id, fd, c) && d < 3
    ensures forall ring, id :: Enabled(s, Do(w, ring, id)) ==> Apply(s, Do(w, ring, id)).outstanding == s.outstanding
  {
  }

  lemma EndingBegins(s: State, a: Action)
    requires Inv(s) && Enabled(s, a) && a.Complete? && s.outstanding[a.k].kind.Reading? && a.result.data == []
    ensures var q := s.outstanding[a.k]; Ending(Apply(s, a), a.w, 0, q.id, q.kind.fd, s.conns[q.kind.fd])
  {
    InvKept(s, a);
    DispatchExact(s, a);
    NoReadWhileHeld(Apply(s, a), a.w);
  }

  // ---- Callbacks, writes and stops over whole runs ----

  /**
   Every open socket has at most one on_connected, before any on_readed; every
   closed one had exactly one, and one on_closed, after all of them.
   */
  lemma CallbacksOnce(n: nat, actions: seq<Action>, s: State, fd: nat)
    requires n > 0 && Reaches(Initial(n), actions, s)
    ensures fd in s.conns ==> var c := s.conns[fd];
      c.connects <= 1 && c.closes <= c.connects && (c.connects == 0 ==> c.log == [] && c.arrivals == [])
    ensures forall c :: c in s.ended ==>
      c.connects == 1 && c.closes == 1 && (ProperRun(Fresh, c.arrivals) ==> c.log == Calls(Fresh, c.arrivals))
  {
    Reachable(n, actions, s);
    if fd in s.conns {
      HolderExists(s, fd);
      if ReadOutstanding(s, fd) {
        var i :| 0 <= i < |s.outstanding| && ReqOn(s.outstanding[i], fd);
        assert RequestReads(s, s.outstanding[i]);
      } else {
        var j :| 0 <= j < |s.workers| && WorkerOn(s.workers[j], fd);
        assert WorkerReads(s, s.workers[j]);
      }
    }
  }

  function WritesTo(fd: nat): Req -> nat {
    (q: Req) => if q.kind == Writing(fd) then 1 else 0
  }

  function WillTell(fd: nat): Worker -> nat {
    (t: Worker) => if t.Wrote? && t.fd == fd then 1 else 0
  }

  /** Every send is outstanding, with a worker, or has been answered by on_wrote. */
  ghost predicate SendsAccounted(s: State) {
    forall fd: nat :: s.sent[fd] == Held(s, WritesTo(fd), WillTell(fd)) + s.wrote[fd]
  }

  lemma SendsAfterComplete(s: State, a: Action, fd: nat)
    requires Enabled(s, a) && a.Complete?
    ensures Held(Apply(s, a), WritesTo(fd), WillTell(fd)) == Held(s, WritesTo(fd), WillTell(fd))
    ensures Apply(s, a).sent == s.sent && Apply(s, a).wrote == s.wrote
  {
    HeldAfterComplete(s, a, WritesTo(fd), WillTell(fd));
    DispatchExact(s, a);
  }

  lemma SendsAfterDo(s: State, a: Action, fd: nat)
    requires Enabled(s, a) && a.Do?
    ensures Held(Apply(s, a), WritesTo(fd), WillTell(fd)) + Apply(s, a).wrote[fd]
            == Held(s, WritesTo(fd), WillTell(fd)) + s.wrote[fd]
    ensures Apply(s, a).sent == s.sent
  {
    HeldAfterDo(s, a, WritesTo(fd), WillTell(fd));
    assert WillTell(fd)(Advance(s.workers[a.w])) == 0;
  }

  lemma SendsAccountedKept(s: State, a: Action)
    requires SendsAccounted(s) && Enabled(s, a)
    ensures SendsAccounted(Apply(s, a))
  {
    forall fd: nat
      ensures Apply(s, a).sent[fd] == Held(Apply(s, a), WritesTo(fd), WillTell(fd)) + Apply(s, a).wrote[fd]
    {
      if a.Complete? {
        SendsAfterComplete(s, a, fd);
      } else if a.Do? {
        SendsAfterDo(s, a, fd);
      } else {
        HeldAfterSend(s, a, WritesTo(fd), WillTell(fd));
      }
    }
  }

  lemma {:induction false} SendsOverRuns(s: State, actions: seq<Action>, t: State)
    requires SendsAccounted(s) && Reaches(s, actions, t)
    ensures SendsAccounted(t)
    decreases |actions|
  {
    if actions != [] {
      SendsAccountedKept(s, actions[0]);
      SendsOverRuns(Apply(s, actions[0]), actions[1..], t);
    }
  }

  /**
   In every reachable state each call of `saurion_send` for a socket is
   outstanding, in the hands of a worker, or answered by one on_wrote.
   */
  lemma SendsAnswered(n: nat, actions: seq<Action>, s: State, fd: nat)
    requires Reaches(Initial(n), actions, s)
    ensures s.sent[fd] == Held(s, WritesTo(fd), WillTell(fd)) + s.wrote[fd]
  {
    forall x: nat
      ensures Total(Initial(n).workers, WillTell(x)) == 0
    {
      TotalZero(Initial(n).workers, WillTell(x));
    }
    SendsOverRuns(Initial(n), actions, s);
  }

  function StopsRing(w: nat): Req -> nat {
    (q: Req) => if q.kind.Stopping? && q.ring == w then 1 else 0
  }

  /** The worker has not added its stop request yet, or has already taken it. */
  predicate StopTaken(t: Worker) {
    t.Booting? || t.Left? || (t.Deleting? && t.leave)
  }

  ghost predicate OneStop(s: State, w: nat)
    requires w < |s.workers|
  {
    Total(s.outstanding, StopsRing(w)) == if StopTaken(s.workers[w]) then 0 else 1
  }

  lemma OneStopAfterComplete(s: State, a: Action, w: nat)
    requires w < |s.workers| && OneStop(s, w) && Enabled(s, a) && a.Complete?
    ensures |Apply(s, a).workers| == |s.workers| && OneStop(Apply(s, a), w)
  {
    DispatchExact(s, a);
    TotalDrop(s.outstanding, a.k, StopsRing(w));
  }

  lemma OneStopAfterDo(s: State, a: Action, w: nat)
    requires w < |s.workers| && OneStop(s, w) && Enabled(s, a) && a.Do?
    ensures |Apply(s, a).workers| == |s.workers| && OneStop(Apply(s, a), w)
  {
    var sub := Submits(s, a.w, a.ring, a.id);
    if sub.Some? {
      TotalAppend(s.outstanding, sub.value, StopsRing(w));
    }
    StopPassedOn(s, a.w, a.ring, a.id);
  }

  /** A step adds a stop request iff the worker was starting, to its own ring. */
  lemma StopPassedOn(s: State, w: nat, ring: nat, id: nat)
    requires w < |s.workers| && Busy(s.workers[w])
    ensures var t, sub := s.workers[w], Submits(s, w, ring, id);
      && (sub.Some? && sub.value.kind.Stopping? <==> t.Booting?) && (t.Booting? ==> sub.value.ring == w)
      && (StopTaken(Advance(t)) <==> StopTaken(t) && !t.Booting?)
  {
  }

  lemma OneStopKept(s: State, a: Action, w: nat)
    requires w < |s.workers| && OneStop(s, w) && Enabled(s, a)
    ensures |Apply(s, a).workers| == |s.workers| && OneStop(Apply(s, a), w)
  {
    if a.Complete? {
      OneStopAfterComplete(s, a, w);
    } else if a.Do? {
      OneStopAfterDo(s, a, w);
    } else {
      TotalAppend(s.outstanding, Req(a.id, a.ring, Writing(a.fd)), StopsRing(w));
    }
  }

  lemma {:induction false} OneStopOverRuns(s: State, actions: seq<Action>, t: State, w: nat)
    requires w < |s.workers| && OneStop(s, w) && Reaches(s, actions, t)
    ensures |t.workers| == |s.workers| && OneStop(t, w)
    decreases |actions|
  {
    if actions != [] {
      OneStopKept(s, actions[0], w);
      OneStopOverRuns(Apply(s, actions[0]), actions[1..], t, w);
    }
  }

  /**
   Every worker that has started can be stopped, once: its ring holds exactly
   one stop request until the worker takes it.
   */
  lemma EveryWorkerCanStop(n: nat, actions: seq<Action>, s: State, w: nat)
    requires w < n && Reaches(Initial(n), actions, s)
    ensures |s.workers| == n
    ensures Total(s.outstanding, StopsRing(w)) == if StopTaken(s.workers[w]) then 0 else 1
  {
    OneStopOverRuns(Initial(n), actions, s, w);
  }

  /** A worker that has left takes nothing more. */
  lemma {:induction false} LeftStaysLeft(s: State, actions: seq<Action>, t: State, w: nat)
    requires Reaches(s, actions, t) && w < |s.workers| && s.workers[w].Left?
    ensures w < |t.workers| && t.workers[w].Left? && Dos(actions, w) == 0
    decreases |actions|
  {
    if actions != [] {
      LeftStaysLeft(Apply(s, actions[0]), actions[1..], t, w);
    }
  }

  /** At the start every worker is about to add its stop request, and the first of them is the master. */
  lemma InitialExact(n: nat)
    ensures var s := Initial(n);
      && |s.workers| == n && (forall w :: 0 <= w < n ==> s.workers[w] == Booting(w == 0))
      && s.outstanding == [] && s.conns == map[] && s.registry == [] && s.ended == []
      && s.sent == multiset{} && s.wrote == multiset{}
  {
  }
}
