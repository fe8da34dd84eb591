/**
 The event loop over several rings: workers take completions, call the
 handlers and submit the next requests, each step interleaved with those of
 every other worker. A submission always succeeds; the kernel may complete any
 outstanding request at any time.
 */
module EventLoop {
  import opened Bytes
  import opened Folds
  import opened ReadSpec
  import opened Reassembly
  import opened ListSpec
  import QueueSpec

  datatype Kind = Accepting | Reading(fd: nat, reader: Reader) | Writing(fd: nat) | Stopping

  /** A request given to a ring; `id` is its address. */
  datatype Req = Req(id: nat, ring: nat, kind: Kind)

  /** What a worker does next; `id` is the completed request it still has to delete. */
  datatype Worker =
    | Booting(master: bool)                                          // about to add the stop request
    | BootAccept                                                     // the master, about to add the first accept
    | Idle                                                           // waiting for a completion
    | Connecting(id: nat, fd: nat)                                   // about to call on_connected
    | Reaccepting(id: nat, fd: nat)                                  // about to add the next accept
    | Handling(id: nat, fd: nat, calls: seq<seq<byte>>, next: Reader) // in handle_read: calls to make, then the next read
    | Closing(id: nat, fd: nat)                                      // about to call on_closed
    | Shutting(id: nat, fd: nat)                                     // about to close the socket
    | Wrote(id: nat, fd: nat)                                        // about to call on_wrote
    | Deleting(id: nat, leave: bool)                                 // about to delete the request
    | Left
  {
    predicate HasSocket() {
      Connecting? || Reaccepting? || Handling? || Closing? || Shutting?
    }

    predicate HasRequest() {
      HasSocket() || Wrote? || Deleting?
    }
  }

  /**
   An open client socket: the reads completed so far, and the callbacks made
   so far: on_connected, on_readed, on_closed.
   */
  datatype Conn = Conn(arrivals: seq<seq<byte>>, connects: nat, log: seq<seq<byte>>, closes: nat)

  const NEW_CONN := Conn([], 0, [], 0)

  /** `ended` records the sockets closed; `sent` and `wrote` the calls of `saurion_send` and of on_wrote, by socket. */
  datatype State = State(
    outstanding: seq<Req>,
    workers: seq<Worker>,
    conns: map<nat, Conn>,
    registry: seq<Entry>,
    ended: seq<Conn>,
    sent: multiset<nat>,
    wrote: multiset<nat>)
  {
    /** A request is allocated, listed and submitted. */
    function Submit(q: Req): State {
      this.(outstanding := outstanding + [q], registry := registry + [Entry(q.id, [])])
    }
  }

  /** After `saurion_start` with `n` threads. */
  function Initial(n: nat): State {
    State([], seq(n, w => Booting(w == 0)), map[], [], [], multiset{}, multiset{})
  }

  /**
   The answer of the kernel; of a read also what `handle_read` makes of its
   bytes: the calls, and what the next read remembers.
   */
  datatype Completion =
    | Accepted(fd: nat)
    | Arrived(data: seq<byte>, calls: seq<seq<byte>>, next: Reader)
    | Written
    | Signalled

  datatype Action =
    | Complete(w: nat, k: nat, result: Completion)
    | Do(w: nat, ring: nat, id: nat)
    | Send(fd: nat, ring: nat, id: nat)

  /** The reads of the connection so far, and these bytes, are ones the reference steps cover. */
  predicate Covered(c: Conn, r: Reader, data: seq<byte>) {
    ProperRun(Fresh, c.arrivals) && (r.Partial? ==> |r.got| < r.size) && Proper(r, data)
  }

  /**
   Any bytes may arrive, and end of file is a read of none. From the first read
   on that cuts a message in a way the code keeps no state for, the calls and
   the next read of that connection are arbitrary.
   */
  predicate Fits(s: State, q: Req, result: Completion) {
    match q.kind
    case Accepting => result.Accepted? && result.fd !in s.conns
    case Reading(fd, r) =>
      && result.Arrived? && fd in s.conns
      && (Covered(s.conns[fd], r, result.data) ==> (result.next, result.calls) == Step(r, result.data))
    case Writing(_) => result.Written?
    case Stopping => result.Signalled?
  }

  /** `malloc` returns no address that is in use. */
  predicate Unused(s: State, id: nat) {
    CountFor(s.registry, id) == 0
  }

  predicate Enabled(s: State, a: Action) {
    match a
    case Complete(w, k, result) =>
      && w < |s.workers| && s.workers[w].Idle? && k < |s.outstanding|
      && s.outstanding[k].ring == w && Fits(s, s.outstanding[k], result)
    case Do(w, ring, id) =>
      && w < |s.workers| && !s.workers[w].Idle? && !s.workers[w].Left? && ring < |s.workers| && Unused(s, id)
      && (s.workers[w].HasSocket() ==> s.workers[w].fd in s.conns)
    case Send(_, ring, id) => ring < |s.workers| && Unused(s, id)
  }

  /** The dispatch on the completed request. */
  function Dispatch(s: State, q: Req, result: Completion): Worker
    requires Fits(s, q, result)
  {
    match q.kind
    case Accepting => Connecting(q.id, result.fd)
    case Reading(fd, _) =>
      if result.data == [] then Closing(q.id, fd)
      else Handling(q.id, fd, result.calls, result.next)
    case Writing(fd) => Wrote(q.id, fd)
    case Stopping => Deleting(q.id, true)
  }

  /** What the completion does to the open sockets. */
  function Received(s: State, q: Req, result: Completion): map<nat, Conn>
    requires Fits(s, q, result)
  {
    match q.kind
    case Accepting => s.conns[result.fd := NEW_CONN]
    case Reading(fd, _) =>
      if result.data == [] then s.conns
      else s.conns[fd := s.conns[fd].(arrivals := s.conns[fd].arrivals + [result.data])]
    case _ => s.conns
  }

  /** The request a worker submits next, if that is its next step. */
  function Submits(s: State, w: nat, ring: nat, id: nat): Option<Req>
    requires w < |s.workers|
  {
    match s.workers[w]
    case Booting(_) => Some(Req(id, w, Stopping))
    case BootAccept => Some(Req(id, 0, Accepting))
    case Reaccepting(_, _) => Some(Req(id, 0, Accepting))
    case Handling(_, fd, calls, next) => if calls == [] then Some(Req(id, ring, Reading(fd, next))) else None
    case _ => None
  }

  /** Where a worker stands after its next step. */
  function Advance(t: Worker): Worker {
    match t
    case Booting(master) => if master then BootAccept else Idle
    case BootAccept => Idle
    case Connecting(id, fd) => Reaccepting(id, fd)
    case Reaccepting(id, fd) => Handling(id, fd, [], Fresh)
    case Handling(id, fd, calls, next) => if calls == [] then Deleting(id, false) else Handling(id, fd, calls[1..], next)
    case Closing(id, fd) => Shutting(id, fd)
    case Shutting(id, _) => Deleting(id, false)
    case Wrote(id, _) => Deleting(id, false)
    case Deleting(_, leave) => if leave then Left else Idle
    case _ => t
  }

  /** What a worker's next step does to the open sockets: a callback is made, or the socket is closed. */
  function Touched(s: State, t: Worker): map<nat, Conn>
    requires t.HasSocket() ==> t.fd in s.conns
  {
    match t
    case Connecting(_, fd) => s.conns[fd := s.conns[fd].(connects := s.conns[fd].connects + 1)]
    case Handling(_, fd, calls, _) =>
      if calls == [] then s.conns else s.conns[fd := s.conns[fd].(log := s.conns[fd].log + [calls[0]])]
    case Closing(_, fd) => s.conns[fd := s.conns[fd].(closes := s.conns[fd].closes + 1)]
    case Shutting(_, fd) => s.conns - {fd}
    case _ => s.conns
  }

  function Apply(s: State, a: Action): State
    requires Enabled(s, a)
  {
    match a
    case Complete(w, k, result) => (
      var q := s.outstanding[k];
      s.(outstanding := QueueSpec.DropAt(s.outstanding, k),
         workers := s.workers[w := Dispatch(s, q, result)],
         conns := Received(s, q, result)))
    case Do(w, ring, id) => (
      var t := s.workers[w];
      var s1 := match Submits(s, w, ring, id) { case Some(q) => s.Submit(q) case None => s };
      s1.(workers := s.workers[w := Advance(t)],
          conns := Touched(s, t),
          registry := if t.Deleting? then RemoveFirst(s.registry, t.id) else s1.registry,
          ended := if t.Shutting? then s.ended + [s.conns[t.fd]] else s.ended,
          wrote := if t.Wrote? then s.wrote + multiset{t.fd} else s.wrote))
    case Send(fd, ring, id) => s.Submit(Req(id, ring, Writing(fd))).(sent := s.sent + multiset{fd})
  }

  predicate Reaches(s: State, actions: seq<Action>, t: State)
    decreases |actions|
  {
    if actions == [] then s == t
    else Enabled(s, actions[0]) && Reaches(Apply(s, actions[0]), actions[1..], t)
  }

  // ---- Counting who holds what ----

  /** Things held by outstanding requests and by workers. */
  function Held(s: State, f: Req -> nat, g: Worker -> nat): nat {
    Total(s.outstanding, f) + Total(s.workers, g)
  }

  function ReadsOn(fd: nat): Req -> nat {
    (q: Req) => if q.kind.Reading? && q.kind.fd == fd then 1 else 0
  }

  function WorksOn(fd: nat): Worker -> nat {
    (t: Worker) => if t.HasSocket() && t.fd == fd then 1 else 0
  }

  function IsRequest(id: nat): Req -> nat {
    (q: Req) => if q.id == id then 1 else 0
  }

  function HasToDelete(id: nat): Worker -> nat {
    (t: Worker) => if t.HasRequest() && t.id == id then 1 else 0
  }

  function Accepts(): Req -> nat {
    (q: Req) => if q.kind.Accepting? then 1 else 0
  }

  function WillAccept(): Worker -> nat {
    (t: Worker) => if t == Booting(true) || t.BootAccept? || t.Connecting? || t.Reaccepting? then 1 else 0
  }

  /** Every open socket has exactly one holder of its read, every closed one none. */
  ghost predicate OneReader(s: State) {
    forall fd: nat :: Held(s, ReadsOn(fd), WorksOn(fd)) == if fd in s.conns then 1 else 0
  }

  /** The list holds exactly the requests that are outstanding or still to be deleted, each once. */
  ghost predicate Registered(s: State) {
    forall id: nat :: CountFor(s.registry, id) == Held(s, IsRequest(id), HasToDelete(id)) <= 1
  }

  /** There is one accept, outstanding or about to be added. */
  ghost predicate OneAccept(s: State) {
    Held(s, Accepts(), WillAccept()) == 1
  }

  ghost predicate OnRing(s: State, q: Req) {
    q.ring < |s.workers| && (q.kind.Accepting? ==> q.ring == 0)
  }

  // ---- The content of each connection ----

  /**
   The reader with which `c` waits, when all calls but `due` have been made;
   nothing is claimed of a connection that got a read not covered.
   */
  predicate Reads(c: Conn, r: Reader, due: seq<seq<byte>>) {
    ProperRun(Fresh, c.arrivals) ==> After(Fresh, c.arrivals) == r && c.log + due == Calls(Fresh, c.arrivals)
  }

  /** on_connected has been called once, and on_closed not. */
  predicate Live(c: Conn) {
    c.connects == 1 && c.closes == 0
  }

  predicate RequestReads(s: State, q: Req) {
    q.kind.Reading? ==>
      q.kind.fd in s.conns && Reads(s.conns[q.kind.fd], q.kind.reader, []) && Live(s.conns[q.kind.fd])
  }

  predicate WorkerReads(s: State, t: Worker) {
    t.HasSocket() ==>
      && t.fd in s.conns
      && var c := s.conns[t.fd];
         if t.Handling? then Reads(c, t.next, t.calls) && Live(c)
         else if t.Connecting? then c == NEW_CONN
         else if t.Reaccepting? then c == NEW_CONN.(connects := 1)
         else
           && (ProperRun(Fresh, c.arrivals) ==> c.log == Calls(Fresh, c.arrivals))
           && c.connects == 1 && c.closes == if t.Shutting? then 1 else 0
  }

  /** A closed socket has had one on_connected and one on_closed, and all its calls. */
  predicate WellEnded(c: Conn) {
    c.connects == 1 && c.closes == 1 && (ProperRun(Fresh, c.arrivals) ==> c.log == Calls(Fresh, c.arrivals))
  }

  ghost predicate Contents(s: State) {
    && (forall k :: 0 <= k < |s.outstanding| ==> RequestReads(s, s.outstanding[k]) && OnRing(s, s.outstanding[k]))
    && (forall w :: 0 <= w < |s.workers| ==> WorkerReads(s, s.workers[w]))
    && (forall c :: c in s.ended ==> WellEnded(c))
  }

  ghost predicate Inv(s: State) {
    OneReader(s) && Registered(s) && OneAccept(s) && Contents(s)
  }

  // ---- Every step keeps the counts ----

  lemma HeldAfterComplete(s: State, a: Action, f: Req -> nat, g: Worker -> nat)
    requires Enabled(s, a) && a.Complete?
    ensures Held(Apply(s, a), f, g) + f(s.outstanding[a.k]) + g(s.workers[a.w])
            == Held(s, f, g) + g(Dispatch(s, s.outstanding[a.k], a.result))
  {
    TotalDrop(s.outstanding, a.k, f);
    TotalUpdate(s.workers, a.w, Dispatch(s, s.outstanding[a.k], a.result), g);
  }

  lemma HeldAfterDo(s: State, a: Action, f: Req -> nat, g: Worker -> nat)
    requires Enabled(s, a) && a.Do?
    ensures Held(Apply(s, a), f, g) + g(s.workers[a.w])
            == Held(s, f, g) + g(Advance(s.workers[a.w])) + match Submits(s, a.w, a.ring, a.id) { case Some(q) => f(q) case None => 0 }
  {
    TotalUpdate(s.workers, a.w, Advance(s.workers[a.w]), g);
    if Submits(s, a.w, a.ring, a.id).Some? {
      TotalAppend(s.outstanding, Submits(s, a.w, a.ring, a.id).value, f);
    }
  }

  lemma HeldAfterSend(s: State, a: Action, f: Req -> nat, g: Worker -> nat)
    requires Enabled(s, a) && a.Send?
    ensures Held(Apply(s, a), f, g) == Held(s, f, g) + f(Req(a.id, a.ring, Writing(a.fd)))
  {
    TotalAppend(s.outstanding, Req(a.id, a.ring, Writing(a.fd)), f);
  }

  lemma OneReaderAfterComplete(s: State, a: Action, fd: nat)
    requires OneReader(s) && Enabled(s, a) && a.Complete?
    ensures Held(Apply(s, a), ReadsOn(fd), WorksOn(fd)) == if fd in Apply(s, a).conns then 1 else 0
  {
    HeldAfterComplete(s, a, ReadsOn(fd), WorksOn(fd));
  }

  lemma ConnsAfterDo(s: State, a: Action, fd: nat)
    requires Enabled(s, a) && a.Do?
    ensures var t := s.workers[a.w]; fd in Apply(s, a).conns <==> fd in s.conns && !(t.Shutting? && t.fd == fd)
  {
  }

  /** A worker keeps its socket, or passes it on to the read it submits, or closes it. */
  lemma ReaderPassedOn(s: State, w: nat, ring: nat, id: nat, fd: nat)
    requires w < |s.workers|
    ensures var t := s.workers[w];
      WorksOn(fd)(t) == WorksOn(fd)(Advance(t)) + (if t.Shutting? && t.fd == fd then 1 else 0)
        + match Submits(s, w, ring, id) { case Some(q) => ReadsOn(fd)(q) case None => 0 }
  {
  }

  lemma OneReaderAfterDo(s: State, a: Action, fd: nat)
    requires OneReader(s) && Enabled(s, a) && a.Do?
    ensures Held(Apply(s, a), ReadsOn(fd), WorksOn(fd)) == if fd in Apply(s, a).conns then 1 else 0
  {
    HeldAfterDo(s, a, ReadsOn(fd), WorksOn(fd));
    ConnsAfterDo(s, a, fd);
    ReaderPassedOn(s, a.w, a.ring, a.id, fd);
    assert Held(s, ReadsOn(fd), WorksOn(fd)) == if fd in s.conns then 1 else 0;
  }

  lemma OneReaderKept(s: State, a: Action)
    requires OneReader(s) && Enabled(s, a)
    ensures OneReader(Apply(s, a))
  {
    forall fd: nat
      ensures Held(Apply(s, a), ReadsOn(fd), WorksOn(fd)) == if fd in Apply(s, a).conns then 1 else 0
    {
      if a.Complete? {
        OneReaderAfterComplete(s, a, fd);
      } else if a.Do? {
        OneReaderAfterDo(s, a, fd);
      } else {
        HeldAfterSend(s, a, ReadsOn(fd), WorksOn(fd));
      }
    }
  }

  /** A worker that owes an accept owes it still, or submits it. */
  lemma AcceptPassedOn(s: State, w: nat, ring: nat, id: nat)
    requires w < |s.workers|
    ensures WillAccept()(s.workers[w]) == WillAccept()(Advance(s.workers[w]))
      + match Submits(s, w, ring, id) { case Some(q) => Accepts()(q) case None => 0 }
  {
  }

  lemma AcceptTaken(s: State, q: Req, result: Completion)
    requires Fits(s, q, result)
    ensures Accepts()(q) == WillAccept()(Dispatch(s, q, result))
  {
  }

  lemma OneAcceptKept(s: State, a: Action)
    requires OneAccept(s) && Enabled(s, a)
    ensures OneAccept(Apply(s, a))
  {
    if a.Complete? {
      AcceptTaken(s, s.outstanding[a.k], a.result);
      HeldAfterComplete(s, a, Accepts(), WillAccept());
    } else if a.Do? {
      AcceptPassedOn(s, a.w, a.ring, a.id);
      HeldAfterDo(s, a, Accepts(), WillAccept());
    } else {
      HeldAfterSend(s, a, Accepts(), WillAccept());
    }
  }

  lemma {:induction false} CountForAppended(entries: seq<Entry>, e: Entry, id: nat)
    ensures CountFor(entries + [e], id) == CountFor(entries, id) + if e.ptr == id then 1 else 0
  {
    if entries != [] {
      CountForAppended(entries[1..], e, id);
      assert (entries + [e])[1..] == entries[1..] + [e];
    }
  }

  lemma {:induction false} CountForOther(entries: seq<Entry>, ptr: nat, id: nat)
    requires id != ptr
    ensures CountFor(RemoveFirst(entries, ptr), id) == CountFor(entries, id)
  {
    if entries != [] && entries[0].ptr != ptr {
      CountForOther(entries[1..], ptr, id);
    }
  }

  lemma RegisteredAfterDelete(s: State, a: Action, id: nat)
    requires Registered(s) && Enabled(s, a) && a.Do? && s.workers[a.w].Deleting?
    ensures CountFor(Apply(s, a).registry, id) == Held(Apply(s, a), IsRequest(id), HasToDelete(id)) <= 1
  {
    var t := s.workers[a.w];
    HeldAfterDo(s, a, IsRequest(id), HasToDelete(id));
    if id == t.id {
      TotalAtLeast(s.workers, a.w, HasToDelete(id));
      CountForRemoved(s.registry, id);
    } else {
      CountForOther(s.registry, t.id, id);
    }
  }

  lemma AdvanceKeepsRequest(t: Worker, id: nat)
    requires !t.Deleting?
    ensures HasToDelete(id)(Advance(t)) == HasToDelete(id)(t)
  {
  }

  lemma RegistryAfterDo(s: State, a: Action)
    requires Enabled(s, a) && a.Do? && !s.workers[a.w].Deleting?
    ensures match Submits(s, a.w, a.ring, a.id)
      case Some(q) => q.id == a.id && Apply(s, a).registry == s.registry + [Entry(a.id, [])]
      case None => Apply(s, a).registry == s.registry
  {
  }

  lemma RegisteredAfterDo(s: State, a: Action, id: nat)
    requires Registered(s) && Enabled(s, a) && a.Do? && !s.workers[a.w].Deleting?
    ensures CountFor(Apply(s, a).registry, id) == Held(Apply(s, a), IsRequest(id), HasToDelete(id)) <= 1
  {
    HeldAfterDo(s, a, IsRequest(id), HasToDelete(id));
    AdvanceKeepsRequest(s.workers[a.w], id);
    RegistryAfterDo(s, a);
    CountForAppended(s.registry, Entry(a.id, []), id);
    assert CountFor(s.registry, id) == Held(s, IsRequest(id), HasToDelete(id)) <= 1;
  }

  lemma RegisteredKept(s: State, a: Action)
    requires Registered(s) && Enabled(s, a)
    ensures Registered(Apply(s, a))
  {
    forall id: nat
      ensures CountFor(Apply(s, a).registry, id) == Held(Apply(s, a), IsRequest(id), HasToDelete(id)) <= 1
    {
      if a.Complete? {
        HeldAfterComplete(s, a, IsRequest(id), HasToDelete(id));
      } else if a.Do? && s.workers[a.w].Deleting? {
        RegisteredAfterDelete(s, a, id);
      } else if a.Do? {
        RegisteredAfterDo(s, a, id);
      } else {
        HeldAfterSend(s, a, IsRequest(id), HasToDelete(id));
        CountForAppended(s.registry, Entry(a.id, []), id);
      }
    }
  }

  // ---- Every step keeps the content of each connection ----

  predicate ReqOn(q: Req, fd: nat) {
    q.kind.Reading? && q.kind.fd == fd
  }

  predicate WorkerOn(t: Worker, fd: nat) {
    t.HasSocket() && t.fd == fd
  }

  /** The holder of a socket's read is alone. */
  lemma HolderIsAlone(s: State, fd: nat)
    requires OneReader(s)
    ensures forall i, j :: 0 <= i < j < |s.outstanding| ==> !(ReqOn(s.outstanding[i], fd) && ReqOn(s.outstanding[j], fd))
    ensures forall i, j :: 0 <= i < j < |s.workers| ==> !(WorkerOn(s.workers[i], fd) && WorkerOn(s.workers[j], fd))
    ensures forall i, j :: 0 <= i < |s.outstanding| && 0 <= j < |s.workers| ==> !(ReqOn(s.outstanding[i], fd) && WorkerOn(s.workers[j], fd))
    ensures fd !in s.conns ==> forall i :: 0 <= i < |s.outstanding| ==> !ReqOn(s.outstanding[i], fd)
    ensures fd !in s.conns ==> forall j :: 0 <= j < |s.workers| ==> !WorkerOn(s.workers[j], fd)
  {
    var f, g := ReadsOn(fd), WorksOn(fd);
    assert Held(s, f, g) <= 1;
    forall i, j | 0 <= i < j < |s.outstanding|
      ensures !(ReqOn(s.outstanding[i], fd) && ReqOn(s.outstanding[j], fd))
    {
      TotalTwo(s.outstanding, i, j, f);
    }
    forall i, j | 0 <= i < j < |s.workers|
      ensures !(WorkerOn(s.workers[i], fd) && WorkerOn(s.workers[j], fd))
    {
      TotalTwo(s.workers, i, j, g);
    }
    forall i | 0 <= i < |s.outstanding|
      ensures ReqOn(s.outstanding[i], fd) ==> 1 <= Total(s.outstanding, f)
    {
      TotalAtLeast(s.outstanding, i, f);
    }
    forall j | 0 <= j < |s.workers|
      ensures WorkerOn(s.workers[j], fd) ==> 1 <= Total(s.workers, g)
    {
      TotalAtLeast(s.workers, j, g);
    }
  }

  predicate Agree(s: State, s': State, fd: nat) {
    (fd in s.conns <==> fd in s'.conns) && (fd in s.conns ==> s.conns[fd] == s'.conns[fd])
  }

  /** Only worker `w` moves, and every connection that changes is its own. */
  ghost predicate Elsewhere(s: State, s': State, w: nat) {
    && |s'.workers| == |s.workers|
    && (forall v :: 0 <= v < |s.workers| && v != w ==>
         s'.workers[v] == s.workers[v] && (s.workers[v].HasSocket() ==> Agree(s, s', s.workers[v].fd)))
  }

  predicate Carried(s: State, s': State, q: Req) {
    q in s.outstanding && (q.kind.Reading? ==> Agree(s, s', q.kind.fd))
  }

  lemma ContentsFrom(s: State, s': State, w: nat)
    requires Contents(s) && Elsewhere(s, s', w)
    requires forall c :: c in s'.ended ==> c in s.ended || WellEnded(c)
    requires w < |s'.workers| ==> WorkerReads(s', s'.workers[w])
    requires forall k :: 0 <= k < |s'.outstanding| ==>
      var q := s'.outstanding[k]; Carried(s, s', q) || (RequestReads(s', q) && OnRing(s', q))
    ensures Contents(s')
  {
    forall k | 0 <= k < |s'.outstanding|
      ensures RequestReads(s', s'.outstanding[k]) && OnRing(s', s'.outstanding[k])
    {
      var q := s'.outstanding[k];
      if Carried(s, s', q) {
        var j :| 0 <= j < |s.outstanding| && s.outstanding[j] == q;
        assert RequestReads(s, s.outstanding[j]) && OnRing(s, q);
      }
    }
    forall v | 0 <= v < |s'.workers|
      ensures WorkerReads(s', s'.workers[v])
    {
      if v != w {
        assert WorkerReads(s, s.workers[v]);
      }
    }
  }

  /** A completed read goes to the worker that takes it, with the calls of `handle_read` still to make. */
  lemma ReadTaken(c: Conn, r: Reader, data: seq<byte>, calls: seq<seq<byte>>, next: Reader)
    requires Reads(c, r, []) && (Covered(c, r, data) ==> (next, calls) == Step(r, data))
    ensures Reads(c.(arrivals := c.arrivals + [data]), next, calls)
  {
    ProperRunSnoc(Fresh, c.arrivals, data);
    if ProperRun(Fresh, c.arrivals + [data]) {
      assert c.log + [] == c.log;
      RunSnoc(Fresh, c.arrivals, data);
    }
  }

  lemma CompleteKeepsContents(s: State, a: Action)
    requires Inv(s) && Enabled(s, a) && a.Complete?
    ensures Contents(Apply(s, a))
  {
    var q, s' := s.outstanding[a.k], Apply(s, a);
    assert RequestReads(s, q);
    if q.kind.Accepting? {
      HolderIsAlone(s, a.result.fd);
    } else if q.kind.Reading? {
      HolderIsAlone(s, q.kind.fd);
      var c := s.conns[q.kind.fd];
      assert c.log + [] == c.log;
      if a.result.data != [] {
        ReadTaken(c, q.kind.reader, a.result.data, a.result.calls, a.result.next);
      }
    }
    forall k | 0 <= k < |s'.outstanding|
      ensures Carried(s, s', s'.outstanding[k])
    {
      var j := if k < a.k then k else k + 1;
      assert s'.outstanding[k] == s.outstanding[j] && j != a.k;
      assert q.kind.Reading? ==> ReqOn(q, q.kind.fd) && !ReqOn(s.outstanding[j], q.kind.fd);
    }
    ContentsFrom(s, s', a.w);
  }

  lemma CallMade(c: Conn, r: Reader, calls: seq<seq<byte>>)
    requires Reads(c, r, calls) && calls != []
    ensures Reads(c.(log := c.log + [calls[0]]), r, calls[1..])
  {
    assert (c.log + [calls[0]]) + calls[1..] == c.log + calls;
  }

  /** The connection of the worker that moves. */
  lemma MoverReads(s: State, a: Action)
    requires Inv(s) && Enabled(s, a) && a.Do?
    ensures WorkerReads(Apply(s, a), Advance(s.workers[a.w]))
  {
    var t := s.workers[a.w];
    assert WorkerReads(s, t);
    if t.Handling? && t.calls != [] {
      CallMade(s.conns[t.fd], t.next, t.calls);
    }
  }

  lemma SubmittedReads(s: State, a: Action)
    requires Inv(s) && Enabled(s, a) && a.Do? && Submits(s, a.w, a.ring, a.id).Some?
    ensures var q := Submits(s, a.w, a.ring, a.id).value; RequestReads(Apply(s, a), q) && OnRing(Apply(s, a), q)
  {
    assert WorkerReads(s, s.workers[a.w]);
  }

  /** A step changes no connection but the worker's own. */
  lemma OtherConnsAgree(s: State, a: Action, fd: nat)
    requires Enabled(s, a) && a.Do? && !WorkerOn(s.workers[a.w], fd)
    ensures Agree(s, Apply(s, a), fd)
  {
  }

  /** No other worker, and no outstanding read, has to do with the connection of the worker that moves. */
  lemma OthersAgree(s: State, a: Action)
    requires Inv(s) && Enabled(s, a) && a.Do?
    ensures Elsewhere(s, Apply(s, a), a.w)
    ensures forall k :: 0 <= k < |s.outstanding| ==> Carried(s, Apply(s, a), s.outstanding[k])
  {
    forall v | 0 <= v < |s.workers| && v != a.w && s.workers[v].HasSocket()
      ensures Agree(s, Apply(s, a), s.workers[v].fd)
    {
      HolderIsAlone(s, s.workers[v].fd);
      OtherConnsAgree(s, a, s.workers[v].fd);
    }
    forall k | 0 <= k < |s.outstanding| && s.outstanding[k].kind.Reading?
      ensures Agree(s, Apply(s, a), s.outstanding[k].kind.fd)
    {
      HolderIsAlone(s, s.outstanding[k].kind.fd);
      OtherConnsAgree(s, a, s.outstanding[k].kind.fd);
    }
  }

  lemma DoKeepsContents(s: State, a: Action)
    requires Inv(s) && Enabled(s, a) && a.Do?
    ensures Contents(Apply(s, a))
  {
    OthersAgree(s, a);
    if Submits(s, a.w, a.ring, a.id).Some? {
      SubmittedReads(s, a);
    }
    MoverReads(s, a);
    ContentsFrom(s, Apply(s, a), a.w);
  }

  lemma ContentsKept(s: State, a: Action)
    requires Inv(s) && Enabled(s, a)
    ensures Contents(Apply(s, a))
  {
    if a.Complete? {
      CompleteKeepsContents(s, a);
    } else if a.Do? {
      DoKeepsContents(s, a);
    } else {
      ContentsFrom(s, Apply(s, a), |s.workers|);
    }
  }

  lemma InvKept(s: State, a: Action)
    requires Inv(s) && Enabled(s, a)
    ensures Inv(Apply(s, a))
  {
    OneReaderKept(s, a);
    RegisteredKept(s, a);
    OneAcceptKept(s, a);
    ContentsKept(s, a);
  }

  lemma InitialInv(n: nat)
    requires n > 0
    ensures Inv(Initial(n))
  {
    var s := Initial(n);
    forall fd: nat
      ensures Total(s.workers, WorksOn(fd)) == 0
    {
      TotalZero(s.workers, WorksOn(fd));
    }
    forall id: nat
      ensures Total(s.workers, HasToDelete(id)) == 0
    {
      TotalZero(s.workers, HasToDelete(id));
    }
    TotalZero(s.workers[1..], WillAccept());
  }

  lemma {:induction false} InvariantOverRuns(s: State, actions: seq<Action>, t: State)
    requires Inv(s) && Reaches(s, actions, t)
    ensures Inv(t)
    decreases |actions|
  {
    if actions != [] {
      InvKept(s, actions[0]);
      InvariantOverRuns(Apply(s, actions[0]), actions[1..], t);
    }
  }

  // ---- What holds in every reachable state ----

  lemma Reachable(n: nat, actions: seq<Action>, s: State)
    requires n > 0 && Reaches(Initial(n), actions, s)
    ensures Inv(s)
  {
    InitialInv(n);
    InvariantOverRuns(Initial(n), actions, s);
  }

  /** No bytes are excluded: an outstanding read may complete with any, as soon as its worker is free. */
  lemma AnyBytesMayArrive(s: State, k: nat, data: seq<byte>)
    requires Inv(s) && k < |s.outstanding| && s.outstanding[k].kind.Reading? && s.workers[s.outstanding[k].ring].Idle?
    ensures exists calls, next :: Enabled(s, Complete(s.outstanding[k].ring, k, Arrived(data, calls, next)))
  {
    var q := s.outstanding[k];
    assert RequestReads(s, q);
    var (next, calls) := if Covered(s.conns[q.kind.fd], q.kind.reader, data) then Step(q.kind.reader, data) else (Fresh, []);
    assert Enabled(s, Complete(q.ring, k, Arrived(data, calls, next)));
  }

  ghost predicate AcceptAt(s: State, i: int) {
    0 <= i < |s.outstanding| && s.outstanding[i].kind.Accepting?
  }

  ghost predicate WillAcceptAt(s: State, j: int) {
    0 <= j < |s.workers| && WillAccept()(s.workers[j]) == 1
  }

  /** There is exactly one accept: outstanding, or about to be added by one worker. */
  lemma SingleAccept(n: nat, actions: seq<Action>, s: State)
    requires n > 0 && Reaches(Initial(n), actions, s)
    ensures (exists i :: AcceptAt(s, i)) != (exists j :: WillAcceptAt(s, j))
    ensures forall i, j :: i < j && AcceptAt(s, i) ==> !AcceptAt(s, j)
    ensures forall i, j :: i < j && WillAcceptAt(s, i) ==> !WillAcceptAt(s, j)
  {
    Reachable(n, actions, s);
    forall i | 0 <= i < |s.outstanding|
      ensures AcceptAt(s, i) <==> Accepts()(s.outstanding[i]) == 1
      ensures AcceptAt(s, i) ==> Total(s.outstanding, Accepts()) >= 1
    {
      TotalAtLeast(s.outstanding, i, Accepts());
    }
    forall j | 0 <= j < |s.workers|
      ensures WillAcceptAt(s, j) ==> Total(s.workers, WillAccept()) >= 1
    {
      TotalAtLeast(s.workers, j, WillAccept());
    }
    if Total(s.outstanding, Accepts()) != 0 {
      TotalZero(s.outstanding, Accepts());
      var i :| 0 <= i < |s.outstanding| && Accepts()(s.outstanding[i]) != 0;
      assert AcceptAt(s, i);
    } else {
      TotalZero(s.workers, WillAccept());
      var j :| 0 <= j < |s.workers| && WillAccept()(s.workers[j]) != 0;
      assert WillAcceptAt(s, j);
    }
    forall i, j | i < j && AcceptAt(s, i)
      ensures !AcceptAt(s, j)
    {
      if AcceptAt(s, j) {
        TotalTwo(s.outstanding, i, j, Accepts());
      }
    }
    forall i, j | i < j && WillAcceptAt(s, i)
      ensures !WillAcceptAt(s, j)
    {
      if WillAcceptAt(s, j) {
        TotalTwo(s.workers, i, j, WillAccept());
      }
    }
  }

  ghost predicate ReadOutstanding(s: State, fd: nat) {
    exists i :: 0 <= i < |s.outstanding| && ReqOn(s.outstanding[i], fd)
  }

  ghost predicate WithWorker(s: State, fd: nat) {
    exists j :: 0 <= j < |s.workers| && WorkerOn(s.workers[j], fd)
  }

  /** The read of an open socket is outstanding, or some worker has it. */
  lemma HolderExists(s: State, fd: nat)
    requires OneReader(s) && fd in s.conns
    ensures ReadOutstanding(s, fd) || WithWorker(s, fd)
  {
    assert Held(s, ReadsOn(fd), WorksOn(fd)) == 1;
    TotalZero(s.outstanding, ReadsOn(fd));
    TotalZero(s.workers, WorksOn(fd));
  }

  /**
   Each open socket has its read either outstanding, once, or with one worker;
   so no two workers ever handle the same socket's data, and no read is
   outstanding while one does.
   */
  lemma Serialized(n: nat, actions: seq<Action>, s: State, fd: nat)
    requires n > 0 && Reaches(Initial(n), actions, s)
    ensures fd in s.conns <==> ReadOutstanding(s, fd) || WithWorker(s, fd)
    ensures !(ReadOutstanding(s, fd) && WithWorker(s, fd))
    ensures forall i, j :: 0 <= i < j < |s.workers| ==> !(WorkerOn(s.workers[i], fd) && WorkerOn(s.workers[j], fd))
    ensures forall i, j :: 0 <= i < j < |s.outstanding| ==> !(ReqOn(s.outstanding[i], fd) && ReqOn(s.outstanding[j], fd))
  {
    Reachable(n, actions, s);
    HolderIsAlone(s, fd);
    if fd in s.conns {
      HolderExists(s, fd);
    }
  }

  /**
   The calls made for a connection are a prefix of those of the reader run on
   its reads one after the other; all of them, once its next read is
   outstanding.
   */
  lemma CallsInStreamOrder(n: nat, actions: seq<Action>, s: State, fd: nat)
    requires n > 0 && Reaches(Initial(n), actions, s) && fd in s.conns && ProperRun(Fresh, s.conns[fd].arrivals)
    ensures s.conns[fd].log <= Calls(Fresh, s.conns[fd].arrivals)
    ensures ReadOutstanding(s, fd) ==> s.conns[fd].log == Calls(Fresh, s.conns[fd].arrivals)
  {
    Reachable(n, actions, s);
    HolderExists(s, fd);
    var c := s.conns[fd];
    if ReadOutstanding(s, fd) {
      var i :| 0 <= i < |s.outstanding| && ReqOn(s.outstanding[i], fd);
      assert RequestReads(s, s.outstanding[i]);
      assert c.log + [] == c.log;
    } else {
      var j :| 0 <= j < |s.workers| && WorkerOn(s.workers[j], fd);
      assert WorkerReads(s, s.workers[j]);
    }
  }

  /** Whatever the schedule, a connection whose reads carry a stream of frames reports its messages in order. */
  lemma StreamsServed(n: nat, actions: seq<Action>, s: State, fd: nat, segs: seq<Segment>)
    requires n > 0 && Reaches(Initial(n), actions, s) && fd in s.conns
    requires (forall x :: x in segs ==> x.Valid()) && s.conns[fd].arrivals == AllReads(segs)
    ensures s.conns[fd].log <= AllCalls(segs)
    ensures ReadOutstanding(s, fd) ==> s.conns[fd].log == AllCalls(segs)
  {
    StreamDelivered(segs);
    CallsInStreamOrder(n, actions, s, fd);
  }

  ghost predicate Outstanding(s: State, id: nat) {
    exists i :: 0 <= i < |s.outstanding| && s.outstanding[i].id == id
  }

  ghost predicate InHand(s: State, id: nat) {
    exists j :: 0 <= j < |s.workers| && s.workers[j].HasRequest() && s.workers[j].id == id
  }

  /**
   A request is listed exactly as long as it is outstanding or a worker still
   has to delete it, never both: it is freed once, after its completion has
   been handled, and none is lost.
   */
  lemma FreedAfterUse(n: nat, actions: seq<Action>, s: State, id: nat)
    requires n > 0 && Reaches(Initial(n), actions, s)
    ensures CountFor(s.registry, id) <= 1
    ensures CountFor(s.registry, id) == 1 <==> Outstanding(s, id) || InHand(s, id)
    ensures !(Outstanding(s, id) && InHand(s, id))
  {
    Reachable(n, actions, s);
    var f, g := IsRequest(id), HasToDelete(id);
    assert CountFor(s.registry, id) == Held(s, f, g);
    TotalZero(s.outstanding, f);
    TotalZero(s.workers, g);
  }
}
