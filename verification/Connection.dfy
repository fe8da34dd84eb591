/**
 One connection: the kernel completes its reads one after the other, and
 `handle_read` answers each with the next request.
 */
module Connection {
  import opened Bytes
  import opened Chunks
  import opened ReadSpec
  import opened FreshReads
  import opened Reassembly
  import opened Requests
  import opened ReadLoop

  predicate ReceivedRun(r: Reader, arrivals: seq<seq<byte>>)
    requires r.Partial? ==> |r.got| < r.size
    decreases |arrivals|
  {
    arrivals == [] || (Received(r, arrivals[0]) && ReceivedRun(Next(r, arrivals[0]), arrivals[1..]))
  }

  /** The state of the connection after all of them. */
  function Finally(r: Reader, arrivals: seq<seq<byte>>): (last: Reader)
    requires r.Partial? ==> |r.got| < r.size
    requires ReceivedRun(r, arrivals)
    ensures last.Valid()
    decreases |arrivals|
  {
    if arrivals == [] then r else Finally(Next(r, arrivals[0]), arrivals[1..])
  }

  /** The calls made for each read. */
  predicate Outcomes(r: Reader, arrivals: seq<seq<byte>>, answers: seq<seq<seq<byte>>>)
    requires r.Partial? ==> |r.got| < r.size
    requires ReceivedRun(r, arrivals)
    decreases |arrivals|
  {
    |answers| == |arrivals| &&
    (arrivals != [] ==> Outcome(r, arrivals[0], answers[0]) && Outcomes(Next(r, arrivals[0]), arrivals[1..], answers[1..]))
  }

  function Joined(answers: seq<seq<seq<byte>>>): seq<seq<byte>> {
    if answers == [] then [] else answers[0] + Joined(answers[1..])
  }

  /** Reads that the reference steps cover make exactly their calls. */
  lemma {:induction false} ProperOutcomes(r: Reader, arrivals: seq<seq<byte>>, answers: seq<seq<seq<byte>>>)
    requires r.Valid() && ProperRun(r, arrivals)
    ensures ReceivedRun(r, arrivals) && Finally(r, arrivals) == After(r, arrivals)
    ensures Outcomes(r, arrivals, answers) ==> Joined(answers) == Calls(r, arrivals)
    decreases |arrivals|
  {
    if arrivals != [] {
      ProperReceived(r, arrivals[0]);
      ProperOutcomes(Next(r, arrivals[0]), arrivals[1..], if answers == [] then [] else answers[1..]);
    }
  }

  lemma CapacityFits(r: Reader, data: seq<byte>)
    requires r.Partial? ==> |r.got| < r.size
    requires Received(r, data)
    ensures |data| <= ChunkCount(r.Capacity()) * CHUNK_SZ
  {
  }

  /** One more read. */
  lemma {:induction false} OutcomesSnoc(r: Reader, arrivals: seq<seq<byte>>, answers: seq<seq<seq<byte>>>, data: seq<byte>, calls: seq<seq<byte>>)
    requires r.Valid() && ReceivedRun(r, arrivals) && Outcomes(r, arrivals, answers)
    requires Received(Finally(r, arrivals), data) && Outcome(Finally(r, arrivals), data, calls)
    ensures ReceivedRun(r, arrivals + [data]) && Outcomes(r, arrivals + [data], answers + [calls])
    ensures Finally(r, arrivals + [data]) == Next(Finally(r, arrivals), data)
    decreases |arrivals|
  {
    if arrivals == [] {
      assert [] + [data] == [data] && [data][1..] == [] && [] + [calls] == [calls] && [calls][1..] == [];
    } else {
      OutcomesSnoc(Next(r, arrivals[0]), arrivals[1..], answers[1..], data, calls);
      assert (arrivals + [data])[1..] == arrivals[1..] + [data] && (answers + [calls])[1..] == answers[1..] + [calls];
    }
  }

  lemma {:induction false} ReceivedPrefix(r: Reader, arrivals: seq<seq<byte>>, i: nat)
    requires r.Valid() && ReceivedRun(r, arrivals) && i <= |arrivals|
    ensures ReceivedRun(r, arrivals[..i])
    ensures i < |arrivals| ==> Received(Finally(r, arrivals[..i]), arrivals[i])
    decreases |arrivals|
  {
    if i > 0 {
      ReceivedPrefix(Next(r, arrivals[0]), arrivals[1..], i - 1);
      assert arrivals[..i][1..] == arrivals[1..][..i - 1];
    }
  }

  /** The same, along a sequence of reads. */
  lemma OutcomesNext(r: Reader, arrivals: seq<seq<byte>>, i: nat, answers: seq<seq<seq<byte>>>, calls: seq<seq<byte>>)
    requires r.Valid() && i < |arrivals| && ReceivedRun(r, arrivals[..i]) && Outcomes(r, arrivals[..i], answers)
    requires Received(Finally(r, arrivals[..i]), arrivals[i]) && Outcome(Finally(r, arrivals[..i]), arrivals[i], calls)
    ensures ReceivedRun(r, arrivals[..i + 1]) && Outcomes(r, arrivals[..i + 1], answers + [calls])
    ensures Finally(r, arrivals[..i + 1]) == Next(Finally(r, arrivals[..i]), arrivals[i])
  {
    OutcomesSnoc(r, arrivals[..i], answers, arrivals[i], calls);
    assert arrivals[..i] + [arrivals[i]] == arrivals[..i + 1];
  }

  /** The kernel completes a read and `handle_read` answers it. */
  method CompleteRead(req: Request, data: seq<byte>, ghost r: Reader) returns (next: Request, ghost calls: seq<seq<byte>>)
    requires Holds(req, r) && Filled(req.iov, []) && r.Valid() && Received(r, data)
    requires req.prev != null ==> forall k :: 0 <= k < |req.iov| ==> req.iov[k].base != req.prev
    modifies req, Bases(req.iov), req.prev
    ensures fresh(next) && Holds(next, Next(r, data)) && Filled(next.iov, [])
    ensures forall i :: 0 <= i < |next.iov| ==> fresh(next.iov[i].base)
    ensures next.prev == null || next.prev == old(req.prev) || fresh(next.prev)
    ensures next.clientSocket == old(req.clientSocket) && (old(req.eventType) == Read ==> next.eventType == Read)
    ensures Outcome(r, data, calls)
  {
    CapacityFits(r, data);
    KernelRead(req.iov, data);
    next, calls := HandleRead(req, |data|, r, data);
  }

  /** What a connection reports over any reads with whole length fields, by the real requests. */
  method Serve(clientSocket: int, arrivals: seq<seq<byte>>) returns (req: Request, ghost answers: seq<seq<seq<byte>>>)
    requires ReceivedRun(Fresh, arrivals)
    ensures Holds(req, Finally(Fresh, arrivals)) && req.clientSocket == clientSocket && req.eventType == Read
    ensures Outcomes(Fresh, arrivals, answers)
    ensures ProperRun(Fresh, arrivals) ==> Joined(answers) == Calls(Fresh, arrivals) && Holds(req, After(Fresh, arrivals))
  {
    req := AddRead(clientSocket);
    answers := [];
    for i := 0 to |arrivals|
      invariant fresh(req) && forall k :: 0 <= k < |req.iov| ==> fresh(req.iov[k].base)
      invariant req.prev == null || fresh(req.prev)
      invariant ReceivedRun(Fresh, arrivals[..i]) && Outcomes(Fresh, arrivals[..i], answers)
      invariant Holds(req, Finally(Fresh, arrivals[..i])) && Filled(req.iov, []) && req.clientSocket == clientSocket
      invariant req.eventType == Read
    {
      ReceivedPrefix(Fresh, arrivals, i);
      ghost var calls;
      req, calls := CompleteRead(req, arrivals[i], Finally(Fresh, arrivals[..i]));
      OutcomesNext(Fresh, arrivals, i, answers, calls);
      answers := answers + [calls];
    }
    assert arrivals[..|arrivals|] == arrivals;
    if ProperRun(Fresh, arrivals) {
      ProperOutcomes(Fresh, arrivals, answers);
    }
  }
}
