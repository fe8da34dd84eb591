/**
 `handle_read` with the requests it submits next, the kernel that completes
 them, and the life of one connection as a sequence of completed reads.
 */
module ReadLoop {
  import opened Bytes
  import opened Chunks
  import opened Frames
  import opened ReadSpec
  import opened FreshReads
  import opened Requests
  import opened ReadPath

  /** The chunks hold `data`, one after the other, and zeros behind it. */
  ghost predicate Filled(iov: seq<Iovec>, data: seq<byte>)
    reads set v | v in iov :: v.base
  {
    forall i :: 0 <= i < |iov| ==>
      iov[i].base.Length == CHUNK_SZ &&
      forall o :: 0 <= o < CHUNK_SZ ==> iov[i].base[o] == ByteAt(data, i * CHUNK_SZ + o)
  }

  /** The pending message and cursor of a request are those of a connection in state `r`. */
  ghost predicate Remembers(req: Request, r: Reader)
    reads req, req.prev
  {
    && PrevApart(req)
    && match r
       case Fresh => ControlOf(req) == IDLE
       case Partial(got, size) =>
         |got| < size && ControlOf(req) == Control(true, size, size - |got|, 0, 0) && req.prev[..|got|] == got
  }

  /** A read request of a connection in state `r`, before it completes. */
  ghost predicate Holds(req: Request, r: Reader)
    reads req, req.prev
  {
    r.Valid() && Remembers(req, r) && Separate(req.iov) && Lens(req.iov) == ChunkLens(r.Capacity())
  }

  /** `add_read`: a fresh read for a socket. */
  method AddRead(clientSocket: int) returns (req: Request)
    ensures fresh(req) && Holds(req, Fresh) && Filled(req.iov, [])
    ensures forall i :: 0 <= i < |req.iov| ==> fresh(req.iov[i].base)
    ensures req.clientSocket == clientSocket && req.eventType == Read
  {
    req := SetRequest(null, CHUNK_SZ, None, false);
    req.eventType := Read;
    req.clientSocket := clientSocket;
  }

  /** `add_read_continue`: room for exactly what is missing of the pending message. */
  method AddReadContinue(oreq: Request, ghost r: Reader) returns (req: Request)
    requires r.Partial? && Remembers(oreq, r)
    ensures fresh(req) && Holds(req, r) && Filled(req.iov, []) && req.prev == oreq.prev
    ensures forall i :: 0 <= i < |req.iov| ==> fresh(req.iov[i].base)
    ensures req.clientSocket == oreq.clientSocket && req.eventType == oreq.eventType
  {
    req := SetRequest(oreq, oreq.prevRemain, None, false);
  }

  /** The kernel completes a read: the next bytes of the stream go into the iovecs in order. */
  method KernelRead(iov: seq<Iovec>, data: seq<byte>)
    requires Separate(iov) && Filled(iov, []) && |data| <= |iov| * CHUNK_SZ
    modifies Bases(iov)
    ensures Filled(iov, data)
  {
    for i := 0 to |iov|
      invariant forall k :: i <= k < |iov| ==> forall o :: 0 <= o < CHUNK_SZ ==> iov[k].base[o] == 0
      invariant forall k :: 0 <= k < i ==> forall o :: 0 <= o < CHUNK_SZ ==> iov[k].base[o] == ByteAt(data, k * CHUNK_SZ + o)
    {
      if i * CHUNK_SZ < |data| {
        var n := Min(CHUNK_SZ, |data| - i * CHUNK_SZ);
        MemCpy(iov[i].base, 0, data, i * CHUNK_SZ, n);
        assert forall o :: 0 <= o < n ==> iov[i].base[o] == iov[i].base[..n][o];
      }
    }
  }

  /** A fresh read whose only frame is longer than the read. */
  predicate Opens(r: Reader, data: seq<byte>) {
    r.Fresh? && data != [0] && HEADER <= |data| && Header(data) > |data|
  }

  /** What `read_chunk` sees in state `r` of a completion with `data`, the cursor being at `o`. */
  predicate Sees(v: View, r: Reader, data: seq<byte>, o: nat) {
    match r
    case Fresh => SeesFresh(v, data, o) && if data == [0] then o == 0 else FieldsWhole(data, o)
    case Partial(got, size) => o == 0 && |got| < size && SeesContinuation(v, size, size - |got|, data)
  }

  /** The passes so far have made the calls for all messages in front of the cursor. */
  predicate Passed(data: seq<byte>, o: nat, calls: seq<seq<byte>>) {
    if data == [0] then calls == []
    else
      && FieldsWhole(data, 0) && FieldsWhole(data, o)
      && calls + Front(data, o) == Front(data, 0) && LastStart(data, o) == LastStart(data, 0)
  }

  lemma ContinuationStep(r: Reader, data: seq<byte>, piece: seq<byte>)
    requires r.Partial? && |r.got| < r.size && 0 < |data| <= r.Capacity()
    requires piece == Stretch(data, Accounted(r.Capacity(), |data|))
    ensures Proper(r, data) && |r.got + piece| <= r.size
    ensures Step(r, data) ==
      var all := r.got + piece; if |all| == r.size then (Fresh, [all]) else (Partial(all, r.size), [])
  {
    AccountedBounds(r.Capacity(), |data|);
  }

  lemma ContinuationPass(v: View, r: Reader, data: seq<byte>)
    requires r.Partial? && Sees(v, r, data, 0)
    ensures v.Readable() && v.control.Continues() && v.control.Already() == |r.got|
    ensures Proper(r, data) && |r.got + v.Gathered()| <= r.size
    ensures v.After() == Control(true, r.size, r.size - |r.got + v.Gathered()|, 0, 0)
    ensures Step(r, data) ==
      var all := r.got + v.Gathered(); if |all| == r.size then (Fresh, [all]) else (Partial(all, r.size), [])
  {
    ContinuationCall(v, r.size, r.size - |r.got|, data);
    ContinuationStep(r, data, v.Gathered());
  }

  lemma OpeningPass(v: View, data: seq<byte>)
    requires Opens(Fresh, data) && Sees(v, Fresh, data, 0)
    ensures v.Readable() && v.Splits() && !v.control.Continues() && v.Length() == Header(data)
    ensures |v.Gathered()| < v.Length()
    ensures v.After() == Control(true, Header(data), Header(data) - |v.Gathered()|, 0, 0)
    ensures Step(Fresh, data) == (Partial(v.Gathered(), Header(data)), [])
  {
    SplitCall(v, data);
  }

  /** A pass over a message, or over a stray terminator. */
  lemma FramePass(v: View, data: seq<byte>, o: nat)
    requires Sees(v, Fresh, data, o) && !Opens(Fresh, data)
    ensures v.Readable() && !v.Splits() && !v.control.Continues()
    ensures v.After() == IDLE.(nextOffset := v.After().nextOffset)
    ensures if data == [0] then v.Gathered() == [] && v.Length() == 0 && v.After() == IDLE
      else
        && v.Gathered() == Arrived(data, o) && v.Length() == Header(data[o..])
        && v.After().nextOffset == if FrameEnd(data, o) + 1 < |data| then FrameEnd(data, o) + 1 else 0
  {
    if data == [0] {
      StrayCall(v);
    } else {
      FrameCall(v, data, o);
    }
  }

  /** The call of a pass that is not the last, and what is left to do. */
  lemma PassOn(data: seq<byte>, o: nat, calls: seq<seq<byte>>, call: seq<byte>)
    requires data != [0] && Passed(data, o, calls) && FrameEnd(data, o) + 1 < |data| && call == Arrived(data, o)
    ensures Passed(data, FrameEnd(data, o) + 1, calls + [call])
  {
    Associates(calls, [call], Front(data, FrameEnd(data, o) + 1));
  }

  /** The last call, measured with `strlen`. */
  lemma PassLast(data: seq<byte>, o: nat, calls: seq<seq<byte>>, call: seq<byte>)
    requires Received(Fresh, data) && !Opens(Fresh, data) && Passed(data, o, calls)
    requires if data == [0] then call == []
      else FrameEnd(data, o) + 1 >= |data| && LastCall(Arrived(data, o), Header(data[o..]), call)
    ensures Outcome(Fresh, data, calls + [call])
  {
    if data != [0] {
      assert calls + [] == calls;
      assert Answered(data, calls + [call]);
      if Proper(Fresh, data) {
        AnsweredParsed(data, calls + [call]);
      }
    }
  }

  predicate ControlFits(c: Control, r: Reader) {
    match r
    case Fresh => c == IDLE
    case Partial(got, size) => |got| < size && c == Control(true, size, size - |got|, 0, 0)
  }

  /** The chunks of a completed read with the last length adjusted are what `read_chunk` expects. */
  lemma SeesCompleted(v: View, r: Reader, data: seq<byte>)
    requires ControlFits(v.control, r)
    requires r.Partial? ==> |r.got| < r.size
    requires Received(r, data)
    requires v.lens == AdjustedLens(r.Capacity(), |data|) && |v.bufs| == |v.lens| && FilledWith(v.bufs, data)
    ensures Sees(v, r, data, 0)
  {
  }

  lemma LensUpdated(iov: seq<Iovec>, i: nat, len: nat)
    requires i < |iov|
    ensures Lens(iov[i := iov[i].(len := len)]) == Lens(iov)[i := len]
  {
  }

  lemma FilledSeen(iov: seq<Iovec>, bufs: seq<seq<byte>>, data: seq<byte>)
    requires Filled(iov, data) && |bufs| == |iov| && forall k :: 0 <= k < |iov| ==> bufs[k] == iov[k].base[..]
    ensures FilledWith(bufs, data)
  {
  }

  /** Sets the last `iov_len` from the byte count, as `handle_read` does before it looks at the chunks. */
  method AdjustLast(req: Request, bytes: nat, ghost r: Reader, ghost data: seq<byte>) returns (ghost v: View)
    requires Holds(req, r) && Filled(req.iov, data) && bytes == |data|
    requires r.Partial? ==> |r.got| < r.size
    requires Received(r, data)
    modifies req`iov
    ensures Separate(req.iov) && |req.iov| == |old(req.iov)|
    ensures forall k :: 0 <= k < |req.iov| ==> req.iov[k].base == old(req.iov)[k].base
    ensures Remembers(req, r) && Shows(req, v) && Sees(v, r, data, 0)
  {
    var lastBytes := bytes % CHUNK_SZ;
    lastBytes := if lastBytes == 0 then CHUNK_SZ else lastBytes;
    var last := |req.iov| - 1;
    ghost var iov := req.iov;
    ghost var bufs := seq(|iov|, k requires 0 <= k < |iov| reads set x | x in iov :: x.base => iov[k].base[..]);
    FilledSeen(iov, bufs, data);
    LensUpdated(iov, last, lastBytes);
    req.iov := req.iov[last := req.iov[last].(len := lastBytes)];
    v := View(ControlOf(req), Lens(req.iov), bufs);
    SeesCompleted(v, r, data);
  }

  /** After a call on a pending message: it is complete, or remembered as the reference step says. */
  ghost predicate Pending(req: Request, r: Reader, data: seq<byte>)
    requires r.Partial? ==> |r.got| < r.size
    reads req, req.prev
  {
    && Proper(r, data) && PrevApart(req) && req.prev != null && req.prevSize != 0 && req.nextIov == 0 && req.nextOffset == 0
    && if req.prevRemain == 0 then Step(r, data) == (Fresh, [req.prev[..]])
       else Step(r, data).0.Partial? && Remembers(req, Step(r, data).0) && Step(r, data).1 == []
  }

  lemma PendingShown(req: Request, r: Reader, data: seq<byte>, all: seq<byte>, size: nat)
    requires r.Partial? ==> |r.got| < r.size
    requires Proper(r, data) && PrevApart(req) && 0 < size && |all| <= size
    requires Step(r, data) == if |all| == size then (Fresh, [all]) else (Partial(all, size), [])
    requires ControlOf(req) == Control(true, size, size - |all|, 0, 0) && req.prev[..|all|] == all
    ensures Pending(req, r, data)
  {
    assert |all| == size ==> req.prev[..] == all;
  }

  /**
   One `read_chunk` inside `handle_read`, by what the read holds at the cursor:
   more of the pending message, the start of a message longer than the read, or
   a message of which at least the length has arrived.
   */
  method NextChunk(req: Request, ghost v: View, ghost r: Reader, ghost data: seq<byte>) returns (msg: array<byte>, len: nat)
    requires r.Partial? ==> |r.got| < r.size
    requires Received(r, data) && Shows(req, v) && Sees(v, r, data, v.control.nextOffset)
    requires if r.Partial? || Opens(r, data) then Remembers(req, r) && v.control.nextOffset == 0 else PrevApart(req)
    modifies req`prev, req`prevSize, req`prevRemain, req`nextIov, req`nextOffset, req.prev
    ensures r.Partial? || Opens(r, data) ==> Pending(req, r, data) && (req.prev == old(req.prev) || fresh(req.prev))
    ensures r.Fresh? && !Opens(r, data) ==>
      var o := v.control.nextOffset;
      && ControlOf(req) == IDLE.(nextOffset := req.nextOffset)
      && fresh(msg) && len <= msg.Length && 0 in msg[..]
      && if data == [0] then req.nextOffset == 0 && CutAtZero(msg[..]) == []
         else if FrameEnd(data, o) + 1 < |data| then req.nextOffset == FrameEnd(data, o) + 1 && msg[..len] == Arrived(data, o)
         else req.nextOffset == 0 && LastCall(Arrived(data, o), Header(data[o..]), CutAtZero(msg[..]))
  {
    if r.Partial? {
      ContinuationPass(v, r, data);
    } else if Opens(r, data) {
      OpeningPass(v, data);
    } else {
      FramePass(v, data, v.control.nextOffset);
    }
    ghost var piece := v.Gathered();
    msg, len := ReadChunk(req, v);
    if r.Partial? {
      PendingShown(req, r, data, r.got + piece, r.size);
    } else if Opens(r, data) {
      PendingShown(req, r, data, piece, Header(data));
    } else {
      BufferCall(msg[..], piece);
    }
  }

  /**
   What `handle_read` finds when there is no next message: the read's last
   call is still to be made, if there is one.
   */
  ghost predicate NoNext(req: Request, msg: array<byte>, r: Reader, data: seq<byte>, calls: seq<seq<byte>>)
    requires r.Partial? ==> |r.got| < r.size
    requires Received(r, data)
    reads req, req.prev, msg
  {
    if r.Partial? || Opens(r, data) then calls == [] && Pending(req, r, data)
    else ControlOf(req) == IDLE && r.Fresh? && Next(r, data) == Fresh && 0 in msg[..] && Outcome(r, data, calls + [CutAtZero(msg[..])])
  }

  /** The rest of `handle_read` then: the last call, and the next read. */
  method Conclude(req: Request, msg: array<byte>, ghost r: Reader, ghost data: seq<byte>, ghost before: seq<seq<byte>>)
    returns (next: Request, ghost calls: seq<seq<byte>>)
    requires r.Partial? ==> |r.got| < r.size
    requires Received(r, data) && NoNext(req, msg, r, data, before)
    modifies req`prev, req`prevSize, req`prevRemain
    ensures fresh(next) && Holds(next, Next(r, data)) && Filled(next.iov, [])
    ensures forall i :: 0 <= i < |next.iov| ==> fresh(next.iov[i].base)
    ensures next.prev == null || next.prev == old(req.prev)
    ensures next.clientSocket == req.clientSocket && (req.eventType == Read ==> next.eventType == Read)
    ensures Next(r, data).Fresh? ==> ControlOf(req) == IDLE
    ensures Outcome(r, data, calls)
  {
    calls := before;
    if req.prev != null && req.prevSize != 0 && req.prevRemain == 0 {
      assert req.prev[..req.prevSize] == req.prev[..];
      calls := calls + [req.prev[..req.prevSize]];
      req.prevSize := 0;
      req.prevRemain := 0;
      req.prev := null;
      // The C code looks for a next frame once more here; its caller has just found none.
    } else if req.prev != null && req.prevSize != 0 && req.prevRemain != 0 {
      next := AddReadContinue(req, Step(r, data).0);
      return;
    } else {
      var len := StrLen(msg);
      calls := calls + [msg[..len]];
    }
    next := AddRead(req.clientSocket);
  }

  /** One pass of the loop of `handle_read`, up to the question whether there is a next message. */
  method Turn(req: Request, ghost v: View, ghost r: Reader, ghost data: seq<byte>, ghost calls: seq<seq<byte>>)
    returns (msg: array<byte>, len: nat)
    requires r.Partial? ==> |r.got| < r.size
    requires Received(r, data) && Shows(req, v) && Sees(v, r, data, v.control.nextOffset)
    requires if r.Partial? || Opens(r, data) then Remembers(req, r) && v.control.nextOffset == 0 && calls == []
      else PrevApart(req) && Passed(data, v.control.nextOffset, calls)
    modifies req`prev, req`prevSize, req`prevRemain, req`nextIov, req`nextOffset, req.prev
    ensures req.nextIov == 0 && (req.prev == old(req.prev) || fresh(req.prev))
    ensures if req.nextOffset != 0 then
        && r.Fresh? && !Opens(r, data) && PrevApart(req) && req.prev == old(req.prev)
        && v.control.nextOffset < req.nextOffset < |data| && len <= msg.Length
        && Sees(v.(control := ControlOf(req)), r, data, req.nextOffset)
        && Passed(data, req.nextOffset, calls + [msg[..len]])
      else NoNext(req, msg, r, data, calls)
  {
    ghost var o := v.control.nextOffset;
    msg, len := NextChunk(req, v, r, data);
    if r.Fresh? && !Opens(r, data) {
      if req.nextOffset != 0 {
        PassOn(data, o, calls, msg[..len]);
      } else {
        PassLast(data, o, calls, CutAtZero(msg[..]));
      }
    }
  }

  /** `handle_read`: the `on_readed` calls for a completed read, and the read submitted next. */
  method HandleRead(req: Request, bytes: nat, ghost r: Reader, ghost data: seq<byte>)
    returns (next: Request, ghost calls: seq<seq<byte>>)
    requires Holds(req, r) && Filled(req.iov, data) && bytes == |data| && Received(r, data)
    modifies req`prev, req`prevSize, req`prevRemain, req`nextIov, req`nextOffset, req`iov, req.prev
    ensures fresh(next) && Holds(next, Next(r, data)) && Filled(next.iov, [])
    ensures forall i :: 0 <= i < |next.iov| ==> fresh(next.iov[i].base)
    ensures next.prev == null || next.prev == old(req.prev) || fresh(next.prev)
    ensures next.clientSocket == req.clientSocket && (req.eventType == Read ==> next.eventType == Read)
    ensures Next(r, data).Fresh? ==> ControlOf(req) == IDLE
    ensures Outcome(r, data, calls)
  {
    ghost var v := AdjustLast(req, bytes, r, data);
    calls := [];
    while true
      invariant Shows(req, v) && Sees(v, r, data, v.control.nextOffset)
      invariant if r.Partial? || Opens(r, data) then Remembers(req, r) && v.control.nextOffset == 0 && calls == []
        else PrevApart(req) && Passed(data, v.control.nextOffset, calls)
      invariant req.prev == old(req.prev)
      decreases |data| - v.control.nextOffset
    {
      var msg, len := Turn(req, v, r, data, calls);
      if req.nextIov != 0 || req.nextOffset != 0 {
        calls := calls + [msg[..len]];
        v := v.(control := ControlOf(req));
        continue;
      }
      next, calls := Conclude(req, msg, r, data, calls);
      return;
    }
  }
}
