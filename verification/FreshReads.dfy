/**
 Fresh reads of any content: the passes of `handle_read` over one chunk, what
 each does with its message, and what `on_readed` is told.
 */
module FreshReads {
  import opened Bytes
  import opened Chunks
  import opened Frames
  import opened ReadSpec

  // ---- The passes as arithmetic ----

  /** `malloc(msg_size + 1)` has succeeded, so adding the 9 bytes around a message does not wrap. */
  predicate Allocatable(header: nat) {
    header + HEADER + 1 < SIZE_T_RANGE
  }

  /**
   The control fields after one call on a fresh read of `len` bytes, for any
   cursor and any length field: behind a cursor with fewer than 8 bytes left,
   `iov_len - o_iov` wraps around.
   */
  function Pass(c: Control, len: nat, header: nat): Control {
    var copied := Piece(len, c.SourceOffset(), header);
    var next := c.nextOffset + copied + HEADER + 1;
    var splits := c.Splits([len], header);
    Control(c.pending || splits,
            if splits then header else c.size,
            if splits then header - copied else c.remain,
            0,
            if next < len then next else 0)
  }

  /** That is what `read_chunk` does wherever its copy can start. */
  lemma PassIsReadStep(c: Control, len: nat, header: nat)
    requires c == IDLE.(nextOffset := c.nextOffset) && len < SIZE_T_RANGE
    requires CanStart([len], 0, c.SourceOffset(), header)
    ensures ReadStep(c, [len], header) == Pass(c, len, header)
    ensures CopiedBy(c, [len], header) == Piece(len, c.SourceOffset(), header)
  {
    assert Avail([len], 0, 1) == len;
  }

  lemma PassSettled(c: Control, len: nat, header: nat)
    requires Settled(c) && !c.pending && c.nextOffset <= len <= CHUNK_SZ && Allocatable(header)
    ensures Settled(Pass(c, len, header))
    ensures Pass(c, len, header).HasNext() ==> !Pass(c, len, header).pending
    ensures Pass(c, len, header).HasNext() ==> c.nextOffset + HEADER < Pass(c, len, header).nextOffset < len
  {
    if c.SourceOffset() > len {
      assert SizeSub(len, c.SourceOffset()) == SIZE_T_RANGE - (c.SourceOffset() - len);
    }
  }

  /**
   A call whose length field is cut by the end of the read remembers nothing of
   the frame: the cursor is dropped, and a message it takes for a long one
   counts as complete at once.
   */
  lemma CutFieldForgotten(c: Control, len: nat, header: nat)
    requires Settled(c) && !c.pending && c.nextOffset < len < c.SourceOffset() && len <= CHUNK_SZ && Allocatable(header)
    ensures !Pass(c, len, header).HasNext() && !Pass(c, len, header).Continues()
  {
    assert SizeSub(len, c.SourceOffset()) == SIZE_T_RANGE - (c.SourceOffset() - len);
  }

  /** The loop of `handle_read` over one chunk, when its calls find these length fields. */
  predicate Passes(c: Control, len: nat, fields: seq<nat>)
    decreases |fields|
  {
    fields == [] ||
    (Allocatable(fields[0]) && (|fields| > 1 ==> Pass(c, len, fields[0]).HasNext()) && Passes(Pass(c, len, fields[0]), len, fields[1..]))
  }

  function AfterPasses(c: Control, len: nat, fields: seq<nat>): Control
    decreases |fields|
  {
    if fields == [] then c else AfterPasses(Pass(c, len, fields[0]), len, fields[1..])
  }

  /**
   Whatever lengths the loop finds, from the peer or behind the end of the
   read, the fields stay settled and the cursor grows by more than 8 with every
   call that continues the loop, so that it ends.
   */
  lemma {:induction false} SettledOverLoop(c: Control, len: nat, fields: seq<nat>)
    requires Settled(c) && !c.pending && c.nextOffset <= len <= CHUNK_SZ && Passes(c, len, fields)
    ensures Settled(AfterPasses(c, len, fields))
    ensures AfterPasses(c, len, fields).HasNext() && fields != [] ==>
      c.nextOffset + (HEADER + 1) * |fields| <= AfterPasses(c, len, fields).nextOffset < len
    ensures fields != [] ==> c.nextOffset + (HEADER + 1) * (|fields| - 1) <= len
    decreases |fields|
  {
    if fields != [] {
      PassSettled(c, len, fields[0]);
      if |fields| > 1 {
        SettledOverLoop(Pass(c, len, fields[0]), len, fields[1..]);
      }
    }
  }

  // ---- The passes over bytes ----

  /** Where the message at the cursor ends. */
  function FrameEnd(data: seq<byte>, o: nat): nat
    requires o + HEADER <= |data|
  {
    o + HEADER + Header(data[o..])
  }

  /** Every length field the loop reaches from `o` has been received whole. */
  predicate FieldsWhole(data: seq<byte>, o: nat)
    decreases |data| - o
  {
    o + HEADER <= |data| && (FrameEnd(data, o) + 1 < |data| ==> FieldsWhole(data, FrameEnd(data, o) + 1))
  }

  /** The payloads of all messages from `o` on but the last. */
  function Front(data: seq<byte>, o: nat): seq<seq<byte>>
    requires FieldsWhole(data, o)
    decreases |data| - o
  {
    var end := FrameEnd(data, o);
    if end + 1 < |data| then [data[o + HEADER..end]] + Front(data, end + 1) else []
  }

  /** Where the last message starts. */
  function LastStart(data: seq<byte>, o: nat): (last: nat)
    requires FieldsWhole(data, o)
    ensures o <= last && FieldsWhole(data, last) && FrameEnd(data, last) + 1 >= |data|
    decreases |data| - o
  {
    if FrameEnd(data, o) + 1 < |data| then LastStart(data, FrameEnd(data, o) + 1) else o
  }

  /** The part of the message at `o` that has arrived. */
  function Arrived(data: seq<byte>, o: nat): seq<byte>
    requires o + HEADER <= |data|
  {
    data[o + HEADER..Min(FrameEnd(data, o), |data|)]
  }

  /**
   What `strlen` makes of a last message of `size` bytes of which `got` have
   arrived: behind them its buffer holds whatever `malloc` returned.
   */
  predicate LastCall(got: seq<byte>, size: nat, call: seq<byte>) {
    if |got| >= size || 0 in got then call == CutAtZero(got)
    else got <= call && |call| <= size && 0 !in call
  }

  lemma {:induction false} CutAtZeroPrefix(p: seq<byte>, k: nat)
    requires k <= |p|
    ensures |CutAtZero(p)| <= |p| && 0 !in CutAtZero(p) && CutAtZero(p) <= p
    ensures if 0 in p[..k] then CutAtZero(p) == CutAtZero(p[..k]) else p[..k] <= CutAtZero(p)
  {
    if p != [] && p[0] != 0 {
      if k > 0 {
        assert p[..k] == [p[0]] + p[1..][..k - 1];
      }
      CutAtZeroPrefix(p[1..], if k > 0 then k - 1 else 0);
    }
  }

  /** `strlen` of a buffer of `size` bytes and a terminator, of which the first have been written. */
  lemma BufferCall(msg: seq<byte>, got: seq<byte>)
    requires |got| < |msg| && msg[..|got|] == got && msg[|msg| - 1] == 0
    ensures 0 in msg && LastCall(got, |msg| - 1, CutAtZero(msg))
  {
    var size := |msg| - 1;
    CutAtZeroPrefix(msg, |got|);
    CutAtZeroPrefix(msg, |msg|);
    assert msg == msg[..size] + [0];
    CutAtTerminator(msg[..size]);
    CutAtZeroPrefix(msg[..size], size);
    if |got| == size {
      assert msg[..size] == got;
    }
  }

  /** The calls for a fresh read whose length fields are whole. */
  predicate Answered(data: seq<byte>, calls: seq<seq<byte>>)
    requires FieldsWhole(data, 0)
  {
    var last := LastStart(data, 0);
    && calls != [] && calls[..|calls| - 1] == Front(data, 0)
    && LastCall(Arrived(data, last), Header(data[last..]), calls[|calls| - 1])
  }

  lemma {:induction false} FieldsOfParsed(data: seq<byte>, o: nat)
    requires o <= |data| && Parse(data[o..]).Some?
    ensures FieldsWhole(data, o) && FrameEnd(data, LastStart(data, o)) <= |data|
    decreases |data| - o
  {
    DeliverStep(data, o);
    if FrameEnd(data, o) + 1 < |data| {
      FieldsOfParsed(data, FrameEnd(data, o) + 1);
    }
  }

  /** The last call for whole frames. */
  function LastPayload(data: seq<byte>, o: nat): seq<byte>
    requires FieldsWhole(data, o)
  {
    CutAtZero(Arrived(data, LastStart(data, o)))
  }

  lemma {:induction false} FrontOfParsed(data: seq<byte>, o: nat)
    requires o <= |data| && Parse(data[o..]).Some? && FieldsWhole(data, o)
    ensures Deliver(data[o..]) == Front(data, o) + [LastPayload(data, o)]
    decreases |data| - o
  {
    DeliverStep(data, o);
    var next := FrameEnd(data, o) + 1;
    if next < |data| {
      FrontOfParsed(data, next);
      FrontStep(data, o);
      Associates([Arrived(data, o)], Front(data, next), [LastPayload(data, next)]);
    }
  }

  lemma FrontStep(data: seq<byte>, o: nat)
    requires FieldsWhole(data, o) && FrameEnd(data, o) + 1 < |data|
    ensures var next := FrameEnd(data, o) + 1;
      && FieldsWhole(data, next) && Front(data, o) == [Arrived(data, o)] + Front(data, next)
      && LastPayload(data, o) == LastPayload(data, next)
  {
  }

  /** If the read parses, these are the calls of the reference parser. */
  lemma AnsweredParsed(data: seq<byte>, calls: seq<seq<byte>>)
    requires Parse(data).Some?
    ensures FieldsWhole(data, 0) && (Answered(data, calls) <==> calls == Deliver(data))
  {
    assert data[0..] == data;
    FieldsOfParsed(data, 0);
    FrontOfParsed(data, 0);
    if Answered(data, calls) {
      assert calls == calls[..|calls| - 1] + [calls[|calls| - 1]];
    }
  }

  // ---- Which reads are handled ----

  /** Every call from cursor `o` copies its message whole, or remembers it. */
  predicate KeepsAll(data: seq<byte>, o: nat)
    requires FieldsWhole(data, o)
    decreases |data| - o
  {
    var c, header := IDLE.(nextOffset := o), Header(data[o..]);
    var c' := ReadStep(c, [|data|], header);
    && (CopiedBy(c, [|data|], header) == header || c'.Continues())
    && (FrameEnd(data, o) + 1 < |data| ==> KeepsAll(data, FrameEnd(data, o) + 1))
  }

  lemma {:induction false} KeepsAllParses(data: seq<byte>, o: nat)
    requires FieldsWhole(data, o) && (o == 0 ==> Header(data) <= |data|)
    ensures KeepsAll(data, o) <==> Parse(data[o..]).Some?
    decreases |data| - o
  {
    var c, header := IDLE.(nextOffset := o), Header(data[o..]);
    assert o == 0 ==> data[o..] == data;
    CutDetected(c, |data|, header);
    StepOnOneIovec(c, |data|, header);
    if FrameEnd(data, o) + 1 < |data| {
      assert data[o..][HEADER + header + 1..] == data[FrameEnd(data, o) + 1..];
      KeepsAllParses(data, FrameEnd(data, o) + 1);
    }
  }

  /**
   A fresh read with whole length fields is one the reference step covers iff
   no call cuts a message short and forgets it.
   */
  lemma ProperExact(data: seq<byte>)
    requires |data| <= CHUNK_SZ && FieldsWhole(data, 0)
    ensures Proper(Fresh, data) <==> KeepsAll(data, 0)
  {
    assert data[0..] == data;
    if Header(data) > |data| {
      StepOnOneIovec(IDLE, |data|, Header(data));
    } else {
      KeepsAllParses(data, 0);
    }
  }

  /** Reads whose passes stay inside the chunk: anything but a length field that is cut. */
  predicate Received(r: Reader, data: seq<byte>)
    requires r.Partial? ==> |r.got| < r.size
  {
    0 < |data| <= r.Capacity() && (r.Fresh? ==> data == [0] || FieldsWhole(data, 0))
  }

  lemma ProperReceived(r: Reader, data: seq<byte>)
    requires r.Partial? ==> |r.got| < r.size
    requires Proper(r, data)
    ensures Received(r, data)
  {
    if r.Fresh? && data != [0] && Header(data) <= |data| {
      AnsweredParsed(data, Deliver(data));
    }
  }

  /** The state after a read: a message cut short is forgotten. */
  function Next(r: Reader, data: seq<byte>): (next: Reader)
    requires r.Partial? ==> |r.got| < r.size
    ensures next.Valid()
  {
    if Proper(r, data) then Step(r, data).0 else Fresh
  }

  /** The `on_readed` calls of a read. */
  predicate Outcome(r: Reader, data: seq<byte>, calls: seq<seq<byte>>)
    requires r.Partial? ==> |r.got| < r.size
    requires Received(r, data)
  {
    if Proper(r, data) then calls == Step(r, data).1 else r.Fresh? && data != [0] && Answered(data, calls)
  }

  // ---- One call ----

  lemma LengthAt(v: View, data: seq<byte>, o: nat)
    requires SeesFresh(v, data, o) && o + HEADER <= |data|
    ensures v.WellFormed() && v.Length() == Header(data[o..])
  {
    FreshBuffer(v, data, o);
    assert data[o..][..HEADER] == data[o..o + HEADER];
  }

  lemma FrameControl(v: View, data: seq<byte>, o: nat)
    requires SeesFresh(v, data, o) && FieldsWhole(data, o) && (o == 0 ==> Header(data) <= |data|)
    ensures v.Readable() && !v.Splits() && v.Length() == Header(data[o..])
    ensures |v.Gathered()| == |Arrived(data, o)|
    ensures v.After() == if FrameEnd(data, o) + 1 < |data| then IDLE.(nextOffset := FrameEnd(data, o) + 1) else IDLE
  {
    assert o == 0 ==> data[o..] == data;
    LengthAt(v, data, o);
    StepOnOneIovec(v.control, |data|, Header(data[o..]));
  }

  lemma TakenOfOne(bufs: seq<seq<byte>>, lens: seq<nat>, data: seq<byte>, offset: nat, want: nat)
    requires |lens| == |bufs| == 1 && lens[0] <= |bufs[0]| && CanStart(lens, 0, offset, want)
    requires Flat(bufs, lens, 0, 1) == data
    ensures var n := Copied(lens, 0, 1, offset, want);
      n > 0 ==> offset + n <= |data| && Taken(bufs, lens, 0, 1, offset, want) == data[offset..offset + n]
  {
  }

  lemma FrameBytes(v: View, data: seq<byte>, o: nat)
    requires SeesFresh(v, data, o) && o + HEADER <= |data| && v.Readable() && v.Length() == Header(data[o..])
    requires |v.Gathered()| == |Arrived(data, o)|
    ensures v.Gathered() == Arrived(data, o)
  {
    FreshBuffer(v, data, o);
    TakenOfOne(v.bufs, v.lens, data, o + HEADER, v.Length());
  }

  /** A message at the cursor: what has arrived of it is copied, and the cursor moves behind its terminator. */
  lemma FrameCall(v: View, data: seq<byte>, o: nat)
    requires SeesFresh(v, data, o) && FieldsWhole(data, o) && (o == 0 ==> Header(data) <= |data|)
    ensures v.Readable() && !v.Splits() && v.Length() == Header(data[o..])
    ensures v.Gathered() == Arrived(data, o)
    ensures v.After() == if FrameEnd(data, o) + 1 < |data| then IDLE.(nextOffset := FrameEnd(data, o) + 1) else IDLE
  {
    FrameControl(v, data, o);
    FrameBytes(v, data, o);
  }
}
