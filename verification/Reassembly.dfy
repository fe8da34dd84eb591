/**
 What a connection delivers over whole runs of completed reads: batches of
 frames, frames rebuilt from many reads, and streams of both.
 */
module Reassembly {
  import opened Bytes
  import opened Chunks
  import opened Frames
  import opened ReadSpec
  import opened FreshReads

  predicate ProperRun(r: Reader, arrivals: seq<seq<byte>>)
    requires r.Partial? ==> |r.got| < r.size
    decreases |arrivals|
  {
    arrivals == [] || (Proper(r, arrivals[0]) && ProperRun(Step(r, arrivals[0]).0, arrivals[1..]))
  }

  /** The state of the connection after a sequence of completed reads. */
  function After(r: Reader, arrivals: seq<seq<byte>>): (last: Reader)
    requires r.Partial? ==> |r.got| < r.size
    requires ProperRun(r, arrivals)
    ensures last.Valid()
    decreases |arrivals|
  {
    if arrivals == [] then r else After(Step(r, arrivals[0]).0, arrivals[1..])
  }

  /** All `on_readed` calls of those reads, in order. */
  function Calls(r: Reader, arrivals: seq<seq<byte>>): seq<seq<byte>>
    requires r.Partial? ==> |r.got| < r.size
    requires ProperRun(r, arrivals)
    decreases |arrivals|
  {
    if arrivals == [] then [] else Step(r, arrivals[0]).1 + Calls(Step(r, arrivals[0]).0, arrivals[1..])
  }

  function Run(r: Reader, arrivals: seq<seq<byte>>): (Reader, seq<seq<byte>>)
    requires r.Partial? ==> |r.got| < r.size
    requires ProperRun(r, arrivals)
  {
    (After(r, arrivals), Calls(r, arrivals))
  }

  lemma RunOne(r: Reader, data: seq<byte>)
    requires r.Valid() && Proper(r, data)
    ensures ProperRun(r, [data]) && Run(r, [data]) == Step(r, data)
  {
    var (r', calls) := Step(r, data);
    assert [data][1..] == [];
    assert ProperRun(r', []) && After(r', []) == r' && Calls(r', []) == [];
    assert calls + [] == calls;
  }

  lemma RunStep(r: Reader, arrivals: seq<seq<byte>>, r': Reader, calls: seq<seq<byte>>)
    requires r.Valid() && arrivals != [] && Proper(r, arrivals[0]) && Step(r, arrivals[0]) == (r', calls)
    requires ProperRun(r', arrivals[1..])
    ensures ProperRun(r, arrivals) && Run(r, arrivals) == (Run(r', arrivals[1..]).0, calls + Run(r', arrivals[1..]).1)
    ensures calls == [] ==> Run(r, arrivals) == Run(r', arrivals[1..])
  {
    assert [] + Calls(r', arrivals[1..]) == Calls(r', arrivals[1..]);
  }

  lemma {:induction false} RunAppend(r: Reader, a: seq<seq<byte>>, b: seq<seq<byte>>)
    requires r.Valid() && ProperRun(r, a) && ProperRun(After(r, a), b)
    ensures ProperRun(r, a + b)
    ensures After(r, a + b) == After(After(r, a), b)
    ensures Calls(r, a + b) == Calls(r, a) + Calls(After(r, a), b)
    decreases |a|
  {
    if a == [] {
      assert a + b == b;
    } else {
      var (r', calls) := Step(r, a[0]);
      RunAppend(r', a[1..], b);
      assert (a + b)[1..] == a[1..] + b && (a + b)[0] == a[0];
      Associates(calls, Calls(r', a[1..]), Calls(After(r', a[1..]), b));
    }
  }

  /** A run and one more read. */
  lemma RunSnoc(r: Reader, arrivals: seq<seq<byte>>, data: seq<byte>)
    requires r.Valid() && ProperRun(r, arrivals) && Proper(After(r, arrivals), data)
    ensures ProperRun(r, arrivals + [data])
    ensures Run(r, arrivals + [data]) == (Step(After(r, arrivals), data).0, Calls(r, arrivals) + Step(After(r, arrivals), data).1)
  {
    RunOne(After(r, arrivals), data);
    RunAppend(r, arrivals, [data]);
  }

  lemma {:induction false} ProperRunSnoc(r: Reader, arrivals: seq<seq<byte>>, data: seq<byte>)
    requires r.Valid()
    ensures ProperRun(r, arrivals + [data]) <==> ProperRun(r, arrivals) && Proper(After(r, arrivals), data)
    decreases |arrivals|
  {
    if arrivals == [] {
      assert [] + [data] == [data] && [data][1..] == [];
    } else {
      assert (arrivals + [data])[1..] == arrivals[1..] + [data] && (arrivals + [data])[0] == arrivals[0];
      if Proper(r, arrivals[0]) {
        ProperRunSnoc(Step(r, arrivals[0]).0, arrivals[1..], data);
      }
    }
  }

  // ---- One read of whole frames ----

  /** One read of whole frames: one call per frame, in order; only the last is cut at a zero byte. */
  lemma BatchDelivered(fs: seq<Frame>, cut: nat)
    requires fs != [] && cut <= 1
    requires forall f :: f in fs ==> Sendable(f)
    requires |Wire(fs)| - cut <= CHUNK_SZ
    ensures |Wire(fs)| > cut
    ensures var data := Wire(fs)[..|Wire(fs)| - cut];
      Proper(Fresh, data) && Step(Fresh, data) == (Fresh, LastCut(Payloads(fs)))
  {
    ParseWire(fs, cut);
  }

  /** The calls of a batch are its payloads exactly when the last payload holds no zero byte. */
  lemma BatchExact(fs: seq<Frame>)
    requires fs != []
    ensures LastCut(Payloads(fs)) == Payloads(fs) <==> 0 !in fs[|fs| - 1].payload
  {
    var ps := Payloads(fs);
    var last := ps[|ps| - 1];
    CutAtZeroExact(last);
    assert LastCut(ps)[|ps| - 1] == CutAtZero(last);
    assert ps == ps[..|ps| - 1] + [last];
  }

  lemma {:induction false} ParseWithTail(fs: seq<Frame>, tail: seq<byte>)
    requires tail != [] && forall f :: f in fs ==> Sendable(f)
    ensures Parse(Wire(fs) + tail).Some? <==> Parse(tail).Some?
  {
    if fs == [] {
      assert Wire(fs) + tail == tail;
    } else {
      ParseWithTail(fs[1..], tail);
      var rest := Wire(fs[1..]) + tail;
      assert Wire(fs) + tail == Encode(fs[0]) + rest;
      EncodeHeader(fs[0], rest);
    }
  }

  lemma CutFrameHeader(f: Frame, cut: nat)
    requires Sendable(f) && HEADER <= cut <= |Encode(f)|
    ensures Header(Encode(f)[..cut]) == |f.payload|
  {
    EncodeHeader(f, []);
    assert Encode(f) + [] == Encode(f);
    assert Encode(f)[..cut][..HEADER] == Encode(f)[..HEADER];
  }

  lemma CutPayload(f: Frame, cut: nat, m: nat)
    requires m <= |f.payload| && HEADER + m <= cut <= |Encode(f)|
    ensures Encode(f)[..cut][HEADER..HEADER + m] == f.payload[..m]
  {
    var w := Encode(f);
    forall i | 0 <= i < m
      ensures w[HEADER + i] == f.payload[i]
    {
    }
    assert w[..cut][HEADER..HEADER + m] == w[HEADER..HEADER + m];
  }

  lemma FrameInFront(data: seq<byte>, o: nat, f: Frame, rest: seq<byte>)
    requires o <= |data| && data[o..] == Encode(f) + rest && rest != [] && Sendable(f)
    ensures o + HEADER <= |data| && FrameEnd(data, o) + 1 == o + |Encode(f)| < |data|
    ensures data[o + |Encode(f)|..] == rest && data[o + HEADER..FrameEnd(data, o)] == f.payload
  {
    EncodeHeader(f, rest);
    assert data[o..][HEADER..HEADER + |f.payload|] == data[o + HEADER..o + HEADER + |f.payload|];
    assert data[o..][|Encode(f)|..] == data[o + |Encode(f)|..];
  }

  /** The passes over whole frames lead to what follows them. */
  lemma {:induction false} FrontOfWire(data: seq<byte>, o: nat, fs: seq<Frame>, tail: seq<byte>)
    requires tail != [] && o <= |data| && data[o..] == Wire(fs) + tail
    requires forall f :: f in fs ==> Sendable(f)
    ensures FieldsWhole(data, o) <==> FieldsWhole(data, o + |Wire(fs)|)
    ensures FieldsWhole(data, o) ==>
      && Front(data, o) == Payloads(fs) + Front(data, o + |Wire(fs)|)
      && LastStart(data, o) == LastStart(data, o + |Wire(fs)|)
    decreases |fs|
  {
    if fs == [] {
      assert Payloads(fs) == [];
    } else {
      var f, rest := fs[0], Wire(fs[1..]) + tail;
      Associates(Encode(f), Wire(fs[1..]), tail);
      FrameInFront(data, o, f, rest);
      FrontOfWire(data, o + |Encode(f)|, fs[1..], tail);
      if FieldsWhole(data, o) {
        assert Payloads(fs) == [f.payload] + Payloads(fs[1..]);
        Associates([f.payload], Payloads(fs[1..]), Front(data, o + |Wire(fs)|));
      }
    }
  }

  /**
   Frames followed by the first `cut` bytes of another in one read: no message
   is cut short iff the cut is outside the frame's field and payload. A payload
   that is cut is copied as far as it goes and forgotten; a field that is cut
   is read all the same.
   */
  lemma CutTailExact(fs: seq<Frame>, f: Frame, cut: nat)
    requires fs != [] && Sendable(f) && forall g :: g in fs ==> Sendable(g)
    requires cut <= |Encode(f)| && |Wire(fs) + Encode(f)[..cut]| <= CHUNK_SZ
    ensures var data := Wire(fs) + Encode(f)[..cut];
      && (FieldsWhole(data, 0) && KeepsAll(data, 0) <==> cut == 0 || cut >= HEADER + |f.payload|)
      && (FieldsWhole(data, 0) <==> cut == 0 || cut >= HEADER)
      && (HEADER <= cut < HEADER + |f.payload| ==>
           && Front(data, 0) == Payloads(fs) && Arrived(data, LastStart(data, 0)) == f.payload[..cut - HEADER]
           && Next(Fresh, data) == Fresh)
  {
    var data, tail := Wire(fs) + Encode(f)[..cut], Encode(f)[..cut];
    assert data[0..] == data;
    FirstOfWire(fs, tail);
    if cut == 0 {
      ParseWire(fs, 0);
      assert data == Wire(fs)[..|Wire(fs)| - 0];
      AnsweredParsed(data, []);
    } else {
      CutTailFields(fs, f, cut);
      if cut >= HEADER {
        CutTailParses(fs, f, cut);
      }
    }
    if FieldsWhole(data, 0) {
      KeepsAllParses(data, 0);
    }
  }

  lemma CutTailParses(fs: seq<Frame>, f: Frame, cut: nat)
    requires fs != [] && Sendable(f) && forall g :: g in fs ==> Sendable(g)
    requires HEADER <= cut <= |Encode(f)|
    ensures Parse(Wire(fs) + Encode(f)[..cut]).Some? <==> cut >= HEADER + |f.payload|
  {
    ParseWithTail(fs, Encode(f)[..cut]);
    CutFrameHeader(f, cut);
  }

  lemma CutTailFields(fs: seq<Frame>, f: Frame, cut: nat)
    requires fs != [] && Sendable(f) && forall g :: g in fs ==> Sendable(g)
    requires 0 < cut <= |Encode(f)|
    ensures var data := Wire(fs) + Encode(f)[..cut];
      && (FieldsWhole(data, 0) <==> cut >= HEADER)
      && (HEADER <= cut < HEADER + |f.payload| ==>
           Front(data, 0) == Payloads(fs) && Arrived(data, LastStart(data, 0)) == f.payload[..cut - HEADER])
  {
    var data, tail := Wire(fs) + Encode(f)[..cut], Encode(f)[..cut];
    assert data[0..] == data && data[|Wire(fs)|..] == tail;
    FrontOfWire(data, 0, fs, tail);
    if cut >= HEADER {
      CutLast(data, |Wire(fs)|, f, cut);
      assert Payloads(fs) + [] == Payloads(fs);
    }
  }

  lemma CutLast(data: seq<byte>, o: nat, f: Frame, cut: nat)
    requires Sendable(f) && HEADER <= cut <= |Encode(f)| && o <= |data| && data[o..] == Encode(f)[..cut]
    ensures FieldsWhole(data, o) && Front(data, o) == [] && LastStart(data, o) == o
    ensures cut < HEADER + |f.payload| ==> Arrived(data, o) == f.payload[..cut - HEADER]
  {
    CutFrameHeader(f, cut);
    if cut < HEADER + |f.payload| {
      CutPayload(f, cut, cut - HEADER);
      assert data[o..][HEADER..] == data[o + HEADER..];
    }
  }

  lemma FirstOfWire(fs: seq<Frame>, tail: seq<byte>)
    requires fs != [] && Sendable(fs[0])
    ensures |Wire(fs) + tail| >= HEADER + |fs[0].payload| + 1 && Header(Wire(fs) + tail) == |fs[0].payload|
  {
    Associates(Encode(fs[0]), Wire(fs[1..]), tail);
    EncodeHeader(fs[0], Wire(fs[1..]) + tail);
  }

  /**
   The first `cut` bytes of a frame in a fresh read: the payload is copied whole
   or remembered iff it is all there, or longer than the read. Otherwise it is
   cut short and forgotten.
   */
  lemma FirstCutExact(v: View, f: Frame, cut: nat)
    requires Sendable(f) && HEADER <= cut <= |Encode(f)| && cut <= CHUNK_SZ
    requires SeesFresh(v, Encode(f)[..cut], 0)
    ensures v.Readable() && v.Length() == |f.payload|
    ensures v.Gathered() == f.payload[..Min(|f.payload|, cut - HEADER)]
    ensures var handled := cut >= HEADER + |f.payload| || cut < |f.payload|;
      && (v.Gathered() == f.payload || v.After().Continues() <==> handled)
      && (!handled ==> !v.Splits() && v.After() == IDLE)
      && (Proper(Fresh, Encode(f)[..cut]) <==> handled)
  {
    var data := Encode(f)[..cut];
    CutFrameHeader(f, cut);
    CutPayload(f, cut, Min(|f.payload|, cut - HEADER));
    if |f.payload| <= cut {
      CutFirstWhole(f, cut);
      FrameCall(v, data, 0);
    } else {
      SplitCall(v, data);
    }
  }

  lemma CutFirstWhole(f: Frame, cut: nat)
    requires Sendable(f) && HEADER <= cut <= |Encode(f)| && |f.payload| <= cut
    ensures var data := Encode(f)[..cut];
      FieldsWhole(data, 0) && Arrived(data, 0) == f.payload[..Min(|f.payload|, cut - HEADER)] && FrameEnd(data, 0) == HEADER + |f.payload|
  {
    var data := Encode(f)[..cut];
    CutFrameHeader(f, cut);
    assert data[0..] == data;
    CutPayload(f, cut, Min(|f.payload|, cut - HEADER));
  }

  // ---- A frame rebuilt from continuations ----

  /** Continuations that complete `remain` missing bytes, each reaching into its last iovec. */
  predicate FillingReads(remain: nat, arrivals: seq<seq<byte>>) {
    if arrivals == [] then remain == 0
    else 0 < |arrivals[0]| <= remain && FillsAllButLast(remain, |arrivals[0]|) && FillingReads(remain - |arrivals[0]|, arrivals[1..])
  }

  /** What a continuation is accounted for is what it received iff it reached into the last iovec. */
  lemma ContinuationExact(got: seq<byte>, size: nat, data: seq<byte>)
    requires |got| < size && 0 < |data| <= size - |got|
    ensures var all := got + Stretch(data, Accounted(size - |got|, |data|));
      && |all| >= |got| + |data| > |got|
      && Step(Partial(got, size), data) == (if |all| == size then (Fresh, [all]) else (Partial(all, size), []))
      && (all == got + data <==> FillsAllButLast(size - |got|, |data|))
  {
    AccountedBounds(size - |got|, |data|);
    AdjustedLensExact(size - |got|, |data|);
    var s := Stretch(data, Accounted(size - |got|, |data|));
    if FillsAllButLast(size - |got|, |data|) {
      assert s == data;
    }
  }

  /**
   Half a message is delivered as a whole one, its second half zeros, when the
   first of two chunks is all that arrives.
   */
  lemma ShortContinuation(got: seq<byte>, data: seq<byte>)
    requires |data| == CHUNK_SZ
    ensures Step(Partial(got, |got| + 2 * CHUNK_SZ), data) == (Fresh, [got + Stretch(data, 2 * CHUNK_SZ)])
  {
    ContinuationExact(got, |got| + 2 * CHUNK_SZ, data);
  }

  lemma {:induction false} ContinuationsDelivered(got: seq<byte>, size: nat, arrivals: seq<seq<byte>>)
    requires |got| < size && FillingReads(size - |got|, arrivals)
    ensures arrivals != [] && ProperRun(Partial(got, size), arrivals)
    ensures Run(Partial(got, size), arrivals) == (Fresh, [got + Concat(arrivals)])
    ensures |got + Concat(arrivals)| == size
    decreases |arrivals|
  {
    var data := arrivals[0];
    ContinuationExact(got, size, data);
    if |got| + |data| < size {
      ContinuationsDelivered(got + data, size, arrivals[1..]);
      assert (got + data) + Concat(arrivals[1..]) == got + Concat(arrivals);
      assert [] + [got + Concat(arrivals)] == [got + Concat(arrivals)];
    } else {
      assert arrivals == [data];
      assert Concat(arrivals) == data + [] == data;
      RunOne(Partial(got, size), data);
    }
  }

  /** Part-way through, the pending message is exactly what has arrived. */
  lemma {:induction false} ContinuationsPending(got: seq<byte>, size: nat, arrivals: seq<seq<byte>>, k: nat)
    requires |got| < size && FillingReads(size - |got|, arrivals) && k < |arrivals|
    ensures ProperRun(Partial(got, size), arrivals[..k])
    ensures Run(Partial(got, size), arrivals[..k]) == (Partial(got + Concat(arrivals[..k]), size), [])
    decreases k
  {
    if k == 0 {
      assert got + Concat(arrivals[..0]) == got;
    } else {
      var data := arrivals[0];
      ContinuationExact(got, size, data);
      assert |got| + |data| < size;
      ContinuationsPending(got + data, size, arrivals[1..], k - 1);
      assert arrivals[..k][1..] == arrivals[1..][..k - 1] && arrivals[..k][0] == data;
      assert (got + data) + Concat(arrivals[1..][..k - 1]) == got + Concat(arrivals[..k]);
      RunStep(Partial(got, size), arrivals[..k], Partial(got + data, size), []);
    }
  }

  /**
   The reads of one frame that is longer than its first read: everything but
   the terminator, cut anywhere the state machine can follow.
   */
  predicate SpansReads(f: Frame, arrivals: seq<seq<byte>>) {
    && Sendable(f) && arrivals != []
    && HEADER <= |arrivals[0]| <= CHUNK_SZ && |arrivals[0]| < |f.payload|
    && Concat(arrivals) == ToBytes(|f.payload|, HEADER) + f.payload
    && FillingReads(HEADER + |f.payload| - |arrivals[0]|, arrivals[1..])
  }

  lemma SpanStart(f: Frame, arrivals: seq<seq<byte>>)
    requires SpansReads(f, arrivals)
    ensures Proper(Fresh, arrivals[0])
    ensures var got := arrivals[0][HEADER..]; Step(Fresh, arrivals[0]) == (Partial(got, |f.payload|), [])
    ensures f.payload == arrivals[0][HEADER..] + Concat(arrivals[1..])
  {
    var first := arrivals[0];
    var all := ToBytes(|f.payload|, HEADER) + f.payload;
    assert Concat(arrivals) == first + Concat(arrivals[1..]);
    assert first == all[..|first|] && Concat(arrivals[1..]) == all[|first|..];
    assert first[..HEADER] == ToBytes(|f.payload|, HEADER);
    HeaderRoundTrip(|f.payload|);
    assert f.payload == all[HEADER..];
  }

  /** A frame longer than its first read is delivered once, whole, and only at the end. */
  lemma Reassembled(f: Frame, arrivals: seq<seq<byte>>)
    requires SpansReads(f, arrivals)
    ensures ProperRun(Fresh, arrivals) && Run(Fresh, arrivals) == (Fresh, [f.payload])
  {
    SpanStart(f, arrivals);
    ContinuationsDelivered(arrivals[0][HEADER..], |f.payload|, arrivals[1..]);
    assert [] + [f.payload] == [f.payload];
  }

  /** Until then nothing is delivered, and the pending message is the part of the payload received so far. */
  lemma ReassemblyPrefix(f: Frame, arrivals: seq<seq<byte>>, k: nat)
    requires SpansReads(f, arrivals) && 0 < k < |arrivals|
    ensures ProperRun(Fresh, arrivals[..k])
    ensures var received := |Concat(arrivals[..k])| - HEADER;
      && 0 <= received < |f.payload|
      && Run(Fresh, arrivals[..k]) == (Partial(f.payload[..received], |f.payload|), [])
  {
    SpanStart(f, arrivals);
    var got := arrivals[0][HEADER..];
    ContinuationsPending(got, |f.payload|, arrivals[1..], k - 1);
    assert arrivals[..k][1..] == arrivals[1..][..k - 1] && arrivals[..k][0] == arrivals[0];
    RunStep(Fresh, arrivals[..k], Partial(got, |f.payload|), []);
    var part := Concat(arrivals[1..][..k - 1]);
    ConcatSplit(arrivals[1..], k - 1);
    assert Concat(arrivals[..k]) == arrivals[0] + part;
    assert f.payload[..|got + part|] == got + part;
  }

  lemma {:induction false} ConcatSplit(ss: seq<seq<byte>>, k: nat)
    requires k <= |ss|
    ensures Concat(ss) == Concat(ss[..k]) + Concat(ss[k..])
  {
    if k > 0 {
      ConcatSplit(ss[1..], k - 1);
      assert ss[..k][1..] == ss[1..][..k - 1];
      assert ss[k..] == ss[1..][k - 1..];
    }
  }

  // ---- Streams ----

  /**
   A stretch of the stream and the reads it arrives in: whole frames in one
   read, or one long frame over many reads, whose terminator then arrives alone.
   */
  datatype Segment = Batch(frames: seq<Frame>) | Spanned(frame: Frame, pieces: seq<seq<byte>>) {
    predicate Valid() {
      match this
      case Batch(fs) => fs != [] && |Wire(fs)| <= CHUNK_SZ && forall f :: f in fs ==> Sendable(f)
      case Spanned(f, pieces) => SpansReads(f, pieces) && f.terminator == 0
    }

    function Reads(): seq<seq<byte>> {
      match this
      case Batch(fs) => [Wire(fs)]
      case Spanned(_, pieces) => pieces + [[0]]
    }

    function Frames(): seq<Frame> {
      match this
      case Batch(fs) => fs
      case Spanned(f, _) => [f]
    }

    /** The terminator of a spanned frame causes one call with an empty message. */
    function Calls(): seq<seq<byte>> {
      match this
      case Batch(fs) => LastCut(Payloads(fs))
      case Spanned(f, _) => [f.payload, []]
    }
  }

  function AllReads(segs: seq<Segment>): seq<seq<byte>> {
    if segs == [] then [] else segs[0].Reads() + AllReads(segs[1..])
  }

  function AllFrames(segs: seq<Segment>): seq<Frame> {
    if segs == [] then [] else segs[0].Frames() + AllFrames(segs[1..])
  }

  function AllCalls(segs: seq<Segment>): seq<seq<byte>> {
    if segs == [] then [] else segs[0].Calls() + AllCalls(segs[1..])
  }

  lemma SegmentDelivered(s: Segment)
    requires s.Valid()
    ensures ProperRun(Fresh, s.Reads()) && Run(Fresh, s.Reads()) == (Fresh, s.Calls())
  {
    match s
    case Batch(fs) =>
      BatchDelivered(fs, 0);
      assert Wire(fs)[..|Wire(fs)| - 0] == Wire(fs);
      RunOne(Fresh, Wire(fs));
    case Spanned(f, pieces) =>
      Reassembled(f, pieces);
      RunOne(Fresh, [0]);
      RunAppend(Fresh, pieces, [[0]]);
      assert [f.payload] + [[]] == [f.payload, []];
  }

  /** Any mixture of batches and spanned frames is delivered segment by segment, and leaves the connection idle. */
  lemma {:induction false} StreamDelivered(segs: seq<Segment>)
    requires forall s :: s in segs ==> s.Valid()
    ensures ProperRun(Fresh, AllReads(segs))
    ensures Run(Fresh, AllReads(segs)) == (Fresh, AllCalls(segs))
  {
    if segs != [] {
      StreamDelivered(segs[1..]);
      SegmentDelivered(segs[0]);
      RunAppend(Fresh, segs[0].Reads(), AllReads(segs[1..]));
    }
  }

  lemma {:induction false} ConcatAppend(a: seq<seq<byte>>, b: seq<seq<byte>>)
    ensures Concat(a + b) == Concat(a) + Concat(b)
  {
    ConcatSplit(a + b, |a|);
    assert (a + b)[..|a|] == a && (a + b)[|a|..] == b;
  }

  lemma {:induction false} WireAppend(a: seq<Frame>, b: seq<Frame>)
    ensures Wire(a + b) == Wire(a) + Wire(b)
  {
    if a == [] {
      assert a + b == b;
    } else {
      WireAppend(a[1..], b);
      assert a + b == [a[0]] + (a[1..] + b);
      WirePrepend(a[0], a[1..] + b);
      Associates(Encode(a[0]), Wire(a[1..]), Wire(b));
    }
  }

  lemma SegmentIsItsFrames(s: Segment)
    requires s.Valid()
    ensures Concat(s.Reads()) == Wire(s.Frames())
  {
    match s
    case Batch(fs) =>
      assert [Wire(fs)][1..] == [] && Concat([Wire(fs)]) == Wire(fs) + [] == Wire(fs);
    case Spanned(f, pieces) =>
      ConcatAppend(pieces, [[0]]);
      assert [[0]][1..] == [] && Concat([[0]]) == [0] + [] == [0];
      WirePrepend(f, []);
      assert [f] + [] == [f] && Encode(f) + [] == Encode(f);
  }

  /** The reads of the segments are the framed stream, cut up but otherwise unchanged. */
  lemma {:induction false} ReadsAreTheStream(segs: seq<Segment>)
    requires forall s :: s in segs ==> s.Valid()
    ensures Concat(AllReads(segs)) == Wire(AllFrames(segs))
  {
    if segs != [] {
      ReadsAreTheStream(segs[1..]);
      SegmentIsItsFrames(segs[0]);
      ConcatAppend(segs[0].Reads(), AllReads(segs[1..]));
      WireAppend(segs[0].Frames(), AllFrames(segs[1..]));
    }
  }

  function NonEmpty(calls: seq<seq<byte>>): seq<seq<byte>> {
    if calls == [] then [] else (if calls[0] == [] then [] else [calls[0]]) + NonEmpty(calls[1..])
  }

  lemma {:induction false} NonEmptyAppend(a: seq<seq<byte>>, b: seq<seq<byte>>)
    ensures NonEmpty(a + b) == NonEmpty(a) + NonEmpty(b)
  {
    if a == [] {
      assert a + b == b;
    } else {
      NonEmptyAppend(a[1..], b);
      assert (a + b)[1..] == a[1..] + b && (a + b)[0] == a[0];
      Associates(if a[0] == [] then [] else [a[0]], NonEmpty(a[1..]), NonEmpty(b));
    }
  }

  lemma {:induction false} NonEmptyAll(calls: seq<seq<byte>>)
    requires [] !in calls
    ensures NonEmpty(calls) == calls
  {
    if calls != [] {
      NonEmptyAll(calls[1..]);
      assert calls == [calls[0]] + calls[1..];
    }
  }

  /**
   Every non-empty C string sent over the stream is reported once, in order,
   and nothing else but empty messages is.
   */
  lemma {:induction false} StringsDelivered(segs: seq<Segment>)
    requires forall s :: s in segs ==> s.Valid()
    requires forall f :: f in AllFrames(segs) ==> f.payload != [] && 0 !in f.payload
    ensures NonEmpty(AllCalls(segs)) == Payloads(AllFrames(segs))
  {
    if segs != [] {
      var s, rest := segs[0], AllFrames(segs[1..]);
      StringsDelivered(segs[1..]);
      NonEmptyAppend(s.Calls(), AllCalls(segs[1..]));
      assert Payloads(s.Frames() + rest) == Payloads(s.Frames()) + Payloads(rest);
      assert s.Valid();
      assert NonEmpty(s.Calls()) == Payloads(s.Frames()) by {
        match s
        case Batch(fs) =>
          BatchExact(fs);
          NonEmptyAll(Payloads(fs));
        case Spanned(f, _) =>
          assert [f.payload, []][1..] == [[]];
          assert NonEmpty([[]]) == [];
      }
    }
  }
}
