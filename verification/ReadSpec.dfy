/**
 Pure description of the receiver: one `read_chunk` call on the control fields
 of a request, and the meaning of one completed read for a connection.
 */
module ReadSpec {
  import opened Bytes
  import opened Chunks
  import opened Frames

  /** The fields of a request that steer `read_chunk`; `pending` is `prev != NULL`. */
  datatype Control = Control(pending: bool, size: nat, remain: nat, nextIov: nat, nextOffset: nat) {
    predicate Continues() {
      pending && size != 0 && remain != 0
    }

    predicate HasNext() {
      nextIov != 0 || nextOffset != 0
    }

    function MsgSize(header: nat): nat {
      if Continues() then size else header
    }

    function Already(): nat
      requires remain <= size
    {
      if Continues() then size - remain else 0
    }

    /** Bytes still to be copied into the message when the copy loop starts. */
    function Want(header: nat): nat {
      if Continues() then remain else header
    }

    /** Where the copy starts in the first iovec. */
    function SourceOffset(): nat {
      nextOffset + if Continues() then 0 else HEADER
    }

    /** The message is larger than the first iovec and becomes the pending one. */
    predicate Splits(lens: seq<nat>, header: nat)
      requires lens != []
    {
      !Continues() && !HasNext() && header > lens[0]
    }
  }

  const IDLE := Control(false, 0, 0, 0, 0)

  /** A copy may start at `offset` of iovec `lo`; a copy of nothing may start anywhere. */
  predicate CanStart(lens: seq<nat>, lo: nat, offset: nat, want: nat) {
    lo < |lens| && (offset <= lens[lo] || want == 0)
  }

  /** Bytes taken from iovecs `lo` up to `i` by a copy of `want` bytes: no more than there are. */
  function Copied(lens: seq<nat>, lo: nat, i: nat, offset: nat, want: nat): (copied: nat)
    requires i <= |lens| && CanStart(lens, lo, offset, want)
    ensures copied <= want
  {
    if i <= lo || want == 0 then 0
    else
      AvailGrows(lens, lo, i);
      Min(want, Avail(lens, lo, i) - offset)
  }

  function Taken(bufs: seq<seq<byte>>, lens: seq<nat>, lo: nat, i: nat, offset: nat, want: nat): (data: seq<byte>)
    requires i <= |lens| == |bufs| && CanStart(lens, lo, offset, want)
    requires forall k :: 0 <= k < |lens| ==> lens[k] <= |bufs[k]|
    ensures |data| == Copied(lens, lo, i, offset, want)
  {
    if i <= lo || want == 0 then []
    else
      AvailGrows(lens, lo, i);
      Flat(bufs, lens, lo, i)[offset..offset + Copied(lens, lo, i, offset, want)]
  }

  function OffsetAt(lo: nat, i: nat, offset: nat): nat {
    if i == lo then offset else 0
  }

  /** `MIN(msg_size - o_s, iov_len - o_iov)`. */
  function Piece(len: nat, offset: nat, left: nat): (n: nat)
    ensures n <= left
  {
    Min(left, SizeSub(len, offset))
  }

  lemma TakeFromTwo(a: seq<byte>, b: seq<byte>, offset: nat, want: nat)
    requires offset <= |a|
    ensures var m := Min(want, |a| - offset);
      (a + b)[offset..offset + Min(want, |a + b| - offset)] == a[offset..offset + m] + b[..Min(want - m, |b|)]
  {
  }

  function NextPiece(lens: seq<nat>, lo: nat, i: nat, offset: nat, want: nat): nat
    requires lo <= i < |lens| && CanStart(lens, lo, offset, want)
  {
    Piece(lens[i], OffsetAt(lo, i, offset), want - Copied(lens, lo, i, offset, want))
  }

  lemma CopiedStep(lens: seq<nat>, lo: nat, i: nat, offset: nat, want: nat)
    requires lo <= i < |lens| && offset <= CHUNK_SZ && CanStart(lens, lo, offset, want)
    requires forall k :: 0 <= k < |lens| ==> lens[k] <= CHUNK_SZ
    ensures OffsetAt(lo, i, offset) + NextPiece(lens, lo, i, offset, want) <= CHUNK_SZ
    ensures NextPiece(lens, lo, i, offset, want) > 0 ==> OffsetAt(lo, i, offset) + NextPiece(lens, lo, i, offset, want) <= lens[i]
    ensures Copied(lens, lo, i + 1, offset, want) == Copied(lens, lo, i, offset, want) + NextPiece(lens, lo, i, offset, want)
  {
    if want > 0 && lo < i {
      AvailGrows(lens, lo, i);
    }
  }

  lemma TakenFirst(bufs: seq<seq<byte>>, lens: seq<nat>, lo: nat, offset: nat, want: nat)
    requires lo < |lens| == |bufs| && offset <= lens[lo] && want > 0
    requires forall k :: 0 <= k < |lens| ==> lens[k] <= CHUNK_SZ == |bufs[k]|
    ensures Taken(bufs, lens, lo, lo + 1, offset, want) == bufs[lo][offset..offset + NextPiece(lens, lo, lo, offset, want)]
  {
    var b := bufs[lo][..lens[lo]];
    assert Flat(bufs, lens, lo, lo + 1) == b;
    var piece := NextPiece(lens, lo, lo, offset, want);
    assert b[offset..offset + piece] == bufs[lo][offset..offset + piece];
  }

  lemma TakenLater(bufs: seq<seq<byte>>, lens: seq<nat>, lo: nat, i: nat, offset: nat, want: nat)
    requires lo < i < |lens| == |bufs| && offset <= lens[lo] <= CHUNK_SZ && want > 0
    requires forall k :: 0 <= k < |lens| ==> lens[k] <= CHUNK_SZ == |bufs[k]|
    ensures Taken(bufs, lens, lo, i + 1, offset, want) ==
      Taken(bufs, lens, lo, i, offset, want) + bufs[i][..NextPiece(lens, lo, i, offset, want)]
  {
    AvailGrows(lens, lo, i);
    var a, b := Flat(bufs, lens, lo, i), bufs[i][..lens[i]];
    var m := Copied(lens, lo, i, offset, want);
    var piece := NextPiece(lens, lo, i, offset, want);
    assert piece == Min(want - m, |b|) by { CopiedStep(lens, lo, i, offset, want); }
    TakeFromTwo(a, b, offset, want);
    assert b[..piece] == bufs[i][..piece];
    assert Taken(bufs, lens, lo, i + 1, offset, want) == (a + b)[offset..offset + Min(want, |a + b| - offset)];
  }

  /** One pass of the copy loop takes the next piece. */
  lemma TakenStep(bufs: seq<seq<byte>>, lens: seq<nat>, lo: nat, i: nat, offset: nat, want: nat)
    requires lo <= i < |lens| == |bufs| && offset <= CHUNK_SZ && CanStart(lens, lo, offset, want)
    requires forall k :: 0 <= k < |lens| ==> lens[k] <= CHUNK_SZ == |bufs[k]|
    ensures OffsetAt(lo, i, offset) + NextPiece(lens, lo, i, offset, want) <= CHUNK_SZ
    ensures var o := OffsetAt(lo, i, offset);
      Taken(bufs, lens, lo, i + 1, offset, want) ==
      Taken(bufs, lens, lo, i, offset, want) + bufs[i][o..o + NextPiece(lens, lo, i, offset, want)]
  {
    CopiedStep(lens, lo, i, offset, want);
    if want == 0 {
    } else if lo == i {
      TakenFirst(bufs, lens, lo, offset, want);
    } else {
      TakenLater(bufs, lens, lo, i, offset, want);
    }
  }

  /** Iovec `i` adds its piece to what the copy loop has taken. */
  predicate PieceAdded(took: seq<seq<byte>>, bufs: seq<seq<byte>>, lens: seq<nat>, lo: nat, i: nat, offset: nat, want: nat)
    requires i + 1 < |took| && i < |lens| == |bufs|
  {
    |took[i]| <= want &&
    var o := OffsetAt(lo, i, offset);
    var end := o + Piece(lens[i], o, want - |took[i]|);
    end <= |bufs[i]| && took[i + 1] == took[i] + bufs[i][o..end]
  }

  /** `took[i]` is what the copy loop has taken when it reaches iovec `i`. */
  predicate Trail(took: seq<seq<byte>>, bufs: seq<seq<byte>>, lens: seq<nat>, lo: nat, offset: nat, want: nat) {
    && |took| == |lens| + 1 == |bufs| + 1 && lo < |lens| && took[lo] == []
    && forall i {:trigger PieceAdded(took, bufs, lens, lo, i, offset, want)} ::
         lo <= i < |lens| ==> PieceAdded(took, bufs, lens, lo, i, offset, want)
  }

  lemma TakenPiece(took: seq<seq<byte>>, bufs: seq<seq<byte>>, lens: seq<nat>, lo: nat, i: nat, offset: nat, want: nat)
    requires lo <= i < |lens| == |bufs| && offset <= CHUNK_SZ && CanStart(lens, lo, offset, want)
    requires forall k :: 0 <= k < |lens| ==> lens[k] <= CHUNK_SZ == |bufs[k]|
    requires |took| == |lens| + 1
    requires took[i] == Taken(bufs, lens, lo, i, offset, want) && took[i + 1] == Taken(bufs, lens, lo, i + 1, offset, want)
    ensures PieceAdded(took, bufs, lens, lo, i, offset, want)
  {
    TakenStep(bufs, lens, lo, i, offset, want);
  }

  /** The loop, piece by piece, takes the first `want` bytes of what is there. */
  lemma TrailOfTaken(bufs: seq<seq<byte>>, lens: seq<nat>, lo: nat, offset: nat, want: nat) returns (took: seq<seq<byte>>)
    requires lo < |lens| == |bufs| && offset <= CHUNK_SZ && CanStart(lens, lo, offset, want)
    requires forall k :: 0 <= k < |lens| ==> lens[k] <= CHUNK_SZ == |bufs[k]|
    ensures Trail(took, bufs, lens, lo, offset, want)
    ensures took[|lens|] == Taken(bufs, lens, lo, |lens|, offset, want)
    ensures |took[|lens| - 1]| == Copied(lens, lo, |lens| - 1, offset, want)
  {
    took := seq(|lens| + 1, i requires 0 <= i <= |lens| => Taken(bufs, lens, lo, i, offset, want));
    forall i | lo <= i < |lens|
      ensures PieceAdded(took, bufs, lens, lo, i, offset, want)
    {
      TakenPiece(took, bufs, lens, lo, i, offset, want);
    }
  }

  function CopiedBy(c: Control, lens: seq<nat>, header: nat): (copied: nat)
    requires CanStart(lens, c.nextIov, c.SourceOffset(), c.Want(header))
    ensures copied <= c.Want(header)
  {
    Copied(lens, c.nextIov, |lens|, c.SourceOffset(), c.Want(header))
  }

  /** Bytes copied from the last iovec. */
  function LastPieceBy(c: Control, lens: seq<nat>, header: nat): int
    requires CanStart(lens, c.nextIov, c.SourceOffset(), c.Want(header))
  {
    CopiedBy(c, lens, header) - Copied(lens, c.nextIov, |lens| - 1, c.SourceOffset(), c.Want(header))
  }

  /** The control fields after `read_chunk` on iovecs of these lengths; `header` is the length field it reads. */
  function ReadStep(c: Control, lens: seq<nat>, header: nat): Control
    requires CanStart(lens, c.nextIov, c.SourceOffset(), c.Want(header)) && c.remain <= c.size
  {
    var n := |lens|;
    var copied := CopiedBy(c, lens, header);
    var hasPrev := c.Splits(lens, header) || (c.pending && c.size != 0);
    var hasNext := c.nextOffset + copied + 9 * (n - c.nextIov) < lens[n - 1];
    Control(hasPrev || c.pending,
            if hasPrev then c.MsgSize(header) else c.size,
            if hasPrev then c.MsgSize(header) - c.Already() - copied else c.remain,
            if hasNext then n - 1 else 0,
            if hasNext then c.nextOffset + LastPieceBy(c, lens, header) + 9 else 0)
  }

  /** Everything `read_chunk` can see of a request, apart from the pending message itself. */
  datatype View = View(control: Control, lens: seq<nat>, bufs: seq<seq<byte>>) {
    predicate WellFormed() {
      && control.nextIov < |lens| == |bufs|
      && control.remain <= control.size
      && (forall k :: 0 <= k < |bufs| ==> |bufs[k]| == CHUNK_SZ)
      && (!control.Continues() ==> control.nextOffset + HEADER <= CHUNK_SZ)
    }

    /** The length field the call reads; a continued message reads none. */
    function Length(): nat
      requires WellFormed()
    {
      if control.Continues() then 0
      else LittleEndian(bufs[control.nextIov][control.nextOffset..control.nextOffset + HEADER])
    }

    predicate Splits()
      requires WellFormed()
    {
      control.Splits(lens, Length())
    }

    /** The call stays inside the chunks. */
    predicate Readable() {
      && WellFormed()
      && control.SourceOffset() <= CHUNK_SZ
      && (forall k :: 0 <= k < |lens| ==> lens[k] <= CHUNK_SZ)
      && CanStart(lens, control.nextIov, control.SourceOffset(), control.Want(Length()))
    }

    /** The bytes it copies. */
    function Gathered(): (data: seq<byte>)
      requires Readable()
      ensures |data| == CopiedBy(control, lens, Length())
    {
      Taken(bufs, lens, control.nextIov, |lens|, control.SourceOffset(), control.Want(Length()))
    }

    function After(): Control
      requires Readable()
    {
      ReadStep(control, lens, Length())
    }
  }

  /**
   The control fields after a copy that has taken `taken` bytes, `last` of
   them from the last iovec, given those in force during it.
   */
  function Updated(c: Control, lens: seq<nat>, msgSize: nat, start: nat, taken: nat, last: nat): Control
    requires lens != [] && start + taken <= msgSize
  {
    var n := |lens|;
    var hasPrev := c.pending && c.size != 0;
    var hasNext := c.nextOffset + taken + 9 * (n - c.nextIov) < lens[n - 1];
    Control(c.pending,
            if hasPrev then msgSize else c.size,
            if hasPrev then msgSize - start - taken else c.remain,
            if hasNext then n - 1 else 0,
            if hasNext then c.nextOffset + last + 9 else 0)
  }

  /** The control fields in force during the copy: a long first message is pending by then. */
  predicate During(c: Control, v: View)
    requires v.WellFormed()
  {
    if v.Splits() then c.pending && c.size == v.Length() && c.nextIov == v.control.nextIov && c.nextOffset == v.control.nextOffset
    else c == v.control
  }

  /** What one call copies and leaves behind, in terms of the trail of its copy loop. */
  lemma TrailOfView(v: View) returns (took: seq<seq<byte>>)
    requires v.Readable()
    ensures Trail(took, v.bufs, v.lens, v.control.nextIov, v.control.SourceOffset(), v.control.Want(v.Length()))
    ensures took[|v.lens|] == v.Gathered()
    ensures |took[|v.lens| - 1]| == |v.Gathered()| - LastPieceBy(v.control, v.lens, v.Length())
  {
    took := TrailOfTaken(v.bufs, v.lens, v.control.nextIov, v.control.SourceOffset(), v.control.Want(v.Length()));
  }

  lemma UpdatedAfter(c: Control, v: View)
    requires v.Readable() && During(c, v)
    ensures v.control.Already() + |v.Gathered()| <= v.control.MsgSize(v.Length())
    ensures LastPieceBy(v.control, v.lens, v.Length()) >= 0
    ensures v.After() == Updated(c, v.lens, v.control.MsgSize(v.Length()), v.control.Already(),
                                 |v.Gathered()|, LastPieceBy(v.control, v.lens, v.Length()))
  {
    CopiedGrows(v.lens, v.control.nextIov, v.control.SourceOffset(), v.control.Want(v.Length()));
  }

  lemma CopiedGrows(lens: seq<nat>, lo: nat, offset: nat, want: nat)
    requires CanStart(lens, lo, offset, want)
    ensures Copied(lens, lo, |lens| - 1, offset, want) <= Copied(lens, lo, |lens|, offset, want)
  {
    if want > 0 && lo < |lens| - 1 {
      AvailGrows(lens, lo, |lens| - 1);
    } else if want > 0 {
      AvailGrows(lens, lo, |lens|);
    }
  }

  /** What a connection remembers between two completed reads. */
  datatype Reader = Fresh | Partial(got: seq<byte>, size: nat) {
    ghost predicate Valid() {
      Partial? ==> |got| < size
    }

    /** Bytes the next read request has room for. */
    function Capacity(): nat
      requires Partial? ==> |got| < size
    {
      if Fresh? then CHUNK_SZ else size - |got|
    }
  }

  /**
   Reads the state machine keeps state for. A continuation may be any read; a
   fresh read holds whole frames, or the first part of a frame longer than the
   read, or only the terminator a continued frame left in the stream.
   */
  predicate Proper(r: Reader, data: seq<byte>)
    requires r.Partial? ==> |r.got| < r.size
  {
    && 0 < |data| <= r.Capacity()
    && (r.Fresh? ==>
      || data == [0]
      || (HEADER <= |data| && (Header(data) > |data| || Parse(data).Some?)))
  }

  /** Payloads as `on_readed` sees them: the last one is measured with `strlen`. */
  function LastCut(ps: seq<seq<byte>>): (calls: seq<seq<byte>>)
    ensures |calls| == |ps|
  {
    if ps == [] then [] else ps[..|ps| - 1] + [CutAtZero(ps[|ps| - 1])]
  }

  lemma LastCutPrepend(p: seq<byte>, ps: seq<seq<byte>>)
    requires ps != []
    ensures LastCut([p] + ps) == [p] + LastCut(ps)
  {
    var all := [p] + ps;
    assert all[..|all| - 1] == [p] + ps[..|ps| - 1];
  }

  /** What `on_readed` is told for a read of whole frames. */
  function Deliver(data: seq<byte>): (calls: seq<seq<byte>>)
    requires Parse(data).Some?
  {
    LastCut(Parse(data).value)
  }

  /** Bytes `read_chunk` believes it received from a continuation. */
  function Accounted(capacity: nat, bytes: nat): nat {
    Min(capacity, (if capacity > 0 then (ChunkCount(capacity) - 1) * CHUNK_SZ else 0) + LastBytes(bytes))
  }

  /** One completed read: the new state of the connection and the `on_readed` calls. */
  function Step(r: Reader, data: seq<byte>): (result: (Reader, seq<seq<byte>>))
    requires r.Partial? ==> |r.got| < r.size
    requires Proper(r, data)
    ensures result.0.Valid()
  {
    match r
    case Fresh =>
      if data == [0] then (Fresh, [[]])
      else if Header(data) > |data| then (Partial(data[HEADER..], Header(data)), [])
      else (Fresh, Deliver(data))
    case Partial(got, size) =>
      var all := got + Stretch(data, Accounted(size - |got|, |data|));
      if |all| == size then (Fresh, [all]) else (Partial(all, size), [])
  }

  // ---- One read_chunk call ----

  /** The control fields after one call that reads a single iovec of `len` bytes. */
  lemma StepOnOneIovec(c: Control, len: nat, header: nat)
    requires c == IDLE.(nextOffset := c.nextOffset) && c.SourceOffset() <= len
    ensures CopiedBy(c, [len], header) == Min(header, len - c.SourceOffset())
    ensures c.Splits([len], header) <==> c.nextOffset == 0 && header > len
    ensures ReadStep(c, [len], header) ==
      if c.Splits([len], header) then Control(true, header, header - (len - HEADER), 0, 0)
      else if c.SourceOffset() + header + 1 < len then IDLE.(nextOffset := c.SourceOffset() + header + 1)
      else IDLE
  {
    assert Avail([len], 0, 1) == len;
  }

  /** A call on a continued message takes what there is and leaves no next frame. */
  lemma StepOnContinuation(size: nat, remain: nat, lens: seq<nat>)
    requires 0 < remain <= size && lens != []
    requires forall k :: 0 <= k < |lens| ==> 0 < lens[k] <= CHUNK_SZ
    requires lens[|lens| - 1] <= Min(remain, Sum(lens))
    ensures var c := Control(true, size, remain, 0, 0);
      && CopiedBy(c, lens, 0) == Min(remain, Sum(lens))
      && ReadStep(c, lens, 0) == Control(true, size, remain - Min(remain, Sum(lens)), 0, 0)
  {
  }

  lemma AccountedBounds(remain: nat, bytes: nat)
    requires 0 < bytes <= remain
    ensures var lens := AdjustedLens(remain, bytes);
      && Accounted(remain, bytes) == Min(remain, Sum(lens))
      && bytes <= Accounted(remain, bytes)
      && lens[|lens| - 1] == LastBytes(bytes) <= Accounted(remain, bytes)
  {
    SumAllButLastFull(AdjustedLens(remain, bytes));
  }

  /**
   A call whose message is cut by the end of the read either copies it whole,
   or remembers it, exactly when: a next frame fits in what is left of the
   iovec; a first frame fits, or is longer than the whole read.
   */
  lemma CutDetected(c: Control, len: nat, header: nat)
    requires c == IDLE.(nextOffset := c.nextOffset) && c.SourceOffset() <= len
    ensures CopiedBy(c, [len], header) == header || ReadStep(c, [len], header).Continues()
      <==> header <= len - c.SourceOffset() || (!c.HasNext() && header > len)
  {
    StepOnOneIovec(c, len, header);
  }

  /** What holds between any two calls: one chunk cursor at most, and never together with a pending message. */
  predicate Settled(c: Control) {
    && c.nextIov == 0 && c.remain <= c.size
    && (if c.pending then c.nextOffset == 0 && c.size > 0 else c.size == 0 && c.remain == 0)
  }

  /** A call on a continuation keeps them settled, finds no next frame, and leaves less to be received. */
  lemma SettledOnContinuation(c: Control, bytes: nat)
    requires Settled(c) && c.Continues() && 0 < bytes <= c.remain
    ensures CanStart(AdjustedLens(c.remain, bytes), 0, 0, c.remain)
    ensures var c' := ReadStep(c, AdjustedLens(c.remain, bytes), 0);
      Settled(c') && !c'.HasNext() && c'.size == c.size && c'.remain + bytes <= c.remain
  {
    AccountedBounds(c.remain, bytes);
    StepOnContinuation(c.size, c.remain, AdjustedLens(c.remain, bytes));
  }

  // ---- The calls made for one completed read ----

  /** Chunks filled by the kernel with `data` and zero behind it. */
  predicate FilledWith(bufs: seq<seq<byte>>, data: seq<byte>) {
    && (forall i :: 0 <= i < |bufs| ==> |bufs[i]| == CHUNK_SZ)
    && (forall i, o :: 0 <= i < |bufs| && 0 <= o < CHUNK_SZ ==> bufs[i][o] == ByteAt(data, i * CHUNK_SZ + o))
  }

  /** What `read_chunk` sees at offset `o` of a fresh read of `data`. */
  predicate SeesFresh(v: View, data: seq<byte>, o: nat) {
    && v.control == IDLE.(nextOffset := o) && o < |data| <= CHUNK_SZ
    && v.lens == [|data|] && |v.bufs| == 1 && FilledWith(v.bufs, data)
  }

  lemma FreshBuffer(v: View, data: seq<byte>, o: nat)
    requires SeesFresh(v, data, o)
    ensures v.bufs[0][..|data|] == data
    ensures forall a, b :: 0 <= a <= b <= |data| ==> v.bufs[0][a..b] == data[a..b]
    ensures Flat(v.bufs, v.lens, 0, 1) == data
  {
    forall k | 0 <= k < |data|
      ensures v.bufs[0][k] == data[k]
    {
      assert v.bufs[0][k] == ByteAt(data, 0 * CHUNK_SZ + k);
    }
    assert v.bufs[0][..|data|] == data;
    assert Flat(v.bufs, v.lens, 0, 0) == [];
  }

  lemma ParseNonEmpty(buf: seq<byte>)
    requires Parse(buf).Some?
    ensures Parse(buf).value != []
  {
  }

  lemma DeliverFront(buf: seq<byte>)
    requires Parse(buf).Some?
    ensures var end := HEADER + Header(buf);
      if end + 1 < |buf| then
        Parse(buf[end + 1..]).Some? && Deliver(buf) == [buf[HEADER..end]] + Deliver(buf[end + 1..])
      else
        Deliver(buf) == [CutAtZero(buf[HEADER..end])]
  {
    var end := HEADER + Header(buf);
    if end + 1 < |buf| {
      ParseNonEmpty(buf[end + 1..]);
      LastCutPrepend(buf[HEADER..end], Parse(buf[end + 1..]).value);
    }
  }

  lemma DeliverStep(data: seq<byte>, o: nat)
    requires o < |data| && Parse(data[o..]).Some?
    ensures var end := o + HEADER + Header(data[o..]);
      && end <= |data|
      && if end + 1 < |data| then
           Parse(data[end + 1..]).Some? && Deliver(data[o..]) == [data[o + HEADER..end]] + Deliver(data[end + 1..])
         else
           Deliver(data[o..]) == [CutAtZero(data[o + HEADER..end])]
  {
    DeliverFront(data[o..]);
    var end := HEADER + Header(data[o..]);
    assert data[o..][HEADER..end] == data[o + HEADER..o + end];
    if end + 1 < |data[o..]| {
      assert data[o..][end + 1..] == data[o + end + 1..];
    }
  }

  /** A first frame longer than the read becomes the pending message. */
  lemma SplitCall(v: View, data: seq<byte>)
    requires SeesFresh(v, data, 0) && HEADER <= |data| < Header(data)
    ensures v.Readable() && v.Splits() && v.Length() == Header(data) && v.Gathered() == data[HEADER..]
    ensures v.After() == Control(true, Header(data), Header(data) - (|data| - HEADER), 0, 0)
  {
    FreshBuffer(v, data, 0);
    StepOnOneIovec(v.control, |data|, Header(data));
  }

  /** A read of only a terminator: `iov_len - 8` wraps, but nothing is copied. */
  lemma StrayCall(v: View)
    requires SeesFresh(v, [0], 0)
    ensures v.Readable() && !v.Splits() && v.Length() == 0 && v.Gathered() == [] && v.After() == IDLE
  {
    forall k | 0 <= k < HEADER
      ensures v.bufs[0][k] == 0
    {
      assert v.bufs[0][k] == ByteAt([0], 0 * CHUNK_SZ + k);
    }
    assert v.bufs[0][..HEADER] == ToBytes(0, HEADER);
    HeaderRoundTrip(0);
  }

  /** What `read_chunk` sees of a continuation that returned `data`. */
  predicate SeesContinuation(v: View, size: nat, remain: nat, data: seq<byte>) {
    && 0 < |data| <= remain <= size
    && v.control == Control(true, size, remain, 0, 0)
    && v.lens == AdjustedLens(remain, |data|) && |v.bufs| == |v.lens| && FilledWith(v.bufs, data)
  }

  /** A continuation appends what `Accounted` says: the data, followed by zeros if it ended before the last iovec. */
  lemma ContinuationCall(v: View, size: nat, remain: nat, data: seq<byte>)
    requires SeesContinuation(v, size, remain, data)
    ensures v.Readable() && !v.Splits() && v.Length() == 0
    ensures v.Gathered() == Stretch(data, Accounted(remain, |data|))
    ensures v.After() == Control(true, size, remain - Accounted(remain, |data|), 0, 0)
  {
    AccountedBounds(remain, |data|);
    StepOnContinuation(size, remain, v.lens);
    FilledFlat(v.bufs, v.lens, data, Accounted(remain, |data|));
  }

  /** The first bytes of filled chunks of which only the last may be short. */
  lemma FilledFlat(bufs: seq<seq<byte>>, lens: seq<nat>, data: seq<byte>, m: nat)
    requires |lens| == |bufs| && FilledWith(bufs, data) && m <= Sum(lens)
    requires forall i :: 0 <= i < |lens| ==> lens[i] <= CHUNK_SZ && (i < |lens| - 1 ==> lens[i] == CHUNK_SZ)
    ensures Flat(bufs, lens, 0, |lens|)[..m] == Stretch(data, m)
  {
    var g := Flat(bufs, lens, 0, |lens|);
    forall k | 0 <= k < m
      ensures g[k] == ByteAt(data, k)
    {
      FlatAt(bufs, lens, |lens|, k);
      assert k == (k / CHUNK_SZ) * CHUNK_SZ + k % CHUNK_SZ;
    }
  }
}
