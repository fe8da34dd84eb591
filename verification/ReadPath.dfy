/**
 The receiving side on the heap: the kernel filling the iovecs of a request,
 `read_chunk`, `handle_read` and the resubmission of reads.
 */
module ReadPath {
  import opened Bytes
  import opened Chunks
  import opened Frames
  import opened ReadSpec
  import opened Requests

  ghost function ControlOf(req: Request): Control
    reads req
  {
    Control(req.prev != null, req.prevSize, req.prevRemain, req.nextIov, req.nextOffset)
  }

  /** `v` is what `read_chunk` sees of the request. */
  ghost predicate Shows(req: Request, v: View)
    reads req, set v | v in req.iov :: v.base
  {
    && v.control == ControlOf(req)
    && |req.iov| == |v.lens| == |v.bufs|
    && forall k :: 0 <= k < |req.iov| ==> req.iov[k].len == v.lens[k] && req.iov[k].base[..] == v.bufs[k]
  }

  /** The pending message has its full size and is no chunk of the request. */
  ghost predicate PrevApart(req: Request)
    reads req
  {
    req.prev != null ==> req.prev.Length == req.prevSize && forall k :: 0 <= k < |req.iov| ==> req.iov[k].base != req.prev
  }

  /** The chunks of a request hold `bufs`, and `dest` is none of them. */
  ghost predicate ChunksHold(req: Request, dest: array<byte>, lens: seq<nat>, bufs: seq<seq<byte>>)
    reads req, set v | v in req.iov :: v.base
  {
    && |req.iov| == |lens| == |bufs|
    && forall k :: 0 <= k < |lens| ==> req.iov[k].base != dest && req.iov[k].len == lens[k] && req.iov[k].base[..] == bufs[k]
  }

  /** The copy loop of `read_chunk`, from iovec `lo` on; the iovecs hold `bufs`. */
  method CopyPieces(dest: array<byte>, iov: seq<Iovec>, lo: nat, start: nat, offset: nat, msgSize: nat,
                    ghost lens: seq<nat>, ghost bufs: seq<seq<byte>>, ghost took: seq<seq<byte>>)
    returns (oS: nat, readed: nat, currLen: nat)
    requires lo < |iov| == |lens| == |bufs| && start <= msgSize <= dest.Length
    requires Trail(took, bufs, lens, lo, offset, msgSize - start)
    requires forall k :: 0 <= k < |iov| ==> iov[k].base != dest && iov[k].len == lens[k] && iov[k].base[..] == bufs[k]
    modifies dest
    ensures oS == start + |took[|iov|]| <= msgSize
    ensures readed == oS - start + 9 * (|iov| - lo)
    ensures currLen == |took[|iov|]| - |took[|iov| - 1]|
    ensures dest[..oS] == old(dest[..start]) + took[|iov|]
    ensures forall k :: oS <= k < dest.Length ==> dest[k] == old(dest[k])
  {
    ghost var prefix := dest[..start];
    var oIov := offset;
    oS, readed, currLen := start, 0, 0;
    var i := lo;
    while i < |iov|
      invariant lo <= i <= |iov| && oIov == OffsetAt(lo, i, offset)
      invariant oS == start + |took[i]| <= msgSize && readed == |took[i]| + 9 * (i - lo)
      invariant i > lo ==> currLen == |took[i]| - |took[i - 1]|
      invariant dest[..oS] == prefix + took[i]
      invariant forall k :: oS <= k < dest.Length ==> dest[k] == old(dest[k])
      invariant forall k :: 0 <= k < |iov| ==> iov[k].base[..] == bufs[k]
    {
      assert PieceAdded(took, bufs, lens, lo, i, offset, msgSize - start);
      currLen := Min(msgSize - oS, SizeSub(iov[i].len, oIov));
      Associates(prefix, took[i], bufs[i][oIov..oIov + currLen]);
      MemCpy(dest, oS, iov[i].base[..], oIov, currLen);
      assert dest[..oS + currLen] == prefix + took[i + 1];
      readed := readed + currLen + 9;
      oS := oS + currLen;
      oIov := 0;
      i := i + 1;
    }
  }

  /** The first half of `read_chunk`: which message is being read, and from where. */
  method OpenMessage(req: Request, ghost v: View) returns (dest: array<byte>, msgSize: nat, oS: nat, oIov: nat)
    requires PrevApart(req) && Shows(req, v) && v.WellFormed()
    modifies req`prev, req`prevSize, req`prevRemain
    ensures msgSize == v.control.MsgSize(v.Length()) && oS == v.control.Already() && oIov == v.control.SourceOffset()
    ensures if v.control.Continues() then dest == old(req.prev) && dest.Length == msgSize else fresh(dest)
    ensures During(ControlOf(req), v) && ChunksHold(req, dest, v.lens, v.bufs)
    ensures dest.Length == msgSize + if v.control.Continues() || v.Splits() then 0 else 1
    ensures v.Splits() ==> req.prevRemain == SizeSub(msgSize, SizeSub(v.lens[0], HEADER))
    ensures if v.Splits() then req.prev == dest && dest.Length == msgSize
      else req.prev == old(req.prev) && (!v.control.Continues() ==> dest.Length == msgSize + 1 && dest[msgSize] == 0)
  {
    oS, oIov := 0, req.nextOffset;
    if req.prev != null && req.prevSize != 0 && req.prevRemain != 0 {
      msgSize := req.prevSize;
      oS := req.prevSize - req.prevRemain;
      dest := req.prev;
    } else if req.nextIov != 0 || req.nextOffset != 0 {
      msgSize := LittleEndian(req.iov[req.nextIov].base[req.nextOffset..req.nextOffset + HEADER]);
      dest := new byte[msgSize + 1];
      dest[msgSize] := 0;
      oIov := oIov + HEADER;
    } else {
      msgSize := LittleEndian(req.iov[0].base[0..HEADER]);
      if msgSize > req.iov[0].len {
        req.prev := new byte[msgSize];
        dest := req.prev;
        req.prevSize := msgSize;
        req.prevRemain := SizeSub(msgSize, SizeSub(req.iov[0].len, 8));
      } else {
        dest := new byte[msgSize + 1];
        dest[msgSize] := 0;
      }
      oIov := oIov + HEADER;
    }
  }

  /** The rest of `read_chunk`: the copy, and what the request remembers for the next call. */
  method CopyAndUpdate(req: Request, dest: array<byte>, start: nat, offset: nat, msgSize: nat,
                       ghost lens: seq<nat>, ghost bufs: seq<seq<byte>>, ghost took: seq<seq<byte>>) returns (len: nat)
    requires req.nextIov < |lens| && start <= msgSize <= dest.Length && ChunksHold(req, dest, lens, bufs)
    requires Trail(took, bufs, lens, req.nextIov, offset, msgSize - start)
    modifies req`prev, req`prevSize, req`prevRemain, req`nextIov, req`nextOffset, dest
    ensures start + |took[|lens|]| <= msgSize && |took[|lens| - 1]| <= |took[|lens|]|
    ensures dest[..start + |took[|lens|]|] == old(dest[..start]) + took[|lens|]
    ensures forall k :: start + |took[|lens|]| <= k < dest.Length ==> dest[k] == old(dest[k])
    ensures ControlOf(req) == Updated(old(ControlOf(req)), lens, msgSize, start, |took[|lens|]|, |took[|lens|]| - |took[|lens| - 1]|)
    ensures if old(req.prev != null && req.prevSize != 0) then len == 0 && req.prev == dest
      else len == msgSize && req.prev == old(req.prev)
  {
    var oS, readed, currLen := CopyPieces(dest, req.iov, req.nextIov, start, offset, msgSize, lens, bufs, took);
    var i := |req.iov| - 1;
    var hasPrev := req.prev != null && req.prevSize != 0;
    var hasNext := req.nextOffset + readed < req.iov[i].len;
    len := msgSize;
    if hasPrev {
      req.prev := dest;
      req.prevSize := msgSize;
      req.prevRemain := req.prevSize - oS;
      len := 0;
    }
    if hasNext {
      req.nextIov := i;
      req.nextOffset := req.nextOffset + currLen + 9;
    } else {
      req.nextIov := 0;
      req.nextOffset := 0;
    }
  }

  /** `read_chunk`: copies one message, or one piece of it, out of the iovecs. */
  method ReadChunk(req: Request, ghost v: View) returns (dest: array<byte>, len: nat)
    requires PrevApart(req) && Shows(req, v) && v.Readable()
    modifies req`prev, req`prevSize, req`prevRemain, req`nextIov, req`nextOffset, req.prev
    ensures ControlOf(req) == v.After()
    ensures if v.control.Continues() then dest == old(req.prev) else fresh(dest)
    ensures dest.Length == v.control.MsgSize(v.Length()) + if v.control.Continues() || v.Splits() then 0 else 1
    ensures if v.control.Continues() || v.Splits() then req.prev == dest && len == 0 else dest[v.Length()] == 0
    ensures !v.control.pending && !v.Splits() ==> req.prev == null && len == v.Length()
    ensures v.control.Already() + |v.Gathered()| <= dest.Length
    ensures v.control.Continues() ==>
      dest[..v.control.Already() + |v.Gathered()|] == old(req.prev[..v.control.Already()]) + v.Gathered()
    ensures !v.control.Continues() ==> dest[..|v.Gathered()|] == v.Gathered()
  {
    var msgSize, oS, oIov;
    dest, msgSize, oS, oIov := OpenMessage(req, v);
    ghost var took := TrailOfView(v);
    UpdatedAfter(ControlOf(req), v);
    assert [] + v.Gathered() == v.Gathered();
    len := CopyAndUpdate(req, dest, oS, oIov, msgSize, v.lens, v.bufs, took);
  }
}
