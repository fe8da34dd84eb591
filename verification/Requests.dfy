/**
 The `request` structure and `set_request`: scattering a message over chunks,
 or preparing zeroed chunks for a read.
 */
module Requests {
  import opened Bytes
  import opened Chunks

  datatype EventType = Accept | Read | Write | Wait | Error

  /** `struct iovec`: where a chunk lives and how much of it is in use. */
  datatype Iovec = Iovec(base: array<byte>, len: nat)

  function Lens(iov: seq<Iovec>): (lens: seq<nat>)
    ensures |lens| == |iov| && forall i :: 0 <= i < |iov| ==> lens[i] == iov[i].len
  {
    seq(|iov|, i requires 0 <= i < |iov| => iov[i].len)
  }

  ghost function Bases(iov: seq<Iovec>): set<array<byte>> {
    set v | v in iov :: v.base
  }

  /** Every iovec owns a whole chunk of its own. */
  ghost predicate Separate(iov: seq<Iovec>) {
    && (forall i :: 0 <= i < |iov| ==> iov[i].base.Length == CHUNK_SZ && iov[i].len <= CHUNK_SZ)
    && (forall i, j :: 0 <= i < j < |iov| ==> iov[i].base != iov[j].base)
  }

  class Request {
    var prev: array?<byte>
    var prevSize: nat
    var prevRemain: nat
    var nextIov: nat
    var nextOffset: nat
    var eventType: EventType
    var clientSocket: int
    var iov: seq<Iovec>

    constructor ()
      ensures prev == null && prevSize == 0 && prevRemain == 0 && nextIov == 0 && nextOffset == 0 && iov == []
    {
      prev, prevSize, prevRemain, nextIov, nextOffset, iov := null, 0, 0, 0, 0, [];
      eventType := Wait;
    }
  }

  // ---- libc ----

  method MemCpy(dst: array<byte>, to: nat, src: seq<byte>, from: nat, n: nat)
    requires to + n <= dst.Length && from + n <= |src|
    modifies dst
    ensures dst[..to + n] == old(dst[..to]) + src[from..from + n]
    ensures forall i :: to + n <= i < dst.Length ==> dst[i] == old(dst[i])
  {
    for k := 0 to n
      invariant dst[..to] == old(dst[..to])
      invariant dst[to..to + k] == src[from..from + k]
      invariant forall i :: to + n <= i < dst.Length ==> dst[i] == old(dst[i])
    {
      dst[to + k] := src[from + k];
      assert dst[to..to + k + 1] == dst[to..to + k] + [src[from + k]];
    }
    assert dst[..to + n] == dst[..to] + dst[to..to + n];
  }

  method MemSetZero(dst: array<byte>, to: nat, n: nat)
    requires to + n <= dst.Length
    modifies dst
    ensures forall k :: 0 <= k < dst.Length ==> dst[k] == if to <= k < to + n then 0 else old(dst[k])
  {
    for k := 0 to n
      invariant forall i :: 0 <= i < dst.Length ==> dst[i] == if to <= i < to + k then 0 else old(dst[i])
    {
      dst[to + k] := 0;
    }
  }

  // ---- set_request ----

  /** Bytes in front of the payload, and behind it. */
  function Before(h: bool): nat { if h then HEADER else 0 }

  function RequestSize(s: nat, h: bool): nat {
    if h then s + HEADER + 1 else s
  }

  /** The padding `memset` of the first chunk gets a length that does not wrap. */
  predicate PaddingDefined(s: nat, h: bool) {
    !h || s <= CHUNK_SZ - 16 || s > CHUNK_SZ - 9
  }

  /** Bytes of the message that `initialize_iovec` puts into chunk `pos`, counted as `len` after its adjustment. */
  function UsedLen(size: nat, amount: nat, pos: nat, h: bool): nat
    requires pos < amount == ChunkCount(size)
  {
    ChunkLen(amount, pos, size) - if h && pos == amount - 1 then 1 else 0
  }

  /**
   The padding length `CHUNK_SZ - (len + offset_iov)` is not negative in any
   chunk it is computed for iff the message leaves room for the header twice,
   or needs a second chunk.
   */
  lemma PaddingLengthExact(s: nat, h: bool)
    ensures PaddingDefined(s, h) <==>
      forall pos :: 0 <= pos < ChunkCount(RequestSize(s, h)) ==>
        var len := UsedLen(RequestSize(s, h), ChunkCount(RequestSize(s, h)), pos, h);
        len < CHUNK_SZ ==> len + (if h && pos == 0 then HEADER else 0) <= CHUNK_SZ
  {
    if !PaddingDefined(s, h) {
      var size := RequestSize(s, h);
      assert UsedLen(size, ChunkCount(size), 0, h) == s + HEADER;
    }
  }

  method AllocateIovec(amount: nat, pos: nat, size: nat) returns (iov: Iovec)
    requires pos < amount
    ensures fresh(iov.base) && iov.base.Length == CHUNK_SZ && iov.len == ChunkLen(amount, pos, size)
  {
    var base := new byte[CHUNK_SZ];
    var len := if pos == amount - 1 then size % CHUNK_SZ else CHUNK_SZ;
    if len == 0 {
      len := CHUNK_SZ;
    }
    iov := Iovec(base, len);
  }

  /** Payload bytes of `text` sit at their place in chunk `pos`. */
  predicate PayloadPlaced(chunk: seq<byte>, pos: nat, text: seq<byte>, h: bool)
    requires |chunk| == CHUNK_SZ
  {
    forall o :: 0 <= o < CHUNK_SZ && Before(h) <= pos * CHUNK_SZ + o < Before(h) + |text| ==>
      chunk[o] == text[pos * CHUNK_SZ + o - Before(h)]
  }

  predicate ZeroFrom(chunk: seq<byte>, from: int) {
    forall o :: 0 <= o < |chunk| && from <= o ==> chunk[o] == 0
  }

  /** A chunk as `initialize_iovec` leaves it, apart from the bytes it does not touch. */
  predicate Initialised(chunk: seq<byte>, pos: nat, msg: Option<seq<byte>>, h: bool) {
    && |chunk| == CHUNK_SZ
    && match msg
       case None => ZeroFrom(chunk, 0)
       case Some(text) =>
         && PayloadPlaced(chunk, pos, text, h)
         && (pos > 0 ==> ZeroFrom(chunk, Before(h) + |text| - pos * CHUNK_SZ))
  }

  method InitializeIovec(iov: Iovec, amount: nat, pos: nat, msg: Option<seq<byte>>, h: bool)
    requires iov.base.Length == CHUNK_SZ
    requires msg.Some? ==>
      && pos < amount == ChunkCount(RequestSize(|msg.value|, h))
      && iov.len == ChunkLen(amount, pos, RequestSize(|msg.value|, h))
      && PaddingDefined(|msg.value|, h)
    modifies iov.base
    ensures Initialised(iov.base[..], pos, msg, h)
    ensures msg.Some? ==> forall o :: 0 <= o < CHUNK_SZ && pos * CHUNK_SZ + o < Before(h) ==> iov.base[o] == old(iov.base[o])
    ensures msg.Some? && pos == 0 ==>
      forall o :: 0 <= o < CHUNK_SZ && Before(h) + |msg.value| <= o ==>
        iov.base[o] == if o < 2 * Before(h) + |msg.value| then old(iov.base[o]) else 0
  {
    match msg
    case Some(text) =>
      var len := iov.len;
      var offsetS := pos * CHUNK_SZ;
      var offsetIov := 0;
      if h {
        offsetS := offsetS - if pos != 0 then 8 else 0;
        offsetIov := offsetIov + if pos == 0 then 8 else 0;
        if pos == amount - 1 {
          len := len - 1;
        }
      }
      MemCpy(iov.base, offsetIov, text, offsetS, len - offsetIov);
      if len < CHUNK_SZ {
        MemSetZero(iov.base, offsetIov + len, CHUNK_SZ - (len + offsetIov));
      }
    case None =>
      MemSetZero(iov.base, 0, CHUNK_SZ);
  }

  /** The loop of `set_request` over its iovecs. */
  method MakeIovecs(amount: nat, size: nat, m: Option<seq<byte>>, h: bool) returns (iovs: seq<Iovec>)
    requires amount == ChunkCount(size)
    requires m.Some? ==> size == RequestSize(|m.value|, h) && PaddingDefined(|m.value|, h)
    ensures Separate(iovs) && Lens(iovs) == ChunkLens(size)
    ensures forall i :: 0 <= i < |iovs| ==> fresh(iovs[i].base) && Initialised(iovs[i].base[..], i, m, h)
  {
    iovs := [];
    for i := 0 to amount
      invariant |iovs| == i && Separate(iovs)
      invariant forall k :: 0 <= k < i ==> iovs[k].len == ChunkLen(amount, k, size)
      invariant forall k :: 0 <= k < i ==> fresh(iovs[k].base) && Initialised(iovs[k].base[..], k, m, h)
    {
      var iov := AllocateIovec(amount, i, size);
      InitializeIovec(iov, amount, i, m, h);
      iovs := iovs + [iov];
    }
  }

  /**
   `set_request`. A null `r` starts an idle request; otherwise the socket, the
   pending message and the cursor are taken over from it.
   */
  method SetRequest(r: Request?, s: nat, m: Option<seq<byte>>, h: bool) returns (req: Request)
    requires m.Some? ==> |m.value| == s && PaddingDefined(s, h)
    ensures fresh(req) && Separate(req.iov) && Lens(req.iov) == ChunkLens(RequestSize(s, h))
    ensures forall i :: 0 <= i < |req.iov| ==> fresh(req.iov[i].base) && Initialised(req.iov[i].base[..], i, m, h)
    ensures r == null ==> req.prev == null && req.prevSize == 0 && req.prevRemain == 0 && req.nextIov == 0 && req.nextOffset == 0
    ensures r != null ==>
      && req.clientSocket == r.clientSocket && req.eventType == r.eventType
      && req.prev == r.prev && req.prevSize == r.prevSize && req.prevRemain == r.prevRemain
      && req.nextIov == r.nextIov && req.nextOffset == r.nextOffset
  {
    var size := if h then s + (8 + 1) else s;
    var amount := size / CHUNK_SZ;
    amount := amount + if size % CHUNK_SZ == 0 then 0 else 1;
    req := new Request();
    if r != null {
      req.clientSocket, req.eventType := r.clientSocket, r.eventType;
      req.prev, req.prevSize, req.prevRemain := r.prev, r.prevSize, r.prevRemain;
      req.nextIov, req.nextOffset := r.nextIov, r.nextOffset;
    }
    req.iov := MakeIovecs(amount, size, m, h);
  }
}
