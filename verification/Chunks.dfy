/** How a size is split over 8192-byte iovecs. */
module Chunks {
  import opened Bytes

  const CHUNK_SZ := 8192

  /** Number of iovecs `set_request` allocates for a size. */
  function ChunkCount(size: nat): nat {
    size / CHUNK_SZ + if size % CHUNK_SZ == 0 then 0 else 1
  }

  /** `iov_len` of one of `amount` iovecs, as `allocate_iovec` computes it. */
  function ChunkLen(amount: nat, pos: nat, size: nat): nat {
    var len := if pos == amount - 1 then size % CHUNK_SZ else CHUNK_SZ;
    if len == 0 then CHUNK_SZ else len
  }

  function ChunkLens(size: nat): (lens: seq<nat>)
    ensures |lens| == ChunkCount(size)
  {
    seq(ChunkCount(size), i requires 0 <= i => ChunkLen(ChunkCount(size), i, size))
  }

  /** Bytes in use in iovecs `lo` up to `hi`. */
  function Avail(lens: seq<nat>, lo: nat, hi: nat): nat
    requires hi <= |lens|
  {
    if hi <= lo then 0 else Avail(lens, lo, hi - 1) + lens[hi - 1]
  }

  /** Those bytes, in order. */
  function Flat(bufs: seq<seq<byte>>, lens: seq<nat>, lo: nat, hi: nat): (data: seq<byte>)
    requires hi <= |lens| == |bufs|
    requires forall k :: 0 <= k < |lens| ==> lens[k] <= |bufs[k]|
    ensures |data| == Avail(lens, lo, hi)
  {
    if hi <= lo then [] else Flat(bufs, lens, lo, hi - 1) + bufs[hi - 1][..lens[hi - 1]]
  }

  function Sum(lens: seq<nat>): nat {
    Avail(lens, 0, |lens|)
  }

  lemma {:induction false} AvailGrows(lens: seq<nat>, lo: nat, i: nat)
    requires lo < i <= |lens|
    ensures lens[lo] <= Avail(lens, lo, i)
  {
    if lo + 1 < i {
      AvailGrows(lens, lo, i - 1);
    }
  }

  lemma {:induction false} AvailOfFull(lens: seq<nat>, n: nat)
    requires n <= |lens| && forall i :: 0 <= i < n ==> lens[i] == CHUNK_SZ
    ensures Avail(lens, 0, n) == n * CHUNK_SZ
  {
    if n > 0 {
      AvailOfFull(lens, n - 1);
    }
  }

  lemma SumAllButLastFull(lens: seq<nat>)
    requires lens != [] && forall i :: 0 <= i < |lens| - 1 ==> lens[i] == CHUNK_SZ
    ensures Sum(lens) == (|lens| - 1) * CHUNK_SZ + lens[|lens| - 1]
  {
    AvailOfFull(lens, |lens| - 1);
  }

  /** When only the last iovec may be short, byte `k` of the data is byte `k % CHUNK_SZ` of chunk `k / CHUNK_SZ`. */
  lemma {:induction false} FlatAt(bufs: seq<seq<byte>>, lens: seq<nat>, n: nat, k: nat)
    requires n <= |lens| == |bufs|
    requires forall i :: 0 <= i < |lens| ==> lens[i] <= CHUNK_SZ == |bufs[i]|
    requires forall i :: 0 <= i < n - 1 ==> lens[i] == CHUNK_SZ
    requires k < Avail(lens, 0, n)
    ensures k / CHUNK_SZ < n
    ensures Flat(bufs, lens, 0, n)[k] == bufs[k / CHUNK_SZ][k % CHUNK_SZ]
  {
    AvailOfFull(lens, n - 1);
    if k < (n - 1) * CHUNK_SZ {
      FlatAt(bufs, lens, n - 1, k);
    } else {
      assert k / CHUNK_SZ == n - 1;
    }
  }

  /** The iovecs hold exactly the size asked for, and none is empty or too long. */
  lemma ExactCapacity(size: nat)
    ensures Sum(ChunkLens(size)) == size
    ensures forall len :: len in ChunkLens(size) ==> 1 <= len <= CHUNK_SZ
  {
    if size > 0 {
      SumAllButLastFull(ChunkLens(size));
    }
  }

  /** What `handle_read` stores in the last `iov_len` for a completion of `bytes` bytes. */
  function LastBytes(bytes: nat): nat {
    if bytes % CHUNK_SZ == 0 then CHUNK_SZ else bytes % CHUNK_SZ
  }

  /** The iovec lengths `read_chunk` sees for a read of `capacity` bytes that returned `bytes`. */
  function AdjustedLens(capacity: nat, bytes: nat): (lens: seq<nat>)
    requires capacity > 0
    ensures |lens| == ChunkCount(capacity) > 0
  {
    var lens := ChunkLens(capacity);
    lens[|lens| - 1 := LastBytes(bytes)]
  }

  /** A completion reaches into the last iovec. */
  predicate FillsAllButLast(capacity: nat, bytes: nat) {
    (ChunkCount(capacity) - 1) * CHUNK_SZ < bytes
  }

  /** Only the last length is adjusted, so the lengths add up to the bytes received iff the last iovec was reached. */
  lemma AdjustedLensExact(capacity: nat, bytes: nat)
    requires 0 < bytes <= capacity
    ensures Sum(AdjustedLens(capacity, bytes)) == bytes <==> FillsAllButLast(capacity, bytes)
  {
    SumAllButLastFull(AdjustedLens(capacity, bytes));
  }
}
