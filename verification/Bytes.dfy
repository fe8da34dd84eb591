/** Bytes, `size_t` arithmetic, the little-endian length field and C strings. */
module Bytes {

  newtype byte = b: int | 0 <= b < 256

  datatype Option<+T> = None | Some(value: T)

  /** The number of values of a 64-bit `size_t`. */
  const SIZE_T_RANGE := 0x1_0000_0000_0000_0000

  /** `sizeof(size_t)`: the length field in front of every message. */
  const HEADER := 8

  /** The C macro MIN. */
  function Min(a: nat, b: nat): nat {
    if a < b then a else b
  }

  /** `a - b` on `size_t`: wraps around below zero. */
  function SizeSub(a: nat, b: nat): nat {
    (a - b) % SIZE_T_RANGE
  }

  function LittleEndian(bs: seq<byte>): nat {
    if bs == [] then 0 else bs[0] as nat + 256 * LittleEndian(bs[1..])
  }

  function ToBytes(n: nat, k: nat): (bs: seq<byte>)
    ensures |bs| == k
  {
    if k == 0 then [] else [(n % 256) as byte] + ToBytes(n / 256, k - 1)
  }

  function Pow256(k: nat): nat {
    if k == 0 then 1 else 256 * Pow256(k - 1)
  }

  lemma {:induction false} DecodeEncoded(n: nat, k: nat)
    requires n < Pow256(k)
    ensures LittleEndian(ToBytes(n, k)) == n
  {
    if k != 0 {
      DecodeEncoded(n / 256, k - 1);
      assert ToBytes(n, k)[1..] == ToBytes(n / 256, k - 1);
    }
  }

  lemma {:induction false} EncodeDecoded(bs: seq<byte>)
    ensures LittleEndian(bs) < Pow256(|bs|)
    ensures ToBytes(LittleEndian(bs), |bs|) == bs
  {
    if bs != [] {
      EncodeDecoded(bs[1..]);
      var n := LittleEndian(bs);
      assert n / 256 == LittleEndian(bs[1..]) && n % 256 == bs[0] as nat;
    }
  }

  /** A length survives the 8-byte field exactly when it is a `size_t`. */
  lemma HeaderRoundTrip(n: nat)
    ensures n < SIZE_T_RANGE <==> LittleEndian(ToBytes(n, HEADER)) == n
  {
    assert Pow256(8) == 256 * (256 * (256 * (256 * (256 * (256 * (256 * 256))))));
    if n < SIZE_T_RANGE {
      DecodeEncoded(n, HEADER);
    } else {
      EncodeDecoded(ToBytes(n, HEADER));
    }
  }

  /** The bytes a C string function sees: everything before the first zero. */
  function CutAtZero(p: seq<byte>): seq<byte> {
    if p == [] || p[0] == 0 then [] else [p[0]] + CutAtZero(p[1..])
  }

  /** `strlen` loses nothing exactly when the payload holds no zero byte. */
  lemma {:induction false} CutAtZeroExact(p: seq<byte>)
    ensures CutAtZero(p) == p <==> 0 !in p
  {
    if p != [] {
      CutAtZeroExact(p[1..]);
      assert p == [p[0]] + p[1..];
      if p[0] != 0 && CutAtZero(p) == p {
        assert p[1..] == CutAtZero(p)[1..] == CutAtZero(p[1..]);
      }
    }
  }

  lemma {:induction false} CutAtTerminator(p: seq<byte>)
    ensures CutAtZero(p + [0]) == CutAtZero(p)
  {
    if p != [] {
      CutAtTerminator(p[1..]);
      assert (p + [0])[1..] == p[1..] + [0];
    }
  }

  /** libc `strlen`; the caller's buffer holds a terminator. */
  method StrLen(s: array<byte>) returns (len: nat)
    requires 0 in s[..]
    ensures len <= s.Length && s[..len] == CutAtZero(s[..])
  {
    len := 0;
    while s[len] != 0
      invariant len < s.Length && 0 in s[len..]
      invariant CutAtZero(s[..]) == s[..len] + CutAtZero(s[len..])
      decreases s.Length - len
    {
      assert s[len..][1..] == s[len + 1..];
      len := len + 1;
    }
    assert s[len..][0] == 0;
  }

  /** `data` continued with zero bytes to `total` bytes, or cut there. */
  function Stretch(data: seq<byte>, total: nat): (s: seq<byte>)
    ensures |s| == total
    ensures forall k :: 0 <= k < total ==> s[k] == ByteAt(data, k)
  {
    seq(total, k requires 0 <= k => ByteAt(data, k))
  }

  function ByteAt(data: seq<byte>, k: nat): byte {
    if k < |data| then data[k] else 0
  }

  lemma Associates<T>(a: seq<T>, b: seq<T>, c: seq<T>)
    ensures (a + b) + c == a + (b + c)
  {
  }

  function Concat(ss: seq<seq<byte>>): seq<byte> {
    if ss == [] then [] else ss[0] + Concat(ss[1..])
  }
}
