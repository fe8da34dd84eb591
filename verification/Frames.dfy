/**
 The wire format: 8 bytes of little-endian length L, L payload bytes and one
 terminator byte, and a reference parser for a buffer of whole frames.
 */
module Frames {
  import opened Bytes

  datatype Frame = Frame(payload: seq<byte>, terminator: byte)

  function Encode(f: Frame): (w: seq<byte>)
    ensures |w| == |f.payload| + HEADER + 1
  {
    ToBytes(|f.payload|, HEADER) + f.payload + [f.terminator]
  }

  function Wire(fs: seq<Frame>): seq<byte> {
    if fs == [] then [] else Encode(fs[0]) + Wire(fs[1..])
  }

  function Payloads(fs: seq<Frame>): (ps: seq<seq<byte>>)
    ensures |ps| == |fs| && forall i :: 0 <= i < |fs| ==> ps[i] == fs[i].payload
  {
    seq(|fs|, i requires 0 <= i < |fs| => fs[i].payload)
  }

  /** The length field at the start of a buffer. */
  function Header(buf: seq<byte>): nat
    requires HEADER <= |buf|
  {
    LittleEndian(buf[..HEADER])
  }

  /**
   The reference parse of a buffer: the payloads of its frames, or None when a
   frame is cut before the end of its payload. Only the terminator of the last
   frame may be missing.
   */
  function Parse(buf: seq<byte>): Option<seq<seq<byte>>>
    decreases |buf|
  {
    if |buf| < HEADER || |buf| < HEADER + Header(buf) then None
    else
      var end := HEADER + Header(buf);
      if |buf| <= end + 1 then Some([buf[HEADER..end]])
      else match Parse(buf[end + 1..])
        case None => None
        case Some(ps) => Some([buf[HEADER..end]] + ps)
  }

  predicate Sendable(f: Frame) {
    |f.payload| < SIZE_T_RANGE
  }

  lemma EncodeHeader(f: Frame, rest: seq<byte>)
    requires Sendable(f)
    ensures var buf := Encode(f) + rest;
      Header(buf) == |f.payload| && buf[HEADER..HEADER + |f.payload|] == f.payload
      && buf[HEADER + |f.payload| + 1..] == rest
  {
    var field := ToBytes(|f.payload|, HEADER);
    assert LittleEndian(field) == |f.payload| by { HeaderRoundTrip(|f.payload|); }
    assert (Encode(f) + rest)[..HEADER] == field;
  }

  lemma ParseOne(f: Frame, cut: nat)
    requires Sendable(f) && cut <= 1
    ensures Parse(Encode(f)[..|Encode(f)| - cut]) == Some([f.payload])
  {
    EncodeHeader(f, []);
    var w := Encode(f);
    assert w + [] == w;
    var buf := w[..|w| - cut];
    assert buf[..HEADER] == w[..HEADER];
    assert buf[HEADER..HEADER + |f.payload|] == w[HEADER..HEADER + |f.payload|];
  }

  lemma ParseCons(f: Frame, rest: seq<byte>)
    requires Sendable(f) && rest != [] && Parse(rest).Some?
    ensures Parse(Encode(f) + rest) == Some([f.payload] + Parse(rest).value)
  {
    EncodeHeader(f, rest);
  }

  /** Parsing inverts framing, with or without the last terminator. */
  lemma {:induction false} ParseWire(fs: seq<Frame>, cut: nat)
    requires fs != [] && cut <= 1
    requires forall f :: f in fs ==> Sendable(f)
    ensures |Wire(fs)| > cut
    ensures Parse(Wire(fs)[..|Wire(fs)| - cut]) == Some(Payloads(fs))
  {
    var f, tail := fs[0], fs[1..];
    assert fs == [f] + tail;
    WirePrepend(f, tail);
    if tail == [] {
      assert Wire(tail) == [];
      assert Encode(f) + [] == Encode(f);
      ParseOne(f, cut);
      assert Payloads(fs) == [f.payload];
    } else {
      ParseWire(tail, cut);
      var rest := Wire(tail)[..|Wire(tail)| - cut];
      assert Wire(fs)[..|Wire(fs)| - cut] == Encode(f) + rest;
      ParseCons(f, rest);
    }
  }

  /** `buf` frames `fs`, except that the last `cut` bytes are missing. */
  predicate IsFraming(buf: seq<byte>, fs: seq<Frame>, cut: nat) {
    fs != [] && cut <= 1 && cut <= |Wire(fs)| && buf == Wire(fs)[..|Wire(fs)| - cut]
  }

  /** Whatever parses is the framing of the payloads it parses to. */
  lemma {:induction false} ParseSound(buf: seq<byte>) returns (fs: seq<Frame>, cut: nat)
    requires Parse(buf).Some?
    ensures IsFraming(buf, fs, cut) && Parse(buf) == Some(Payloads(fs))
    decreases |buf|
  {
    var end := HEADER + Header(buf);
    if |buf| <= end + 1 {
      var f := Frame(buf[HEADER..end], if |buf| == end then 0 else buf[end]);
      fs, cut := [f], end + 1 - |buf|;
      LastFrame(buf, f, cut);
      assert Payloads(fs) == [f.payload];
    } else {
      var tail;
      tail, cut := ParseSound(buf[end + 1..]);
      var f := Frame(buf[HEADER..end], buf[end]);
      fs := [f] + tail;
      FrontFrame(buf, f, tail, cut);
    }
  }

  lemma WirePrepend(f: Frame, tail: seq<Frame>)
    ensures Wire([f] + tail) == Encode(f) + Wire(tail)
    ensures Payloads([f] + tail) == [f.payload] + Payloads(tail)
  {
    var all := [f] + tail;
    assert all[0] == f && all[1..] == tail;
    forall i | 0 <= i < |all|
      ensures Payloads(all)[i] == ([f.payload] + Payloads(tail))[i]
    {
      assert all[i] == if i == 0 then f else tail[i - 1];
    }
  }

  lemma LastFrame(buf: seq<byte>, f: Frame, cut: nat)
    requires HEADER <= |buf| && cut <= 1 && HEADER + Header(buf) + 1 == |buf| + cut
    requires f.payload == buf[HEADER..HEADER + Header(buf)]
    requires cut == 0 ==> f.terminator == buf[|buf| - 1]
    ensures IsFraming(buf, [f], cut)
  {
    WirePrepend(f, []);
    assert Wire([]) == [] && Wire([f]) == Encode(f);
    assert buf[..HEADER] == ToBytes(Header(buf), HEADER) by { EncodeDecoded(buf[..HEADER]); }
  }

  lemma FrontFrame(buf: seq<byte>, f: Frame, tail: seq<Frame>, cut: nat)
    requires HEADER <= |buf| && HEADER + Header(buf) < |buf|
    requires f == Frame(buf[HEADER..HEADER + Header(buf)], buf[HEADER + Header(buf)])
    requires IsFraming(buf[HEADER + Header(buf) + 1..], tail, cut)
    ensures IsFraming(buf, [f] + tail, cut)
    ensures Payloads([f] + tail) == [f.payload] + Payloads(tail)
  {
    WirePrepend(f, tail);
    assert buf[..HEADER] == ToBytes(Header(buf), HEADER) by { EncodeDecoded(buf[..HEADER]); }
    assert buf == Encode(f) + buf[HEADER + Header(buf) + 1..];
  }
}
