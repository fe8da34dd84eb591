/** The terminator a long frame leaves in the stream, and what may come behind it in the same read. */
module Terminators {
  import opened Bytes
  import opened Chunks
  import opened Frames
  import opened ReadSpec
  import opened Reassembly

  /** 256 to the power of 7: what fits in front of the last byte of a length field. */
  const LOW_RANGE := 0x100_0000_0000_0000

  lemma TimesAssociates(p: nat, x: nat)
    ensures 256 * (p * x) == (256 * p) * x
  {
  }

  lemma {:induction false} LittleEndianSplit(a: seq<byte>, b: seq<byte>)
    ensures LittleEndian(a + b) == LittleEndian(a) + Pow256(|a|) * LittleEndian(b)
  {
    if a == [] {
      assert a + b == b;
    } else {
      LittleEndianSplit(a[1..], b);
      TimesAssociates(Pow256(|a| - 1), LittleEndian(b));
      assert (a + b)[1..] == a[1..] + b && (a + b)[0] == a[0];
    }
  }

  lemma LowRange()
    ensures Pow256(7) == LOW_RANGE
  {
    assert Pow256(7) == 256 * (256 * (256 * (256 * (256 * (256 * 256)))));
  }

  lemma SevenAndOne(field: seq<byte>)
    requires |field| == HEADER
    ensures LittleEndian(field) == LittleEndian(field[..7]) + LOW_RANGE * (field[7] as nat)
    ensures LittleEndian(field[..7]) < LOW_RANGE
  {
    LowRange();
    assert field == field[..7] + [field[7]];
    LittleEndianSplit(field[..7], [field[7]]);
    assert [field[7]][1..] == [];
    EncodeDecoded(field[..7]);
  }

  /** The first seven bytes of a length field hold the length without its last byte. */
  lemma LowBytes(n: nat)
    requires n < SIZE_T_RANGE
    ensures LittleEndian(ToBytes(n, HEADER)[..7]) == n % LOW_RANGE
  {
    HeaderRoundTrip(n);
    SevenAndOne(ToBytes(n, HEADER));
  }

  /** A late terminator with the beginning of a frame behind it. */
  function Behind(g: Frame, cut: nat): (data: seq<byte>)
    requires cut <= |Encode(g)|
    ensures |data| == cut + 1
  {
    [0] + Encode(g)[..cut]
  }

  /** The length field is then read one byte early: it is 256 times the frame's length. */
  lemma ReadEarly(g: Frame, cut: nat)
    requires Sendable(g) && 7 <= cut <= |Encode(g)|
    ensures Header(Behind(g, cut)) == 256 * (|g.payload| % LOW_RANGE)
  {
    var field := ToBytes(|g.payload|, HEADER);
    assert Behind(g, cut)[..HEADER] == [0] + field[..7];
    assert ([0] + field[..7])[1..] == field[..7];
    LowBytes(|g.payload|);
  }

  /** A call on such a read never finds the frame: its cursor does not come to stand behind the terminator. */
  lemma FrameNotFound(v: View, g: Frame, cut: nat)
    requires Sendable(g) && 7 <= cut <= |Encode(g)|
    requires SeesFresh(v, Behind(g, cut), 0)
    ensures v.Readable() && v.Length() == 256 * (|g.payload| % LOW_RANGE)
    ensures v.After().nextOffset != 1
    ensures v.Splits() <==> 256 * (|g.payload| % LOW_RANGE) > cut + 1
  {
    ReadEarly(g, cut);
    FreshBuffer(v, Behind(g, cut), 0);
    StepOnOneIovec(v.control, cut + 1, v.Length());
  }

  /**
   A whole frame behind a late terminator is not reported: its bytes become the
   start of a message 256 times as long, which the connection then waits for.
   */
  lemma FrameSwallowed(g: Frame)
    requires g.payload != [] && 1 + |Encode(g)| <= CHUNK_SZ
    ensures var data := [0] + Encode(g);
      Proper(Fresh, data) && Step(Fresh, data) == (Partial(data[HEADER..], 256 * |g.payload|), [])
  {
    ReadEarly(g, |Encode(g)|);
    assert Behind(g, |Encode(g)|) == [0] + Encode(g);
  }

  /** The reads if the terminator arrives alone. */
  function Apart(tail: seq<byte>): seq<seq<byte>> {
    if tail == [] then [[0]] else [[0], tail]
  }

  /** The read leaves the connection as if the terminator had arrived alone, and reports the same messages. */
  predicate AsIfApart(tail: seq<byte>) {
    && Proper(Fresh, [0] + tail) && ProperRun(Fresh, Apart(tail))
    && Step(Fresh, [0] + tail).0 == After(Fresh, Apart(tail))
    && NonEmpty(Step(Fresh, [0] + tail).1) == NonEmpty(Calls(Fresh, Apart(tail)))
  }

  lemma ApartRun(tail: seq<byte>)
    requires tail != []
    ensures ProperRun(Fresh, Apart(tail)) <==> Proper(Fresh, tail)
    ensures Proper(Fresh, tail) ==> After(Fresh, Apart(tail)) == Step(Fresh, tail).0
    ensures Proper(Fresh, tail) ==> NonEmpty(Calls(Fresh, Apart(tail))) == NonEmpty(Step(Fresh, tail).1)
  {
    assert Apart(tail)[1..] == [tail];
    assert Step(Fresh, [0]) == (Fresh, [[]]);
    assert [tail][1..] == [];
    if Proper(Fresh, tail) {
      RunOne(Fresh, tail);
      var calls := Step(Fresh, tail).1;
      assert Calls(Fresh, Apart(tail)) == [[]] + calls && ([[]] + calls)[1..] == calls;
    }
  }

  /** The bytes behind a late terminator: the beginning of a stream whose first frame is `g`. */
  predicate StartsWith(tail: seq<byte>, g: Frame) {
    tail <= Encode(g) || Encode(g) <= tail
  }

  /**
   A late terminator and what follows it in the stream are handled as what they
   are iff nothing of the next frame with a payload is in the read.
   */
  lemma LateTerminatorExact(g: Frame, tail: seq<byte>)
    requires Sendable(g) && g.payload != [] && StartsWith(tail, g) && |tail| + 1 <= CHUNK_SZ
    ensures AsIfApart(tail) <==> tail == []
  {
    if tail == [] {
      assert [0] + tail == [0] && Apart(tail)[1..] == [];
      RunOne(Fresh, [0]);
    } else {
      ApartRun(tail);
      if tail <= Encode(g) {
        assert tail == Encode(g)[..|tail|];
        if HEADER <= |tail| && Proper(Fresh, [0] + tail) && Proper(Fresh, tail) {
          ApartStates(g, |tail|);
        }
      } else if Proper(Fresh, [0] + tail) && Proper(Fresh, tail) {
        LateFrames(g, tail);
      }
    }
  }

  /** Part of the frame: the states left behind differ. */
  lemma ApartStates(g: Frame, cut: nat)
    requires Sendable(g) && g.payload != [] && HEADER <= cut <= |Encode(g)| && cut + 1 <= CHUNK_SZ
    requires Proper(Fresh, Behind(g, cut)) && Proper(Fresh, Encode(g)[..cut])
    ensures Step(Fresh, Behind(g, cut)).0 != Step(Fresh, Encode(g)[..cut]).0
  {
    ReadEarly(g, cut);
    CutFrameHeader(g, cut);
  }

  lemma WholeFrameHeaders(g: Frame, tail: seq<byte>)
    requires g.payload != [] && Encode(g) <= tail && |tail| + 1 <= CHUNK_SZ
    ensures Header(tail) == |g.payload| && tail[HEADER..HEADER + |g.payload|] == g.payload
    ensures Header([0] + tail) == 256 * |g.payload| && ([0] + tail)[HEADER] == 0
  {
    var size := |Encode(g)|;
    EncodeHeader(g, tail[size..]);
    assert tail == Encode(g) + tail[size..];
    ReadEarly(g, size);
    assert Behind(g, size) == [0] + Encode(g);
    assert ([0] + tail)[..HEADER] == ([0] + Encode(g))[..HEADER];
    var field := ToBytes(|g.payload|, HEADER);
    HeaderRoundTrip(|g.payload|);
    SevenAndOne(field);
    assert ([0] + tail)[HEADER] == field[7];
  }

  /** The whole frame and more: the states differ, or the first message that is reported does. */
  lemma LateFrames(g: Frame, tail: seq<byte>)
    requires g.payload != [] && Encode(g) <= tail && |tail| + 1 <= CHUNK_SZ
    requires Proper(Fresh, [0] + tail) && Proper(Fresh, tail)
    ensures !AsIfApart(tail)
  {
    var data := [0] + tail;
    WholeFrameHeaders(g, tail);
    ApartRun(tail);
    if Header(data) <= |data| {
      DeliverFront(tail);
      DeliverFront(data);
      assert NonEmpty(Calls(Fresh, Apart(tail)))[0] == g.payload;
      var first := data[HEADER..HEADER + Header(data)];
      assert first[0] == 0 && |first| > |g.payload|;
    }
  }
}
