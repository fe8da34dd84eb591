/** From `saurion_send` to `on_readed`: the layout of a sent message, and when it comes back unchanged. */
module RoundTrip {
  import opened Bytes
  import opened Chunks
  import opened Frames
  import opened ReadSpec
  import opened FreshReads
  import opened Reassembly
  import opened Requests

  /** `add_write`: the request for a string, to be written with `writev`. */
  method AddWrite(fd: int, str: seq<byte>) returns (req: Request)
    requires PaddingDefined(|str|, true)
    ensures fresh(req) && Separate(req.iov) && Lens(req.iov) == ChunkLens(RequestSize(|str|, true))
    ensures forall i :: 0 <= i < |req.iov| ==> Initialised(req.iov[i].base[..], i, Some(str), true)
    ensures req.eventType == Write && req.clientSocket == fd
  {
    req := SetRequest(null, |str|, Some(str), true);
    req.eventType := Write;
    req.clientSocket := fd;
  }

  /** Chunks as `set_request` leaves them for a message with header and terminator. */
  predicate Laid(bufs: seq<seq<byte>>, text: seq<byte>) {
    && |bufs| == ChunkCount(RequestSize(|text|, true))
    && forall i :: 0 <= i < |bufs| ==> Initialised(bufs[i], i, Some(text), true)
  }

  /** The bytes `writev` takes from those chunks. */
  function Sent(bufs: seq<seq<byte>>, text: seq<byte>): seq<byte>
    requires Laid(bufs, text)
  {
    ExactCapacity(RequestSize(|text|, true));
    var lens := ChunkLens(RequestSize(|text|, true));
    assert forall k :: 0 <= k < |lens| ==> lens[k] in lens;
    Flat(bufs, lens, 0, |bufs|)
  }

  /** Payload byte `j` lies in chunk `(j + 8) / CHUNK_SZ` at offset `(j + 8) % CHUNK_SZ`, inside the part in use. */
  lemma PayloadPlace(bufs: seq<seq<byte>>, text: seq<byte>, j: nat)
    requires Laid(bufs, text) && j < |text|
    ensures var i, o := (j + HEADER) / CHUNK_SZ, (j + HEADER) % CHUNK_SZ;
      i < |bufs| && o < ChunkLen(|bufs|, i, RequestSize(|text|, true)) && bufs[i][o] == text[j]
  {
    var i, o := (j + HEADER) / CHUNK_SZ, (j + HEADER) % CHUNK_SZ;
    assert i * CHUNK_SZ + o == j + HEADER;
    assert Initialised(bufs[i], i, Some(text), true);
  }

  /**
   Header bytes, the message, one terminator, in this order and nothing else;
   the terminator is written if there are two chunks.
   */
  lemma SentLayout(bufs: seq<seq<byte>>, text: seq<byte>)
    requires Laid(bufs, text)
    ensures var w := Sent(bufs, text);
      && |w| == HEADER + |text| + 1
      && w[..HEADER] == bufs[0][..HEADER]
      && w[HEADER..HEADER + |text|] == text
      && (|bufs| >= 2 ==> w[HEADER + |text|] == 0)
  {
    var size := RequestSize(|text|, true);
    var lens := ChunkLens(size);
    var w := Sent(bufs, text);
    ExactCapacity(size);
    forall k | 0 <= k < size
      ensures k / CHUNK_SZ < |bufs| && w[k] == bufs[k / CHUNK_SZ][k % CHUNK_SZ]
    {
      FlatAt(bufs, lens, |bufs|, k);
    }
    forall j | 0 <= j < |text|
      ensures w[HEADER + j] == text[j]
    {
      PayloadPlace(bufs, text, j);
    }
    if |bufs| >= 2 {
      var last := |bufs| - 1;
      var k := HEADER + |text|;
      assert k / CHUNK_SZ == last && last * CHUNK_SZ + k % CHUNK_SZ == k;
      assert Initialised(bufs[last], last, Some(text), true);
    }
  }

  /** With the length in the reserved bytes, what is sent is a frame. */
  lemma SentIsFrame(bufs: seq<seq<byte>>, text: seq<byte>)
    requires Laid(bufs, text) && bufs[0][..HEADER] == ToBytes(|text|, HEADER)
    ensures |Sent(bufs, text)| == HEADER + |text| + 1
    ensures Sent(bufs, text) == Encode(Frame(text, Sent(bufs, text)[HEADER + |text|]))
  {
    SentLayout(bufs, text);
    var w := Sent(bufs, text);
    assert w == w[..HEADER] + w[HEADER..HEADER + |text|] + [w[HEADER + |text|]];
  }

  /**
   The first read takes all it has room for; a frame that does not fit is
   completed, up to its payload's last byte, by reads that fill all but their
   last chunk.
   */
  predicate FullFirstRead(w: seq<byte>, arrivals: seq<seq<byte>>)
    requires |w| > HEADER
  {
    if |w| <= CHUNK_SZ then arrivals == [w]
    else
      && arrivals != [] && arrivals[0] == w[..CHUNK_SZ]
      && Concat(arrivals) == w[..|w| - 1]
      && FillingReads(|w| - 1 - CHUNK_SZ, arrivals[1..])
  }

  /**
   A sent string arrives as it was, in one call, iff its frame's end does not
   fall within the eight bytes behind a full first read. If it does, the first
   `read_chunk` copies what has arrived, counts the message as done, and keeps
   no state for the rest.
   */
  lemma RoundTripExact(bufs: seq<seq<byte>>, text: seq<byte>, arrivals: seq<seq<byte>>, v: View)
    requires Laid(bufs, text) && bufs[0][..HEADER] == ToBytes(|text|, HEADER)
    requires |text| < SIZE_T_RANGE && 0 !in text
    requires |Sent(bufs, text)| > HEADER && FullFirstRead(Sent(bufs, text), arrivals)
    requires SeesFresh(v, arrivals[0], 0)
    ensures v.Readable()
    ensures v.Gathered() == text || v.After().Continues() <==> |text| <= CHUNK_SZ - 8 || |text| > CHUNK_SZ
    ensures |text| <= CHUNK_SZ - 8 || |text| > CHUNK_SZ ==> ProperRun(Fresh, arrivals) && Run(Fresh, arrivals) == (Fresh, [text])
    ensures CHUNK_SZ - 8 < |text| <= CHUNK_SZ ==> v.Gathered() == text[..CHUNK_SZ - 8] && !v.Splits() && v.After() == IDLE
  {
    SentIsFrame(bufs, text);
    var w := Sent(bufs, text);
    var f := Frame(text, w[HEADER + |text|]);
    FullReadIsCut(f, arrivals);
    FirstCutExact(v, f, Min(|w|, CHUNK_SZ));
    FullReadDelivered(f, arrivals);
  }

  lemma FullReadIsCut(f: Frame, arrivals: seq<seq<byte>>)
    requires FullFirstRead(Encode(f), arrivals)
    ensures arrivals != [] && arrivals[0] == Encode(f)[..Min(|Encode(f)|, CHUNK_SZ)]
  {
  }

  /** A frame whose payload ends in a full first read, or is longer than it, is delivered whole. */
  lemma FullReadDelivered(f: Frame, arrivals: seq<seq<byte>>)
    requires Sendable(f) && 0 !in f.payload && FullFirstRead(Encode(f), arrivals)
    ensures |f.payload| <= CHUNK_SZ - 8 || |f.payload| > CHUNK_SZ ==>
      ProperRun(Fresh, arrivals) && Run(Fresh, arrivals) == (Fresh, [f.payload])
  {
    var w := Encode(f);
    if |f.payload| <= CHUNK_SZ - 8 {
      WholeFirstRead(f, arrivals, |w| - Min(|w|, CHUNK_SZ));
    } else if |f.payload| > CHUNK_SZ {
      assert w[..|w| - 1] == ToBytes(|f.payload|, HEADER) + f.payload;
      Reassembled(f, arrivals);
    }
  }

  /** What `on_readed` is then told starts like the string, and goes on with whatever the buffer held. */
  lemma CutShortReported(bufs: seq<seq<byte>>, text: seq<byte>, arrivals: seq<seq<byte>>, calls: seq<seq<byte>>)
    requires Laid(bufs, text) && bufs[0][..HEADER] == ToBytes(|text|, HEADER)
    requires CHUNK_SZ - 8 < |text| <= CHUNK_SZ && 0 !in text
    requires |Sent(bufs, text)| > HEADER && FullFirstRead(Sent(bufs, text), arrivals)
    ensures Received(Fresh, arrivals[0])
    ensures Outcome(Fresh, arrivals[0], calls) ==>
      |calls| == 1 && text[..CHUNK_SZ - 8] <= calls[0] && |calls[0]| <= |text|
    ensures Next(Fresh, arrivals[0]) == Fresh
  {
    SentIsFrame(bufs, text);
    var w := Sent(bufs, text);
    var f := Frame(text, w[HEADER + |text|]);
    assert arrivals[0] == Encode(f)[..CHUNK_SZ];
    CutFirstWhole(f, CHUNK_SZ);
    CutFrameHeader(f, CHUNK_SZ);
    assert arrivals[0][0..] == arrivals[0];
  }

  /** A frame whose payload ends in the first read. */
  lemma WholeFirstRead(f: Frame, arrivals: seq<seq<byte>>, cut: nat)
    requires Sendable(f) && 0 !in f.payload && cut <= 1
    requires FullFirstRead(Encode(f), arrivals) && |Encode(f)| == Min(|Encode(f)|, CHUNK_SZ) + cut
    ensures ProperRun(Fresh, arrivals) && Run(Fresh, arrivals) == (Fresh, [f.payload])
  {
    var w := Encode(f);
    var data := w[..|w| - cut];
    if cut == 0 {
      assert data == w;
    } else {
      assert arrivals[1..] == [] && arrivals == [arrivals[0]] + arrivals[1..];
    }
    assert arrivals == [data];
    WirePrepend(f, []);
    assert [f] + [] == [f] && w + Wire([]) == w;
    BatchDelivered([f], cut);
    BatchExact([f]);
    assert Payloads([f]) == [f.payload];
    RunOne(Fresh, data);
  }
}
