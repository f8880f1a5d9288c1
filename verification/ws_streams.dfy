/**
  Streams of frames: chunk independence of the receiver, and what it delivers.
*/
module Streams {
  import opened Bytes
  import opened Masking
  import opened FrameHeader
  import opened SessionState
  import opened Sender
  import opened Receiver

  // ----- Any number of reads

  /** One read event: the new bytes join what the last read left over. */
  function Feed(e: Env, r: Reading, chunk: seq<byte>): (r': Reading)
    requires Sound(r.conn)
    ensures Sound(r'.conn)
  {
    ReadWebsocket(e, r.conn, r.left + chunk)
  }

  function Feeds(e: Env, c: Conn, chunks: seq<seq<byte>>): (r: Reading)
    requires Sound(c)
    ensures Sound(r.conn)
  {
    if chunks == [] then Reading(c, [])
    else Feed(e, Feeds(e, c, chunks[..|chunks| - 1]), chunks[|chunks| - 1])
  }

  /** Reads that each stop at a clean place do together what one read of everything does. */
  lemma {:induction false} CleanFeeds(e: Env, c: Conn, chunks: seq<seq<byte>>)
    requires Sound(c)
    requires forall i | 0 <= i <= |chunks| :: Clean(e, c, Concat(chunks[..i]))
    ensures Feeds(e, c, chunks) == ReadWebsocket(e, c, Concat(chunks))
  {
    if chunks != [] {
      var n := |chunks| - 1;
      forall i | 0 <= i <= n
        ensures Clean(e, c, Concat(chunks[..n][..i]))
      {
        assert chunks[..n][..i] == chunks[..i];
      }
      CleanFeeds(e, c, chunks[..n]);
      assert chunks[..n + 1] == chunks;
      assert Clean(e, c, Concat(chunks[..n])) && Clean(e, c, Concat(chunks[..n + 1]));
      CleanResumes(e, c, Concat(chunks[..n]), chunks[n]);
    }
  }

  // ----- One frame

  /** Between frames. */
  predicate Boundary(c: Conn) {
    Sound(c) && c.out.bev && !c.rx.hasHeader
  }

  /** The session after the header of `f` was read. */
  function Opened(e: Env, c: Conn, f: Frame): (r: Conn) {
    HandleFrameBegin(Conn(c.out.(hdr := HeaderOf(e.lenField, f)), c.rx.(hasHeader := true)))
  }

  /** The session after all of `f` was read. */
  function Accept(e: Env, c: Conn, f: Frame): (r: Conn) {
    Finish(e, Absorb(Opened(e, c, f), f.payload))
  }

  /** The session takes the header of `f` in its present state. */
  predicate HeadFine(e: Env, c: Conn, f: Frame) {
    && |f.payload| < Limit(e.lenField) && |f.payload| <= MAX_PAYLOAD_LEN
    && ValidHeader(e, c.rx.inMsg, HeaderOf(e.lenField, f))
    && (IsControl(f.opcode) ==> |f.payload| <= CONTROL_MAX)
  }

  /** The session takes all of `f` without complaint. */
  predicate FrameFine(e: Env, c: Conn, f: Frame) {
    HeadFine(e, c, f) && (f.payload != [] ==> TextFine(Opened(e, c, f), f.payload))
  }

  /** A header the session accepts is read off the input whole, whatever follows it. */
  lemma HeadRead(e: Env, c: Conn, f: Frame, rest: seq<byte>)
    requires Boundary(c) && ValidHeader(e, c.rx.inMsg, HeaderOf(e.lenField, f))
    requires HeaderOf(e.lenField, f).payloadLen <= MAX_PAYLOAD_LEN
    ensures var h := HeaderOf(e.lenField, f);
            && !NeedsMore(e, HeaderBytes(h) + rest) && WholeHeader(e, HeaderBytes(h) + rest)
            && ReadHeader(e, c, HeaderBytes(h) + rest) == Go(Opened(e, c, f), HeaderSize(h))
  {
    RoundTripExact(e.lenField, HeaderOf(e.lenField, f), rest, e.stale);
  }

  lemma EncodeHead(e: Env, c: Conn, f: Frame, rest: seq<byte>)
    requires Boundary(c) && HeadFine(e, c, f)
    ensures var h := HeaderOf(e.lenField, f);
            && !NeedsMore(e, HeaderBytes(h) + rest) && WholeHeader(e, HeaderBytes(h) + rest)
            && ReadHeader(e, c, HeaderBytes(h) + rest) == Go(Opened(e, c, f), HeaderSize(h))
  {
    HeadRead(e, c, f, rest);
  }

  lemma OpenedInFrame(e: Env, c: Conn, f: Frame)
    requires Boundary(c) && HeadFine(e, c, f)
    ensures var o := Opened(e, c, f);
            InFrame(o) && Sound(o) && Remaining(o) == |f.payload| && o.out.hdr == HeaderOf(e.lenField, f)
  {
    RemainingInFrame(Opened(e, c, f));
  }

  lemma UnmaskTwice(h: Header, p: seq<byte>)
    ensures Unmask(h, Unmask(h, p)) == p
  {
    if h.maskBit { MaskInvolutive(h.mask, p); }
  }

  lemma BodyOfFrame(e: Env, c: Conn, f: Frame, rest: seq<byte>)
    requires Boundary(c) && FrameFine(e, c, f)
    ensures var (o, p) := (Opened(e, c, f), Unmask(HeaderOf(e.lenField, f), f.payload));
            && Sound(o) && CleanBody(o, p + rest)
            && ReadBody(e, o, p + rest) == Reading(Accept(e, c, f), rest)
  {
    var h, o := HeaderOf(e.lenField, f), Opened(e, c, f);
    var p := Unmask(h, f.payload);
    OpenedInFrame(e, c, f);
    UnmaskTwice(h, f.payload);
    assert (p + rest)[..|p|] == p && (p + rest)[|p|..] == rest;
    CleanRead(e, o, p + rest);
  }

  lemma EncodeParts(w: LenField, f: Frame, rest: seq<byte>)
    ensures var h := HeaderOf(w, f);
            var input := Encode(w, f) + rest;
            && input == HeaderBytes(h) + (Unmask(h, f.payload) + rest)
            && input[HeaderSize(h)..] == Unmask(h, f.payload) + rest
  {
    ThreeParts(HeaderBytes(HeaderOf(w, f)), Unmask(HeaderOf(w, f), f.payload), rest);
  }

  lemma ThreeParts(a: seq<byte>, b: seq<byte>, c: seq<byte>)
    ensures a + b + c == a + (b + c) && (a + b + c)[|a|..] == b + c
  {
  }

  /** A frame at the front of the input is taken whole, and the loop goes on behind it. */
  lemma WholeFrame(e: Env, c: Conn, f: Frame, rest: seq<byte>)
    requires Boundary(c) && FrameFine(e, c, f)
    ensures Sound(Accept(e, c, f))
    ensures ReadWebsocket(e, c, Encode(e.lenField, f) + rest) == ReadWebsocket(e, Accept(e, c, f), rest)
    ensures Clean(e, c, Encode(e.lenField, f) + rest) <==> Clean(e, Accept(e, c, f), rest)
  {
    var h := HeaderOf(e.lenField, f);
    EncodeParts(e.lenField, f, rest);
    EncodeHead(e, c, f, Unmask(h, f.payload) + rest);
    BodyOfFrame(e, c, f, rest);
    TurnAtHeader(e, c, Encode(e.lenField, f) + rest, Opened(e, c, f), HeaderSize(h), Reading(Accept(e, c, f), rest));
  }

  // ----- A cut inside a frame

  /**
    The places strictly inside the encoding of `f` where a read may stop: anywhere in
    an unmasked header; not within the key of a masked one; in the payload, on a
    four-byte boundary if it is masked, and on a code point boundary if it is the
    final frame of a text message.
  */
  predicate CutFine(e: Env, c: Conn, f: Frame, k: nat)
    requires k < |Encode(e.lenField, f)|
  {
    var size := HeaderSize(HeaderOf(e.lenField, f));
    if k < size then f.key.Some? ==> k < size - 4
    else (f.key.Some? ==> (k - size) % 4 == 0) && TextFine(Opened(e, c, f), f.payload[..k - size])
  }

  lemma CutInHeader(e: Env, c: Conn, f: Frame, k: nat)
    requires Boundary(c) && FrameFine(e, c, f) && k < HeaderSize(HeaderOf(e.lenField, f))
    requires f.key.Some? ==> k < HeaderSize(HeaderOf(e.lenField, f)) - 4
    ensures Clean(e, c, Encode(e.lenField, f)[..k])
  {
    var h := HeaderOf(e.lenField, f);
    assert Encode(e.lenField, f)[..k] == HeaderBytes(h)[..k];
    NeedMoreExact(e.lenField, h, k, e.stale);
  }

  lemma UnmaskSlice(h: Header, p: seq<byte>, k: nat)
    requires k <= |p|
    ensures Unmask(h, p)[..k] == Unmask(h, p[..k])
  {
  }

  lemma CutInPayload(e: Env, c: Conn, f: Frame, j: nat, k: nat)
    requires Boundary(c) && FrameFine(e, c, f) && j < |f.payload| && k == HeaderSize(HeaderOf(e.lenField, f)) + j
    requires f.key.Some? ==> j % 4 == 0
    requires TextFine(Opened(e, c, f), f.payload[..j])
    ensures Clean(e, c, Encode(e.lenField, f)[..k])
    ensures ReadWebsocket(e, c, Encode(e.lenField, f)[..k]) == Reading(Absorb(Opened(e, c, f), f.payload[..j]), [])
  {
    var h, o := HeaderOf(e.lenField, f), Opened(e, c, f);
    var x := Unmask(h, f.payload)[..j];
    var input := Encode(e.lenField, f)[..k];
    assert input == HeaderBytes(h) + x && input[HeaderSize(h)..] == x;
    EncodeHead(e, c, f, x);
    OpenedInFrame(e, c, f);
    UnmaskSlice(h, f.payload, j);
    UnmaskTwice(h, f.payload[..j]);
    assert x[..j] == x;
    PartIsAbsorbed(e, o, x);
    TurnAtHeader(e, c, input, o, HeaderSize(h), ReadBody(e, o, x));
  }

  lemma CutClean(e: Env, c: Conn, f: Frame, k: nat)
    requires Boundary(c) && FrameFine(e, c, f) && k < |Encode(e.lenField, f)| && CutFine(e, c, f, k)
    ensures Clean(e, c, Encode(e.lenField, f)[..k])
  {
    var size := HeaderSize(HeaderOf(e.lenField, f));
    if k < size {
      CutInHeader(e, c, f, k);
    } else {
      CutInPayload(e, c, f, k - size, k);
    }
  }

  // ----- Streams of frames

  lemma PrefixOfConcat(a: seq<byte>, b: seq<byte>, k: nat)
    requires k <= |a + b|
    ensures (a + b)[..k] == if k < |a| then a[..k] else a + b[..k - |a|]
  {
  }

  function AcceptAll(e: Env, c: Conn, fs: seq<Frame>): (r: Conn)
    decreases fs
  {
    if fs == [] then c else AcceptAll(e, Accept(e, c, fs[0]), fs[1..])
  }

  /** Frames the session takes one after the other without complaint. */
  predicate StreamFine(e: Env, c: Conn, fs: seq<Frame>)
    decreases fs
  {
    fs == [] || (c.out.bev && FrameFine(e, c, fs[0]) && StreamFine(e, Accept(e, c, fs[0]), fs[1..]))
  }

  /** A read may stop after `k` bytes of the stream. */
  predicate StreamCut(e: Env, c: Conn, fs: seq<Frame>, k: nat)
    decreases fs
  {
    fs == [] ||
    var size := |Encode(e.lenField, fs[0])|;
    if k < size then CutFine(e, c, fs[0], k) else StreamCut(e, Accept(e, c, fs[0]), fs[1..], k - size)
  }

  predicate Idle(c: Conn) {
    Sound(c) && !c.rx.hasHeader
  }

  lemma AcceptIdle(e: Env, c: Conn, f: Frame)
    requires Boundary(c) && FrameFine(e, c, f)
    ensures Idle(Accept(e, c, f))
  {
    OpenedInFrame(e, c, f);
    var a := Absorb(Opened(e, c, f), f.payload);
    assert a.rx.recvLen == a.out.hdr.payloadLen;
    assert Accept(e, c, f) == HandleFrameEnd(e, a);
  }

  lemma {:induction false} StreamRead(e: Env, c: Conn, fs: seq<Frame>)
    requires Idle(c) && StreamFine(e, c, fs)
    ensures ReadWebsocket(e, c, EncodeAll(e.lenField, fs)) == Reading(AcceptAll(e, c, fs), [])
    ensures Clean(e, c, EncodeAll(e.lenField, fs))
    decreases fs
  {
    if fs != [] {
      EncodeAllHead(e.lenField, fs);
      WholeFrame(e, c, fs[0], EncodeAll(e.lenField, fs[1..]));
      AcceptIdle(e, c, fs[0]);
      StreamRead(e, Accept(e, c, fs[0]), fs[1..]);
    }
  }

  /** Behind a whole frame. */
  lemma BehindFrame(e: Env, c: Conn, f: Frame, c': Conn, rest: seq<byte>, input: seq<byte>)
    ensures Boundary(c) && FrameFine(e, c, f) && c' == Accept(e, c, f) && input == Encode(e.lenField, f) + rest ==>
              Idle(c') && (Clean(e, c', rest) ==> Clean(e, c, input))
  {
    if Boundary(c) && FrameFine(e, c, f) && c' == Accept(e, c, f) && input == Encode(e.lenField, f) + rest {
      AcceptIdle(e, c, f);
      WholeFrame(e, c, f, rest);
    }
  }

  /** Within a frame. */
  lemma WithinFrame(e: Env, c: Conn, f: Frame, k: nat, input: seq<byte>)
    requires k < |Encode(e.lenField, f)|
    ensures Boundary(c) && FrameFine(e, c, f) && CutFine(e, c, f, k) && input == Encode(e.lenField, f)[..k] ==>
              Clean(e, c, input)
  {
    if Boundary(c) && FrameFine(e, c, f) && CutFine(e, c, f, k) { CutClean(e, c, f, k); }
  }

  lemma {:induction false} StreamCutClean(e: Env, c: Conn, fs: seq<Frame>, all: seq<byte>, x: seq<byte>, clean: bool)
    requires Idle(c) && all == EncodeAll(e.lenField, fs) && clean == Clean(e, c, x)
    ensures StreamFine(e, c, fs) && x <= all && StreamCut(e, c, fs, |x|) ==> clean
    decreases fs
  {
    if fs != [] && StreamFine(e, c, fs) && x <= all && StreamCut(e, c, fs, |x|) {
      var f, tail := fs[0], EncodeAll(e.lenField, fs[1..]);
      var n := |Encode(e.lenField, f)|;
      EncodeAllHead(e.lenField, fs);
      PrefixOfConcat(Encode(e.lenField, f), tail, |x|);
      if |x| < n {
        WithinFrame(e, c, f, |x|, x);
      } else {
        var c', rest := Accept(e, c, f), tail[..|x| - n];
        BehindFrame(e, c, f, c', rest, x);
        StreamCutClean(e, c', fs[1..], tail, rest, Clean(e, c', rest));
      }
    }
  }

  /** Reads that stop where they may are reads that stop at a clean place. */
  lemma CutsClean(e: Env, c: Conn, fs: seq<Frame>, chunks: seq<seq<byte>>)
    requires Idle(c) && StreamFine(e, c, fs) && Concat(chunks) == EncodeAll(e.lenField, fs)
    requires forall i | 0 <= i <= |chunks| :: StreamCut(e, c, fs, |Concat(chunks[..i])|)
    ensures forall i | 0 <= i <= |chunks| :: Clean(e, c, Concat(chunks[..i]))
  {
    forall i | 0 <= i <= |chunks|
      ensures Clean(e, c, Concat(chunks[..i]))
    {
      ConcatPrefix(chunks, i);
      var x := Concat(chunks[..i]);
      StreamCutClean(e, c, fs, Concat(chunks), x, Clean(e, c, x));
    }
  }

  /**
    Chunk independence: however the bytes of an acceptable stream of frames are
    split over reads, as long as each read stops at a place where it may, the
    session ends in the same state, with the same frames delivered, as if every
    frame had been handed to it whole.
  */
  lemma ChunkIndependence(e: Env, c: Conn, fs: seq<Frame>, chunks: seq<seq<byte>>)
    requires Idle(c) && StreamFine(e, c, fs) && Concat(chunks) == EncodeAll(e.lenField, fs)
    requires forall i | 0 <= i <= |chunks| :: StreamCut(e, c, fs, |Concat(chunks[..i])|)
    ensures Feeds(e, c, chunks) == Reading(AcceptAll(e, c, fs), [])
  {
    CutsClean(e, c, fs, chunks);
    CleanFeeds(e, c, chunks);
    StreamRead(e, c, fs);
  }
}
