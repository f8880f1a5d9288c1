/**
  The exact conditions: where a stream may be cut, what the continuation guard as
  it is written lets through, and which messages arrive.
*/
module ExactConditions {
  import opened Bytes
  import opened FrameHeader
  import opened SessionState
  import opened Sender
  import opened Receiver
  import opened Streams
  import opened Delivery

  // ----- Alarms

  /** Payload that fails the text check puts the session in the closing state, and it stays there. */
  lemma AlarmInBody(e: Env, c: Conn, input: seq<byte>, o: Conn, used: nat)
    requires Boundary(c) && input != [] && ReadHeader(e, c, input) == Go(o, used) && Remaining(o) > 0
    requires !TextFine(o, Unmask(o.out.hdr, input[used..][..Arrived(o, input[used..])]))
    ensures ReadWebsocket(e, c, input).conn.out.state == Closing
  {
    var rest := input[used..];
    TakeAlarms(e, o, rest[..Arrived(o, rest)]);
    TurnAtHeader(e, c, input, o, used, ReadBody(e, o, rest));
  }

  lemma TakeAlarms(e: Env, c: Conn, raw: seq<byte>)
    requires Sound(c) && !TextFine(c, Unmask(c.out.hdr, raw))
    ensures TakeBody(e, c, raw).out.state == Closing
  {
  }

  lemma CutAlarms(e: Env, c: Conn, f: Frame, x: seq<byte>, input: seq<byte>)
    requires Boundary(c) && HeadFine(e, c, f) && f.key.None? && |x| < |f.payload| && !TextFine(Opened(e, c, f), x)
    requires input == HeaderBytes(HeaderOf(e.lenField, f)) + x
    ensures ReadWebsocket(e, c, input).conn.out.state == Closing
  {
    var h, o := HeaderOf(e.lenField, f), Opened(e, c, f);
    EncodeHead(e, c, f, x);
    OpenedInFrame(e, c, f);
    assert input[HeaderSize(h)..] == x && x[..|x|] == x;
    AlarmInBody(e, c, input, o, HeaderSize(h));
  }

  lemma FrameCutAlarms(e: Env, c: Conn, f: Frame, k: nat)
    requires Boundary(c) && HeadFine(e, c, f) && f.key.None? && k < |Encode(e.lenField, f)| && !CutFine(e, c, f, k)
    ensures ReadWebsocket(e, c, Encode(e.lenField, f)[..k]).conn.out.state == Closing
  {
    var h := HeaderOf(e.lenField, f);
    var x := f.payload[..k - HeaderSize(h)];
    var input := Encode(e.lenField, f)[..k];
    assert input == HeaderBytes(h) + x;
    CutAlarms(e, c, f, x, input);
  }

  // ----- Where a stream may be cut

  predicate Unmasked(fs: seq<Frame>) {
    fs == [] || (fs[0].key.None? && Unmasked(fs[1..]))
  }

  lemma StillReady(e: Env, c: Conn, p: Partial, f: Frame)
    requires Ready(c, p) && Allowed(p, f) && FrameFine(e, c, f)
    ensures Ready(Accept(e, c, f), Advance(p, f))
  {
    AcceptIdle(e, c, f);
    AcceptAllowed(e, c, p, f);
  }

  /** A cut inside a code point of a final text frame closes the session. */
  lemma {:induction false} StreamCutAlarms(e: Env, c: Conn, p: Partial, fs: seq<Frame>, k: nat)
    requires Ready(c, p) && ReceivableAll(e, p, fs) && Unmasked(fs)
    requires k <= |EncodeAll(e.lenField, fs)| && !StreamCut(e, c, fs, k)
    ensures ReadWebsocket(e, c, EncodeAll(e.lenField, fs)[..k]).conn.out.state == Closing
    decreases fs
  {
    var head, tail := Encode(e.lenField, fs[0]), EncodeAll(e.lenField, fs[1..]);
    EncodeAllHead(e.lenField, fs);
    PrefixOfConcat(head, tail, k);
    AllowedIsFine(e, c, p, fs[0]);
    if k < |head| {
      FrameCutAlarms(e, c, fs[0], k);
    } else {
      StillReady(e, c, p, fs[0]);
      StreamCutAlarms(e, Accept(e, c, fs[0]), Advance(p, fs[0]), fs[1..], k - |head|);
      WholeFrame(e, c, fs[0], tail[..k - |head|]);
    }
  }

  lemma CutAtEnds(e: Env, c: Conn, fs: seq<Frame>)
    ensures StreamCut(e, c, fs, 0) && StreamCut(e, c, fs, |EncodeAll(e.lenField, fs)|)
    decreases fs
  {
    if fs != [] {
      EncodeAllHead(e.lenField, fs);
      CutAtEnds(e, Accept(e, c, fs[0]), fs[1..]);
    }
  }

  lemma CutPlaces(e: Env, c: Conn, fs: seq<Frame>, x: seq<byte>, y: seq<byte>, i: nat)
    requires x + y == EncodeAll(e.lenField, fs) && StreamCut(e, c, fs, |x|) && i <= 2
    ensures StreamCut(e, c, fs, |Concat([x, y][..i])|)
  {
    CutAtEnds(e, c, fs);
    TwoPieces(x, y);
  }

  lemma CutHarmless(e: Env, c: Conn, fs: seq<Frame>, x: seq<byte>, y: seq<byte>)
    requires Idle(c) && StreamFine(e, c, fs) && x + y == EncodeAll(e.lenField, fs) && StreamCut(e, c, fs, |x|)
    ensures Feeds(e, c, [x, y]) == Reading(AcceptAll(e, c, fs), [])
  {
    var chunks := [x, y];
    TwoPieces(x, y);
    forall i | 0 <= i <= |chunks|
      ensures StreamCut(e, c, fs, |Concat(chunks[..i])|)
    {
      CutPlaces(e, c, fs, x, y, i);
    }
    ChunkIndependence(e, c, fs, chunks);
  }

  lemma CutHarmful(e: Env, c: Conn, p: Partial, fs: seq<Frame>, x: seq<byte>, y: seq<byte>)
    requires Ready(c, p) && ReceivableAll(e, p, fs) && Unmasked(fs)
    requires x + y == EncodeAll(e.lenField, fs) && !StreamCut(e, c, fs, |x|)
    ensures Feeds(e, c, [x, y]).conn.out.state == Closing
  {
    assert EncodeAll(e.lenField, fs)[..|x|] == x;
    StreamCutAlarms(e, c, p, fs, |x|);
    TwoFeeds(e, c, x, y);
  }

  /**
    An allowed unmasked stream read in two parts leaves the session as one read does
    if and only if the cut is not inside a code point of a final text frame.
  */
  lemma CutExact(e: Env, c: Conn, p: Partial, fs: seq<Frame>, x: seq<byte>, y: seq<byte>)
    requires Ready(c, p) && ReceivableAll(e, p, fs) && Unmasked(fs)
    requires x + y == EncodeAll(e.lenField, fs)
    ensures Feeds(e, c, [x, y]) == Reading(AcceptAll(e, c, fs), []) <==> StreamCut(e, c, fs, |x|)
  {
    DeliversAllowed(e, c, p, fs);
    if StreamCut(e, c, fs, |x|) {
      CutHarmless(e, c, fs, x, y);
    } else {
      CutHarmful(e, c, p, fs, x, y);
    }
  }

  lemma TwoPieces(x: seq<byte>, y: seq<byte>)
    ensures Concat([x, y]) == x + y
    ensures |Concat([x, y][..0])| == 0 && |Concat([x, y][..1])| == |x| && |Concat([x, y][..2])| == |x + y|
  {
    assert [x, y][..0] == [] && [x, y][..1] == [x] && [x, y][..2] == [x, y];
    ConcatAppend([], x);
    assert [] + [x] == [x];
    ConcatAppend([x], y);
    assert [x] + [y] == [x, y];
  }

  lemma TwoFeeds(e: Env, c: Conn, x: seq<byte>, y: seq<byte>)
    requires Sound(c)
    ensures var r := ReadWebsocket(e, c, x);
            Feeds(e, c, [x, y]) == ReadWebsocket(e, r.conn, r.left + y)
  {
    assert [x, y][..1] == [x] && [x][..0] == [];
    assert [] + x == x;
    assert Feeds(e, c, [x]) == Feed(e, Feeds(e, c, []), x);
  }

  // ----- The continuation guard as it is written

  /** Frames the standard allows one after the other, and that the header structure can represent. */
  ghost predicate AllowedFit(e: Env, p: Partial, fs: seq<Frame>)
    decreases fs
  {
    fs == [] ||
    (Allowed(p, fs[0]) && |fs[0].payload| < Limit(e.lenField) && AllowedFit(e, Advance(p, fs[0]), fs[1..]))
  }

  predicate NoContinuation(fs: seq<Frame>) {
    fs == [] || (fs[0].opcode != CONTINUATION && NoContinuation(fs[1..]))
  }

  /** A header that fails the checks puts the session in the closing state. */
  lemma HeaderRefused(e: Env, c: Conn, f: Frame, rest: seq<byte>)
    requires Boundary(c) && !ValidHeader(e, c.rx.inMsg, HeaderOf(e.lenField, f)) && |f.payload| <= MAX_PAYLOAD_LEN
    ensures ReadWebsocket(e, c, Encode(e.lenField, f) + rest).conn.out.state == Closing
  {
    var h := HeaderOf(e.lenField, f);
    var body := Unmask(h, f.payload) + rest;
    EncodeParts(e.lenField, f, rest);
    RoundTripExact(e.lenField, h, body, e.stale);
    assert ReadHeader(e, c, HeaderBytes(h) + body).Stop?;
  }

  /**
    With the guard as it is written, a session that reads an allowed stream stays open
    if and only if no frame of the stream is a continuation; then it delivers
    everything, as with the guard as documented.
  */
  lemma {:induction false} WrittenGuardExact(e: Env, c: Conn, p: Partial, fs: seq<Frame>)
    requires e.guard == AsWritten && Ready(c, p) && AllowedFit(e, p, fs)
    ensures ReadWebsocket(e, c, EncodeAll(e.lenField, fs)).conn.out.state == Connected <==> NoContinuation(fs)
    ensures NoContinuation(fs) ==> ReceivableAll(e, p, fs)
    decreases fs
  {
    if fs != [] {
      var tail := EncodeAll(e.lenField, fs[1..]);
      EncodeAllHead(e.lenField, fs);
      if fs[0].opcode == CONTINUATION {
        HeaderRefused(e, c, fs[0], tail);
      } else {
        AllowedIsFine(e, c, p, fs[0]);
        StillReady(e, c, p, fs[0]);
        WholeFrame(e, c, fs[0], tail);
        WrittenGuardExact(e, Accept(e, c, fs[0]), Advance(p, fs[0]), fs[1..]);
      }
    }
  }
}
