/**
  From the opening request to the last message and the closing one: the handshakes and
  the frames together.
*/
module WholeSessions {
  import opened Bytes
  import opened FrameHeader
  import opened SessionState
  import opened Sender
  import opened Receiver
  import opened Streams
  import opened Delivery
  import opened ExactConditions
  import opened ClosingHandshake
  import opened OpeningHandshake
  import opened HandshakeExact
  import opened HandshakeChunks
  import opened SessionRuns

  /** A session that completed its handshake is ready for the first frame. */
  lemma EstablishedReady(s: Life, request: seq<byte>)
    requires Starts(s, request)
    ensures Ready(Establish(s.conn), Between)
  {
  }

  /** Reads of the reply, one after the other. */
  function OnReads(e: Env, cfg: Config, s: Life, chunks: seq<seq<byte>>): (r: Life)
    requires Sound(s.conn)
    ensures Sound(r.conn)
  {
    if chunks == [] then s else OnRead(e, cfg, OnReads(e, cfg, s, chunks[..|chunks| - 1]), chunks[|chunks| - 1])
  }

  /** While the reply is incomplete, read events do what feeding it to the handshake does. */
  lemma {:induction false} ReplyPending(e: Env, cfg: Config, request: seq<byte>, s: Life, chunks: seq<seq<byte>>)
    requires Starts(s, request) && FeedsReply(cfg, chunks).state == NeedMore
    ensures var r := FeedsReply(cfg, chunks); OnReads(e, cfg, s, chunks) == Life(s.conn, r.hs, r.left)
    ensures FeedsReply(cfg, chunks).hs.phase != Complete
  {
    if chunks != [] {
      var front, last := chunks[..|chunks| - 1], chunks[|chunks| - 1];
      ReplyPending(e, cfg, request, s, front);
      PendingStep(e, cfg, OnReads(e, cfg, s, front), FeedsReply(cfg, front), last, FeedsReply(cfg, chunks));
    }
  }

  lemma PendingStep(e: Env, cfg: Config, s: Life, r: Reply, chunk: seq<byte>, r': Reply)
    requires Sound(s.conn) && s.hs == r.hs && s.left == r.left && r.state == NeedMore && r.hs.phase != Complete
    requires r' == FeedReply(cfg, r, chunk) && r'.state == NeedMore
    ensures OnRead(e, cfg, s, chunk) == Life(s.conn, r'.hs, r'.left) && r'.hs.phase != Complete
  {
  }

  /** The read that completes the reply hands over what follows it. */
  lemma ReplyCompletes(e: Env, cfg: Config, request: seq<byte>, s: Life, chunks: seq<seq<byte>>, last: seq<byte>)
    requires Starts(s, request) && FeedsReply(cfg, chunks).state == NeedMore
    requires FeedReply(cfg, FeedsReply(cfg, chunks), last).state == Success
    ensures var r := FeedReply(cfg, FeedsReply(cfg, chunks), last);
            OnRead(e, cfg, OnReads(e, cfg, s, chunks), last) == Deliver(e, r.hs, Establish(s.conn), r.left)
  {
    ReplyPending(e, cfg, request, s, chunks);
  }

  /** Read events after the reply do what feeding the session does. */
  lemma {:induction false} ReadsAfterReply(
      e: Env, cfg: Config, s: Life, hs: Handshake, c: Conn, left: seq<byte>, more: seq<seq<byte>>)
    requires Sound(s.conn) && Sound(c) && hs.phase == Complete && s == Deliver(e, hs, c, left)
    ensures var r := Feeds(e, c, [left] + more); OnReads(e, cfg, s, more) == Life(r.conn, hs, r.left)
  {
    if more == [] {
      assert [left] + more == [left] && [left][..0] == [] && [] + left == left;
    } else {
      var front, last := more[..|more| - 1], more[|more| - 1];
      ReadsAfterReply(e, cfg, s, hs, c, left, front);
      assert ([left] + more)[..|more|] == [left] + front && ([left] + more)[|more|] == last;
    }
  }

  /**
    From the opening request on: when the reply, over however many reads, completes the
    handshake and the bytes behind it, in the same read and in any number of later ones,
    are those of allowed frames, the user sees the connection established and then
    exactly the messages, pings and pongs of those frames; and the reply was one that
    section 4.1 of RFC 6455 accepts.
  */
  lemma FirstMessages(
      e: Env, cfg: Config, request: seq<byte>, s: Life, chunks: seq<seq<byte>>, last: seq<byte>, r: Reply,
      more: seq<seq<byte>>, fs: seq<Frame>)
    requires Starts(s, request) && FeedsReply(cfg, chunks).state == NeedMore
    requires r == FeedReply(cfg, FeedsReply(cfg, chunks), last) && r.state == Success
    requires Concat([r.left] + more) == EncodeAll(e.lenField, fs) && ReceivableAll(e, Between, fs)
    requires forall i | 0 <= i <= |more| + 1 :: StreamCut(e, Establish(s.conn), fs, |Concat(([r.left] + more)[..i])|)
    ensures var s' := OnReads(e, cfg, OnRead(e, cfg, OnReads(e, cfg, s, chunks), last), more);
            && s'.conn.out.events == s.conn.out.events + [HandshakeDone] + ShownAll(Between, fs)
            && s'.conn.out.state == Connected && s'.left == [] && s'.hs.phase == Complete
    ensures GoodReply(cfg, Concat(chunks) + last)
  {
    var c := Establish(s.conn);
    EstablishedReady(s, request);
    ChunkedDelivery(e, c, Between, fs, [r.left] + more);
    ReplyWasGood(cfg, chunks, last, r);
    ReplyCompletes(e, cfg, request, s, chunks, last);
    ReadsAfterReply(e, cfg, OnRead(e, cfg, OnReads(e, cfg, s, chunks), last), r.hs, c, r.left, more);
  }

  lemma ReplyWasGood(cfg: Config, chunks: seq<seq<byte>>, last: seq<byte>, r: Reply)
    requires r == FeedReply(cfg, FeedsReply(cfg, chunks), last) && r.state == Success
    requires FeedsReply(cfg, chunks).state == NeedMore
    ensures GoodReply(cfg, Concat(chunks) + last) && r.hs.phase == Complete
  {
    var all := chunks + [last];
    assert all[..|chunks|] == chunks;
    NoErrorIsOne(cfg, all);
    ConcatAppend(chunks, last);
    ReplyExact(cfg, REQUESTED, Concat(all));
  }

  // ----- The closing frame

  lemma CloseFine(e: Env, c: Conn, f: Frame)
    requires Boundary(c) && f.fin && f.opcode == CLOSE && |f.payload| <= CONTROL_MAX
    ensures FrameFine(e, c, f)
  {
  }

  /** A frame that is taken whole ends in the frame-end handler. */
  lemma FrameAlone(e: Env, c: Conn, f: Frame, a: Conn, d: Conn)
    requires Boundary(c) && FrameFine(e, c, f) && a == Absorb(Opened(e, c, f), f.payload)
    requires d == ReadWebsocket(e, c, Encode(e.lenField, f)).conn
    ensures d == HandleFrameEnd(e, a)
  {
    WholeFrame(e, c, f, []);
    assert Encode(e.lenField, f) + [] == Encode(e.lenField, f);
    AcceptEnds(e, c, f);
  }

  /** By then the body of a close frame is in the control buffer. */
  lemma CloseBuffered(e: Env, c: Conn, f: Frame, a: Conn)
    requires Boundary(c) && f.fin && f.opcode == CLOSE && |f.payload| <= CONTROL_MAX
    requires a == Absorb(Opened(e, c, f), f.payload)
    ensures Sound(a) && a.out.hdr.opcode == CLOSE && a.rx.ctrl == f.payload && a.out == c.out.(hdr := a.out.hdr)
    ensures a.rx.reasonLen == c.rx.reasonLen
  {
  }

  lemma CloseHandled(e: Env, a: Conn, b: Conn, d: Conn)
    requires a.out.hdr.opcode == CLOSE && b == a.(rx := a.rx.(hasHeader := false)) && d == HandleFrameEnd(e, a)
    ensures d == HandleCloseFrame(e, b)
  {
  }

  lemma AnsweredSame(e: Env, o: Out, h: Header, d: Out, body: seq<byte>)
    ensures Answered(o.(hdr := h), d, body) <==> Answered(o, d, body)
    ensures CanClose(e, o.(hdr := h)) <==> CanClose(e, o)
  {
  }

  lemma CloseEchoed(e: Env, o: Out, a: Conn, d: Conn)
    requires Sound(a) && a.out.hdr.opcode == CLOSE && a.out == o.(hdr := a.out.hdr) && d == HandleFrameEnd(e, a)
    ensures Answered(o, d.out, a.rx.ctrl) <==> Echoable(a.rx.ctrl) && CanClose(e, o)
  {
    var b := a.(rx := a.rx.(hasHeader := false));
    CloseHandled(e, a, b, d);
    EchoExact(e, b);
    AnsweredSame(e, o, a.out.hdr, d.out, a.rx.ctrl);
  }

  /**
    The bytes of a close frame of at most 125 bytes are answered by one close frame with
    the same body if and only if that body can be echoed and nothing stands in the way.
  */
  lemma EchoRead(e: Env, c: Conn, f: Frame, d: Conn)
    requires Boundary(c) && f.fin && f.opcode == CLOSE && |f.payload| <= CONTROL_MAX
    requires d == ReadWebsocket(e, c, Encode(e.lenField, f)).conn
    ensures Answered(c.out, d.out, f.payload) <==> Echoable(f.payload) && CanClose(e, c.out)
  {
    var a := Absorb(Opened(e, c, f), f.payload);
    CloseFine(e, c, f);
    FrameAlone(e, c, f, a, d);
    CloseBuffered(e, c, f, a);
    CloseEchoed(e, c.out, a, d);
  }

  // ----- Every close frame

  lemma CloseAnswered(e: Env, o: Out, a: Conn, d: Conn, stale: seq<byte>, answer: seq<byte>)
    requires a.out.hdr.opcode == CLOSE && a.out == o.(hdr := a.out.hdr) && d == HandleFrameEnd(e, a)
    requires Stale(e, a.rx.reasonLen, stale) && answer == AnswerTo(a.rx.ctrl, stale)
    ensures if CanClose(e, o) && |answer| <= 125 then Answered(o, d.out, answer) else d.out.sent == o.sent
    ensures d.out.state == Closing && d.rx.receivedClose && d.rx.serverStatus == StatusOf(a.rx.ctrl)
  {
    var b := a.(rx := a.rx.(hasHeader := false));
    CloseHandled(e, a, b, d);
    AnswerExact(e, b, d, stale, answer);
    AnsweredSame(e, o, a.out.hdr, d.out, answer);
  }

  /**
    The bytes of any close frame of at most 125 bytes are answered, if a close frame can
    be sent, by exactly one with the body that `AnswerTo` says; the session is closing,
    and remembers the peer's status.
  */
  lemma CloseRead(e: Env, c: Conn, f: Frame, d: Conn, stale: seq<byte>, answer: seq<byte>)
    requires Boundary(c) && f.fin && f.opcode == CLOSE && |f.payload| <= CONTROL_MAX
    requires d == ReadWebsocket(e, c, Encode(e.lenField, f)).conn
    requires Stale(e, c.rx.reasonLen, stale) && answer == AnswerTo(f.payload, stale)
    ensures if CanClose(e, c.out) && |answer| <= 125 then Answered(c.out, d.out, answer) else d.out.sent == c.out.sent
    ensures d.out.state == Closing && d.rx.receivedClose && d.rx.serverStatus == StatusOf(f.payload)
  {
    var a := Absorb(Opened(e, c, f), f.payload);
    CloseFine(e, c, f);
    FrameAlone(e, c, f, a, d);
    CloseBuffered(e, c, f, a);
    CloseAnswered(e, c.out, a, d, stale, answer);
  }

  // ----- The end of the connection

  /** At the end of the connection what is left of the input is read, and then the user is told the status. */
  lemma EofExact(e: Env, cfg: Config, s: Life, c: Conn, s': Life)
    requires Sound(s.conn) && c == ReadWebsocket(e, s.conn, s.left).conn && s' == Step(e, cfg, s, Eof)
    ensures !s'.conn.out.bev && s'.left == [] && s'.conn.rx == c.rx
    ensures s'.conn.out.events == c.out.events + [Closed(if c.rx.receivedClose then c.rx.serverStatus else 1006)]
    ensures s'.conn.out.state == if c.rx.receivedClose then c.out.state else ClosedUncleanly
  {
  }

  lemma ReadLeaves(e: Env, cfg: Config, s: Life, chunk: seq<byte>, s': Life)
    requires Sound(s.conn) && s.left == [] && s.hs.phase == Complete && s' == Step(e, cfg, s, Read(chunk))
    ensures var r := ReadWebsocket(e, s.conn, chunk); s' == Life(r.conn, s.hs, r.left)
  {
    assert [] + chunk == chunk;
  }

  lemma CloseTaken(e: Env, c: Conn, f: Frame, r: Reading)
    requires Boundary(c) && f.fin && f.opcode == CLOSE && |f.payload| <= CONTROL_MAX
    requires r == ReadWebsocket(e, c, Encode(e.lenField, f))
    ensures r.left == []
  {
    CloseFine(e, c, f);
    WholeFrame(e, c, f, []);
    assert Encode(e.lenField, f) + [] == Encode(e.lenField, f);
  }

  /** When a close frame came last, the user is told the peer's status: 1000 without a body, 1005 for half a code. */
  lemma EndAfterClose(e: Env, cfg: Config, s: Life, f: Frame, s1: Life, s2: Life)
    requires Boundary(s.conn) && s.left == [] && s.hs.phase == Complete
    requires f.fin && f.opcode == CLOSE && |f.payload| <= CONTROL_MAX
    requires s1 == Step(e, cfg, s, Read(Encode(e.lenField, f))) && s2 == Step(e, cfg, s1, Eof)
    ensures s2.conn.out.events == s1.conn.out.events + [Closed(StatusOf(f.payload))]
    ensures !s2.conn.out.bev && s2.conn.out.state == Closing
  {
    var stale := StaleReason(e, s.conn.rx.reasonLen);
    var r := ReadWebsocket(e, s.conn, Encode(e.lenField, f));
    ReadLeaves(e, cfg, s, Encode(e.lenField, f), s1);
    CloseTaken(e, s.conn, f, r);
    CloseRead(e, s.conn, f, r.conn, stale, AnswerTo(f.payload, stale));
    EofExact(e, cfg, s1, s1.conn, s2);
  }

  lemma AcceptNotClosed(e: Env, c: Conn, p: Partial, f: Frame)
    requires Ready(c, p) && Receivable(e, p, f)
    ensures Accept(e, c, f).rx.receivedClose == c.rx.receivedClose
  {
    AllowedIsFine(e, c, p, f);
    AcceptEnds(e, c, f);
  }

  lemma {:induction false} StreamNotClosed(e: Env, c: Conn, p: Partial, fs: seq<Frame>)
    requires Ready(c, p) && ReceivableAll(e, p, fs)
    ensures AcceptAll(e, c, fs).rx.receivedClose == c.rx.receivedClose
    decreases fs
  {
    if fs != [] {
      AcceptNotClosed(e, c, p, fs[0]);
      AllowedIsFine(e, c, p, fs[0]);
      StillReady(e, c, p, fs[0]);
      StreamNotClosed(e, Accept(e, c, fs[0]), Advance(p, fs[0]), fs[1..]);
    }
  }

  /** When no close frame came, the user is shown what came and then told 1006. */
  lemma EndWithoutClose(e: Env, cfg: Config, s: Life, p: Partial, fs: seq<Frame>, s1: Life, s2: Life)
    requires Ready(s.conn, p) && !s.conn.rx.receivedClose && s.left == [] && s.hs.phase == Complete
    requires ReceivableAll(e, p, fs)
    requires s1 == Step(e, cfg, s, Read(EncodeAll(e.lenField, fs))) && s2 == Step(e, cfg, s1, Eof)
    ensures s2.conn.out.events == s.conn.out.events + ShownAll(p, fs) + [Closed(1006)]
    ensures !s2.conn.out.bev && s2.conn.out.state == ClosedUncleanly
  {
    ReadLeaves(e, cfg, s, EncodeAll(e.lenField, fs), s1);
    DeliversAllowed(e, s.conn, p, fs);
    StreamRead(e, s.conn, fs);
    StreamNotClosed(e, s.conn, p, fs);
    EofExact(e, cfg, s1, s1.conn, s2);
  }
}
