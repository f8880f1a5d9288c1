/**
  Sending and receiving share one header structure. Sends between frames do not
  disturb what is received; a send inside a frame does.
*/
module Interleaving {
  import opened Bytes
  import opened Masking
  import opened FrameHeader
  import opened SessionState
  import opened Sender
  import opened Receiver
  import opened Streams
  import opened Delivery
  import opened ExactConditions
  import opened ClosingHandshake
  import Utf8

  /** Only the sending machinery differs. */
  predicate OnlySent(o: Out, o': Out) {
    o' == o.(send := o'.send, hdr := o'.hdr, draws := o'.draws, writes := o'.writes,
             wire := o'.wire, sent := o'.sent, torn := o'.torn)
  }

  lemma RawOnlySent(e: Env, o: Out, op: nibble, data: seq<byte>)
    ensures OnlySent(o, SendFrameRaw(e, o, op, data).out)
  {
    if SendFrameRaw(e, o, op, data).ok {
      FrameRawWrites(e, o, op, data);
    } else {
      RawFails(e, o, op, data);
    }
  }

  lemma FragmentOnlySent(e: Env, o: Out, data: seq<byte>)
    requires NoReserved(o.hdr)
    ensures var s := OnMsgFrameSend(e, o, data); OnlySent(o, s.out) && (s.ok ==> NoReserved(s.out.hdr))
  {
    if OnMsgFrameSend(e, o, data).ok {
      FragmentWrites(e, o, data);
    } else {
      FragmentFails(e, o, data);
    }
  }

  lemma {:induction false} FragmentsOnlySent(e: Env, o: Out, rest: seq<byte>)
    requires e.maxFrameSize > 0 && NoReserved(o.hdr)
    ensures var s := SendFragments(e, o, rest); OnlySent(o, s.out) && (s.ok ==> NoReserved(s.out.hdr))
    decreases |rest|
  {
    var n := Least(e.maxFrameSize, |rest|);
    var s := OnMsgFrameSend(e, o, rest[..n]);
    FragmentOnlySent(e, o, rest[..n]);
    if s.ok && n < |rest| { FragmentsOnlySent(e, s.out, rest[n..]); }
  }

  lemma MessageOnlySent(e: Env, o: Out, msg: seq<byte>, binary: bool)
    ensures OnlySent(o, SendMsgEx(e, o, msg, binary).out)
  {
    if |msg| <= e.maxFrameSize || e.maxFrameSize == 0 {
      RawOnlySent(e, o, if binary then BINARY else TEXT, msg);
    } else if o.send == NotSending {
      var o1 := OnSendMsgBegin(o, binary).out;
      FragmentsOnlySent(e, o1, msg);
      var s := SendFragments(e, o1, msg);
      if s.ok { EndOnlySent(e, o, s.out, OnSendMsgEnd(e, s.out).out); }
    }
  }

  lemma EndOnlySent(e: Env, o: Out, o1: Out, o2: Out)
    requires OnlySent(o, o1) && NoReserved(o1.hdr) && o2 == OnSendMsgEnd(e, o1).out
    ensures OnlySent(o, o2)
  {
    FragmentOnlySent(e, o1.(hdr := o1.hdr.(fin := true)), []);
  }

  // ----- Reading goes on alike

  /** The same session but for the sending machinery; inside a frame it has the same header. */
  predicate Alike(c: Conn, c': Conn) {
    c'.rx == c.rx && OnlySent(c.out, c'.out) && (c.rx.hasHeader ==> c'.out.hdr == c.out.hdr)
  }

  /** The end of a frame that is not a close frame. */
  function QuietEnd(c: Conn): (r: Conn) {
    var c1 := c.(rx := c.rx.(hasHeader := false));
    if c.out.hdr.opcode == PONG then Emit(c1, Pong(c.rx.ctrl))
    else if c.out.hdr.opcode == PING then Emit(c1, Ping(c.rx.ctrl))
    else if IsControl(c.out.hdr.opcode) then c1
    else
      var c2 := c1.(rx := c1.rx.(msg := c.rx.msg + c.rx.frameData, frameData := []));
      if c.out.hdr.fin then OnRecvMsgEnd(c2) else c2
  }

  lemma EndIsQuiet(e: Env, c: Conn, c': Conn)
    requires c' == HandleFrameEnd(e, c) && c'.out.state != Closing
    ensures c.out.hdr.opcode != CLOSE && c' == QuietEnd(c)
  {
  }

  lemma QuietIsEnd(e: Env, c: Conn)
    requires c.out.hdr.opcode != CLOSE
    ensures HandleFrameEnd(e, c) == QuietEnd(c)
  {
  }

  lemma AlikeQuiet(a: Conn, a': Conn)
    requires a.rx.hasHeader && Alike(a, a')
    ensures Alike(QuietEnd(a), QuietEnd(a'))
  {
  }

  lemma AlikeFinish(e: Env, a: Conn, a': Conn, b: Conn, b': Conn)
    requires a.rx.hasHeader && Alike(a, a') && b == Finish(e, a) && b' == Finish(e, a') && b.out.state != Closing
    ensures Alike(b, b')
  {
    if a.rx.recvLen == a.out.hdr.payloadLen {
      EndIsQuiet(e, a, b);
      QuietIsEnd(e, a');
      AlikeQuiet(a, a');
    }
  }

  lemma AlikeClean(c: Conn, c': Conn, input: seq<byte>)
    requires c.rx.hasHeader && Alike(c, c') && CleanBody(c, input)
    ensures CleanBody(c', input) && Arrived(c', input) == Arrived(c, input)
  {
  }

  /** The session with what has arrived of the frame absorbed. */
  function Taken(c: Conn, input: seq<byte>): (r: Conn) {
    Absorb(c, Unmask(c.out.hdr, input[..Arrived(c, input)]))
  }

  lemma BodyTaken(e: Env, c: Conn, input: seq<byte>, b: Reading)
    requires Sound(c) && CleanBody(c, input) && b == ReadBody(e, c, input)
    ensures b == Reading(Finish(e, Taken(c, input)), input[Arrived(c, input)..])
  {
    CleanRead(e, c, input);
  }

  lemma AlikeTaken(c: Conn, c': Conn, input: seq<byte>)
    requires c.rx.hasHeader && Alike(c, c')
    ensures Taken(c, input).rx.hasHeader && Alike(Taken(c, input), Taken(c', input))
  {
  }

  predicate SameReading(r: Reading, r': Reading) {
    Alike(r.conn, r'.conn) && r'.left == r.left
  }

  lemma AlikeBody(e: Env, c: Conn, c': Conn, input: seq<byte>, b: Reading, b': Reading)
    requires Sound(c) && Sound(c') && b == ReadBody(e, c, input) && b' == ReadBody(e, c', input)
    ensures c.rx.hasHeader && Alike(c, c') && CleanBody(c, input) && b.conn.out.state != Closing ==> SameReading(b, b')
  {
    if c.rx.hasHeader && Alike(c, c') && CleanBody(c, input) && b.conn.out.state != Closing {
      AlikeClean(c, c', input);
      BodyTaken(e, c, input, b);
      BodyTaken(e, c', input, b');
      AlikeTaken(c, c', input);
      AlikeFinish(e, Taken(c, input), Taken(c', input), b.conn, b'.conn);
    }
  }

  lemma AlikeHeader(e: Env, c: Conn, c': Conn, input: seq<byte>)
    requires Sound(c) && Sound(c') && !c.rx.hasHeader && Alike(c, c') && (NeedsMore(e, input) || ReadHeader(e, c, input).Go?)
    ensures var (p, p') := (ReadHeader(e, c, input), ReadHeader(e, c', input));
            Alike(p.conn, p'.conn) && p'.Go? == p.Go? && (p.Go? ==> p'.used == p.used)
  {
  }

  /** A clean reading that does not close the session is the same for sessions that are alike. */
  lemma {:induction false} AlikeRead(e: Env, c: Conn, c': Conn, input: seq<byte>, r: Reading, r': Reading)
    requires Sound(c) && Sound(c') && r == ReadWebsocket(e, c, input) && r' == ReadWebsocket(e, c', input)
    ensures Alike(c, c') && Clean(e, c, input) && r.conn.out.state != Closing ==> SameReading(r, r')
    decreases |input|, c.rx.hasHeader
  {
    if Alike(c, c') && Clean(e, c, input) && r.conn.out.state != Closing {
      if !c.out.bev || input == [] {
      } else if c.rx.hasHeader {
        AlikeTurn(e, c, c', input, r, r');
      } else {
        AlikeHeader(e, c, c', input);
        var p, p' := ReadHeader(e, c, input), ReadHeader(e, c', input);
        if p.Go? { AlikeTurn(e, p.conn, p'.conn, input[p.used..], r, r'); }
      }
    }
  }

  lemma {:induction false} AlikeTurn(e: Env, c: Conn, c': Conn, input: seq<byte>, r: Reading, r': Reading)
    requires Sound(c) && Sound(c') && c.rx.hasHeader
    requires var b := ReadBody(e, c, input); r == ReadWebsocket(e, b.conn, b.left)
    requires var b' := ReadBody(e, c', input); r' == ReadWebsocket(e, b'.conn, b'.left)
    ensures Alike(c, c') && CleanOn(e, c, input) && r.conn.out.state != Closing ==> SameReading(r, r')
    decreases |input|, c.rx.hasHeader, 0
  {
    if Alike(c, c') && CleanOn(e, c, input) && r.conn.out.state != Closing {
      var b, b' := ReadBody(e, c, input), ReadBody(e, c', input);
      AlikeBody(e, c, c', input, b, b');
      if b.left != [] { AlikeRead(e, b.conn, b'.conn, b.left, r, r'); }
    }
  }

  // ----- Sends between reads

  /** Bytes arrive, or a message is sent. */
  datatype Turn = Comes(chunk: seq<byte>) | Goes(msg: seq<byte>, binary: bool)

  function Play(e: Env, r: Reading, turn: Turn): (r': Reading)
    requires Sound(r.conn)
    ensures Sound(r'.conn)
  {
    match turn
    case Comes(chunk) => Feed(e, r, chunk)
    case Goes(msg, binary) => r.(conn := r.conn.(out := SendMsgEx(e, r.conn.out, msg, binary).out))
  }

  function Traffic(e: Env, c: Conn, turns: seq<Turn>): (r: Reading)
    requires Sound(c)
    ensures Sound(r.conn)
  {
    if turns == [] then Reading(c, []) else Play(e, Traffic(e, c, turns[..|turns| - 1]), turns[|turns| - 1])
  }

  /** The reads among the turns. */
  function Chunks(turns: seq<Turn>): (r: seq<seq<byte>>) {
    if turns == [] then []
    else Chunks(turns[..|turns| - 1]) + if turns[|turns| - 1].Comes? then [turns[|turns| - 1].chunk] else []
  }

  /** No message is sent inside a frame that is being received. */
  predicate BetweenFrames(e: Env, c: Conn, turns: seq<Turn>)
    requires Sound(c)
  {
    turns == [] ||
    var front := turns[..|turns| - 1];
    BetweenFrames(e, c, front) && (turns[|turns| - 1].Goes? ==> !Traffic(e, c, front).conn.rx.hasHeader)
  }

  /** Every read stops at a clean place, and none of them closes the session. */
  predicate Orderly(e: Env, c: Conn, chunks: seq<seq<byte>>)
    requires Sound(c)
  {
    && (forall i | 0 <= i <= |chunks| :: Clean(e, c, Concat(chunks[..i])))
    && Feeds(e, c, chunks).conn.out.state != Closing
  }

  lemma OrderlyFront(e: Env, c: Conn, front: seq<seq<byte>>, last: seq<byte>, chunks: seq<seq<byte>>)
    requires Sound(c) && chunks == front + [last] && Orderly(e, c, chunks)
    ensures Orderly(e, c, front)
    ensures Feeds(e, c, chunks) == Feed(e, Feeds(e, c, front), last)
  {
    assert chunks[..|front|] == front;
    forall i | 0 <= i <= |front|
      ensures Clean(e, c, Concat(front[..i]))
    {
      assert front[..i] == chunks[..i];
    }
  }

  /** The next read is clean where the reads before it stopped. */
  lemma NextIsClean(e: Env, c: Conn, front: seq<seq<byte>>, last: seq<byte>, chunks: seq<seq<byte>>, r: Reading)
    requires Sound(c) && chunks == front + [last] && Orderly(e, c, chunks) && r == Feeds(e, c, front)
    ensures Clean(e, r.conn, r.left + last)
  {
    OrderlyFront(e, c, front, last, chunks);
    CleanFeeds(e, c, front);
    ConcatAppend(front, last);
    assert front[..|front|] == front && chunks[..|chunks|] == chunks;
    assert Clean(e, c, Concat(front[..|front|])) && Clean(e, c, Concat(chunks[..|chunks|]));
    CleanContinues(e, c, Concat(front), last, r, Clean(e, r.conn, r.left + last));
  }

  lemma AlikeAfterSend(e: Env, c: Conn, c': Conn, msg: seq<byte>, binary: bool)
    requires Alike(c, c') && !c'.rx.hasHeader
    ensures Alike(c, c'.(out := SendMsgEx(e, c'.out, msg, binary).out))
  {
    MessageOnlySent(e, c'.out, msg, binary);
  }

  lemma AlikeAfterRead(e: Env, r: Reading, r': Reading, chunk: seq<byte>)
    requires Sound(r.conn) && Sound(r'.conn) && SameReading(r, r')
    requires Clean(e, r.conn, r.left + chunk) && Feed(e, r, chunk).conn.out.state != Closing
    ensures SameReading(Feed(e, r, chunk), Feed(e, r', chunk))
  {
    AlikeRead(e, r.conn, r'.conn, r.left + chunk, Feed(e, r, chunk), Feed(e, r', chunk));
  }

  /** With sends between frames the session stays like one that only reads. */
  lemma {:induction false} TrafficAlike(e: Env, c: Conn, turns: seq<Turn>)
    requires Sound(c) && BetweenFrames(e, c, turns) && Orderly(e, c, Chunks(turns))
    ensures SameReading(Feeds(e, c, Chunks(turns)), Traffic(e, c, turns))
  {
    if turns != [] {
      var front, last := turns[..|turns| - 1], turns[|turns| - 1];
      match last
      case Comes(chunk) =>
        OrderlyFront(e, c, Chunks(front), chunk, Chunks(turns));
        TrafficAlike(e, c, front);
        var r, r' := Feeds(e, c, Chunks(front)), Traffic(e, c, front);
        NextIsClean(e, c, Chunks(front), chunk, Chunks(turns), r);
        AlikeAfterRead(e, r, r', chunk);
      case Goes(msg, binary) =>
        assert Chunks(turns) == Chunks(front);
        TrafficAlike(e, c, front);
        AlikeAfterSend(e, Feeds(e, c, Chunks(front)).conn, Traffic(e, c, front).conn, msg, binary);
    }
  }

  /**
    Whatever is sent between the frames of an allowed stream, at any point of any
    permitted split of its bytes into reads and whatever becomes of it, the session
    shows exactly what the stream alone shows.
  */
  lemma TrafficExact(e: Env, c: Conn, p: Partial, fs: seq<Frame>, turns: seq<Turn>)
    requires Ready(c, p) && ReceivableAll(e, p, fs) && BetweenFrames(e, c, turns)
    requires Concat(Chunks(turns)) == EncodeAll(e.lenField, fs)
    requires forall i | 0 <= i <= |Chunks(turns)| :: StreamCut(e, c, fs, |Concat(Chunks(turns)[..i])|)
    ensures var r := Traffic(e, c, turns);
            r.left == [] && r.conn.out.events == c.out.events + ShownAll(p, fs) && r.conn.out.state == Connected
  {
    DeliversAllowed(e, c, p, fs);
    CutsClean(e, c, fs, Chunks(turns));
    ChunkedDelivery(e, c, p, fs, Chunks(turns));
    TrafficAlike(e, c, turns);
  }

  // ----- A send inside a frame

  /** The session with the header of `f` and `j` bytes of its payload read. */
  function Inside(e: Env, c: Conn, f: Frame, j: nat): (r: Conn)
    requires j <= |f.payload|
  {
    Absorb(Opened(e, c, f), f.payload[..j])
  }

  /** Reading on from there completes the frame. */
  lemma InsideGoesOn(e: Env, c: Conn, f: Frame, j: nat, m: Conn, y: seq<byte>)
    requires Boundary(c) && FrameFine(e, c, f) && f.key.None? && j < |f.payload|
    requires TextFine(Opened(e, c, f), f.payload[..j])
    requires m == Inside(e, c, f, j) && y == f.payload[j..]
    ensures Absorb(m, y) == Absorb(Opened(e, c, f), f.payload) && TextFine(m, y)
    ensures InFrame(m) && Sound(m) && m.rx.recvLen == j && m.out == c.out.(hdr := HeaderOf(e.lenField, f))
    ensures Accept(e, c, f) == HandleFrameEnd(e, Absorb(m, y))
  {
    var o, x := Opened(e, c, f), f.payload[..j];
    assert x + y == f.payload;
    OpenedInFrame(e, c, f);
    AcceptEnds(e, c, f);
    AbsorbConcat(o, x, y);
    TextFineConcat(o, x, y);
  }

  lemma InsideCompletes(e: Env, m: Conn, y: seq<byte>, a: Conn)
    requires Sound(m) && m.out.bev && InFrame(m) && !m.out.hdr.maskBit && y != [] && TextFine(m, y)
    requires m.rx.recvLen + |y| == m.out.hdr.payloadLen && a == HandleFrameEnd(e, Absorb(m, y))
    ensures ReadWebsocket(e, m, y).conn == a
  {
    RemainingInFrame(m);
    assert y[..|y|] == y;
    CleanRead(e, m, y);
  }

  predicate OneFrame(e: Env, msg: seq<byte>) {
    |msg| <= e.maxFrameSize || e.maxFrameSize == 0
  }

  lemma LastHeader(e: Env, o: Out, o': Out)
    requires OnSendMsgEnd(e, o) == Sent(true, o')
    ensures o'.hdr.fin && o'.hdr.maskBit && !IsControl(o'.hdr.opcode) && o'.hdr.payloadLen == 0
  {
  }

  /** The header a successful send leaves behind. */
  lemma SentHeader(e: Env, o: Out, msg: seq<byte>, binary: bool, o': Out)
    requires SendMsgEx(e, o, msg, binary) == Sent(true, o')
    ensures o'.hdr.fin && o'.hdr.maskBit && !IsControl(o'.hdr.opcode)
    ensures OneFrame(e, msg) ==> o'.hdr.payloadLen == Store(e.lenField, |msg|) && e.mask(o.draws) == Some(o'.hdr.mask)
    ensures !OneFrame(e, msg) ==> o'.hdr.payloadLen == 0
  {
    if !OneFrame(e, msg) {
      LastHeader(e, SendFragments(e, OnSendMsgBegin(o, binary).out, msg).out, o');
    }
  }

  // A header of a final data frame, written over that of the frame being read.

  predicate Overwritten(c: Conn) {
    && Sound(c) && c.out.bev && c.out.state != Closing
    && c.rx.hasHeader && c.out.hdr.fin && !IsControl(c.out.hdr.opcode)
  }

  /** The data in front of `c` makes a message. */
  predicate Delivers(c: Conn, data: seq<byte>, d: Conn) {
    c.out.events + [Message(c.rx.msg + c.rx.frameData + data, c.rx.binary)] <= d.out.events
  }

  lemma OverwrittenEnds(e: Env, c: Conn, d: Conn)
    requires Overwritten(c) && d == HandleFrameEnd(e, c)
    ensures Delivers(c, [], d)
  {
    QuietIsEnd(e, c);
    assert c.rx.msg + c.rx.frameData + [] == c.rx.msg + c.rx.frameData;
  }

  lemma TextPasses(e: Env, c: Conn, buf: seq<byte>)
    requires !IsControl(c.out.hdr.opcode) && TextFine(c, buf)
    ensures CheckText(e, c, buf) == c.(rx := c.rx.(utf8 := if TextFrame(c) then Utf8.Run(c.rx.utf8, buf) else c.rx.utf8))
  {
  }

  /** Payload of a data frame that raises no alarm, wherever the frame ends. */
  lemma DataTaken(e: Env, c: Conn, raw: seq<byte>)
    requires Sound(c) && !IsControl(c.out.hdr.opcode) && TextFine(c, Unmask(c.out.hdr, raw))
    ensures TakeBody(e, c, raw) == Finish(e, Absorb(c, Unmask(c.out.hdr, raw)))
  {
    TextPasses(e, c.(rx := c.rx.(recvLen := c.rx.recvLen + |raw|)), Unmask(c.out.hdr, raw));
  }

  lemma OverwrittenTakes(e: Env, c: Conn, raw: seq<byte>, d: Conn)
    requires Overwritten(c) && d == TakeBody(e, c, raw)
    ensures d.out.state != Closing && c.rx.recvLen + |raw| == c.out.hdr.payloadLen ==> Delivers(c, Unmask(c.out.hdr, raw), d)
    ensures d.out.state != Closing && c.rx.recvLen + |raw| != c.out.hdr.payloadLen ==> d.rx.hasHeader
  {
    var data := Unmask(c.out.hdr, raw);
    if TextFine(c, data) {
      DataTaken(e, c, raw);
      QuietIsEnd(e, Absorb(c, data));
      assert c.rx.msg + (c.rx.frameData + data) == c.rx.msg + c.rx.frameData + data;
    } else {
      TakeAlarms(e, c, raw);
    }
  }

  /** How much is missing, with the length the header now has. */
  lemma RemainingByLength(c: Conn, n: int, k: nat)
    requires c.rx.recvLen + k <= MAX_PAYLOAD_LEN && c.out.hdr.payloadLen < SIZE_MAX
    requires n == c.out.hdr.payloadLen - c.rx.recvLen
    ensures if 0 <= n then Remaining(c) == n else Remaining(c) > k
  {
    if n < 0 { assert Remaining(c) == n + SIZE_MAX; }
  }

  lemma OverwrittenBody(e: Env, c: Conn, y: seq<byte>, n: int, b: Reading)
    requires Overwritten(c) && y != [] && c.rx.recvLen + |y| <= MAX_PAYLOAD_LEN && c.out.hdr.payloadLen < SIZE_MAX
    requires b == ReadBody(e, c, y) && b.conn.out.state != Closing && n == c.out.hdr.payloadLen - c.rx.recvLen
    ensures if 0 <= n <= |y| then Delivers(c, Unmask(c.out.hdr, y[..n]), b.conn) else b.left == [] && b.conn.rx.hasHeader
  {
    RemainingByLength(c, n, |y|);
    if n == 0 {
      OverwrittenEnds(e, c, b.conn);
      assert Unmask(c.out.hdr, y[..0]) == [];
    } else {
      assert y[..|y|] == y;
      OverwrittenTakes(e, c, if 0 < n <= |y| then y[..n] else y, b.conn);
    }
  }

  lemma OneTurn(e: Env, c: Conn, y: seq<byte>, b: Reading, d: Conn)
    requires Sound(c) && c.out.bev && c.rx.hasHeader && y != []
    requires b == ReadBody(e, c, y) && d == ReadWebsocket(e, c, y).conn && d.out.state != Closing
    ensures b.conn.out.state != Closing && b.conn.out.events <= d.out.events && (b.left == [] ==> d == b.conn)
  {
  }

  /** What becomes of the rest `y` of the frame: a message of the new length, or a frame that does not end. */
  lemma OverwrittenReads(e: Env, c: Conn, y: seq<byte>, n: int, d: Conn)
    requires Overwritten(c) && y != [] && c.rx.recvLen + |y| <= MAX_PAYLOAD_LEN && c.out.hdr.payloadLen < SIZE_MAX
    requires d == ReadWebsocket(e, c, y).conn && d.out.state != Closing && n == c.out.hdr.payloadLen - c.rx.recvLen
    ensures if 0 <= n <= |y| then Delivers(c, Unmask(c.out.hdr, y[..n]), d) else d.rx.hasHeader
  {
    var b := ReadBody(e, c, y);
    OneTurn(e, c, y, b, d);
    OverwrittenBody(e, c, y, n, b);
  }

  /** What a session has received and shown. */
  predicate SameReceived(c: Conn, c': Conn) {
    c'.rx == c.rx && c'.out.events == c.out.events && c'.out.state == c.out.state
  }

  /**
    What it takes for a message sent after `j` bytes of the payload of `f` not to be
    noticed: the header it leaves happens to be one for the rest of `f`.
  */
  predicate Unnoticed(e: Env, o: Out, f: Frame, j: nat, msg: seq<byte>)
    requires j <= |f.payload|
  {
    && f.fin && !IsControl(f.opcode)
    && OneFrame(e, msg) && Store(e.lenField, |msg|) == |f.payload|
    && match e.mask(o.draws)
       case None => false
       case Some(key) => forall i | 0 <= i < |f.payload| - j :: KeyAt(key, i) == 0
  }

  lemma UnnoticedHeader(e: Env, o: Out, f: Frame, j: nat, msg: seq<byte>, binary: bool, o': Out, y: seq<byte>)
    requires j < |f.payload| && y == f.payload[j..] && SendMsgEx(e, o, msg, binary) == Sent(true, o')
    ensures Unnoticed(e, o, f, j, msg) <==>
              f.fin && !IsControl(f.opcode) && o'.hdr.payloadLen == |f.payload| && Unmask(o'.hdr, y) == y
  {
    SentHeader(e, o, msg, binary, o');
    MaskUnchanged(o'.hdr.mask, y);
  }

  /** Two final data frames with the same text end alike. */
  lemma QuietSame(a: Conn, a': Conn)
    requires a'.rx == a.rx && a'.out.events == a.out.events && a'.out.state == a.out.state
    requires a.out.hdr.fin && !IsControl(a.out.hdr.opcode) && a'.out.hdr.fin && !IsControl(a'.out.hdr.opcode)
    ensures SameReceived(QuietEnd(a), QuietEnd(a'))
  {
  }

  lemma GoesUnnoticed(e: Env, m: Conn, m': Conn, y: seq<byte>)
    requires Sound(m) && InFrame(m) && m.out.bev && TextFine(m, y) && y != []
    requires m.rx.recvLen + |y| == m.out.hdr.payloadLen
    requires m.out.hdr.fin && !IsControl(m.out.hdr.opcode) && Overwritten(m')
    requires SameReceived(m, m') && m'.out.hdr.payloadLen == m.out.hdr.payloadLen && Unmask(m'.out.hdr, y) == y
    ensures SameReceived(HandleFrameEnd(e, Absorb(m, y)), ReadWebsocket(e, m', y).conn)
  {
    RemainingInFrame(m');
    assert y[..|y|] == y;
    CleanRead(e, m', y);
    var a, a' := Absorb(m, y), Absorb(m', y);
    QuietIsEnd(e, a);
    QuietIsEnd(e, a');
    QuietSame(a, a');
  }

  /** The frame itself delivers `y` behind what was there, and nothing else. */
  lemma FrameDelivers(m: Conn, y: seq<byte>, a: Conn, data: seq<byte>)
    requires m.out.state != Closing && a == QuietEnd(Absorb(m, y)) && Delivers(m, data, a)
    ensures m.out.hdr.fin && !IsControl(m.out.hdr.opcode) && data == y
  {
    var t := m.rx.msg + m.rx.frameData;
    assert m.rx.msg + (m.rx.frameData + y) == t + y;
    assert a.out.events[|m.out.events|] == Message(t + data, m.rx.binary);
    assert (t + data)[|t|..] == data && (t + y)[|t|..] == y;
  }

  lemma SendDisturbs(e: Env, m: Conn, m': Conn, y: seq<byte>, u: Conn, d: Conn)
    requires Sound(m) && InFrame(m) && m.out.bev && m.out.state != Closing && m.out.hdr.opcode != CLOSE
    requires y != [] && TextFine(m, y) && m.rx.recvLen + |y| == m.out.hdr.payloadLen <= MAX_PAYLOAD_LEN
    requires Overwritten(m') && m'.out.hdr.payloadLen < SIZE_MAX && SameReceived(m, m')
    requires u == HandleFrameEnd(e, Absorb(m, y)) && d == ReadWebsocket(e, m', y).conn
    ensures SameReceived(u, d) <==>
              && m.out.hdr.fin && !IsControl(m.out.hdr.opcode)
              && m'.out.hdr.payloadLen == m.out.hdr.payloadLen && Unmask(m'.out.hdr, y) == y
  {
    QuietIsEnd(e, Absorb(m, y));
    if m.out.hdr.fin && !IsControl(m.out.hdr.opcode)
      && m'.out.hdr.payloadLen == m.out.hdr.payloadLen && Unmask(m'.out.hdr, y) == y {
      GoesUnnoticed(e, m, m', y);
    } else if SameReceived(u, d) {
      var n := m'.out.hdr.payloadLen - m'.rx.recvLen;
      OverwrittenReads(e, m', y, n, d);
      FrameDelivers(m, y, u, Unmask(m'.out.hdr, y[..n]));
    }
  }

  /** The session in the middle of an allowed frame. */
  lemma InsideSession(e: Env, c: Conn, p: Partial, f: Frame, j: nat, m: Conn, y: seq<byte>)
    requires Ready(c, p) && Receivable(e, p, f) && f.key.None? && j < |f.payload|
    requires TextFine(Opened(e, c, f), f.payload[..j])
    requires m == Inside(e, c, f, j) && y == f.payload[j..]
    ensures Sound(m) && InFrame(m) && m.out.bev && m.out.state != Closing && TextFine(m, y)
    ensures m.out.hdr.fin == f.fin && m.out.hdr.opcode == f.opcode != CLOSE
    ensures m.rx.recvLen + |y| == m.out.hdr.payloadLen == |f.payload| <= MAX_PAYLOAD_LEN
    ensures Accept(e, c, f) == HandleFrameEnd(e, Absorb(m, y))
  {
    AllowedIsFine(e, c, p, f);
    InsideGoesOn(e, c, f, j, m, y);
  }

  lemma SentInside(e: Env, m: Conn, msg: seq<byte>, binary: bool, m': Conn)
    requires Sound(m) && m.out.bev && m.out.state != Closing && m.rx.hasHeader
    requires SendMsgEx(e, m.out, msg, binary) == Sent(true, m'.out) && m'.rx == m.rx
    ensures Overwritten(m') && m'.out.hdr.payloadLen < SIZE_MAX && SameReceived(m, m')
  {
    MessageOnlySent(e, m.out, msg, binary);
    SentHeader(e, m.out, msg, binary, m'.out);
  }

  /** Undisturbed, the frame is read up to the cut and from there to its end. */
  lemma ReadInTwo(e: Env, c: Conn, p: Partial, f: Frame, j: nat, m: Conn, k: nat)
    requires Ready(c, p) && Receivable(e, p, f) && f.key.None? && j < |f.payload|
    requires TextFine(Opened(e, c, f), f.payload[..j])
    requires m == Inside(e, c, f, j) && k == HeaderSize(HeaderOf(e.lenField, f)) + j
    ensures ReadWebsocket(e, c, Encode(e.lenField, f)[..k]) == Reading(m, [])
    ensures Sound(m) && ReadWebsocket(e, m, f.payload[j..]).conn == Accept(e, c, f)
  {
    AllowedIsFine(e, c, p, f);
    CutInPayload(e, c, f, j, k);
    var a, y := Accept(e, c, f), f.payload[j..];
    InsideSession(e, c, p, f, j, m, y);
    InsideCompletes(e, m, y, a);
  }

  /**
    A message sent while a frame is half read shares its header with the frame. The
    frame is then received as if nothing had been sent exactly when the message is
    `Unnoticed`; otherwise the session closes, waits on, or shows something else.
  */
  lemma SendInsideFrame(e: Env, c: Conn, p: Partial, f: Frame, j: nat, msg: seq<byte>, binary: bool, m': Conn)
    requires Ready(c, p) && Receivable(e, p, f) && f.key.None? && j < |f.payload|
    requires TextFine(Opened(e, c, f), f.payload[..j])
    requires var m := Inside(e, c, f, j); SendMsgEx(e, m.out, msg, binary) == Sent(true, m'.out) && m'.rx == m.rx
    ensures Sound(m')
    ensures SameReceived(Accept(e, c, f), ReadWebsocket(e, m', f.payload[j..]).conn)
            <==> Unnoticed(e, Inside(e, c, f, j).out, f, j, msg)
  {
    var m, y := Inside(e, c, f, j), f.payload[j..];
    InsideSession(e, c, p, f, j, m, y);
    SentInside(e, m, msg, binary, m');
    UnnoticedHeader(e, m.out, f, j, msg, binary, m'.out, y);
    SendDisturbs(e, m, m', y, Accept(e, c, f), ReadWebsocket(e, m', y).conn);
  }

  /** One byte is never a whole header. */
  lemma OneByteWaits(e: Env, c: Conn, x: byte)
    requires Boundary(c)
    ensures var r := ReadWebsocket(e, c, [x]); r.left == [x] && r.conn.out.events == c.out.events
  {
  }

  lemma EmptyRest(e: Env, c: Conn, x: byte, a: Conn)
    requires Overwritten(c) && c.out.hdr.payloadLen == c.rx.recvLen && a == HandleFrameEnd(e, c)
    ensures ReadWebsocket(e, c, [x]) == ReadWebsocket(e, a, [x])
  {
    assert [x][0..] == [x];
  }

  /** The session half way through a two-byte message in one frame. */
  lemma HalfWay(e: Env, c: Conn, f: Frame, m: Conn)
    requires Ready(c, Between) && f == Frame(true, BINARY, None, [0x41, 0x42]) && m == Inside(e, c, f, 1)
    ensures Sound(m) && m.out.bev && m.out.state != Closing && m.rx.hasHeader && m.out.events == c.out.events
    ensures m.rx.recvLen == 1 && m.rx.msg + m.rx.frameData == [0x41] && m.rx.binary
  {
  }

  lemma OverwrittenHalfWay(e: Env, c: Conn, r: Reading)
    requires Overwritten(c) && c.out.hdr.payloadLen == c.rx.recvLen && r == ReadWebsocket(e, c, [0x42])
    ensures r.left == [0x42] && r.conn.out.events == c.out.events + [Message(c.rx.msg + c.rx.frameData, c.rx.binary)]
  {
    var a := HandleFrameEnd(e, c);
    QuietIsEnd(e, c);
    EmptyRest(e, c, 0x42, a);
    OneByteWaits(e, a, 0x42);
  }

  /** A message of two bytes is shown as one of one byte, because one of one byte was sent in between. */
  lemma SplitMessage(e: Env, c: Conn, f: Frame, msg: seq<byte>, binary: bool, m': Conn)
    requires Ready(c, Between) && f == Frame(true, BINARY, None, [0x41, 0x42]) && |msg| == 1
    requires var m := Inside(e, c, f, 1); SendMsgEx(e, m.out, msg, binary) == Sent(true, m'.out) && m'.rx == m.rx
    ensures Receivable(e, Between, f) && Shown(Between, f) == [Message([0x41, 0x42], true)]
    ensures Sound(m')
    ensures var r := ReadWebsocket(e, m', [0x42]);
            r.left == [0x42] && r.conn.out.events == c.out.events + [Message([0x41], true)]
  {
    var m := Inside(e, c, f, 1);
    HalfWay(e, c, f, m);
    SentInside(e, m, msg, binary, m');
    SentHeader(e, m.out, msg, binary, m'.out);
    OverwrittenHalfWay(e, m', ReadWebsocket(e, m', [0x42]));
  }
}
