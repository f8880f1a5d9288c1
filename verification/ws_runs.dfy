/**
  Whole runs of a session, from the sent opening request on: reads, sends, closes,
  the close timer and the end of the connection, in any order.
*/
module SessionRuns {
  import opened Bytes
  import opened FrameHeader
  import opened SessionState
  import opened Sender
  import opened Receiver
  import opened ClosingHandshake
  import opened OpeningHandshake

  /** A session with its opening handshake and the input not taken yet. */
  datatype Life = Life(conn: Conn, hs: Handshake, left: seq<byte>)

  function Deliver(e: Env, hs: Handshake, c: Conn, input: seq<byte>): (r: Life)
    requires Sound(c)
    ensures Sound(r.conn)
  {
    var r := ReadWebsocket(e, c, input);
    Life(r.conn, hs, r.left)
  }

  /** The session once the handshake has succeeded. */
  function Establish(c: Conn): (r: Conn) {
    c.(out := c.out.(state := Connected, events := c.out.events + [HandshakeDone]))
  }

  function OnRead(e: Env, cfg: Config, s: Life, chunk: seq<byte>): (r: Life)
    requires Sound(s.conn)
    ensures Sound(r.conn)
  {
    if s.hs.phase == Complete then Deliver(e, s.hs, s.conn, s.left + chunk)
    else
      var r := ReadServerHandshakeReply(cfg, s.hs, s.left + chunk);
      match r.state
      case NeedMore => Life(s.conn, r.hs, r.left)
      case Error => Life(s.conn.(out := ShutDown(s.conn.out)), r.hs, [])
      case Success => Deliver(e, r.hs, Establish(s.conn), r.left)
  }

  function OnEof(e: Env, s: Life): (r: Life)
    requires Sound(s.conn)
    ensures Sound(r.conn)
  {
    Ended(s.hs, ReadWebsocket(e, s.conn, s.left).conn)
  }

  /** The session after the peer ended the connection: cleanly if a close frame had come. */
  function Ended(hs: Handshake, c: Conn): (r: Life) {
    var o := ShutDown(c.out);
    var o1 := if c.rx.receivedClose then o else o.(state := ClosedUncleanly);
    var status := if c.rx.receivedClose then c.rx.serverStatus else ABNORMAL;
    Life(c.(out := o1.(events := o1.events + [Closed(status)])), hs, [])
  }

  datatype Op =
    | Send(msg: seq<byte>, binary: bool)
    | Close(status: nat, reason: seq<byte>)
    | Read(chunk: seq<byte>)
    | Timeout
    | Eof

  /** A message can be sent only while connected, and the connection must exist for it to read or end. */
  predicate Enabled(s: Life, op: Op) {
    match op
    case Send(_, _) => s.conn.out.state == Connected
    case Close(_, _) => true
    case Read(_) => s.conn.out.bev
    case Timeout => s.conn.out.timer
    case Eof => s.conn.out.bev
  }

  function Step(e: Env, cfg: Config, s: Life, op: Op): (r: Life)
    requires Sound(s.conn)
    ensures Sound(r.conn)
  {
    match op
    case Send(msg, binary) => s.(conn := s.conn.(out := SendMsgEx(e, s.conn.out, msg, binary).out))
    case Close(status, reason) => s.(conn := s.conn.(out := CloseWith(e, s.conn.out, status, reason)))
    case Read(chunk) => OnRead(e, cfg, s, chunk)
    case Timeout => s.(conn := s.conn.(out := ShutDown(s.conn.out).(timer := false)))
    case Eof => OnEof(e, s)
  }

  function Run(e: Env, cfg: Config, s: Life, ops: seq<Op>): (r: Life)
    requires Sound(s.conn)
    ensures Sound(r.conn)
    decreases |ops|
  {
    if ops == [] then s else Run(e, cfg, Step(e, cfg, s, ops[0]), ops[1..])
  }

  /** Closing before the handshake has completed. */
  predicate Early(s: Life, op: Op) {
    op.Close? && s.hs.phase != Complete
  }

  /** Every operation is possible when it happens, and no close comes early. */
  predicate Proper(e: Env, cfg: Config, s: Life, ops: seq<Op>)
    requires Sound(s.conn)
    decreases |ops|
  {
    ops == [] ||
    (Enabled(s, ops[0]) && !Early(s, ops[0]) && Proper(e, cfg, Step(e, cfg, s, ops[0]), ops[1..]))
  }

  /** The opening request is out and nothing else has happened. */
  predicate Starts(s: Life, request: seq<byte>) {
    && Sound(s.conn) && s.hs == REQUESTED && s.left == [] && !s.conn.rx.hasHeader && !s.conn.rx.inMsg
    && s.conn.out.bev && s.conn.out.state == Connecting && !s.conn.out.sentClose && !s.conn.out.timer
    && s.conn.out.sent == [] && s.conn.out.wire == request
  }

  // ----- What every step keeps

  /** The sending side keeps its rules, and an open handshake has not been closed. */
  predicate Valid(e: Env, request: seq<byte>, b: Out, s: Life) {
    && Sound(s.conn) && Lawful(e, request, s.conn.out) && Frozen(b, s.conn.out)
    && (s.hs.phase != Complete ==> s.conn.out.state != Connected && (s.conn.out.bev ==> !s.conn.out.sentClose))
  }

  lemma SendValid(e: Env, cfg: Config, request: seq<byte>, b: Out, s: Life, msg: seq<byte>, binary: bool)
    requires Valid(e, request, b, s) && s.conn.out.state == Connected
    ensures Valid(e, request, b, Step(e, cfg, s, Send(msg, binary)))
  {
    SendKeeps(e, request, s.conn.out, msg, binary);
  }

  lemma CloseValid(e: Env, cfg: Config, request: seq<byte>, b: Out, s: Life, status: nat, reason: seq<byte>)
    requires Valid(e, request, b, s) && s.hs.phase == Complete
    ensures Valid(e, request, b, Step(e, cfg, s, Close(status, reason)))
  {
    CloseKeeps(e, request, s.conn.out, s.conn.out, status, reason);
  }

  lemma ReadValid(e: Env, cfg: Config, request: seq<byte>, b: Out, s: Life, chunk: seq<byte>)
    requires Valid(e, request, b, s) && s.conn.out.bev
    ensures Valid(e, request, b, OnRead(e, cfg, s, chunk))
  {
    var input := s.left + chunk;
    if s.hs.phase == Complete {
      DeliverValid(e, request, b, s.hs, s.conn, input);
    } else {
      var r := ReadServerHandshakeReply(cfg, s.hs, input);
      if r.state.Success? { DeliverValid(e, request, b, r.hs, Establish(s.conn), r.left); }
    }
  }

  lemma DeliverValid(e: Env, request: seq<byte>, b: Out, hs: Handshake, c: Conn, input: seq<byte>)
    requires Sound(c) && Lawful(e, request, c.out) && Frozen(b, c.out) && hs.phase == Complete
    ensures Valid(e, request, b, Deliver(e, hs, c, input))
  {
    ReadKeeps(e, request, c.out, c, input);
  }

  lemma EofValid(e: Env, request: seq<byte>, b: Out, s: Life)
    requires Valid(e, request, b, s)
    ensures Valid(e, request, b, OnEof(e, s))
  {
    ReadKeeps(e, request, s.conn.out, s.conn, s.left);
  }

  lemma StepValid(e: Env, cfg: Config, request: seq<byte>, b: Out, s: Life, op: Op)
    requires Valid(e, request, b, s) && Enabled(s, op) && !Early(s, op)
    ensures Valid(e, request, b, Step(e, cfg, s, op))
  {
    match op
    case Send(msg, binary) => SendValid(e, cfg, request, b, s, msg, binary);
    case Close(status, reason) => CloseValid(e, cfg, request, b, s, status, reason);
    case Read(chunk) => ReadValid(e, cfg, request, b, s, chunk);
    case Timeout =>
    case Eof => EofValid(e, request, b, s);
  }

  lemma {:induction false} RunValid(e: Env, cfg: Config, request: seq<byte>, b: Out, s: Life, ops: seq<Op>)
    requires Valid(e, request, b, s) && Proper(e, cfg, s, ops)
    ensures Valid(e, request, b, Run(e, cfg, s, ops))
    decreases |ops|
  {
    if ops != [] {
      StepValid(e, cfg, request, b, s, ops[0]);
      RunValid(e, cfg, request, b, Step(e, cfg, s, ops[0]), ops[1..]);
    }
  }

  lemma StartValid(e: Env, request: seq<byte>, s: Life)
    requires Starts(s, request)
    ensures Valid(e, request, s.conn.out, s)
  {
    assert request + [] == request;
  }

  /**
    In every run in which no close comes before the handshake has completed: at most
    one close frame is sent and it is the last frame; the close timer runs only after
    it; unless a write broke off inside a frame, the output is the opening request and
    the frames sent; and from the moment the close frame is out, whatever happens
    later, nothing more is written.
  */
  lemma CloseSafety(e: Env, cfg: Config, request: seq<byte>, s: Life, ops: seq<Op>, more: seq<Op>)
    requires Starts(s, request) && Proper(e, cfg, s, ops) && Proper(e, cfg, Run(e, cfg, s, ops), more)
    ensures var o := Run(e, cfg, Run(e, cfg, s, ops), more).conn.out;
            && OneClose(o.sent, o.sentClose)
            && (o.timer ==> o.sentClose)
            && (!o.torn ==> o.wire == request + EncodeAll(e.lenField, o.sent))
            && Frozen(Run(e, cfg, s, ops).conn.out, o)
  {
    StartValid(e, request, s);
    RunValid(e, cfg, request, s.conn.out, s, ops);
    var s1 := Run(e, cfg, s, ops);
    RunValid(e, cfg, request, s1.conn.out, s1, more);
  }

  // ----- After the connection is shut down

  /** The connection is gone: nothing was written since, and at most closes were reported. */
  predicate Gone(b: Out, o: Out) {
    && !o.bev && o.wire == b.wire && o.sent == b.sent
    && b.events <= o.events && forall i | |b.events| <= i < |o.events| :: o.events[i].Closed?
  }

  lemma GoneFrame(e: Env, o: Out, op: nibble, data: seq<byte>)
    requires !o.bev
    ensures Gone(o, SendFrameRaw(e, o, op, data).out)
  {
  }

  lemma GoneFragment(e: Env, o: Out, data: seq<byte>)
    requires !o.bev
    ensures Gone(o, OnMsgFrameSend(e, o, data).out) && !OnMsgFrameSend(e, o, data).ok
  {
  }

  lemma GoneSend(e: Env, o: Out, msg: seq<byte>, binary: bool)
    requires !o.bev
    ensures Gone(o, SendMsgEx(e, o, msg, binary).out)
  {
    if |msg| <= e.maxFrameSize || e.maxFrameSize == 0 {
      GoneFrame(e, o, if binary then BINARY else TEXT, msg);
    } else if o.send == NotSending {
      var o1 := OnSendMsgBegin(o, binary).out;
      GoneFragment(e, o1, msg[..Least(e.maxFrameSize, |msg|)]);
    }
  }

  lemma GoneClose(e: Env, o: Out, status: nat, reason: seq<byte>, o': Out)
    requires !o.bev && o' == CloseWith(e, o, status, reason)
    ensures Gone(o, o')
  {
    var o1 := o.(state := Closing);
    if !o.sentClose { GoneFrame(e, o1, CLOSE, CloseBody(status, reason)); }
  }

  lemma GoneStep(e: Env, cfg: Config, b: Out, s: Life, op: Op)
    requires Sound(s.conn) && Gone(b, s.conn.out) && Enabled(s, op)
    ensures Gone(b, Step(e, cfg, s, op).conn.out)
  {
    match op
    case Send(msg, binary) => GoneSend(e, s.conn.out, msg, binary);
    case Close(status, reason) => GoneClose(e, s.conn.out, status, reason, CloseWith(e, s.conn.out, status, reason));
    case Read(_) =>
    case Timeout =>
    case Eof =>
  }

  predicate Possible(e: Env, cfg: Config, s: Life, ops: seq<Op>)
    requires Sound(s.conn)
    decreases |ops|
  {
    ops == [] || (Enabled(s, ops[0]) && Possible(e, cfg, Step(e, cfg, s, ops[0]), ops[1..]))
  }

  lemma {:induction false} GoneRun(e: Env, cfg: Config, b: Out, s: Life, ops: seq<Op>)
    requires Sound(s.conn) && Gone(b, s.conn.out) && Possible(e, cfg, s, ops)
    ensures Gone(b, Run(e, cfg, s, ops).conn.out)
    decreases |ops|
  {
    if ops != [] {
      GoneStep(e, cfg, b, s, ops[0]);
      GoneRun(e, cfg, b, Step(e, cfg, s, ops[0]), ops[1..]);
    }
  }

  /**
    The close timer and the end of the connection shut it down for good: whatever is
    possible afterwards, nothing is written any more and no message is shown.
  */
  lemma ShutForGood(e: Env, cfg: Config, s: Life, op: Op, s': Life, ops: seq<Op>)
    requires Sound(s.conn) && (op == Timeout || op == Eof) && Enabled(s, op) && s' == Step(e, cfg, s, op)
    requires Possible(e, cfg, s', ops)
    ensures !s'.conn.out.bev && Gone(s'.conn.out, Run(e, cfg, s', ops).conn.out)
    ensures op == Timeout ==> s'.conn.out == s.conn.out.(bev := false, timer := false)
  {
    GoneRun(e, cfg, s'.conn.out, s', ops);
  }

  /**
    A reply that is refused shuts the connection down for good too: the session is not
    established, and nothing is written or shown any more.
  */
  lemma RefusedForGood(e: Env, cfg: Config, s: Life, chunk: seq<byte>, s': Life, ops: seq<Op>)
    requires Sound(s.conn) && s.hs.phase != Complete && s' == Step(e, cfg, s, Read(chunk))
    requires ReadServerHandshakeReply(cfg, s.hs, s.left + chunk).state == Error && Possible(e, cfg, s', ops)
    ensures s'.conn == s.conn.(out := s.conn.out.(bev := false)) && s'.left == []
    ensures Gone(s.conn.out, Run(e, cfg, s', ops).conn.out)
  {
    GoneRun(e, cfg, s.conn.out, s', ops);
  }

  // ----- Closing too early

  /** A handshake reply that arrives after an early close opens the session again. */
  lemma ReplyReopens(e: Env, cfg: Config, s: Life, chunk: seq<byte>)
    requires Sound(s.conn) && s.hs.phase != Complete
    requires var r := ReadServerHandshakeReply(cfg, s.hs, s.left + chunk); r.state.Success? && r.left == []
    ensures OnRead(e, cfg, s, chunk).conn == Establish(s.conn)
  {
    assert ReadWebsocket(e, Establish(s.conn), []) == Reading(Establish(s.conn), []);
  }

  lemma SendAfter(e: Env, o: Out, msg: seq<byte>)
    requires CanWrite(e, o) && (|msg| <= e.maxFrameSize || e.maxFrameSize == 0) && |msg| <= MAX_PAYLOAD_LEN
    ensures var o' := SendMsgEx(e, o, msg, false).out;
            o'.sent == o.sent + [Frame(true, TEXT, Some(o'.hdr.mask), msg)]
  {
    FrameRawExact(e, o, TEXT, msg);
  }

  /** The frames of a close, a reopening and a message. */
  lemma EarlyFrames(e: Env, o: Out, o1: Out, o2: Out, o3: Out, msg: seq<byte>)
    requires CanClose(e, o) && o1 == CloseWith(e, o, NORMAL, []) && CanWrite(e, o1)
    requires o2 == o1.(state := Connected, events := o2.events)
    requires o3 == SendMsgEx(e, o2, msg, false).out
    requires (|msg| <= e.maxFrameSize || e.maxFrameSize == 0) && |msg| <= MAX_PAYLOAD_LEN
    ensures |o3.sent| == |o.sent| + 2 && o3.sent[|o.sent|].opcode == CLOSE && o3.sent[|o.sent| + 1].opcode == TEXT
  {
    CloseWithExact(e, o, NORMAL, []);
    SendAfter(e, o2, msg);
  }

  /**
    The condition is needed: whenever a session can be closed before its handshake
    has completed, a reply that completes it and a message sent then put a data
    frame behind the close frame.
  */
  lemma EarlyCloseBreaks(e: Env, cfg: Config, s: Life, s1: Life, s2: Life, s3: Life, chunk: seq<byte>, msg: seq<byte>)
    requires Sound(s.conn) && s.hs.phase != Complete && CanClose(e, s.conn.out)
    requires var r := ReadServerHandshakeReply(cfg, s.hs, s.left + chunk); r.state.Success? && r.left == []
    requires s1 == Step(e, cfg, s, Close(NORMAL, [])) && CanWrite(e, s1.conn.out)
    requires s2 == Step(e, cfg, s1, Read(chunk))
    requires s3 == Step(e, cfg, s2, Send(msg, false))
    requires (|msg| <= e.maxFrameSize || e.maxFrameSize == 0) && |msg| <= MAX_PAYLOAD_LEN
    ensures Enabled(s1, Read(chunk)) && Enabled(s2, Send(msg, false))
    ensures var (n, sent) := (|s.conn.out.sent|, s3.conn.out.sent);
            |sent| == n + 2 && sent[n].opcode == CLOSE && sent[n + 1].opcode == TEXT
  {
    ReplyReopens(e, cfg, s1, chunk);
    EarlyFrames(e, s.conn.out, s1.conn.out, s2.conn.out, s3.conn.out, msg);
  }
}
