/**
  The closing handshake: which close frames are echoed, and what every run of a
  session keeps about its close frame.
*/
module ClosingHandshake {
  import opened Bytes
  import opened FrameHeader
  import opened SessionState
  import opened Sender
  import opened Receiver
  import Utf8

  // ----- The echo

  /**
    A close body that is echoed: a usable code and a reason that the decoder does not
    reject. A reason that breaks off inside a code point is not rejected.
  */
  predicate Echoable(body: seq<byte>) {
    |body| >= 2 && PeerStatusValid(FromBigEndian(body[..2])) && Utf8.Run(Utf8.ACCEPT, body[2..]) != Utf8.REJECT
  }

  /** Nothing stands in the way of a frame. */
  predicate CanWrite(e: Env, o: Out) {
    && o.send == NotSending && o.bev
    && e.mask(o.draws).Some? && e.writeOk(o.writes) && e.writeOk(o.writes + 1)
  }

  predicate CanClose(e: Env, o: Out) {
    !o.sentClose && CanWrite(e, o)
  }

  /** Exactly one frame was added to those sent: a close frame with this body. */
  predicate Answered(o: Out, o': Out, body: seq<byte>) {
    |o'.sent| == |o.sent| + 1 && o'.sent == o.sent + [Frame(true, CLOSE, o'.sent[|o.sent|].key, body)]
  }

  /** A frame goes out whole exactly when nothing stands in its way. */
  lemma FrameRawExact(e: Env, o: Out, op: nibble, data: seq<byte>)
    requires |data| <= if IsControl(op) then 125 else 0x7FFF_FFFF_FFFF_FFFF
    ensures SendFrameRaw(e, o, op, data).ok <==> CanWrite(e, o)
    ensures var o' := SendFrameRaw(e, o, op, data).out;
            if CanWrite(e, o) then o'.sent == o.sent + [Frame(true, op, Some(o'.hdr.mask), data)] else o'.sent == o.sent
  {
  }

  predicate Sendable(status: nat, reason: seq<byte>) {
    1000 <= status <= 4999 && |reason| + 2 <= 125
  }

  /** The close frame was sent if it could be, and nothing else. */
  predicate SentIfPossible(e: Env, b: Out, o': Out, status: nat, reason: seq<byte>) {
    if CanClose(e, b) && Sendable(status, reason) then Answered(b, o', CloseBody(status, reason)) else o'.sent == b.sent
  }

  lemma CloseWithExact(e: Env, o: Out, status: nat, reason: seq<byte>)
    ensures SentIfPossible(e, o, CloseWith(e, o, status, reason), status, reason)
  {
    if !o.sentClose && Sendable(status, reason) {
      FrameRawExact(e, o.(state := Closing), CLOSE, CloseBody(status, reason));
    }
  }

  lemma CodeEchoable(status: nat)
    requires PeerStatusValid(status)
    ensures Echoable(CloseBody(status, []))
  {
    Pow256Values();
    BigEndianRoundTrip(2, status);
    var body := CloseBody(status, []);
    assert body[..2] == BigEndian(2, status) && body[2..] == [];
  }

  lemma TheBody(body: seq<byte>)
    requires |body| >= 2
    ensures CloseBody(FromBigEndian(body[..2]), body[2..]) == body
  {
    BigEndianInverse(body[..2]);
  }

  /** The answer to a body that cannot be echoed is never that body. */
  lemma JudgeExact(e: Env, rx: In)
    ensures var a := JudgeClose(e, rx);
            if Echoable(rx.ctrl) then !a.always && CloseBody(a.status, a.reason) == rx.ctrl && 1000 <= a.status <= 4999
            else CloseBody(a.status, a.reason) != rx.ctrl
  {
    CodeEchoable(PROTOCOL_ERROR);
    CodeEchoable(INCONSISTENT_DATA);
    if |rx.ctrl| >= 2 { TheBody(rx.ctrl); }
  }

  lemma AnsweredExact(e: Env, b: Out, o: Out, o': Out, a: Answer, body: seq<byte>)
    requires o == b.(state := Closing, timer := false) && |body| <= CONTROL_MAX
    requires o' == if o.sentClose && !a.always then o else CloseWith(e, o, a.status, a.reason)
    requires CloseBody(a.status, a.reason) == body ==> 1000 <= a.status <= 4999
    ensures Answered(b, o', body) <==> CloseBody(a.status, a.reason) == body && CanClose(e, b)
  {
    CloseWithExact(e, o, a.status, a.reason);
  }

  /**
    A received close frame is answered by one close frame with the same body if and
    only if its body has a valid code and a reason that is not rejected, none was
    sent before, no message is being sent, and the key and both writes succeed.
  */
  lemma EchoExact(e: Env, c: Conn)
    requires Sound(c)
    ensures Answered(c.out, HandleCloseFrame(e, c).out, c.rx.ctrl) <==> Echoable(c.rx.ctrl) && CanClose(e, c.out)
  {
    var a := JudgeClose(e, c.rx);
    var o := c.out.(state := Closing, timer := false);
    JudgeExact(e, c.rx);
    AnsweredExact(e, c.out, o, HandleCloseFrame(e, c).out, a, c.rx.ctrl);
  }

  // ----- Every answer

  /** The status codes a peer may close with (section 7.4 of RFC 6455). */
  predicate UsableCode(code: nat) {
    code in {1000, 1001, 1002, 1003, 1007, 1008, 1009, 1010, 1011} || 3000 <= code <= 4999
  }

  function CodeOf(body: seq<byte>): (r: nat)
    requires |body| >= 2
  {
    var (high: nat, low: nat) := (body[0], body[1]);
    256 * high + low
  }

  /** The status the peer is taken to have given. */
  function StatusOf(body: seq<byte>): (r: nat) {
    if body == [] then 1000 else if |body| == 1 then 1005 else CodeOf(body)
  }

  /**
    The body that a close frame with the body `body` is answered with: 1000 and the
    stale reason; 1002; 1007 for a reason that cannot become well-formed; or the echo.
  */
  ghost function AnswerTo(body: seq<byte>, stale: seq<byte>): (r: seq<byte>) {
    if body == [] then [3, 232] + stale
    else if |body| == 1 || !UsableCode(CodeOf(body)) then [3, 234]
    else if forall t: seq<byte> :: !Utf8.WellFormed(body[2..] + t) then [3, 239]
    else body
  }

  /** What is sent as the reason when none came: an empty string, read at the length of an earlier reason. */
  predicate Stale(e: Env, n: nat, stale: seq<byte>) {
    |stale| == n && forall i | 0 <= i < n :: stale[i] == if i == 0 then 0 else e.stale(i)
  }

  lemma TwoBytes(x: nat)
    ensures BigEndian(2, x) == [x / 256 % 256, x % 256]
  {
    assert LittleEndian(2, x) == [x % 256] + LittleEndian(1, x / 256);
    assert LittleEndian(1, x / 256) == [x / 256 % 256];
  }

  lemma CodeIs(body: seq<byte>)
    requires |body| >= 2
    ensures FromBigEndian(body[..2]) == CodeOf(body) < 0x1_0000
  {
    var s := body[..2];
    assert Reverse(s) == [body[1], body[0]];
    assert FromLittleEndian([body[1], body[0]]) == body[1] + 256 * FromLittleEndian([body[0]]);
  }

  lemma StaleIs(e: Env, n: nat, stale: seq<byte>)
    requires Stale(e, n, stale)
    ensures StaleReason(e, n) == stale
  {
  }

  lemma JudgeAnswers(e: Env, rx: In, a: Answer, stale: seq<byte>)
    requires a == JudgeClose(e, rx) && Stale(e, rx.reasonLen, stale)
    ensures CloseBody(a.status, a.reason) == AnswerTo(rx.ctrl, stale) && 1000 <= a.status <= 4999
  {
    TwoBytes(1000);
    TwoBytes(1002);
    TwoBytes(1007);
    StaleIs(e, rx.reasonLen, stale);
    if |rx.ctrl| >= 2 {
      CodeIs(rx.ctrl);
      TheBody(rx.ctrl);
      Utf8.RejectExact(rx.ctrl[2..]);
    }
  }

  lemma JudgeRecords(e: Env, rx: In, a: Answer)
    requires a == JudgeClose(e, rx)
    ensures a.rx.receivedClose && a.rx.serverStatus == StatusOf(rx.ctrl)
    ensures a.rx.reasonLen == if |rx.ctrl| < 2 then rx.reasonLen else |rx.ctrl| - 2
  {
    if |rx.ctrl| >= 2 { CodeIs(rx.ctrl); }
  }

  lemma AnswerSent(e: Env, b: Out, o: Out, o': Out, a: Answer, answer: seq<byte>)
    requires o == b.(state := Closing, timer := false) && answer == CloseBody(a.status, a.reason)
    requires o' == if o.sentClose && !a.always then o else CloseWith(e, o, a.status, a.reason)
    requires 1000 <= a.status <= 4999
    ensures if CanClose(e, b) && |answer| <= 125 then Answered(b, o', answer) else o'.sent == b.sent
  {
    if !o.sentClose || a.always { CloseSends(e, b, o, a.status, a.reason, o'); }
  }

  lemma SentFrom(e: Env, b: Out, o: Out, status: nat, reason: seq<byte>, o': Out)
    requires o == b.(state := Closing, timer := false) && SentIfPossible(e, o, o', status, reason)
    ensures SentIfPossible(e, b, o', status, reason)
  {
  }

  lemma CloseSends(e: Env, b: Out, o: Out, status: nat, reason: seq<byte>, o': Out)
    requires o == b.(state := Closing, timer := false) && o' == CloseWith(e, o, status, reason)
    ensures SentIfPossible(e, b, o', status, reason)
  {
    CloseWithExact(e, o, status, reason);
    SentFrom(e, b, o, status, reason, o');
  }

  /** What a received close frame makes of the session, whatever its body. */
  lemma AnswerExact(e: Env, c: Conn, d: Conn, stale: seq<byte>, answer: seq<byte>)
    requires d == HandleCloseFrame(e, c) && Stale(e, c.rx.reasonLen, stale) && answer == AnswerTo(c.rx.ctrl, stale)
    ensures if CanClose(e, c.out) && |answer| <= 125 then Answered(c.out, d.out, answer) else d.out.sent == c.out.sent
    ensures d.out.state == Closing && d.rx.receivedClose && d.rx.serverStatus == StatusOf(c.rx.ctrl)
    ensures d.rx.reasonLen == if |c.rx.ctrl| < 2 then c.rx.reasonLen else |c.rx.ctrl| - 2
    ensures c.out.sentClose && (c.rx.ctrl == [] || answer == c.rx.ctrl) ==>
              d.out == c.out.(state := Closing, timer := false)
  {
    var a := JudgeClose(e, c.rx);
    JudgeExact(e, c.rx);
    JudgeAnswers(e, c.rx, a, stale);
    JudgeRecords(e, c.rx, a);
    AnswerSent(e, c.out, c.out.(state := Closing, timer := false), d.out, a, answer);
  }

  // ----- The close timer

  lemma TimerStarts(e: Env, s: Sent, o': Out)
    requires o' == StartCloseTimer(e, s)
    ensures if s.ok && e.timerOk(s.out.timers) then o' == s.out.(sentClose := true, timer := true, timers := s.out.timers + 1)
            else !o'.timer && !o'.bev && o'.events == s.out.events + [Closed(1006)] && o'.sentClose == (s.ok || s.out.sentClose)
                 && o'.timers == s.out.timers + if s.ok then 1 else 0
  {
  }

  lemma CloseFrameOut(e: Env, o: Out, status: nat, reason: seq<byte>, s: Sent)
    requires s == SendClose(e, o, status, reason)
    ensures s.ok <==> CanWrite(e, o) && Sendable(status, reason)
    ensures s.out.timers == o.timers && s.out.bev == o.bev && s.out.sentClose == o.sentClose && s.out.events == o.events
  {
    if Sendable(status, reason) { FrameRawExact(e, o, CLOSE, CloseBody(status, reason)); }
  }

  /**
    Closing starts the close timer if the close frame is out and the timer can be
    had; otherwise the connection is given up, and the user is told so.
  */
  lemma CloseTimerExact(e: Env, o: Out, status: nat, reason: seq<byte>, o': Out)
    requires o' == CloseWith(e, o, status, reason)
    ensures var out := o.sentClose || (CanClose(e, o) && Sendable(status, reason));
            && o'.sentClose == out && o'.timers == o.timers + (if out then 1 else 0)
            && if out && e.timerOk(o.timers) then o'.timer && o'.bev == o.bev && o'.events == o.events
               else !o'.timer && !o'.bev && o'.events == o.events + [Closed(1006)]
  {
    var o1 := o.(state := Closing);
    var s := if o1.sentClose then Sent(true, o1) else SendClose(e, o1, status, reason);
    if !o.sentClose { CloseFrameOut(e, o1, status, reason, s); }
    TimerStarts(e, s, o');
  }

  // ----- What every operation keeps

  predicate NoClose(fs: seq<Frame>) {
    forall i | 0 <= i < |fs| :: fs[i].opcode != CLOSE
  }

  /** No close frame, or one that is the last frame. */
  predicate OneClose(fs: seq<Frame>, closed: bool) {
    if closed then fs != [] && fs[|fs| - 1].opcode == CLOSE && NoClose(fs[..|fs| - 1]) else NoClose(fs)
  }

  /**
    The sending side keeps its rules: at most one close frame, the last one, and the
    flag says so; it is not open once that was sent; the close timer runs only then; and
    the output after the opening request is exactly the frames sent.
  */
  predicate Lawful(e: Env, request: seq<byte>, o: Out) {
    && OneClose(o.sent, o.sentClose)
    && (o.sentClose ==> o.state != Connected)
    && (o.timer ==> o.sentClose)
    && (!o.torn ==> o.wire == request + EncodeAll(e.lenField, o.sent))
  }

  /** Once the close frame is out, nothing is written any more. */
  predicate Frozen(o: Out, o': Out) {
    o.sentClose ==> o'.sentClose && o'.sent == o.sent && o'.wire == o.wire
  }

  /** The session was not opened. */
  predicate NotOpened(o: Out, o': Out) {
    o'.state == Connected ==> o.state == Connected
  }

  /** `o'` is `o` after a send that wrote no whole frame. */
  predicate Unsent(o: Out, o': Out) {
    && o' == o.(send := o'.send, hdr := o'.hdr, draws := o'.draws, writes := o'.writes, wire := o'.wire, torn := o'.torn)
    && (o.torn ==> o'.torn)
    && (o'.torn || o'.wire == o.wire)
  }

  lemma UnsentKeeps(e: Env, request: seq<byte>, o: Out, o': Out)
    requires Lawful(e, request, o) && Unsent(o, o')
    ensures Lawful(e, request, o')
  {
  }

  /** One more frame, as long as there is no close frame yet. */
  lemma FrameKeeps(e: Env, request: seq<byte>, o: Out, o': Out, f: Frame)
    requires Lawful(e, request, o) && !o.sentClose && Wrote(o, o', [f], Encode(e.lenField, f))
    ensures f.opcode != CLOSE ==> Lawful(e, request, o')
    ensures f.opcode == CLOSE && o.state != Connected ==> Lawful(e, request, o'.(sentClose := true))
  {
    AppendFrame(e.lenField, o.sent, f);
    assert o'.sent[..|o.sent|] == o.sent;
    assert request + EncodeAll(e.lenField, o.sent) + Encode(e.lenField, f)
        == request + (EncodeAll(e.lenField, o.sent) + Encode(e.lenField, f));
  }

  /** A header write and a payload write, one of which fails. */
  lemma PairFails(e: Env, o: Out, o1: Out, data: seq<byte>)
    requires o1 == o.(send := o1.send, hdr := o1.hdr, draws := o1.draws)
    ensures var s := SendHeader(e, o1);
            if !s.ok then Unsent(o, s.out)
            else !SendPayload(e, s.out, data).ok ==> Unsent(o, SendPayload(e, s.out, data).out)
  {
  }

  lemma RawFails(e: Env, o: Out, op: nibble, data: seq<byte>)
    requires !SendFrameRaw(e, o, op, data).ok
    ensures Unsent(o, SendFrameRaw(e, o, op, data).out)
  {
    var h := ZERO_HEADER.(fin := true, opcode := op, maskBit := true, payloadLen := Store(e.lenField, |data|));
    var s1 := DrawMask(e, o.(hdr := h));
    assert Unsent(o, s1.out);
    PairFails(e, o, s1.out, data);
  }

  lemma FragmentFails(e: Env, o: Out, data: seq<byte>)
    requires !OnMsgFrameSend(e, o, data).ok
    ensures Unsent(o, OnMsgFrameSend(e, o, data).out)
  {
    var s1 := DrawMask(e, o.(hdr := o.hdr.(maskBit := true, payloadLen := Store(e.lenField, |data|))));
    var o2 := if o.send == MessageBegin then s1.out.(send := InMessage)
              else s1.out.(hdr := s1.out.hdr.(opcode := CONTINUATION));
    assert Unsent(o, s1.out);
    PairFails(e, o, o2, data);
  }

  lemma RawKeeps(e: Env, request: seq<byte>, o: Out, op: nibble, data: seq<byte>)
    requires Lawful(e, request, o) && !o.sentClose && op != CLOSE
    ensures Lawful(e, request, SendFrameRaw(e, o, op, data).out) && !SendFrameRaw(e, o, op, data).out.sentClose
  {
    var s := SendFrameRaw(e, o, op, data);
    if s.ok {
      FrameRawWrites(e, o, op, data);
      FrameKeeps(e, request, o, s.out, Frame(true, op, Some(s.out.hdr.mask), data));
    } else {
      RawFails(e, o, op, data);
      UnsentKeeps(e, request, o, s.out);
    }
  }

  /** What a fragment leaves for the next one: a header without reserved bits that is not a close frame's. */
  predicate Fragmenting(o: Out) {
    NoReserved(o.hdr) && (o.send == MessageBegin ==> o.hdr.opcode != CLOSE)
  }

  lemma FragmentKeeps(e: Env, request: seq<byte>, o: Out, data: seq<byte>)
    requires Lawful(e, request, o) && !o.sentClose && Fragmenting(o)
    ensures var s := OnMsgFrameSend(e, o, data);
            Lawful(e, request, s.out) && !s.out.sentClose && (s.ok ==> Fragmenting(s.out))
  {
    var s := OnMsgFrameSend(e, o, data);
    if s.ok {
      FragmentWrites(e, o, data);
      FrameKeeps(e, request, o, s.out, s.out.sent[|o.sent|]);
    } else {
      FragmentFails(e, o, data);
      UnsentKeeps(e, request, o, s.out);
    }
  }

  lemma {:induction false} FragmentsKeep(e: Env, request: seq<byte>, o: Out, rest: seq<byte>)
    requires e.maxFrameSize > 0 && Lawful(e, request, o) && !o.sentClose && Fragmenting(o)
    ensures var s := SendFragments(e, o, rest);
            Lawful(e, request, s.out) && !s.out.sentClose && (s.ok ==> Fragmenting(s.out))
    decreases |rest|
  {
    var n := Least(e.maxFrameSize, |rest|);
    FragmentKeeps(e, request, o, rest[..n]);
    var s := OnMsgFrameSend(e, o, rest[..n]);
    if s.ok && n < |rest| { FragmentsKeep(e, request, s.out, rest[n..]); }
  }

  lemma EndKeeps(e: Env, request: seq<byte>, o: Out)
    requires Lawful(e, request, o) && !o.sentClose && Fragmenting(o)
    ensures Lawful(e, request, OnSendMsgEnd(e, o).out) && !OnSendMsgEnd(e, o).out.sentClose
  {
    var o1 := o.(hdr := o.hdr.(fin := true));
    UnsentKeeps(e, request, o, o1);
    FragmentKeeps(e, request, o1, []);
    var o2 := OnMsgFrameSend(e, o1, []).out;
    UnsentKeeps(e, request, o2, o2.(send := NotSending));
  }

  /** Sending a message, whatever becomes of it. */
  lemma SendKeeps(e: Env, request: seq<byte>, o: Out, msg: seq<byte>, binary: bool)
    requires Lawful(e, request, o) && !o.sentClose
    ensures Lawful(e, request, SendMsgEx(e, o, msg, binary).out) && !SendMsgEx(e, o, msg, binary).out.sentClose
  {
    if |msg| <= e.maxFrameSize || e.maxFrameSize == 0 {
      RawKeeps(e, request, o, if binary then BINARY else TEXT, msg);
    } else if o.send == NotSending {
      var o1 := OnSendMsgBegin(o, binary).out;
      UnsentKeeps(e, request, o, o1);
      FragmentsKeep(e, request, o1, msg);
      var s := SendFragments(e, o1, msg);
      if s.ok { EndKeeps(e, request, s.out); }
    }
  }

  /** Lawful, with nothing written since a close frame that `b` had already sent. */
  predicate Kept(e: Env, request: seq<byte>, b: Out, o: Out) {
    Lawful(e, request, o) && Frozen(b, o) && NotOpened(b, o)
  }

  lemma SendCloseKeeps(e: Env, request: seq<byte>, o: Out, status: nat, reason: seq<byte>)
    requires Lawful(e, request, o) && !o.sentClose && o.state != Connected
    ensures var s := SendClose(e, o, status, reason);
            && !s.out.sentClose && s.out.state == o.state
            && Lawful(e, request, if s.ok then s.out.(sentClose := true) else s.out)
  {
    if Sendable(status, reason) {
      var body := CloseBody(status, reason);
      var s := SendFrameRaw(e, o, CLOSE, body);
      if s.ok {
        FrameRawWrites(e, o, CLOSE, body);
        FrameKeeps(e, request, o, s.out, Frame(true, CLOSE, Some(s.out.hdr.mask), body));
      } else {
        RawFails(e, o, CLOSE, body);
        UnsentKeeps(e, request, o, s.out);
      }
    }
  }

  /** Closing sends the close frame only once. */
  lemma CloseKeeps(e: Env, request: seq<byte>, b: Out, o: Out, status: nat, reason: seq<byte>)
    requires Kept(e, request, b, o)
    ensures Kept(e, request, b, CloseWith(e, o, status, reason))
  {
    if !o.sentClose { SendCloseKeeps(e, request, o.(state := Closing), status, reason); }
  }

  lemma CloseFrameKeeps(e: Env, request: seq<byte>, b: Out, c: Conn)
    requires Kept(e, request, b, c.out)
    ensures Kept(e, request, b, HandleCloseFrame(e, c).out)
  {
    var a := JudgeClose(e, c.rx);
    CloseKeeps(e, request, b, c.out.(state := Closing, timer := false), a.status, a.reason);
  }

  lemma EventsKeep(e: Env, request: seq<byte>, b: Out, o: Out, o': Out)
    requires Kept(e, request, b, o) && o' == o.(events := o'.events)
    ensures Kept(e, request, b, o')
  {
  }

  /** The end of a frame that is not a close frame only shows events. */
  lemma EndShows(e: Env, c: Conn)
    ensures var (r, c1) := (HandleFrameEnd(e, c).out, c.(rx := c.rx.(hasHeader := false)));
            if c.out.hdr.opcode == CLOSE then r == HandleCloseFrame(e, c1).out else r == c.out.(events := r.events)
  {
  }

  lemma EndOfFrameKeeps(e: Env, request: seq<byte>, b: Out, c: Conn)
    requires Kept(e, request, b, c.out)
    ensures Kept(e, request, b, HandleFrameEnd(e, c).out)
  {
    EndShows(e, c);
    if c.out.hdr.opcode == CLOSE {
      CloseFrameKeeps(e, request, b, c.(rx := c.rx.(hasHeader := false)));
    } else {
      EventsKeep(e, request, b, c.out, HandleFrameEnd(e, c).out);
    }
  }

  lemma CheckKeeps(e: Env, request: seq<byte>, b: Out, c: Conn, buf: seq<byte>, c': Conn)
    requires Kept(e, request, b, c.out) && c' == CheckText(e, c, buf)
    ensures Kept(e, request, b, c'.out)
  {
    CloseKeeps(e, request, b, c.out, INCONSISTENT_DATA, []);
  }

  lemma DataKeeps(e: Env, request: seq<byte>, b: Out, c: Conn, buf: seq<byte>, c': Conn)
    requires Sound(c) && Kept(e, request, b, c.out) && c' == HandleFrameData(e, c, buf).conn
    ensures Kept(e, request, b, c'.out)
  {
    CloseKeeps(e, request, b, c.out, PROTOCOL_ERROR, []);
  }

  lemma TakeDataKeeps(e: Env, request: seq<byte>, b: Out, c: Conn, raw: seq<byte>, c': Conn)
    requires Sound(c) && Kept(e, request, b, c.out) && c' == TakeData(e, c, raw).conn
    ensures Kept(e, request, b, c'.out)
  {
    var buf := Unmask(c.out.hdr, raw);
    var c1 := c.(rx := c.rx.(recvLen := c.rx.recvLen + |raw|));
    var c2 := CheckText(e, c1, buf);
    CheckKeeps(e, request, b, c1, buf, c2);
    DataKeeps(e, request, b, c2, buf, c');
  }

  lemma BodyKeeps(e: Env, request: seq<byte>, b: Out, c: Conn, input: seq<byte>)
    requires Sound(c) && Kept(e, request, b, c.out)
    ensures Kept(e, request, b, ReadBody(e, c, input).conn.out)
  {
    var n := Arrived(c, input);
    var c1 := TakeData(e, c, input[..n]).conn;
    TakeDataKeeps(e, request, b, c, input[..n], c1);
    EndOfFrameKeeps(e, request, b, c);
    EndOfFrameKeeps(e, request, b, c1);
  }

  lemma HeaderKeeps(e: Env, request: seq<byte>, b: Out, c: Conn, input: seq<byte>)
    requires Sound(c) && Kept(e, request, b, c.out)
    ensures Kept(e, request, b, ReadHeader(e, c, input).conn.out)
  {
    CloseKeeps(e, request, b, c.out.(hdr := Unpack(e.lenField, input, e.stale).hdr), PROTOCOL_ERROR, []);
  }

  /** Whatever is received. */
  lemma {:induction false} ReadKeeps(e: Env, request: seq<byte>, b: Out, c: Conn, input: seq<byte>)
    requires Sound(c) && Kept(e, request, b, c.out)
    ensures Kept(e, request, b, ReadWebsocket(e, c, input).conn.out)
    decreases |input|, c.rx.hasHeader
  {
    if !c.out.bev || input == [] {
    } else if c.rx.hasHeader {
      BodyKeeps(e, request, b, c, input);
      var r := ReadBody(e, c, input);
      ReadKeeps(e, request, b, r.conn, r.left);
    } else {
      HeaderKeeps(e, request, b, c, input);
      var p := ReadHeader(e, c, input);
      if p.Go? {
        BodyKeeps(e, request, b, p.conn, input[p.used..]);
        var r := ReadBody(e, p.conn, input[p.used..]);
        ReadKeeps(e, request, b, r.conn, r.left);
      }
    }
  }
}
