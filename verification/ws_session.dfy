/**
  The state of a WebSocket client session and the effect of each of its
  operations, as functions on values. `Out` is what sending and closing change,
  `In` what receiving changes; the one header structure that both directions
  write is in `Out`.
*/
module SessionState {
  import opened Bytes
  import opened Masking
  import opened FrameHeader
  import Utf8

  const CONTINUATION: nibble := 0x0
  const TEXT: nibble := 0x1
  const BINARY: nibble := 0x2
  const CLOSE: nibble := 0x8
  const PING: nibble := 0x9
  const PONG: nibble := 0xA

  const CONTROL_MAX := 125
  const SIZE_MAX := 0x1_0000_0000_0000_0000

  predicate IsControl(op: nibble) {
    op >= 0x8
  }

  predicate IsReserved(op: nibble) {
    0x3 <= op <= 0x7 || 0xB <= op
  }

  datatype Option<T> = None | Some(value: T)

  /** Whether a continuation frame is refused inside a message, as the guard is written, or outside one. */
  datatype Guard = AsWritten | AsDocumented

  /**
    What the session does not control: the build's readings of the header structure
    and of the continuation guard, the frame size limit, and the outcome of the
    n-th random draw, buffer write and timer request. `stale` is the content of
    memory that is read before it was written.
  */
  datatype Env = Env(
    lenField: LenField, guard: Guard, maxFrameSize: nat,
    mask: nat -> Option<Key>, writeOk: nat -> bool, timerOk: nat -> bool, stale: nat -> byte)

  datatype WsState = Connecting | Connected | Closing | ClosedUncleanly

  datatype SendState = NotSending | MessageBegin | InMessage

  /** A frame with its unmasked payload. */
  datatype Frame = Frame(fin: bool, opcode: nibble, key: Option<Key>, payload: seq<byte>)

  /** What the user of the session observes. */
  datatype Event =
    | HandshakeDone
    | Message(payload: seq<byte>, binary: bool)
    | Ping(payload: seq<byte>)
    | Pong(payload: seq<byte>)
    | Closed(status: nat)

  /**
    `wire` is the output buffer; `sent` lists the frames written to it completely,
    `torn` says that some frame's header was written and its payload was not, and
    `timer` that the close timer is pending.
  */
  datatype Out = Out(
    bev: bool, state: WsState, send: SendState, hdr: Header, sentClose: bool,
    draws: nat, writes: nat, timers: nat, timer: bool,
    wire: seq<byte>, sent: seq<Frame>, torn: bool, events: seq<Event>)

  datatype In = In(
    hasHeader: bool, recvLen: nat,
    inMsg: bool, binary: bool, utf8: Utf8.Utf8State,
    frameData: seq<byte>, msg: seq<byte>, ctrl: seq<byte>,
    receivedClose: bool, serverStatus: nat, reasonLen: nat)

  datatype Conn = Conn(out: Out, rx: In)

  /** A return code and the state it was returned in. */
  datatype Sent = Sent(ok: bool, out: Out)

  // ----- Sending

  /** Appends to the output buffer, unless the connection is gone or the buffer refuses. */
  function SendData(e: Env, o: Out, data: seq<byte>): (r: Sent)
    ensures r.out == o.(writes := r.out.writes, wire := r.out.wire)
  {
    if !o.bev then Sent(false, o)
    else if e.writeOk(o.writes) then Sent(true, o.(writes := o.writes + 1, wire := o.wire + data))
    else Sent(false, o.(writes := o.writes + 1))
  }

  function DrawMask(e: Env, o: Out): (r: Sent)
    ensures r.out == o.(draws := o.draws + 1, hdr := o.hdr.(mask := r.out.hdr.mask))
  {
    match e.mask(o.draws)
    case None => Sent(false, o.(draws := o.draws + 1))
    case Some(key) => Sent(true, o.(draws := o.draws + 1, hdr := o.hdr.(mask := key)))
  }

  function SendHeader(e: Env, o: Out): (r: Sent)
    ensures r.out == o.(writes := r.out.writes, wire := r.out.wire)
  {
    SendData(e, o, HeaderBytes(o.hdr))
  }

  /** Masks and writes the payload of the frame whose header was just written. */
  function SendPayload(e: Env, o: Out, data: seq<byte>): (r: Sent)
    ensures r.out == o.(writes := r.out.writes, wire := r.out.wire, sent := r.out.sent, torn := r.out.torn)
  {
    var s := SendData(e, o, if o.hdr.maskBit then Mask(o.hdr.mask, data) else data);
    if !s.ok then s.(out := s.out.(torn := true))
    else
      var key := if o.hdr.maskBit then Some(o.hdr.mask) else None;
      s.(out := s.out.(sent := o.sent + [Frame(o.hdr.fin, o.hdr.opcode, key, data)]))
  }

  /** Draws a key, then writes header and payload. */
  function SendMasked(e: Env, o: Out, data: seq<byte>): (r: Sent)
    ensures r.out.events == o.events && r.out.hdr == o.hdr.(mask := r.out.hdr.mask)
  {
    var s1 := DrawMask(e, o);
    if !s1.ok then s1
    else
      var s2 := SendHeader(e, s1.out);
      if !s2.ok then s2 else SendPayload(e, s2.out, data)
  }

  function SendFrameRaw(e: Env, o: Out, op: nibble, data: seq<byte>): (r: Sent)
    ensures r.out.events == o.events && (r.out.hdr == o.hdr || r.out.hdr.opcode == op)
  {
    if o.send != NotSending then Sent(false, o)
    else if IsControl(op) && |data| > CONTROL_MAX then Sent(false, o)
    else
      var o1 := o.(hdr := ZERO_HEADER.(fin := true, opcode := op));
      if |data| > MAX_PAYLOAD_LEN then Sent(false, o1)
      else
        SendMasked(e, o1.(hdr := o1.hdr.(maskBit := true, payloadLen := Store(e.lenField, |data|))), data)
  }

  function OnSendMsgBegin(o: Out, binary: bool): (r: Sent) {
    if o.send != NotSending then Sent(false, o)
    else Sent(true, o.(hdr := ZERO_HEADER.(opcode := if binary then BINARY else TEXT), send := MessageBegin))
  }

  function OnMsgFrameDataBegin(e: Env, o: Out, len: nat): (r: Sent)
    ensures r.out.send == o.send || (o.send == MessageBegin && r.out.send == InMessage)
    ensures r.ok && o.send == MessageBegin ==> r.out.send == InMessage
  {
    if o.send == NotSending || len > MAX_PAYLOAD_LEN then Sent(false, o)
    else
      var s1 := DrawMask(e, o.(hdr := o.hdr.(maskBit := true, payloadLen := Store(e.lenField, len))));
      if !s1.ok then s1
      else if o.send == MessageBegin then SendHeader(e, s1.out.(send := InMessage))
      else SendHeader(e, s1.out.(hdr := s1.out.hdr.(opcode := CONTINUATION)))
  }

  function OnMsgFrameDataSend(e: Env, o: Out, data: seq<byte>): (r: Sent) {
    if o.send != InMessage then Sent(false, o) else SendPayload(e, o, data)
  }

  function OnMsgFrameSend(e: Env, o: Out, data: seq<byte>): (r: Sent) {
    if o.send == NotSending then Sent(false, o)
    else
      var s := OnMsgFrameDataBegin(e, o, |data|);
      if !s.ok then s else OnMsgFrameDataSend(e, s.out, data)
  }

  function OnSendMsgEnd(e: Env, o: Out): (r: Sent) {
    if o.send != InMessage then Sent(false, o)
    else
      var s := OnMsgFrameSend(e, o.(hdr := o.hdr.(fin := true)), []);
      if !s.ok then s else s.(out := s.out.(send := NotSending))
  }

  function Least(a: nat, b: nat): (r: nat)
    ensures r <= a && r <= b && (r == a || r == b)
  {
    if a < b then a else b
  }

  /** The loop over the frames of a fragmented message. */
  function SendFragments(e: Env, o: Out, rest: seq<byte>): (r: Sent)
    requires e.maxFrameSize > 0
    decreases |rest|
  {
    var n := Least(e.maxFrameSize, |rest|);
    var s := OnMsgFrameSend(e, o, rest[..n]);
    if !s.ok || n == |rest| then s else SendFragments(e, s.out, rest[n..])
  }

  function SendMsgEx(e: Env, o: Out, msg: seq<byte>, binary: bool): (r: Sent) {
    if |msg| <= e.maxFrameSize || e.maxFrameSize == 0 then
      SendFrameRaw(e, o, if binary then BINARY else TEXT, msg)
    else
      var s1 := OnSendMsgBegin(o, binary);
      if !s1.ok then s1
      else
        var s2 := SendFragments(e, s1.out, msg);
        if !s2.ok then s2 else OnSendMsgEnd(e, s2.out)
  }

  // ----- Closing

  const NORMAL := 1000
  const PROTOCOL_ERROR := 1002
  const NO_STATUS := 1005
  const ABNORMAL := 1006
  const INCONSISTENT_DATA := 1007

  function CloseBody(status: nat, reason: seq<byte>): (r: seq<byte>)
    ensures |r| == |reason| + 2
  {
    BigEndian(2, status) + reason
  }

  function SendClose(e: Env, o: Out, status: nat, reason: seq<byte>): (r: Sent)
    ensures r.out.events == o.events && (r.out.hdr == o.hdr || r.out.hdr.opcode == CLOSE)
  {
    if status < 1000 || status > 4999 then Sent(false, o)
    else if |reason| + 2 > CONTROL_MAX then Sent(false, o)
    else SendFrameRaw(e, o, CLOSE, CloseBody(status, reason))
  }

  function ShutDown(o: Out): (r: Out) {
    o.(bev := false)
  }

  function FailClose(o: Out): (r: Out) {
    ShutDown(o).(timer := false, events := o.events + [Closed(ABNORMAL)])
  }

  /** At most a close frame's header was written over the header, and only closes were reported. */
  predicate OnlyCloses(o: Out, o': Out) {
    && (o'.hdr == o.hdr || o'.hdr.opcode == CLOSE)
    && o.events <= o'.events
    && forall i | |o.events| <= i < |o'.events| :: o'.events[i].Closed?
  }

  /** Starts the close timer after the close frame, or gives up. */
  function StartCloseTimer(e: Env, s: Sent): (r: Out)
    ensures r.state == s.out.state && OnlyCloses(s.out, r)
  {
    if !s.ok then FailClose(s.out)
    else
      var o := s.out.(sentClose := true, timers := s.out.timers + 1);
      if e.timerOk(s.out.timers) then o.(timer := true) else FailClose(o)
  }

  /** Sends a close frame unless one was sent, and starts the close timer. */
  function CloseWith(e: Env, o: Out, status: nat, reason: seq<byte>): (r: Out)
    ensures r.state == Closing && OnlyCloses(o, r)
  {
    var o1 := o.(state := Closing);
    StartCloseTimer(e, if o1.sentClose then Sent(true, o1) else SendClose(e, o1, status, reason))
  }

  function CloseStatus(e: Env, c: Conn, status: nat): (r: Conn)
    ensures r.rx == c.rx && r.out.state == Closing && OnlyCloses(c.out, r.out)
  {
    c.(out := CloseWith(e, c.out, status, []))
  }

  predicate PeerStatusValid(code: nat) {
    || 3000 <= code <= 4999
    || 1000 <= code <= 1003
    || 1007 <= code <= 1011
  }

  /** The reason sent back when the peer gave none: an empty string, read at the length of an earlier reason. */
  function StaleReason(e: Env, n: nat): (r: seq<byte>)
    ensures |r| == n
  {
    seq(n, i requires 0 <= i => StaleChar(e, i))
  }

  function StaleChar(e: Env, i: nat): (r: byte) {
    if i == 0 then 0 else e.stale(i)
  }

  /**
    How a received close frame is answered: with which code and reason, and whether
    even when a close frame was sent before.
  */
  datatype Answer = Answer(rx: In, status: nat, reason: seq<byte>, always: bool)

  function JudgeClose(e: Env, rx: In): (r: Answer)
    ensures r.rx.ctrl == rx.ctrl && r.rx.hasHeader == rx.hasHeader && r.rx.inMsg == rx.inMsg
  {
    var rx1 := rx.(receivedClose := true, serverStatus := NORMAL);
    if |rx.ctrl| == 0 then Answer(rx1, NORMAL, StaleReason(e, rx.reasonLen), false)
    else if |rx.ctrl| == 1 then Answer(rx1.(serverStatus := NO_STATUS), PROTOCOL_ERROR, [], true)
    else
      var status, reason := FromBigEndian(rx.ctrl[..2]), rx.ctrl[2..];
      var rx2 := rx1.(serverStatus := status, reasonLen := |reason|);
      if !PeerStatusValid(status) then Answer(rx2, PROTOCOL_ERROR, [], true)
      else
        var rx3 := rx2.(utf8 := Utf8.Run(Utf8.ACCEPT, reason));
        if rx3.utf8 == Utf8.REJECT then Answer(rx3, INCONSISTENT_DATA, [], true)
        else Answer(rx3, status, reason, false)
  }

  function AnswerClose(e: Env, o: Out, status: nat, reason: seq<byte>, always: bool): (r: Out)
    ensures r.state == Closing && OnlyCloses(o, r)
  {
    var o1 := o.(state := Closing, timer := false);
    if o1.sentClose && !always then o1 else CloseWith(e, o1, status, reason)
  }

  function HandleCloseFrame(e: Env, c: Conn): (r: Conn)
    ensures r.out.state == Closing && OnlyCloses(c.out, r.out)
    ensures r.rx.ctrl == c.rx.ctrl && r.rx.hasHeader == c.rx.hasHeader && r.rx.inMsg == c.rx.inMsg
  {
    var a := JudgeClose(e, c.rx);
    Conn(AnswerClose(e, c.out, a.status, a.reason, a.always), a.rx)
  }

  // ----- Receiving

  /** The protocol checks on a received header. */
  predicate ValidHeader(e: Env, inMsg: bool, h: Header) {
    && !h.rsv1 && !h.rsv2 && !h.rsv3
    && !IsReserved(h.opcode)
    && (IsControl(h.opcode) ==> h.fin)
    && !(h.opcode == CONTINUATION && (match e.guard case AsWritten => inMsg case AsDocumented => !inMsg))
    && !(inMsg && h.opcode != CONTINUATION && !IsControl(h.opcode))
  }

  function HandleFrameBegin(c: Conn): (r: Conn) {
    var h := c.out.hdr;
    if IsControl(h.opcode) then c.(rx := c.rx.(recvLen := 0, ctrl := []))
    else if c.rx.inMsg then c.(rx := c.rx.(recvLen := 0, frameData := []))
    else c.(rx := c.rx.(recvLen := 0, inMsg := true, utf8 := Utf8.ACCEPT, binary := h.opcode == BINARY,
                        msg := [], frameData := []))
  }

  /** A return code and the state it was returned in. */
  datatype Handled = Handled(ok: bool, conn: Conn)

  function HandleFrameData(e: Env, c: Conn, buf: seq<byte>): (r: Handled)
    requires |c.rx.ctrl| <= CONTROL_MAX
    ensures |r.conn.rx.ctrl| <= CONTROL_MAX
    ensures r.conn.rx.inMsg == c.rx.inMsg && r.conn.rx.hasHeader == c.rx.hasHeader
    ensures (c.out.state == Closing ==> r.conn.out.state == Closing) && OnlyCloses(c.out, r.conn.out)
  {
    if !IsControl(c.out.hdr.opcode) then Handled(true, c.(rx := c.rx.(frameData := c.rx.frameData + buf)))
    else if |c.rx.ctrl| + |buf| > CONTROL_MAX then
      var c1 := CloseStatus(e, c, PROTOCOL_ERROR);
      Handled(false, c1.(rx := c1.rx.(ctrl := c1.rx.ctrl + buf[..CONTROL_MAX - |c1.rx.ctrl|])))
    else Handled(true, c.(rx := c.rx.(ctrl := c.rx.ctrl + buf)))
  }

  function Emit(c: Conn, event: Event): (r: Conn) {
    c.(out := c.out.(events := c.out.events + [event]))
  }

  function HandleControlFrame(e: Env, c: Conn): (r: Conn)
    ensures (c.out.state == Closing ==> r.out.state == Closing) && c.out.events <= r.out.events
    ensures r.rx.ctrl == c.rx.ctrl && r.rx.hasHeader == c.rx.hasHeader
  {
    var op := c.out.hdr.opcode;
    if op == CLOSE then HandleCloseFrame(e, c)
    else if op == PONG then Emit(c, Pong(c.rx.ctrl))
    else if op == PING then Emit(c, Ping(c.rx.ctrl))
    else c
  }

  /** The end of a message: it is delivered, unless the session is closing. */
  function OnRecvMsgEnd(c: Conn): (r: Conn) {
    var c1 := if c.out.state != Closing then Emit(c, Message(c.rx.msg, c.rx.binary)) else c;
    c1.(rx := c1.rx.(msg := [], inMsg := false))
  }

  function HandleFrameEnd(e: Env, c: Conn): (r: Conn)
    ensures (c.out.state == Closing ==> r.out.state == Closing) && c.out.events <= r.out.events
    ensures !r.rx.hasHeader && r.rx.ctrl == c.rx.ctrl
  {
    if IsControl(c.out.hdr.opcode) then HandleControlFrame(e, c.(rx := c.rx.(hasHeader := false)))
    else
      var c1 := c.(rx := c.rx.(msg := c.rx.msg + c.rx.frameData, frameData := []));
      var c2 := if c1.out.hdr.fin then OnRecvMsgEnd(c1) else c1;
      c2.(rx := c2.rx.(hasHeader := false))
  }

  /** The UTF-8 check on one read's worth of a text message. */
  function CheckText(e: Env, c: Conn, buf: seq<byte>): (r: Conn)
    ensures (c.out.state == Closing ==> r.out.state == Closing) && OnlyCloses(c.out, r.out)
    ensures r.rx == c.rx.(utf8 := r.rx.utf8)
  {
    if c.rx.binary || IsControl(c.out.hdr.opcode) then c
    else
      var c1 := c.(rx := c.rx.(utf8 := Utf8.Run(c.rx.utf8, buf)));
      if c1.rx.utf8 == Utf8.REJECT || (c1.rx.utf8 != Utf8.ACCEPT && c1.out.hdr.fin)
      then CloseStatus(e, c1, INCONSISTENT_DATA) else c1
  }

  /** The bytes of the frame still missing, in the `size_t` arithmetic of the code. */
  function Remaining(c: Conn): (r: nat) {
    (c.out.hdr.payloadLen - c.rx.recvLen) % SIZE_MAX
  }

  function Unmask(h: Header, raw: seq<byte>): (r: seq<byte>)
    ensures |r| == |raw|
  {
    if h.maskBit then Mask(h.mask, raw) else raw
  }

  /** Handles payload bytes as they arrived. */
  function TakeData(e: Env, c: Conn, raw: seq<byte>): (r: Handled)
    requires |c.rx.ctrl| <= CONTROL_MAX
    ensures |r.conn.rx.ctrl| <= CONTROL_MAX
    ensures r.conn.rx.inMsg == c.rx.inMsg && r.conn.rx.hasHeader == c.rx.hasHeader
    ensures (c.out.state == Closing ==> r.conn.out.state == Closing) && OnlyCloses(c.out, r.conn.out)
  {
    var buf := Unmask(c.out.hdr, raw);
    var c1 := c.(rx := c.rx.(recvLen := c.rx.recvLen + |raw|));
    HandleFrameData(e, CheckText(e, c1, buf), buf)
  }

  /** The same, and the end of the frame when they complete it. */
  function TakeBody(e: Env, c: Conn, raw: seq<byte>): (r: Conn)
    requires |c.rx.ctrl| <= CONTROL_MAX
    ensures (c.out.state == Closing ==> r.out.state == Closing) && c.out.events <= r.out.events
    ensures |r.rx.ctrl| <= CONTROL_MAX
  {
    var h := TakeData(e, c, raw);
    if h.ok && h.conn.rx.recvLen == h.conn.out.hdr.payloadLen then HandleFrameEnd(e, h.conn) else h.conn
  }

  /** A session and the input it has not taken yet. */
  datatype Reading = Reading(conn: Conn, left: seq<byte>)

  /** Takes as much of the current frame's payload as has arrived. */
  function ReadBody(e: Env, c: Conn, input: seq<byte>): (r: Reading)
    requires |c.rx.ctrl| <= CONTROL_MAX
    ensures (c.out.state == Closing ==> r.conn.out.state == Closing) && c.out.events <= r.conn.out.events
    ensures |r.conn.rx.ctrl| <= CONTROL_MAX
    ensures r.left == input[Least(|input|, Remaining(c))..]
    ensures Remaining(c) == 0 ==> !r.conn.rx.hasHeader
  {
    var n := Least(|input|, Remaining(c));
    Reading(if Remaining(c) == 0 then HandleFrameEnd(e, c) else TakeBody(e, c, input[..n]), input[n..])
  }

  datatype Parsed = Stop(conn: Conn) | Go(conn: Conn, used: nat)

  /** Takes a frame header off the input, if a whole acceptable one is there. */
  function ReadHeader(e: Env, c: Conn, input: seq<byte>): (r: Parsed)
    requires |c.rx.ctrl| <= CONTROL_MAX
    ensures (c.out.state == Closing ==> r.conn.out.state == Closing) && c.out.events <= r.conn.out.events
    ensures |r.conn.rx.ctrl| <= CONTROL_MAX
    ensures r.Go? ==> r.used <= |input| && (input != [] ==> r.used > 0) && r.conn.rx.hasHeader
  {
    var u := Unpack(e.lenField, input, e.stale);
    var c1 := c.(out := c.out.(hdr := u.hdr));
    if u.state == NeedMore then Stop(c1)
    else if !ValidHeader(e, c.rx.inMsg, u.hdr) then Stop(CloseStatus(e, c1, PROTOCOL_ERROR))
    else Go(HandleFrameBegin(c1.(rx := c1.rx.(hasHeader := true))), Least(|input|, u.headerLen))
  }

  /**
    The read loop: frames and parts of frames until the input is used up. When the
    connection is shut down under way, its input buffer goes with it.
  */
  function ReadWebsocket(e: Env, c: Conn, input: seq<byte>): (r: Reading)
    requires |c.rx.ctrl| <= CONTROL_MAX
    ensures (c.out.state == Closing ==> r.conn.out.state == Closing) && c.out.events <= r.conn.out.events
    ensures |r.conn.rx.ctrl| <= CONTROL_MAX
    decreases |input|, c.rx.hasHeader
  {
    if !c.out.bev then Reading(c, [])
    else if input == [] then Reading(c, [])
    else if c.rx.hasHeader then
      var b := ReadBody(e, c, input);
      ReadWebsocket(e, b.conn, b.left)
    else
      var p := ReadHeader(e, c, input);
      if p.Stop? then Reading(p.conn, input)
      else
        var b := ReadBody(e, p.conn, input[p.used..]);
        ReadWebsocket(e, b.conn, b.left)
  }
}
