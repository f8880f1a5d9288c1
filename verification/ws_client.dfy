/**
  The session as the program has it: an object whose methods update its fields, here
  in two groups, the one that sending and closing change and the one that receiving
  changes. Every method is proved to do what the functions on values say.
*/
module Client {
  import opened Bytes
  import opened Masking
  import opened FrameHeader
  import opened SessionState
  import opened OpeningHandshake
  import opened SessionRuns
  import S = SessionState
  import O = OpeningHandshake
  import Utf8

  /** A new buffer with the given bytes. */
  method Filled(s: seq<byte>) returns (b: array<byte>)
    ensures fresh(b) && b[..] == s
  {
    b := new byte[|s|](i requires 0 <= i < |s| => s[i]);
  }

  class Session {
    const env: Env
    const cfg: Config
    var out: Out
    var rx: In
    var connect: Handshake
    var input: seq<byte>

    ghost function View(): (r: Conn)
      reads this
    {
      Conn(out, rx)
    }

    /** The control payload stays within its buffer. */
    ghost predicate Valid()
      reads this
    {
      |rx.ctrl| <= CONTROL_MAX
    }

    ghost function All(): (r: Life)
      reads this
    {
      Life(View(), connect, input)
    }

    /** A session whose opening request has gone into the output. */
    constructor (env: Env, cfg: Config, request: seq<byte>)
      ensures Valid() && Starts(All(), request) && this.env == env && this.cfg == cfg
      ensures out.send == NotSending && !out.torn && out.events == [] && out.draws == out.writes == out.timers == 0
      ensures !rx.receivedClose && rx.reasonLen == 0 && rx.ctrl == [] && rx.msg == []
    {
      this.env, this.cfg := env, cfg;
      out := Out(true, Connecting, NotSending, ZERO_HEADER, false, 0, 0, 0, false, request, [], false, []);
      rx := In(false, 0, false, false, Utf8.ACCEPT, [], [], [], false, NORMAL, 0);
      connect, input := REQUESTED, [];
    }

    // ----- Sending

    method SendData(data: seq<byte>) returns (ok: bool)
      modifies `out
      ensures Sent(ok, out) == S.SendData(env, old(out), data)
    {
      if !out.bev { return false; }
      ok := env.writeOk(out.writes);
      out := out.(writes := out.writes + 1);
      if ok { out := out.(wire := out.wire + data); }
    }

    method GetRandomMask() returns (ok: bool)
      modifies `out
      ensures Sent(ok, out) == S.DrawMask(env, old(out))
    {
      var key := env.mask(out.draws);
      out := out.(draws := out.draws + 1);
      ok := key.Some?;
      if ok { out := out.(hdr := out.hdr.(mask := key.value)); }
    }

    method SendHeader() returns (ok: bool)
      requires out.hdr.payloadLen <= MAX_PAYLOAD_LEN
      modifies `out
      ensures Sent(ok, out) == S.SendHeader(env, old(out))
    {
      var b := new byte[HDR_MAX_SIZE];
      var n := PackHeader(out.hdr, b);
      ok := SendData(b[..n]);
    }

    /** Masks the payload in the caller's buffer and writes it. */
    method SendPayload(a: array<byte>, off: nat, len: nat) returns (ok: bool)
      requires off + len <= a.Length
      modifies a, `out
      ensures Sent(ok, out) == S.SendPayload(env, old(out), old(a[off..off + len]))
      ensures a[..off] == old(a[..off]) && a[off + len..] == old(a[off + len..])
    {
      var data := a[off..off + len];
      if out.hdr.maskBit { MaskPayload(out.hdr.mask, a, off, len); }
      ok := SendData(a[off..off + len]);
      if ok {
        var key := if out.hdr.maskBit then Some(out.hdr.mask) else None;
        out := out.(sent := out.sent + [Frame(out.hdr.fin, out.hdr.opcode, key, data)]);
      } else {
        out := out.(torn := true);
      }
    }

    /** Draws a key, then writes header and payload. */
    method SendMasked(a: array<byte>, off: nat, len: nat) returns (ok: bool)
      requires off + len <= a.Length && out.hdr.payloadLen <= MAX_PAYLOAD_LEN
      modifies a, `out
      ensures Sent(ok, out) == S.SendMasked(env, old(out), old(a[off..off + len]))
      ensures a[..off] == old(a[..off]) && a[off + len..] == old(a[off + len..])
    {
      ok := GetRandomMask();
      if !ok { return; }
      ok := SendHeader();
      if !ok { return; }
      ok := SendPayload(a, off, len);
    }

    method SendFrameRaw(op: nibble, a: array<byte>, off: nat, len: nat) returns (ok: bool)
      requires off + len <= a.Length
      modifies a, `out
      ensures Sent(ok, out) == S.SendFrameRaw(env, old(out), op, old(a[off..off + len]))
      ensures a[..off] == old(a[..off]) && a[off + len..] == old(a[off + len..])
    {
      ghost var data := a[off..off + len];
      ghost var goal := S.SendFrameRaw(env, out, op, data);
      if out.send != NotSending { return false; }
      if IsControl(op) && len > CONTROL_MAX { return false; }
      out := out.(hdr := ZERO_HEADER.(fin := true, opcode := op));
      if len > MAX_PAYLOAD_LEN { return false; }
      out := out.(hdr := out.hdr.(maskBit := true, payloadLen := Store(env.lenField, len)));
      assert goal == S.SendMasked(env, out, data);
      ok := SendMasked(a, off, len);
    }

    method OnSendMsgBegin(binary: bool) returns (ok: bool)
      modifies `out
      ensures Sent(ok, out) == S.OnSendMsgBegin(old(out), binary)
    {
      if out.send != NotSending { return false; }
      out := out.(hdr := ZERO_HEADER.(opcode := if binary then BINARY else TEXT), send := MessageBegin);
      ok := true;
    }

    method OnMsgFrameDataBegin(len: nat) returns (ok: bool)
      modifies `out
      ensures Sent(ok, out) == S.OnMsgFrameDataBegin(env, old(out), len)
    {
      if out.send != MessageBegin && out.send != InMessage { return false; }
      if len > MAX_PAYLOAD_LEN { return false; }
      out := out.(hdr := out.hdr.(maskBit := true, payloadLen := Store(env.lenField, len)));
      ok := GetRandomMask();
      if !ok { return; }
      if out.send == MessageBegin {
        out := out.(send := InMessage);
      } else {
        out := out.(hdr := out.hdr.(opcode := CONTINUATION));
      }
      ok := SendHeader();
    }

    method OnMsgFrameDataSend(a: array<byte>, off: nat, len: nat) returns (ok: bool)
      requires off + len <= a.Length
      modifies a, `out
      ensures Sent(ok, out) == S.OnMsgFrameDataSend(env, old(out), old(a[off..off + len]))
      ensures a[..off] == old(a[..off]) && a[off + len..] == old(a[off + len..])
    {
      if out.send != InMessage { return false; }
      ok := SendPayload(a, off, len);
    }

    method OnMsgFrameSend(a: array<byte>, off: nat, len: nat) returns (ok: bool)
      requires off + len <= a.Length
      modifies a, `out
      ensures Sent(ok, out) == S.OnMsgFrameSend(env, old(out), old(a[off..off + len]))
      ensures a[..off] == old(a[..off]) && a[off + len..] == old(a[off + len..])
    {
      if out.send != MessageBegin && out.send != InMessage { return false; }
      ghost var data := a[off..off + len];
      ghost var goal := S.OnMsgFrameSend(env, out, data);
      ok := OnMsgFrameDataBegin(len);
      if !ok { return; }
      assert goal == S.OnMsgFrameDataSend(env, out, data);
      ok := OnMsgFrameDataSend(a, off, len);
    }

    method OnSendMsgEnd() returns (ok: bool)
      modifies `out
      ensures Sent(ok, out) == S.OnSendMsgEnd(env, old(out))
    {
      if out.send != InMessage { return false; }
      out := out.(hdr := out.hdr.(fin := true));
      var nothing := new byte[0];
      assert nothing[0..0] == [];
      ok := OnMsgFrameSend(nothing, 0, 0);
      if !ok { return; }
      out := out.(send := NotSending);
    }

    /** All but the last frame of a message in several frames. */
    method SendFragments(a: array<byte>) returns (ok: bool)
      requires env.maxFrameSize > 0
      modifies a, `out
      ensures Sent(ok, out) == S.SendFragments(env, old(out), old(a[..]))
    {
      ghost var goal := S.SendFragments(env, out, a[..]);
      var off, more := 0, true;
      ok := true;
      while more
        invariant off <= a.Length && ok
        invariant goal == if more then S.SendFragments(env, out, a[off..]) else Sent(ok, out)
        decreases more, a.Length - off
      {
        var len := Least(env.maxFrameSize, a.Length - off);
        ghost var rest := a[off..];
        assert a[off..off + len] == rest[..len];
        ok := OnMsgFrameSend(a, off, len);
        if !ok { return; }
        off := off + len;
        assert a[off..] == rest[len..];
        more := off < a.Length;
      }
    }

    /** That the session is connected is the program's own check. */
    method SendMsgEx(a: array<byte>, binary: bool) returns (ok: bool)
      requires out.state == Connected
      modifies a, `out
      ensures Sent(ok, out) == S.SendMsgEx(env, old(out), old(a[..]), binary)
    {
      assert a[0..a.Length] == a[..];
      if a.Length <= env.maxFrameSize || env.maxFrameSize == 0 {
        ok := SendFrameRaw(if binary then BINARY else TEXT, a, 0, a.Length);
        return;
      }
      ok := OnSendMsgBegin(binary);
      if !ok { return; }
      ok := SendFragments(a);
      if !ok { return; }
      ok := OnSendMsgEnd();
    }

    // ----- Closing

    /** Sends a frame from a buffer of its own. */
    method SendCopy(op: nibble, data: seq<byte>) returns (ok: bool)
      modifies `out
      ensures Sent(ok, out) == S.SendFrameRaw(env, old(out), op, data)
    {
      var b := Filled(data);
      assert b[0..b.Length] == b[..];
      ok := SendFrameRaw(op, b, 0, b.Length);
    }

    method SendClose(status: nat, reason: seq<byte>) returns (ok: bool)
      modifies `out
      ensures Sent(ok, out) == S.SendClose(env, old(out), status, reason)
    {
      if status < 1000 || status > 4999 { return false; }
      if |reason| + 2 > CONTROL_MAX { return false; }
      ok := SendCopy(CLOSE, BigEndian(2, status) + reason);
    }

    method ShutDown()
      modifies `out
      ensures out == S.ShutDown(old(out))
    {
      out := out.(bev := false);
    }

    /** The timer after the close frame; without it the connection is given up. */
    method StartCloseTimer(ok: bool)
      modifies `out
      ensures out == S.StartCloseTimer(env, Sent(ok, old(out)))
    {
      var started := false;
      if ok {
        started := env.timerOk(out.timers);
        out := out.(sentClose := true, timers := out.timers + 1);
      }
      out := out.(timer := started);
      if !started {
        ShutDown();
        out := out.(events := out.events + [Closed(ABNORMAL)]);
      }
    }

    method CloseWithStatusReason(status: nat, reason: seq<byte>)
      modifies `out
      ensures out == S.CloseWith(env, old(out), status, reason)
    {
      out := out.(state := Closing);
      var ok := true;
      if !out.sentClose { ok := SendClose(status, reason); }
      StartCloseTimer(ok);
    }

    /** What the body of a received close frame calls for. */
    method JudgeClose() returns (status: nat, reason: seq<byte>, always: bool)
      modifies `rx
      ensures Answer(rx, status, reason, always) == S.JudgeClose(env, old(rx))
    {
      rx := rx.(receivedClose := true, serverStatus := NORMAL);
      if |rx.ctrl| == 0 { return NORMAL, StaleReason(env, rx.reasonLen), false; }
      if |rx.ctrl| == 1 {
        rx := rx.(serverStatus := NO_STATUS);
        return PROTOCOL_ERROR, [], true;
      }
      reason := rx.ctrl[2..];
      rx := rx.(serverStatus := FromBigEndian(rx.ctrl[..2]), reasonLen := |reason|);
      if !PeerStatusValid(rx.serverStatus) { return PROTOCOL_ERROR, [], true; }
      var utf8 := Utf8.ValidateUtf8(Utf8.ACCEPT, reason);
      rx := rx.(utf8 := utf8);
      if utf8 == Utf8.REJECT { return INCONSISTENT_DATA, [], true; }
      status, always := rx.serverStatus, false;
    }

    method HandleCloseFrame()
      requires Valid()
      modifies `out, `rx
      ensures Valid() && View() == S.HandleCloseFrame(env, old(View()))
    {
      var status, reason, always := JudgeClose();
      out := out.(state := Closing, timer := false);
      if !out.sentClose || always { CloseWithStatusReason(status, reason); }
    }

    // ----- Receiving

    method HandleFrameBegin()
      requires Valid()
      modifies `rx
      ensures Valid() && View() == S.HandleFrameBegin(old(View()))
    {
      rx := rx.(recvLen := 0);
      if IsControl(out.hdr.opcode) {
        rx := rx.(ctrl := []);
        return;
      }
      if !rx.inMsg {
        rx := rx.(inMsg := true, utf8 := Utf8.ACCEPT, binary := out.hdr.opcode == BINARY, msg := []);
      }
      rx := rx.(frameData := []);
    }

    method HandleFrameData(buf: seq<byte>) returns (ok: bool)
      requires Valid()
      modifies `out, `rx
      ensures Valid() && Handled(ok, View()) == S.HandleFrameData(env, old(View()), buf)
    {
      if !IsControl(out.hdr.opcode) {
        rx := rx.(frameData := rx.frameData + buf);
        return true;
      }
      var len := |buf|;
      ok := true;
      if |rx.ctrl| + len > CONTROL_MAX {
        len := CONTROL_MAX - |rx.ctrl|;
        CloseWithStatusReason(PROTOCOL_ERROR, []);
        ok := false;
      }
      assert buf[..|buf|] == buf;
      rx := rx.(ctrl := rx.ctrl + buf[..len]);
    }

    method OnRecvMsgEnd()
      modifies `out, `rx
      ensures View() == S.OnRecvMsgEnd(old(View()))
    {
      if out.state != Closing { out := out.(events := out.events + [Message(rx.msg, rx.binary)]); }
      rx := rx.(msg := [], inMsg := false);
    }

    method HandleControlFrame()
      requires Valid()
      modifies `out, `rx
      ensures Valid() && View() == S.HandleControlFrame(env, old(View()))
    {
      if out.hdr.opcode == CLOSE {
        HandleCloseFrame();
      } else if out.hdr.opcode == PONG {
        out := out.(events := out.events + [Pong(rx.ctrl)]);
      } else if out.hdr.opcode == PING {
        out := out.(events := out.events + [Ping(rx.ctrl)]);
      }
    }

    method HandleFrameEnd()
      requires Valid()
      modifies `out, `rx
      ensures Valid() && View() == S.HandleFrameEnd(env, old(View()))
    {
      if IsControl(out.hdr.opcode) {
        rx := rx.(hasHeader := false);
        HandleControlFrame();
        return;
      }
      rx := rx.(msg := rx.msg + rx.frameData, frameData := []);
      if out.hdr.fin { OnRecvMsgEnd(); }
      rx := rx.(hasHeader := false);
    }

    method CheckText(buf: seq<byte>)
      modifies `out, `rx
      ensures View() == S.CheckText(env, old(View()), buf)
    {
      if rx.binary || IsControl(out.hdr.opcode) { return; }
      var utf8 := Utf8.ValidateUtf8(rx.utf8, buf);
      rx := rx.(utf8 := utf8);
      if utf8 == Utf8.REJECT || (utf8 != Utf8.ACCEPT && out.hdr.fin) {
        CloseWithStatusReason(INCONSISTENT_DATA, []);
      }
    }

    /** Payload bytes are unmasked in a buffer of their own. */
    method UnmaskPayload(raw: seq<byte>) returns (text: seq<byte>)
      ensures text == Unmask(out.hdr, raw)
    {
      var buf := Filled(raw);
      assert buf[0..buf.Length] == buf[..];
      if out.hdr.maskBit { MaskPayload(out.hdr.mask, buf, 0, buf.Length); }
      text := buf[0..buf.Length];
    }

    /** Payload bytes as they arrived. */
    method TakeData(raw: seq<byte>) returns (ok: bool)
      requires Valid()
      modifies `out, `rx
      ensures Valid() && Handled(ok, View()) == S.TakeData(env, old(View()), raw)
    {
      ghost var goal := S.TakeData(env, View(), raw);
      rx := rx.(recvLen := rx.recvLen + |raw|);
      var text := UnmaskPayload(raw);
      assert goal == S.HandleFrameData(env, S.CheckText(env, View(), text), text);
      CheckText(text);
      ok := HandleFrameData(text);
    }

    method TakeBody(raw: seq<byte>)
      requires Valid()
      modifies `out, `rx
      ensures Valid() && View() == S.TakeBody(env, old(View()), raw)
    {
      var ok := TakeData(raw);
      if ok && rx.recvLen == out.hdr.payloadLen { HandleFrameEnd(); }
    }

    /** The part of the current frame that has arrived. */
    method ReadBody()
      requires Valid()
      modifies `out, `rx, `input
      ensures Valid() && Reading(View(), input) == S.ReadBody(env, old(View()), old(input))
    {
      ghost var before := View();
      var remaining := (out.hdr.payloadLen - rx.recvLen) % SIZE_MAX;
      var n := Least(|input|, remaining);
      var raw := input[..n];
      input := input[n..];
      if remaining == 0 {
        HandleFrameEnd();
        assert View() == S.HandleFrameEnd(env, before);
      } else {
        TakeBody(raw);
        assert View() == S.TakeBody(env, before, raw);
      }
    }

    /** Unpacks the header field by field from the bytes copied out of the input. */
    method UnpackHeader(b: seq<byte>, len: nat) returns (state: ParseState, headerLen: nat)
      requires |b| == HDR_MAX_SIZE && len <= HDR_MAX_SIZE
      modifies `out
      ensures Unpacked(state, out.hdr, headerLen) == FrameHeader.UnpackHeader(env.lenField, b, len)
      ensures out == old(out).(hdr := out.hdr)
    {
      var h := ZERO_HEADER;
      out := out.(hdr := h);
      if len < HDR_MIN_SIZE { return NeedMore, 0; }
      h := h.(fin := b[0] / 128 % 2 == 1, rsv1 := b[0] / 64 % 2 == 1, rsv2 := b[0] / 32 % 2 == 1,
              rsv3 := b[0] / 16 % 2 == 1, opcode := b[0] % 16);
      h := h.(maskBit := b[1] / 128 % 2 == 1, payloadLen := b[1] % 128);
      out := out.(hdr := h);
      headerLen := 2;
      if h.payloadLen == 126 {
        if len < headerLen + 2 { return NeedMore, headerLen; }
        h := h.(payloadLen := Store(env.lenField, SwapBytes(2, FromLittleEndian(b[2..4]))));
        headerLen := headerLen + 2;
      } else if h.payloadLen == 127 {
        if len < headerLen + 8 { return NeedMore, headerLen; }
        h := h.(payloadLen := Store(env.lenField, SwapBytes(8, FromLittleEndian(b[2..10]))));
        headerLen := headerLen + 8;
      }
      if h.maskBit {
        h := h.(mask := b[headerLen..headerLen + 4]);
        headerLen := headerLen + 4;
      }
      out := out.(hdr := h);
      state := Success;
    }

    method ValidateHeader() returns (ok: bool)
      ensures ok <==> ValidHeader(env, rx.inMsg, out.hdr)
    {
      var h := out.hdr;
      if h.rsv1 || h.rsv2 || h.rsv3 { return false; }
      if IsReserved(h.opcode) { return false; }
      if IsControl(h.opcode) && !h.fin { return false; }
      if h.opcode == CONTINUATION && rx.inMsg == (env.guard == AsWritten) { return false; }
      if rx.inMsg && h.opcode != CONTINUATION && !IsControl(h.opcode) { return false; }
      ok := true;
    }

    /** Takes a header off the input; reports whether there is a frame to go on with. */
    method ReadHeader() returns (go: bool)
      requires Valid()
      modifies `out, `rx, `input
      ensures Valid()
      ensures var p := S.ReadHeader(env, old(View()), old(input));
              go == p.Go? && View() == p.conn && input == if go then old(input)[p.used..] else old(input)
    {
      var b := CopyOut(input, env.stale);
      var state, headerLen := UnpackHeader(b, Copied(input));
      if state == NeedMore { return false; }
      var valid := ValidateHeader();
      if !valid {
        CloseWithStatusReason(PROTOCOL_ERROR, []);
        return false;
      }
      rx := rx.(hasHeader := true);
      input := input[Least(|input|, headerLen)..];
      HandleFrameBegin();
      go := true;
    }

    /** The read loop. */
    method ReadWebsocket()
      requires Valid()
      modifies `out, `rx, `input
      ensures Valid() && Reading(View(), input) == S.ReadWebsocket(env, old(View()), old(input))
    {
      ghost var goal := S.ReadWebsocket(env, View(), input);
      while out.bev && input != []
        invariant Valid() && S.ReadWebsocket(env, View(), input) == goal
        decreases |input|, rx.hasHeader
      {
        if !rx.hasHeader {
          var go := ReadHeader();
          if !go { return; }
        }
        ReadBody();
      }
      input := [];
    }

    // ----- The opening handshake

    method ReadHttpHeaders() returns (state: ParseState)
      modifies `connect, `input
      ensures var r := O.ReadHttpHeaders(cfg, old(connect), "", old(input));
              state == r.state && connect == r.hs && input == r.left
    {
      ghost var goal := O.ReadHttpHeaders(cfg, connect, "", input);
      var val := "";
      while true
        invariant O.ReadHttpHeaders(cfg, connect, val, input) == goal
        decreases |input|
      {
        var line := ReadLine(input);
        if line.NoLine? { return NeedMore; }
        input := line.rest;
        if Blank(line.text) { return Success; }
        var f := cfg.parseHeader(line.text);
        if f.value.Some? { val := f.value.value; }
        var checked := ValidateHttpHeaders(cfg, connect, f.name, val);
        if checked.None? { return Error; }
        connect := checked.value;
      }
    }

    method ReadServerHandshakeReply() returns (state: ParseState)
      modifies `connect, `input
      ensures Reply(state, connect, input) == O.ReadServerHandshakeReply(cfg, old(connect), old(input))
    {
      if connect.phase == Complete { return Error; }
      if connect.phase == SentReq {
        connect := REQUESTED;
        var line := ReadLine(input);
        if line.NoLine? { return NeedMore; }
        input := line.rest;
        if cfg.parseStatus(line.text) != Some(Status(1, 1, 101)) { return Error; }
        connect := connect.(phase := ParsedStatus);
      }
      if connect.phase == ParsedStatus {
        state := ReadHttpHeaders();
        if state != Success { return; }
        connect := connect.(phase := ParsedHeaders);
      }
      if !connect.upgrade || !connect.connection || !connect.accept { return Error; }
      connect := connect.(phase := Complete);
      state := Success;
    }

    // ----- Events

    method DoSendMsg(a: array<byte>) returns (ok: bool)
      requires Valid() && out.state == Connected
      modifies a, `out
      ensures Valid() && All() == Step(env, cfg, old(All()), Send(old(a[..]), false))
    {
      ok := SendMsgEx(a, false);
    }

    method DoClose()
      requires Valid()
      modifies `out
      ensures Valid() && All() == Step(env, cfg, old(All()), Close(NORMAL, []))
    {
      CloseWithStatusReason(NORMAL, []);
    }

    method OnCloseTimeout()
      requires Valid() && out.timer
      modifies `out
      ensures Valid() && All() == Step(env, cfg, old(All()), Timeout)
    {
      out := out.(timer := false);
      ShutDown();
    }

    method OnRead(chunk: seq<byte>)
      requires Valid() && out.bev
      modifies this
      ensures Valid() && All() == Step(env, cfg, old(All()), Read(chunk))
    {
      input := input + chunk;
      if connect.phase != Complete {
        var state := ReadServerHandshakeReply();
        if state == NeedMore { return; }
        if state == Error {
          ShutDown();
          input := [];
          return;
        }
        out := out.(state := Connected, events := out.events + [HandshakeDone]);
      }
      ReadWebsocket();
    }

    method OnEofEvent()
      requires Valid() && out.bev
      modifies this
      ensures Valid() && All() == Step(env, cfg, old(All()), Eof)
    {
      ghost var goal := OnEof(env, All());
      ReadWebsocket();
      assert goal == Ended(connect, View());
      ShutDown();
      input := [];
      var status := rx.serverStatus;
      if !rx.receivedClose {
        out := out.(state := ClosedUncleanly);
        status := ABNORMAL;
      }
      out := out.(events := out.events + [Closed(status)]);
    }
  }
}
