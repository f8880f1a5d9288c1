/**
  What the receiver does with input that the standard forbids: exactly which headers
  it refuses, with which close code it answers, and that it delivers nothing more.
*/
module Violations {
  import opened Bytes
  import opened Masking
  import opened FrameHeader
  import opened SessionState
  import opened Receiver
  import opened Streams
  import opened Delivery
  import opened ClosingHandshake
  import opened AsWrittenBuild
  import Utf8

  // ----- Headers as bytes

  /** The length code, the number of bytes it announces, and whether all of them are there. */
  function Code(input: seq<byte>): (r: nat)
    requires |input| >= 2
  {
    input[1] % 128
  }

  function Extra(input: seq<byte>): (r: nat)
    requires |input| >= 2
  {
    if Code(input) == 126 then 2 else if Code(input) == 127 then 8 else 0
  }

  predicate LengthArrived(input: seq<byte>) {
    |input| >= 2 && |input| >= 2 + Extra(input)
  }

  function Announced(input: seq<byte>): (r: nat)
    requires LengthArrived(input)
  {
    if Extra(input) == 0 then Code(input) else FromBigEndian(input[2..2 + Extra(input)])
  }

  predicate Final(input: seq<byte>)
    requires |input| >= 1
  {
    input[0] / 128 % 2 == 1
  }

  /** The frame kinds: no reserved bit or opcode (5.2), control frames whole (5.5), messages in order (5.4). */
  predicate RightKind(p: Partial, input: seq<byte>)
    requires |input| >= 1
  {
    var op := input[0] % 16;
    && input[0] / 64 % 2 == input[0] / 32 % 2 == input[0] / 16 % 2 == 0
    && op in {CONTINUATION, TEXT, BINARY, CLOSE, PING, PONG}
    && (op in {CLOSE, PING, PONG} ==> Final(input))
    && (match p
        case Between => op != CONTINUATION
        case Within(_, _) => op !in {TEXT, BINARY})
  }

  /** Section 5.1 of RFC 6455: a server does not mask. */
  predicate FromServer(input: seq<byte>)
    requires |input| >= 2
  {
    input[1] / 128 % 2 == 0
  }

  /** Section 5.2: the shortest form that can express the length. */
  predicate ShortestLength(input: seq<byte>)
    requires LengthArrived(input)
  {
    (Extra(input) == 2 ==> Announced(input) > 125) && (Extra(input) == 8 ==> Announced(input) > 0xFFFF)
  }

  /** Section 5.2: the most significant bit of a 64-bit length is 0. */
  predicate LengthInRange(input: seq<byte>)
    requires LengthArrived(input)
  {
    Announced(input) < 0x8000_0000_0000_0000
  }

  /** Section 5.5: a control frame carries at most 125 bytes. */
  predicate ControlFits(input: seq<byte>)
    requires LengthArrived(input)
  {
    input[0] % 16 in {CLOSE, PING, PONG} ==> Announced(input) <= 125
  }

  /** What the standard lets a client accept next, of a header whose length has arrived. */
  predicate Standard(p: Partial, input: seq<byte>)
    requires LengthArrived(input)
  {
    RightKind(p, input) && FromServer(input) && ShortestLength(input) && LengthInRange(input) && ControlFits(input)
  }

  /** The departures: a header of the right kind that breaks one of the other four rules. */
  predicate Departs(p: Partial, input: seq<byte>)
    requires LengthArrived(input)
  {
    && RightKind(p, input)
    && !(FromServer(input) && ShortestLength(input) && LengthInRange(input) && ControlFits(input))
  }

  /** What the unpacker makes of any bytes at all. */
  lemma UnpackAny(w: LenField, input: seq<byte>, stale: nat -> byte)
    ensures var u := Unpack(w, input, stale);
            if !LengthArrived(input) then u.state == NeedMore
            else
              && u.state == Success
              && u.hdr == Header(Final(input), input[0] / 64 % 2 == 1, input[0] / 32 % 2 == 1, input[0] / 16 % 2 == 1,
                                 input[0] % 16, !FromServer(input), u.hdr.payloadLen, u.hdr.mask)
              && u.hdr.payloadLen == (if Extra(input) == 0 then Code(input) else Store(w, Announced(input)))
  {
    var b := CopyOut(input, stale);
    if LengthArrived(input) {
      var ext := Extra(input);
      assert b[2..2 + ext] == input[2..2 + ext];
      LoadSwapped(input[2..2 + ext]);
    }
  }

  lemma KindIsValid(e: Env, c: Conn, p: Partial, input: seq<byte>, h: Header)
    requires e.guard == AsDocumented && InStep(c, p) && LengthArrived(input)
    requires h == Header(Final(input), input[0] / 64 % 2 == 1, input[0] / 32 % 2 == 1, input[0] / 16 % 2 == 1,
                         input[0] % 16, !FromServer(input), h.payloadLen, h.mask)
    ensures ValidHeader(e, c.rx.inMsg, h) <==> RightKind(p, input)
  {
  }

  /** The session closed with this code, and said so in a close frame if it could. */
  predicate ClosedWith(e: Env, o: Out, o': Out, status: nat) {
    o'.state == Closing && (Answered(o, o', CloseBody(status, [])) <==> CanClose(e, o))
  }

  lemma StatusClosed(e: Env, o: Out, status: nat)
    requires 1000 <= status <= 4999
    ensures ClosedWith(e, o, CloseWith(e, o, status, []), status)
  {
    CloseWithExact(e, o, status, []);
  }

  /** The header last read plays no part in it. */
  lemma ClosedFrom(e: Env, b: Out, o: Out, o': Out, status: nat)
    requires o == b.(hdr := o.hdr) && ClosedWith(e, o, o', status)
    ensures ClosedWith(e, b, o', status)
  {
  }

  lemma RefusedHeader(e: Env, c: Conn, input: seq<byte>, r: Reading)
    requires Boundary(c) && input != [] && r == ReadWebsocket(e, c, input)
    requires var u := Unpack(e.lenField, input, e.stale); u.state == Success && !ValidHeader(e, c.rx.inMsg, u.hdr)
    ensures var o := c.out.(hdr := Unpack(e.lenField, input, e.stale).hdr);
            r == Reading(Conn(CloseWith(e, o, PROTOCOL_ERROR, []), c.rx), input)
    ensures ReadHeader(e, c, input).Stop?
  {
  }

  /** A refused header is answered with 1002, and nothing of it is taken. */
  lemma Refused(e: Env, c: Conn, input: seq<byte>, r: Reading)
    requires Boundary(c) && input != [] && r == ReadWebsocket(e, c, input)
    requires var u := Unpack(e.lenField, input, e.stale); u.state == Success && !ValidHeader(e, c.rx.inMsg, u.hdr)
    ensures ClosedWith(e, c.out, r.conn.out, PROTOCOL_ERROR) && r.left == input && r.conn.rx == c.rx
  {
    RefusedHeader(e, c, input, r);
    var o := c.out.(hdr := Unpack(e.lenField, input, e.stale).hdr);
    StatusClosed(e, o, PROTOCOL_ERROR);
    ClosedFrom(e, c.out, o, r.conn.out, PROTOCOL_ERROR);
  }

  /**
    Between frames, whatever bytes have arrived: as long as the length is not there the
    session waits; then the header is accepted if and only if the standard allows it
    next or it departs from the standard in its mask, the form or range of its length,
    or the size of a control frame. Any other header is answered with 1002 and not taken.
  */
  lemma HeaderExact(e: Env, c: Conn, p: Partial, input: seq<byte>, r: Reading)
    requires e.guard == AsDocumented && Ready(c, p) && input != [] && r == ReadWebsocket(e, c, input)
    ensures !LengthArrived(input) ==>
              r.left == input && r.conn == c.(out := c.out.(hdr := Unpack(e.lenField, input, e.stale).hdr))
    ensures LengthArrived(input) ==> (ReadHeader(e, c, input).Go? <==> Standard(p, input) || Departs(p, input))
    ensures LengthArrived(input) && !ReadHeader(e, c, input).Go? ==>
              ClosedWith(e, c.out, r.conn.out, PROTOCOL_ERROR) && r.left == input && r.conn.rx == c.rx
  {
    UnpackAny(e.lenField, input, e.stale);
    if LengthArrived(input) {
      var h := Unpack(e.lenField, input, e.stale).hdr;
      KindIsValid(e, c, p, input, h);
      if !ValidHeader(e, c.rx.inMsg, h) { Refused(e, c, input, r); }
    }
  }

  // ----- The departures are real

  /** Accepted between messages, though the standard forbids it. */
  predicate WronglyAccepted(e: Env, c: Conn, input: seq<byte>)
    requires Sound(c)
  {
    LengthArrived(input) && !Standard(Between, input) && ReadHeader(e, c, input).Go?
  }

  lemma DepartureAccepted(e: Env, c: Conn, input: seq<byte>)
    requires e.guard == AsDocumented && Ready(c, Between) && LengthArrived(input) && Departs(Between, input)
    ensures WronglyAccepted(e, c, input)
  {
    HeaderExact(e, c, Between, input, ReadWebsocket(e, c, input));
  }

  lemma BigEndian16(low: byte)
    ensures FromBigEndian([0, low]) == low
  {
    var r: seq<byte> := [low, 0];
    assert Reverse([0, low]) == r;
    assert r[1..] == [0] && r[1..][1..] == [];
    assert FromLittleEndian(r[1..]) == 0;
  }

  /** A ping that announces 200 bytes. */
  lemma LongPingAccepted(e: Env, c: Conn)
    requires e.guard == AsDocumented && Ready(c, Between)
    ensures WronglyAccepted(e, c, [0x89, 126, 0, 200])
  {
    var input := [0x89, 126, 0, 200];
    assert input[2..4] == [0, 200];
    BigEndian16(200);
    DepartureAccepted(e, c, input);
  }

  /** A binary frame whose length 5 is written in two bytes. */
  lemma LongFormAccepted(e: Env, c: Conn)
    requires e.guard == AsDocumented && Ready(c, Between)
    ensures WronglyAccepted(e, c, [0x82, 126, 0, 5])
  {
    var input := [0x82, 126, 0, 5];
    assert input[2..4] == [0, 5];
    BigEndian16(5);
    DepartureAccepted(e, c, input);
  }

  /** A masked frame from the server. */
  lemma MaskedAccepted(e: Env, c: Conn, key: Key)
    requires e.guard == AsDocumented && Ready(c, Between)
    ensures WronglyAccepted(e, c, [0x82, 0x85] + key)
  {
    DepartureAccepted(e, c, [0x82, 0x85] + key);
  }

  /** A 64-bit length with its most significant bit set. */
  lemma HighBitAccepted(e: Env, c: Conn)
    requires e.guard == AsDocumented && Ready(c, Between)
    ensures WronglyAccepted(e, c, [0x82, 127] + BigEndian(8, MAX_PAYLOAD_LEN + 1))
  {
    var input := [0x82, 127] + BigEndian(8, MAX_PAYLOAD_LEN + 1);
    assert input[2..10] == BigEndian(8, MAX_PAYLOAD_LEN + 1);
    Pow256Values();
    BigEndianRoundTrip(8, MAX_PAYLOAD_LEN + 1);
    DepartureAccepted(e, c, input);
  }

  // ----- Payloads

  /** The text so far and `buf` are a well-formed string, or before the final frame the beginning of one. */
  ghost predicate GoodText(text: seq<byte>, fin: bool) {
    if fin then Utf8.WellFormed(text) else exists t: seq<byte> :: Utf8.WellFormed(text + t)
  }

  lemma GoodTextRuns(text: seq<byte>, fin: bool)
    ensures var u := Utf8.Run(Utf8.ACCEPT, text);
            GoodText(text, fin) <==> u != Utf8.REJECT && (u == Utf8.ACCEPT || !fin)
  {
    Utf8.AcceptExact(text);
    Utf8.RejectExact(text);
  }

  /**
    A read of text raises an alarm if and only if the message so far is not well-formed
    in a final frame, or is not the beginning of anything well-formed in another; it is
    answered with 1007.
  */
  lemma TextExact(e: Env, c: Conn, text: seq<byte>, buf: seq<byte>, c': Conn)
    requires c.out.state != Closing && TextFrame(c) && c.rx.utf8 == Utf8.Run(Utf8.ACCEPT, text)
    requires c' == CheckText(e, c, buf)
    ensures c'.out.state == Closing <==> !GoodText(text + buf, c.out.hdr.fin)
    ensures !GoodText(text + buf, c.out.hdr.fin) ==> ClosedWith(e, c.out, c'.out, INCONSISTENT_DATA)
  {
    Utf8.RunConcat(Utf8.ACCEPT, text, buf);
    GoodTextRuns(text + buf, c.out.hdr.fin);
    StatusClosed(e, c.out, INCONSISTENT_DATA);
  }

  lemma LargeControlTaken(e: Env, c: Conn, raw: seq<byte>, c': Conn)
    requires Sound(c) && IsControl(c.out.hdr.opcode) && c.rx.ctrl == [] && c.rx.recvLen == 0
    requires |raw| <= c.out.hdr.payloadLen && c.out.hdr.payloadLen > CONTROL_MAX && c' == TakeBody(e, c, raw)
    ensures |raw| <= CONTROL_MAX ==> c' == c.(rx := c.rx.(recvLen := |raw|, ctrl := Unmask(c.out.hdr, raw)))
    ensures |raw| > CONTROL_MAX ==> c'.out == CloseWith(e, c.out, PROTOCOL_ERROR, [])
  {
    assert [] + Unmask(c.out.hdr, raw) == Unmask(c.out.hdr, raw);
  }

  /** The session just behind the header of a control frame. */
  lemma ControlOpened(e: Env, c: Conn, input: seq<byte>, o: Conn, used: nat)
    requires Boundary(c) && input != [] && ReadHeader(e, c, input) == Go(o, used) && IsControl(o.out.hdr.opcode)
    ensures o.out == c.out.(hdr := o.out.hdr) && o.rx.ctrl == [] && o.rx.recvLen == 0
    ensures o.out.hdr.payloadLen < SIZE_MAX
  {
    UnpackAny(e.lenField, input, e.stale);
  }

  lemma LargeControlBody(e: Env, o: Conn, rest: seq<byte>, c': Conn)
    requires Sound(o) && IsControl(o.out.hdr.opcode) && o.rx.ctrl == [] && o.rx.recvLen == 0
    requires CONTROL_MAX < o.out.hdr.payloadLen < SIZE_MAX && |rest| <= o.out.hdr.payloadLen
    requires c' == TakeBody(e, o, rest)
    ensures ReadBody(e, o, rest) == Reading(c', [])
  {
    assert Remaining(o) == o.out.hdr.payloadLen;
    assert rest[..|rest|] == rest && rest[|rest|..] == [];
  }

  lemma LargeControlRead(e: Env, c: Conn, input: seq<byte>, o: Conn, used: nat, rest: seq<byte>, c': Conn)
    requires Boundary(c) && input != [] && ReadHeader(e, c, input) == Go(o, used) && rest == input[used..]
    requires IsControl(o.out.hdr.opcode) && CONTROL_MAX < o.out.hdr.payloadLen && |rest| <= o.out.hdr.payloadLen
    requires c' == TakeBody(e, o, rest)
    ensures ReadWebsocket(e, c, input) == Reading(c', [])
  {
    ControlOpened(e, c, input, o, used);
    LargeControlBody(e, o, rest, c');
    TurnAtHeader(e, c, input, o, used, Reading(c', []));
  }

  /**
    A control frame that announces more than 125 bytes is refused if and only if more
    than 125 of them have arrived, with 1002; until then they are only stored.
  */
  lemma ControlExact(e: Env, c: Conn, p: Partial, input: seq<byte>, o: Conn, used: nat, rest: seq<byte>, r: Reading)
    requires Ready(c, p) && input != [] && ReadHeader(e, c, input) == Go(o, used) && rest == input[used..]
    requires IsControl(o.out.hdr.opcode) && CONTROL_MAX < o.out.hdr.payloadLen && |rest| <= o.out.hdr.payloadLen
    requires r == ReadWebsocket(e, c, input)
    ensures r.conn.out.state == Closing <==> |rest| > CONTROL_MAX
    ensures |rest| > CONTROL_MAX ==> ClosedWith(e, c.out, r.conn.out, PROTOCOL_ERROR)
    ensures |rest| <= CONTROL_MAX ==> r.conn.out.events == c.out.events && r.conn.rx.ctrl == Unmask(o.out.hdr, rest)
  {
    var c' := TakeBody(e, o, rest);
    ControlOpened(e, c, input, o, used);
    LargeControlRead(e, c, input, o, used, rest, c');
    LargeControlTaken(e, o, rest, c');
    StatusClosed(e, o.out, PROTOCOL_ERROR);
    if |rest| > CONTROL_MAX { ClosedFrom(e, c.out, o.out, r.conn.out, PROTOCOL_ERROR); }
  }

  // ----- After a violation nothing is delivered

  predicate Silent(c: Conn, c': Conn) {
    c'.out.state == Closing && Messages(c'.out.events) == Messages(c.out.events)
  }

  lemma EndSilent(e: Env, c: Conn)
    requires c.out.state == Closing
    ensures Silent(c, HandleFrameEnd(e, c))
  {
    var c1 := c.(rx := c.rx.(hasHeader := false));
    if IsControl(c.out.hdr.opcode) {
      ClosesQuietly(c.out, HandleCloseFrame(e, c1).out);
      MessagesAppend(c.out.events, Ping(c.rx.ctrl));
      MessagesAppend(c.out.events, Pong(c.rx.ctrl));
    }
  }

  lemma TakeSilent(e: Env, c: Conn, raw: seq<byte>)
    requires Sound(c) && c.out.state == Closing
    ensures Silent(c, TakeBody(e, c, raw))
  {
    var c1 := TakeData(e, c, raw).conn;
    ClosesQuietly(c.out, c1.out);
    EndSilent(e, c1);
  }

  lemma BodySilent(e: Env, c: Conn, input: seq<byte>)
    requires Sound(c) && c.out.state == Closing
    ensures Silent(c, ReadBody(e, c, input).conn)
  {
    if Remaining(c) == 0 {
      EndSilent(e, c);
    } else {
      TakeSilent(e, c, input[..Arrived(c, input)]);
    }
  }

  lemma HeaderSilent(e: Env, c: Conn, input: seq<byte>)
    requires Sound(c) && c.out.state == Closing
    ensures Silent(c, ReadHeader(e, c, input).conn)
  {
    var c1 := c.(out := c.out.(hdr := Unpack(e.lenField, input, e.stale).hdr));
    ClosesQuietly(c1.out, CloseStatus(e, c1, PROTOCOL_ERROR).out);
  }

  /** Once closing has begun, for whatever reason, no message is delivered any more, whatever is read. */
  lemma {:induction false} ClosingDeliversNothing(e: Env, c: Conn, input: seq<byte>)
    requires Sound(c) && c.out.state == Closing
    ensures Silent(c, ReadWebsocket(e, c, input).conn)
    decreases |input|, c.rx.hasHeader
  {
    if !c.out.bev || input == [] {
    } else if c.rx.hasHeader {
      BodySilent(e, c, input);
      var b := ReadBody(e, c, input);
      ClosingDeliversNothing(e, b.conn, b.left);
    } else {
      HeaderSilent(e, c, input);
      var p := ReadHeader(e, c, input);
      if p.Go? {
        BodySilent(e, p.conn, input[p.used..]);
        var b := ReadBody(e, p.conn, input[p.used..]);
        ClosingDeliversNothing(e, b.conn, b.left);
      }
    }
  }
}
