/**
  The build as it is written: a seven-bit payload length and the guard that refuses
  continuations inside a message. Exactly which messages it can carry.
*/
module AsWrittenBuild {
  import opened Bytes
  import opened FrameHeader
  import opened SessionState
  import opened Sender
  import opened Receiver
  import opened Streams
  import opened Delivery
  import opened EndToEnd
  import Utf8

  // ----- Inside a message nothing is delivered any more

  function Messages(events: seq<Event>): (r: nat) {
    if events == [] then 0
    else Messages(events[..|events| - 1]) + (if events[|events| - 1].Message? then 1 else 0)
  }

  lemma MessagesAppend(events: seq<Event>, event: Event)
    ensures Messages(events + [event]) == Messages(events) + if event.Message? then 1 else 0
  {
    assert (events + [event])[..|events|] == events;
  }

  /** Within a message whose frame in progress, if any, is not a final data frame. */
  predicate Trapped(c: Conn) {
    c.rx.inMsg && (c.rx.hasHeader ==> IsControl(c.out.hdr.opcode) || !c.out.hdr.fin)
  }

  /** Still trapped, and no message was delivered. */
  predicate StaysTrapped(c: Conn, c': Conn) {
    Trapped(c') && Messages(c'.out.events) == Messages(c.out.events)
  }

  lemma {:induction false} ClosesOnly(events: seq<Event>, events': seq<Event>)
    requires events <= events' && forall i | |events| <= i < |events'| :: events'[i].Closed?
    ensures Messages(events') == Messages(events)
    decreases |events'|
  {
    if |events'| == |events| {
      assert events' == events;
    } else {
      ClosesOnly(events, events'[..|events'| - 1]);
    }
  }

  lemma ClosesQuietly(o: Out, o': Out)
    requires OnlyCloses(o, o')
    ensures Messages(o'.events) == Messages(o.events)
  {
    ClosesOnly(o.events, o'.events);
  }

  lemma EndTrapped(e: Env, c: Conn)
    requires Trapped(c) && c.rx.hasHeader
    ensures StaysTrapped(c, HandleFrameEnd(e, c))
  {
    var c1 := c.(rx := c.rx.(hasHeader := false));
    if IsControl(c.out.hdr.opcode) {
      ClosesQuietly(c.out, HandleCloseFrame(e, c1).out);
      MessagesAppend(c.out.events, Ping(c.rx.ctrl));
      MessagesAppend(c.out.events, Pong(c.rx.ctrl));
    }
  }

  lemma ClosingTrapped(c: Conn, c': Conn)
    requires Trapped(c) && OnlyCloses(c.out, c'.out)
    requires c'.rx.inMsg == c.rx.inMsg && c'.rx.hasHeader == c.rx.hasHeader
    ensures StaysTrapped(c, c')
  {
    ClosesQuietly(c.out, c'.out);
  }

  lemma TakeTrapped(e: Env, c: Conn, raw: seq<byte>)
    requires Sound(c) && Trapped(c) && c.rx.hasHeader
    ensures StaysTrapped(c, TakeBody(e, c, raw))
  {
    var c1 := TakeData(e, c, raw).conn;
    ClosingTrapped(c, c1);
    EndTrapped(e, c1);
  }

  lemma BodyTrapped(e: Env, c: Conn, input: seq<byte>)
    requires Sound(c) && Trapped(c) && c.rx.hasHeader
    ensures StaysTrapped(c, ReadBody(e, c, input).conn)
  {
    if Remaining(c) == 0 {
      EndTrapped(e, c);
    } else {
      TakeTrapped(e, c, input[..Arrived(c, input)]);
    }
  }

  lemma HeaderTrapped(e: Env, c: Conn, input: seq<byte>)
    requires e.guard == AsWritten && Sound(c) && Trapped(c) && !c.rx.hasHeader
    ensures StaysTrapped(c, ReadHeader(e, c, input).conn)
  {
    var u := Unpack(e.lenField, input, e.stale);
    var c1 := c.(out := c.out.(hdr := u.hdr));
    ClosesQuietly(c1.out, CloseStatus(e, c1, PROTOCOL_ERROR).out);
  }

  /** With the guard as written, a message in progress is never delivered, whatever is read. */
  lemma {:induction false} NeverDelivered(e: Env, c: Conn, input: seq<byte>)
    requires e.guard == AsWritten && Sound(c) && Trapped(c)
    ensures StaysTrapped(c, ReadWebsocket(e, c, input).conn)
    decreases |input|, c.rx.hasHeader
  {
    if !c.out.bev || input == [] {
    } else if c.rx.hasHeader {
      BodyTrapped(e, c, input);
      var b := ReadBody(e, c, input);
      NeverDelivered(e, b.conn, b.left);
    } else {
      HeaderTrapped(e, c, input);
      var p := ReadHeader(e, c, input);
      if p.Go? {
        var rest := input[p.used..];
        BodyTrapped(e, p.conn, rest);
        var b := ReadBody(e, p.conn, rest);
        NeverDelivered(e, b.conn, b.left);
      }
    }
  }

  // ----- Which messages arrive

  /** Once the first frame of a fragmented message was read, no message is delivered, whatever follows. */
  lemma FragmentLost(e: Env, c: Conn, f: Frame, rest: seq<byte>, bytes: seq<byte>)
    requires e.guard == AsWritten && Ready(c, Between) && !f.fin && f.opcode in {TEXT, BINARY}
    requires e.lenField == Bits7 && bytes == Encode(e.lenField, f) + rest
    ensures Messages(ReadWebsocket(e, c, bytes).conn.out.events) == Messages(c.out.events)
  {
    var h, o := HeaderOf(e.lenField, f), Opened(e, c, f);
    var body := Unmask(h, f.payload) + rest;
    EncodeParts(e.lenField, f, rest);
    HeadRead(e, c, f, body);
    BodyTrapped(e, o, body);
    var b := ReadBody(e, o, body);
    NeverDelivered(e, b.conn, b.left);
    TurnAtHeader(e, c, bytes, o, HeaderSize(h), b);
  }

  /** A frame whose length field dropped bits is a frame with a shorter payload, and loose bytes behind it. */
  lemma Truncated(f: Frame, n: nat)
    requires n == Store(Bits7, |f.payload|)
    ensures n <= |f.payload|
    ensures Encode(Bits7, f) == Encode(Bits7, f.(payload := f.payload[..n])) + Unmask(HeaderOf(Bits7, f), f.payload)[n..]
  {
    var h := HeaderOf(Bits7, f);
    assert HeaderOf(Bits7, f.(payload := f.payload[..n])) == h;
    UnmaskSlice(h, f.payload, n);
  }

  /** A message too long for the length field does not arrive. */
  lemma LongFrameLost(e: Env, c: Conn, f: Frame, binary: bool, bytes: seq<byte>)
    requires e.lenField == Bits7 && Ready(c, Between) && |f.payload| >= Limit(Bits7)
    requires f == Frame(true, OpcodeOf(binary), f.key, f.payload) && bytes == Encode(Bits7, f)
    ensures !Arrives(e, c, bytes, f.payload, binary)
  {
    var n := Store(Bits7, |f.payload|);
    Truncated(f, n);
    var f' := f.(payload := f.payload[..n]);
    var rest := Unmask(HeaderOf(Bits7, f), f.payload)[n..];
    OneFrame(e, c, f', binary, rest, bytes);
    if binary || Utf8.WellFormed(f'.payload) {
      var a := Accept(e, c, f');
      assert a.out.events[|c.out.events|] == Message(f'.payload, binary);
      assert a.out.events <= ReadWebsocket(e, a, rest).conn.out.events;
    }
  }

  lemma LiteralOneFrame(es: Env, er: Env, o: Out, c: Conn, msg: seq<byte>, binary: bool)
    requires es.lenField == er.lenField == Bits7 && Ready(c, Between) && InOneFrame(es, msg)
    requires SendMsgEx(es, o, msg, binary).ok
    ensures Arrives(er, c, Added(o, SendMsgEx(es, o, msg, binary).out), msg, binary) <==>
              |msg| < 128 && (binary || Utf8.WellFormed(msg))
  {
    var o' := SendMsgEx(es, o, msg, binary).out;
    var f := Frame(true, OpcodeOf(binary), Some(o'.hdr.mask), msg);
    OneFrameAdded(es, o, msg, binary, o', f);
    if |msg| < 128 {
      OneFrameArrives(er, c, f, binary, Added(o, o'));
    } else {
      LongFrameLost(er, c, f, binary, Added(o, o'));
    }
  }

  lemma OneFrameAdded(e: Env, o: Out, msg: seq<byte>, binary: bool, o': Out, f: Frame)
    requires InOneFrame(e, msg) && SendMsgEx(e, o, msg, binary) == Sent(true, o')
    requires f == Frame(true, OpcodeOf(binary), Some(o'.hdr.mask), msg)
    ensures Added(o, o') == Encode(e.lenField, f)
  {
    FrameRawWrites(e, o, OpcodeOf(binary), msg);
    AddedExact(o, o', Encode(e.lenField, f));
  }

  /** The bytes of a fragmented message begin with those of a frame that is not final. */
  lemma FragmentsLost(e: Env, c: Conn, fs: seq<Frame>, max: nat, msg: seq<byte>, binary: bool, bytes: seq<byte>)
    requires e.lenField == Bits7 && e.guard == AsWritten && Ready(c, Between)
    requires max > 0 && msg != [] && Fragmented(fs, OpcodeOf(binary), max, msg) && bytes == EncodeAll(Bits7, fs)
    ensures !Arrives(e, c, bytes, msg, binary)
  {
    EncodeAllHead(Bits7, fs);
    assert fs[0] == fs[..|fs| - 1][0];
    FragmentLost(e, c, fs[0], EncodeAll(Bits7, fs[1..]), bytes);
    MessagesAppend(c.out.events, Message(msg, binary));
  }

  lemma LiteralFragments(es: Env, er: Env, o: Out, c: Conn, msg: seq<byte>, binary: bool)
    requires es.lenField == er.lenField == Bits7 && er.guard == AsWritten && Ready(c, Between) && !InOneFrame(es, msg)
    requires SendMsgEx(es, o, msg, binary).ok
    ensures !Arrives(er, c, Added(o, SendMsgEx(es, o, msg, binary).out), msg, binary)
  {
    var o' := SendMsgEx(es, o, msg, binary).out;
    var fs := FragmentationWellFormed(es, o, msg, binary);
    AddedExact(o, o', EncodeAll(Bits7, fs));
    FragmentsLost(er, c, fs, es.maxFrameSize, msg, binary, Added(o, o'));
  }

  /**
    End to end, for the build as it is written: what a successful send writes is
    received as that message and nothing else if and only if the message went into
    one frame, is shorter than 128 bytes, and is binary or well-formed text.
  */
  lemma EndToEndLiteral(es: Env, er: Env, o: Out, c: Conn, msg: seq<byte>, binary: bool, bytes: seq<byte>)
    requires es.lenField == er.lenField == Bits7 && er.guard == AsWritten && Ready(c, Between)
    requires SendMsgEx(es, o, msg, binary).ok && bytes == Added(o, SendMsgEx(es, o, msg, binary).out)
    ensures Arrives(er, c, bytes, msg, binary) <==> InOneFrame(es, msg) && |msg| < 128 && (binary || Utf8.WellFormed(msg))
  {
    if InOneFrame(es, msg) {
      LiteralOneFrame(es, er, o, c, msg, binary);
    } else {
      LiteralFragments(es, er, o, c, msg, binary);
    }
  }
}
