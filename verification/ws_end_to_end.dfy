/**
  From one session's sender to another's receiver: which messages arrive, for the
  build as intended and for the build as it is written.
*/
module EndToEnd {
  import opened Bytes
  import opened FrameHeader
  import opened SessionState
  import opened Sender
  import opened Receiver
  import opened Streams
  import opened Delivery
  import opened ExactConditions
  import Utf8

  /** A reading that delivered the message, nothing else, and left the session open. */
  predicate Delivered(r: Reading, c: Conn, msg: seq<byte>, binary: bool) {
    r.conn.out.events == c.out.events + [Message(msg, binary)] && r.conn.out.state == Connected && r.left == []
  }

  /** Reading `bytes` delivers the message, nothing else, and leaves the session open. */
  predicate Arrives(e: Env, c: Conn, bytes: seq<byte>, msg: seq<byte>, binary: bool)
    requires Sound(c)
  {
    Delivered(ReadWebsocket(e, c, bytes), c, msg, binary)
  }

  function OpcodeOf(binary: bool): (r: nibble) {
    if binary then BINARY else TEXT
  }

  // ----- One frame

  /** A final frame whose text fails the check. */
  lemma TextAlarms(e: Env, c: Conn, f: Frame, rest: seq<byte>)
    requires Boundary(c) && HeadFine(e, c, f) && f.payload != [] && !TextFine(Opened(e, c, f), f.payload)
    ensures ReadWebsocket(e, c, Encode(e.lenField, f) + rest).conn.out.state == Closing
  {
    var h, o := HeaderOf(e.lenField, f), Opened(e, c, f);
    var body := Unmask(h, f.payload) + rest;
    EncodeParts(e.lenField, f, rest);
    EncodeHead(e, c, f, body);
    OpenedInFrame(e, c, f);
    assert body[..|f.payload|] == Unmask(h, f.payload);
    UnmaskTwice(h, f.payload);
    AlarmInBody(e, c, Encode(e.lenField, f) + rest, o, HeaderSize(h));
  }

  /** A message in one frame, and what may follow it. */
  lemma OneFrame(e: Env, c: Conn, f: Frame, binary: bool, rest: seq<byte>, bytes: seq<byte>)
    requires Ready(c, Between) && |f.payload| < Limit(e.lenField) && |f.payload| <= MAX_PAYLOAD_LEN
    requires f == Frame(true, OpcodeOf(binary), f.key, f.payload) && bytes == Encode(e.lenField, f) + rest
    ensures var r := ReadWebsocket(e, c, bytes);
            if binary || Utf8.WellFormed(f.payload)
            then && FrameFine(e, c, f) && Sound(Accept(e, c, f))
                 && Delivered(Reading(Accept(e, c, f), []), c, f.payload, binary)
                 && r == ReadWebsocket(e, Accept(e, c, f), rest)
            else r.conn.out.state == Closing
  {
    if binary || Utf8.WellFormed(f.payload) {
      AllowedIsFine(e, c, Between, f);
      StillReady(e, c, Between, f);
      AcceptAllowed(e, c, Between, f);
      WholeFrame(e, c, f, rest);
    } else {
      Utf8.AcceptExact(f.payload);
      OpenedText(e, c, Between, f);
      TextAlarms(e, c, f, rest);
    }
  }

  lemma ReadNothing(e: Env, c: Conn)
    requires Sound(c)
    ensures ReadWebsocket(e, c, []) == Reading(c, [])
  {
  }

  lemma OneFrameArrives(e: Env, c: Conn, f: Frame, binary: bool, bytes: seq<byte>)
    requires Ready(c, Between) && |f.payload| < Limit(e.lenField) && |f.payload| <= MAX_PAYLOAD_LEN
    requires f == Frame(true, OpcodeOf(binary), f.key, f.payload) && bytes == Encode(e.lenField, f)
    ensures Arrives(e, c, bytes, f.payload, binary) <==> binary || Utf8.WellFormed(f.payload)
    ensures binary || Utf8.WellFormed(f.payload) ==> StreamFine(e, c, [f])
  {
    assert bytes + [] == bytes;
    OneFrame(e, c, f, binary, [], bytes);
    if binary || Utf8.WellFormed(f.payload) { ReadNothing(e, Accept(e, c, f)); }
  }

  // ----- A fragmented message

  /** Continuation frames up to an empty final one. */
  predicate RestOfMessage(e: Env, fs: seq<Frame>) {
    && fs != []
    && fs[0].opcode == CONTINUATION && fs[0].key.Some?
    && |fs[0].payload| < Limit(e.lenField) && |fs[0].payload| <= MAX_PAYLOAD_LEN
    && if |fs| == 1 then fs[0].fin && fs[0].payload == [] else !fs[0].fin && RestOfMessage(e, fs[1..])
  }

  lemma PayloadsHead(fs: seq<Frame>)
    requires fs != []
    ensures Payloads(fs) == fs[0].payload + Payloads(fs[1..])
  {
    assert PayloadsOf(fs) == [fs[0].payload] + PayloadsOf(fs[1..]);
    ConcatHead(fs[0].payload, PayloadsOf(fs[1..]));
  }

  /** The text so far can still become well-formed. */
  predicate Viable(binary: bool, text: seq<byte>) {
    binary || Utf8.Run(Utf8.ACCEPT, text) != Utf8.REJECT
  }

  lemma ViablePrefix(binary: bool, a: seq<byte>, b: seq<byte>)
    ensures Viable(binary, a + b) ==> Viable(binary, a)
  {
    Utf8.RunConcat(Utf8.ACCEPT, a, b);
    Utf8.RejectAbsorbs(b);
  }

  /** A frame that is not final is taken exactly when the text stays viable. */
  lemma PieceTaken(e: Env, c: Conn, p: Partial, f: Frame, rest: seq<byte>, bytes: seq<byte>)
    requires Ready(c, p) && HeadFine(e, c, f) && !f.fin && !IsControl(f.opcode)
    requires p.Within? ==> Viable(p.binary, p.text)
    requires bytes == Encode(e.lenField, f) + rest
    ensures var r := ReadWebsocket(e, c, bytes);
            if Viable(IsBinary(p, f), Joined(p, f))
            then && FrameFine(e, c, f)
                 && Ready(Accept(e, c, f), Within(IsBinary(p, f), Joined(p, f)))
                 && Accept(e, c, f).out.events == c.out.events
                 && r == ReadWebsocket(e, Accept(e, c, f), rest)
            else r.conn.out.state == Closing
  {
    OpenedText(e, c, p, f);
    if Viable(IsBinary(p, f), Joined(p, f)) {
      AcceptIdle(e, c, f);
      AcceptData(e, c, p, f);
      WholeFrame(e, c, f, rest);
    } else {
      TextAlarms(e, c, f, rest);
    }
  }

  /** The empty final frame ends the message unchecked. */
  lemma FinalTaken(e: Env, c: Conn, p: Partial, f: Frame, bytes: seq<byte>)
    requires Ready(c, p) && p.Within? && HeadFine(e, c, f) && f.fin && f.opcode == CONTINUATION && f.payload == []
    requires bytes == Encode(e.lenField, f)
    ensures FrameFine(e, c, f) && Arrives(e, c, bytes, p.text, p.binary)
  {
    AcceptIdle(e, c, f);
    AcceptData(e, c, p, f);
    assert bytes + [] == bytes;
    WholeFrame(e, c, f, []);
    ReadNothing(e, Accept(e, c, f));
    assert Joined(p, f) == p.text;
  }

  /** What becomes of the rest of a message: it arrives if its text is viable, else the session closes. */
  predicate Outcome(e: Env, c: Conn, fs: seq<Frame>, bytes: seq<byte>, msg: seq<byte>, binary: bool)
    requires Sound(c)
  {
    if Viable(binary, msg) then Arrives(e, c, bytes, msg, binary) && StreamFine(e, c, fs)
    else ReadWebsocket(e, c, bytes).conn.out.state == Closing
  }

  /** One more piece in front. */
  lemma PieceOutcome(e: Env, c: Conn, p: Partial, fs: seq<Frame>, msg: seq<byte>, tail: seq<byte>, bytes: seq<byte>)
    requires fs != [] && Ready(c, p) && HeadFine(e, c, fs[0]) && !fs[0].fin && !IsControl(fs[0].opcode)
    requires p.Within? ==> Viable(p.binary, p.text)
    requires bytes == Encode(e.lenField, fs[0]) + tail
    requires Viable(IsBinary(p, fs[0]), msg) ==> Viable(IsBinary(p, fs[0]), Joined(p, fs[0]))
    requires Viable(IsBinary(p, fs[0]), Joined(p, fs[0])) ==>
               var c' := Accept(e, c, fs[0]); Sound(c') && Outcome(e, c', fs[1..], tail, msg, IsBinary(p, fs[0]))
    ensures Outcome(e, c, fs, bytes, msg, IsBinary(p, fs[0]))
  {
    PieceTaken(e, c, p, fs[0], tail, bytes);
  }

  lemma {:induction false} RestArrives(
      e: Env, c: Conn, binary: bool, text: seq<byte>, fs: seq<Frame>, msg: seq<byte>, bytes: seq<byte>)
    requires e.guard == AsDocumented && Ready(c, Within(binary, text)) && Viable(binary, text)
    requires RestOfMessage(e, fs) && msg == text + Payloads(fs) && bytes == EncodeAll(e.lenField, fs)
    ensures Outcome(e, c, fs, bytes, msg, binary)
    decreases fs
  {
    var f, p := fs[0], Within(binary, text);
    if |fs| == 1 {
      SingleFrame(e.lenField, fs);
      assert msg == text;
      FinalTaken(e, c, p, f, bytes);
    } else {
      EncodeAllHead(e.lenField, fs);
      PayloadsHead(fs);
      var tail, text', rest := EncodeAll(e.lenField, fs[1..]), text + f.payload, Payloads(fs[1..]);
      JoinText(text, f.payload, rest);
      ViablePrefix(binary, text', rest);
      if Viable(binary, text') {
        PieceTaken(e, c, p, f, tail, bytes);
        RestArrives(e, Accept(e, c, f), binary, text', fs[1..], msg, tail);
      }
      PieceOutcome(e, c, p, fs, msg, tail, bytes);
    }
  }

  lemma SingleFrame(w: LenField, fs: seq<Frame>)
    requires |fs| == 1
    ensures EncodeAll(w, fs) == Encode(w, fs[0]) && Payloads(fs) == fs[0].payload
  {
    assert fs == [fs[0]];
    EncodeOne(w, fs[0]);
    PayloadsHead(fs);
    assert Payloads(fs[1..]) == [];
  }

  lemma JoinText(a: seq<byte>, b: seq<byte>, c: seq<byte>)
    ensures a + (b + c) == a + b + c
  {
  }

  /** The frames of a fragmented message after the first. */
  lemma {:induction false} FragmentsRest(e: Env, fs: seq<Frame>, op: nibble, max: nat, msg: seq<byte>, i: nat)
    requires 0 < max < Limit(e.lenField) && max <= MAX_PAYLOAD_LEN && msg != []
    requires Fragmented(fs, op, max, msg) && 1 <= i < |fs|
    ensures RestOfMessage(e, fs[i..])
    decreases |fs| - i
  {
    var front := fs[..|fs| - 1];
    if i < |fs| - 1 {
      FragmentsRest(e, fs, op, max, msg, i + 1);
      assert front[i] == Frame(false, CONTINUATION, front[i].key, front[i].payload);
      assert fs[i..][1..] == fs[i + 1..] && fs[i..][0] == front[i];
    }
  }

  /** A fragmented message arrives exactly when its text is viable; it need not be complete. */
  lemma FragmentsArrive(e: Env, c: Conn, fs: seq<Frame>, max: nat, msg: seq<byte>, binary: bool, bytes: seq<byte>)
    requires e.guard == AsDocumented && Ready(c, Between)
    requires 0 < max < Limit(e.lenField) && max <= MAX_PAYLOAD_LEN && msg != []
    requires Fragmented(fs, OpcodeOf(binary), max, msg) && bytes == EncodeAll(e.lenField, fs)
    ensures Outcome(e, c, fs, bytes, msg, binary)
  {
    var front := fs[..|fs| - 1];
    var f, tail := fs[0], EncodeAll(e.lenField, fs[1..]);
    assert f == front[0];
    FragmentsRest(e, fs, OpcodeOf(binary), max, msg, 1);
    EncodeAllHead(e.lenField, fs);
    PayloadsHead(fs);
    FragmentPayloads(fs);
    var rest := Payloads(fs[1..]);
    ViablePrefix(binary, f.payload, rest);
    if Viable(binary, f.payload) {
      PieceTaken(e, c, Between, f, tail, bytes);
      RestArrives(e, Accept(e, c, f), binary, f.payload, fs[1..], msg, tail);
    }
    PieceOutcome(e, c, Between, fs, msg, tail, bytes);
  }

  /** An empty last frame adds no payload. */
  lemma FragmentPayloads(fs: seq<Frame>)
    requires fs != [] && fs[|fs| - 1].payload == []
    ensures Payloads(fs) == Payloads(fs[..|fs| - 1])
  {
    var front, last := fs[..|fs| - 1], fs[|fs| - 1];
    assert PayloadsOf(fs) == PayloadsOf(front) + [last.payload];
    ConcatAppend(PayloadsOf(front), last.payload);
  }

  /** The bytes that sending a message added to the output. */
  function Added(o: Out, o': Out): (r: seq<byte>) {
    if |o.wire| <= |o'.wire| then o'.wire[|o.wire|..] else []
  }

  lemma AddedExact(o: Out, o': Out, bytes: seq<byte>)
    requires o'.wire == o.wire + bytes
    ensures Added(o, o') == bytes
  {
  }

  predicate InOneFrame(e: Env, msg: seq<byte>) {
    |msg| <= e.maxFrameSize || e.maxFrameSize == 0
  }

  /** The text condition under which a message arrives: complete in one frame, viable in several. */
  predicate TextArrives(e: Env, msg: seq<byte>, binary: bool) {
    if InOneFrame(e, msg) then binary || Utf8.WellFormed(msg) else Viable(binary, msg)
  }

  /** The size of a piece that was written is within the protocol's bound. */
  lemma PieceBound(e: Env, o: Out, msg: seq<byte>, binary: bool)
    requires SendMsgEx(e, o, msg, binary).ok
    ensures if InOneFrame(e, msg) then |msg| <= MAX_PAYLOAD_LEN else 0 < e.maxFrameSize <= MAX_PAYLOAD_LEN
  {
    if !InOneFrame(e, msg) {
      var o1 := OnSendMsgBegin(o, binary).out;
      assert SendFragments(e, o1, msg).ok;
      assert OnMsgFrameSend(e, o1, msg[..e.maxFrameSize]).ok;
    }
  }

  /**
    End to end, for the build as intended (a 64-bit length, the documented guard): for
    every message, mask choice and frame size limit, what a successful send writes
    is received as exactly that message and nothing else if and only if the message
    is binary, or is text that is well-formed in one frame or not rejected in several.
  */
  lemma EndToEndIntended(es: Env, er: Env, o: Out, c: Conn, msg: seq<byte>, binary: bool) returns (fs: seq<Frame>)
    requires es.lenField == er.lenField == Bits64 && er.guard == AsDocumented && Ready(c, Between)
    requires SendMsgEx(es, o, msg, binary).ok
    ensures Arrives(er, c, Added(o, SendMsgEx(es, o, msg, binary).out), msg, binary) <==> TextArrives(es, msg, binary)
    ensures Added(o, SendMsgEx(es, o, msg, binary).out) == EncodeAll(Bits64, fs)
    ensures TextArrives(es, msg, binary) ==> StreamFine(er, c, fs)
  {
    var o' := SendMsgEx(es, o, msg, binary).out;
    PieceBound(es, o, msg, binary);
    if InOneFrame(es, msg) {
      FrameRawWrites(es, o, OpcodeOf(binary), msg);
      var f := Frame(true, OpcodeOf(binary), Some(o'.hdr.mask), msg);
      AddedExact(o, o', Encode(Bits64, f));
      OneFrameArrives(er, c, f, binary, Added(o, o'));
      EncodeOne(Bits64, f);
      fs := [f];
    } else {
      fs := FragmentationWellFormed(es, o, msg, binary);
      AddedExact(o, o', EncodeAll(Bits64, fs));
      FragmentsArrive(er, c, fs, es.maxFrameSize, msg, binary, Added(o, o'));
    }
  }

  /**
    The same over any reads of the bytes that stop where a read may: outside the
    masking keys, on four-byte boundaries of a payload, and for text in one frame on
    code point boundaries.
  */
  lemma EndToEndChunked(es: Env, er: Env, o: Out, c: Conn, msg: seq<byte>, binary: bool, chunks: seq<seq<byte>>)
      returns (fs: seq<Frame>)
    requires es.lenField == er.lenField == Bits64 && er.guard == AsDocumented && Ready(c, Between)
    requires SendMsgEx(es, o, msg, binary).ok && TextArrives(es, msg, binary)
    requires Concat(chunks) == Added(o, SendMsgEx(es, o, msg, binary).out)
    ensures Concat(chunks) == EncodeAll(Bits64, fs)
    ensures (forall i | 0 <= i <= |chunks| :: StreamCut(er, c, fs, |Concat(chunks[..i])|)) ==>
              Delivered(Feeds(er, c, chunks), c, msg, binary)
  {
    fs := EndToEndIntended(es, er, o, c, msg, binary);
    if forall i | 0 <= i <= |chunks| :: StreamCut(er, c, fs, |Concat(chunks[..i])|) {
      ChunkIndependence(er, c, fs, chunks);
      StreamRead(er, c, fs);
    }
  }
}
