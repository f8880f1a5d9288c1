/** The frames that sending a message puts on the wire. */
module Sender {
  import opened Bytes
  import opened Masking
  import opened FrameHeader
  import opened SessionState

  // ----- Frames as bytes

  function KeyOf(f: Frame): (r: Key) {
    if f.key.Some? then f.key.value else NO_MASK
  }

  /** The header of a frame, its length as the header structure of width `w` holds it. */
  function HeaderOf(w: LenField, f: Frame): (r: Header) {
    Header(f.fin, false, false, false, f.opcode, f.key.Some?, Store(w, |f.payload|), KeyOf(f))
  }

  function Encode(w: LenField, f: Frame): (r: seq<byte>) {
    HeaderBytes(HeaderOf(w, f)) + Unmask(HeaderOf(w, f), f.payload)
  }

  function Encodings(w: LenField, fs: seq<Frame>): (r: seq<seq<byte>>)
    ensures |r| == |fs|
  {
    seq(|fs|, i requires 0 <= i < |fs| => Encode(w, fs[i]))
  }

  function EncodeAll(w: LenField, fs: seq<Frame>): (r: seq<byte>) {
    Concat(Encodings(w, fs))
  }

  function PayloadsOf(fs: seq<Frame>): (r: seq<seq<byte>>)
    ensures |r| == |fs|
  {
    seq(|fs|, i requires 0 <= i < |fs| => fs[i].payload)
  }

  function Payloads(fs: seq<Frame>): (r: seq<byte>) {
    Concat(PayloadsOf(fs))
  }

  lemma AppendFrame(w: LenField, fs: seq<Frame>, f: Frame)
    ensures EncodeAll(w, fs + [f]) == EncodeAll(w, fs) + Encode(w, f)
    ensures Payloads(fs + [f]) == Payloads(fs) + f.payload
  {
    assert Encodings(w, fs + [f]) == Encodings(w, fs) + [Encode(w, f)];
    ConcatAppend(Encodings(w, fs), Encode(w, f));
    assert PayloadsOf(fs + [f]) == PayloadsOf(fs) + [f.payload];
    ConcatAppend(PayloadsOf(fs), f.payload);
  }

  lemma EncodeAllHead(w: LenField, fs: seq<Frame>)
    requires fs != []
    ensures EncodeAll(w, fs) == Encode(w, fs[0]) + EncodeAll(w, fs[1..])
  {
    assert Encodings(w, fs) == [Encode(w, fs[0])] + Encodings(w, fs[1..]);
    ConcatHead(Encode(w, fs[0]), Encodings(w, fs[1..]));
  }

  // ----- What a successful write leaves behind

  predicate NoReserved(h: Header) {
    !h.rsv1 && !h.rsv2 && !h.rsv3
  }

  /** `o'` is `o` after the frames `fs` were written as `bytes`: the rest of it is the sending machinery's. */
  predicate Wrote(o: Out, o': Out, fs: seq<Frame>, bytes: seq<byte>) {
    o' == o.(send := o'.send, hdr := o'.hdr, draws := o'.draws, writes := o'.writes,
             sent := o.sent + fs, wire := o.wire + bytes)
  }

  /** Each frame has a key of its own: the i-th one the i-th drawn since. */
  predicate FreshKeys(e: Env, o: Out, o': Out, fs: seq<Frame>) {
    o'.draws == o.draws + |fs| && forall i | 0 <= i < |fs| :: fs[i].key == e.mask(o.draws + i)
  }

  lemma WroteThen(o: Out, o1: Out, o2: Out, fs: seq<Frame>, bytes: seq<byte>, f: Frame, more: seq<byte>)
    requires Wrote(o, o1, fs, bytes) && Wrote(o1, o2, [f], more)
    ensures Wrote(o, o2, fs + [f], bytes + more)
  {
    assert o.sent + fs + [f] == o.sent + (fs + [f]);
    assert o.wire + bytes + more == o.wire + (bytes + more);
  }

  lemma EncodeOne(w: LenField, f: Frame)
    ensures EncodeAll(w, [f]) == Encode(w, f)
  {
    AppendFrame(w, [], f);
    assert [] + [f] == [f];
  }

  /** The frame that a masked header announces. */
  function FrameOf(h: Header, data: seq<byte>): (r: Frame) {
    Frame(h.fin, h.opcode, Some(h.mask), data)
  }

  lemma EncodeFrameOf(w: LenField, h: Header, data: seq<byte>)
    requires NoReserved(h) && h.maskBit && h.payloadLen == Store(w, |data|)
    ensures Encode(w, FrameOf(h, data)) == HeaderBytes(h) + Mask(h.mask, data)
  {
    assert HeaderOf(w, FrameOf(h, data)) == h;
  }

  /** A header write and a payload write that both succeed make one frame. */
  lemma HeaderThenPayload(e: Env, o: Out, data: seq<byte>)
    requires o.hdr.maskBit
    requires SendHeader(e, o).ok && SendPayload(e, SendHeader(e, o).out, data).ok
    ensures var o' := SendPayload(e, SendHeader(e, o).out, data).out;
            && Wrote(o, o', [FrameOf(o.hdr, data)], HeaderBytes(o.hdr) + Mask(o.hdr.mask, data))
            && o'.hdr == o.hdr && o'.send == o.send && o.bev
  {
    assert o.wire + HeaderBytes(o.hdr) + Mask(o.hdr.mask, data) == o.wire + (HeaderBytes(o.hdr) + Mask(o.hdr.mask, data));
  }

  /** A whole message or control frame in one frame. */
  lemma FrameRawWrites(e: Env, o: Out, op: nibble, data: seq<byte>)
    requires SendFrameRaw(e, o, op, data).ok
    ensures var o' := SendFrameRaw(e, o, op, data).out;
            var f := Frame(true, op, Some(o'.hdr.mask), data);
            && Wrote(o, o', [f], Encode(e.lenField, f)) && FreshKeys(e, o, o', [f])
            && o.send == o'.send == NotSending && o.bev
  {
    var h := ZERO_HEADER.(fin := true, opcode := op, maskBit := true, payloadLen := Store(e.lenField, |data|));
    var o1 := DrawMask(e, o.(hdr := h)).out;
    HeaderThenPayload(e, o1, data);
    EncodeFrameOf(e.lenField, o1.hdr, data);
  }

  /** One frame of a fragmented message. */
  lemma FragmentWrites(e: Env, o: Out, data: seq<byte>)
    requires OnMsgFrameSend(e, o, data).ok && NoReserved(o.hdr)
    ensures var o' := OnMsgFrameSend(e, o, data).out;
            var f := Frame(o.hdr.fin, if o.send == MessageBegin then o.hdr.opcode else CONTINUATION, Some(o'.hdr.mask), data);
            && Wrote(o, o', [f], Encode(e.lenField, f)) && FreshKeys(e, o, o', [f])
            && o'.send == InMessage && o'.hdr.fin == o.hdr.fin && NoReserved(o'.hdr)
  {
    var o1 := DrawMask(e, o.(hdr := o.hdr.(maskBit := true, payloadLen := Store(e.lenField, |data|)))).out;
    var o2 := if o.send == MessageBegin then o1.(send := InMessage) else o1.(hdr := o1.hdr.(opcode := CONTINUATION));
    HeaderThenPayload(e, o2, data);
    EncodeFrameOf(e.lenField, o2.hdr, data);
  }

  // ----- Fragmentation

  /** How many frames of at most `max` bytes it takes to carry `n` bytes. */
  function Pieces(n: nat, max: nat): (r: nat)
    requires n > 0 && max > 0
    ensures r >= 1
  {
    if n <= max then 1 else 1 + Pieces(n - max, max)
  }

  /** That is `n / max` rounded up. */
  lemma {:induction false} PiecesExact(n: nat, max: nat)
    requires n > 0 && max > 0
    ensures (Pieces(n, max) - 1) * max < n <= Pieces(n, max) * max
  {
    if n > max {
      PiecesExact(n - max, max);
      var r := Pieces(n - max, max);
      assert (r - 1) * max + max == r * max && r * max + max == (r + 1) * max;
    }
  }

  /** The frames of a message so far: `fs` carry `done`, the first with opcode `op`, none final. */
  predicate Carries(fs: seq<Frame>, op: nibble, max: nat, done: seq<byte>) {
    && Payloads(fs) == done
    && forall i | 0 <= i < |fs| ::
         fs[i] == Frame(false, if i == 0 then op else CONTINUATION, fs[i].key, fs[i].payload)
         && fs[i].key.Some? && |fs[i].payload| <= max
  }

  /** A fragmented message: section 5.4 of RFC 6455, with an empty final frame. */
  predicate Fragmented(fs: seq<Frame>, op: nibble, max: nat, msg: seq<byte>)
    requires max > 0 && msg != []
  {
    && |fs| == Pieces(|msg|, max) + 1
    && Carries(fs[..|fs| - 1], op, max, msg)
    && fs[|fs| - 1].fin && fs[|fs| - 1].opcode == CONTINUATION && fs[|fs| - 1].payload == [] && fs[|fs| - 1].key.Some?
  }

  lemma CarriesMore(fs: seq<Frame>, op: nibble, max: nat, done: seq<byte>, f: Frame)
    requires Carries(fs, op, max, done)
    requires f.key.Some? && !f.fin && |f.payload| <= max && f.opcode == if fs == [] then op else CONTINUATION
    ensures Carries(fs + [f], op, max, done + f.payload)
  {
    AppendFrame(Bits64, fs, f);
  }

  /** The frames `fs` were written since `o0`, each with a fresh key. */
  predicate Written(e: Env, o0: Out, o: Out, fs: seq<Frame>) {
    Wrote(o0, o, fs, EncodeAll(e.lenField, fs)) && FreshKeys(e, o0, o, fs)
  }

  lemma WrittenThen(e: Env, o0: Out, o: Out, o': Out, fs: seq<Frame>, f: Frame)
    requires Written(e, o0, o, fs) && Wrote(o, o', [f], Encode(e.lenField, f)) && FreshKeys(e, o, o', [f])
    ensures Written(e, o0, o', fs + [f])
  {
    WroteThen(o0, o, o', fs, EncodeAll(e.lenField, fs), f, Encode(e.lenField, f));
    AppendFrame(e.lenField, fs, f);
    KeysThen(e, o0, o, o', fs, f);
  }

  lemma KeysThen(e: Env, o0: Out, o: Out, o': Out, fs: seq<Frame>, f: Frame)
    requires FreshKeys(e, o0, o, fs) && FreshKeys(e, o, o', [f])
    ensures FreshKeys(e, o0, o', fs + [f])
  {
    assert [f][0].key == e.mask(o.draws);
  }

  lemma FragmentWrote(e: Env, o: Out, data: seq<byte>, o': Out, f: Frame)
    requires OnMsgFrameSend(e, o, data) == Sent(true, o') && NoReserved(o.hdr)
    requires f == Frame(o.hdr.fin, if o.send == MessageBegin then o.hdr.opcode else CONTINUATION, Some(o'.hdr.mask), data)
    ensures Wrote(o, o', [f], Encode(e.lenField, f)) && FreshKeys(e, o, o', [f])
    ensures o'.send == InMessage && o'.hdr.fin == o.hdr.fin && NoReserved(o'.hdr)
  {
    FragmentWrites(e, o, data);
  }

  /** The send state while `fs` have been written since `o0`, carrying `done`. */
  predicate MidMessage(e: Env, o0: Out, o: Out, fs: seq<Frame>, op: nibble, done: seq<byte>) {
    && Written(e, o0, o, fs)
    && Carries(fs, op, e.maxFrameSize, done)
    && NoReserved(o.hdr) && !o.hdr.fin
    && if fs == [] then o.send == MessageBegin && o.hdr.opcode == op else o.send == InMessage
  }

  lemma NextFragment(e: Env, o0: Out, o: Out, fs: seq<Frame>, op: nibble, done: seq<byte>, data: seq<byte>, o': Out)
      returns (fs': seq<Frame>)
    requires MidMessage(e, o0, o, fs, op, done) && |data| <= e.maxFrameSize
    requires OnMsgFrameSend(e, o, data) == Sent(true, o')
    ensures |fs'| == |fs| + 1
    ensures MidMessage(e, o0, o', fs', op, done + data)
  {
    var f := Frame(false, if fs == [] then op else CONTINUATION, Some(o'.hdr.mask), data);
    FragmentWrote(e, o, data, o', f);
    WrittenThen(e, o0, o, o', fs, f);
    CarriesMore(fs, op, e.maxFrameSize, done, f);
    fs' := fs + [f];
  }

  lemma SplitConcat(done: seq<byte>, rest: seq<byte>, n: nat)
    requires n <= |rest|
    ensures done + rest[..n] + rest[n..] == done + rest && (n == |rest| ==> rest[..n] == rest)
  {
  }

  /** One turn of the loop. */
  lemma FragmentsTurn(e: Env, o: Out, rest: seq<byte>, o2: Out, n: nat, o': Out)
    requires e.maxFrameSize > 0 && SendFragments(e, o, rest) == Sent(true, o2)
    requires n == Least(e.maxFrameSize, |rest|) && o' == OnMsgFrameSend(e, o, rest[..n]).out
    ensures OnMsgFrameSend(e, o, rest[..n]) == Sent(true, o')
    ensures if n == |rest| then o2 == o' else SendFragments(e, o', rest[n..]) == Sent(true, o2)
  {
  }

  /** The loop writes one frame per piece. */
  lemma {:induction false} FragmentsWrite(
      e: Env, o0: Out, o: Out, fs: seq<Frame>, op: nibble, done: seq<byte>, rest: seq<byte>, o2: Out)
      returns (fs': seq<Frame>)
    requires e.maxFrameSize > 0 && rest != [] && MidMessage(e, o0, o, fs, op, done)
    requires SendFragments(e, o, rest) == Sent(true, o2)
    ensures |fs'| == |fs| + Pieces(|rest|, e.maxFrameSize)
    ensures MidMessage(e, o0, o2, fs', op, done + rest)
    decreases |rest|
  {
    var n := Least(e.maxFrameSize, |rest|);
    var piece, tail := rest[..n], rest[n..];
    var o' := OnMsgFrameSend(e, o, piece).out;
    FragmentsTurn(e, o, rest, o2, n, o');
    fs' := NextFragment(e, o0, o, fs, op, done, piece, o');
    SplitConcat(done, rest, n);
    if tail != [] { fs' := FragmentsWrite(e, o0, o', fs', op, done + piece, tail, o2); }
  }

  /** The end of the message is one more frame, empty and final. */
  lemma LastFragment(e: Env, o0: Out, o: Out, fs: seq<Frame>, op: nibble, msg: seq<byte>) returns (f: Frame)
    requires MidMessage(e, o0, o, fs, op, msg) && fs != [] && OnSendMsgEnd(e, o).ok
    ensures f == Frame(true, CONTINUATION, f.key, []) && f.key.Some?
    ensures Wrote(o0, OnSendMsgEnd(e, o).out, fs + [f], EncodeAll(e.lenField, fs + [f]))
    ensures FreshKeys(e, o0, OnSendMsgEnd(e, o).out, fs + [f])
    ensures OnSendMsgEnd(e, o).out.send == NotSending
  {
    var o1 := o.(hdr := o.hdr.(fin := true));
    var o2 := OnMsgFrameSend(e, o1, []).out;
    f := Frame(true, CONTINUATION, Some(o2.hdr.mask), []);
    FragmentWrote(e, o1, [], o2, f);
    WrittenThen(e, o0, o1, o2, fs, f);
  }

  lemma FirstFragment(e: Env, o: Out, binary: bool)
    requires OnSendMsgBegin(o, binary).ok
    ensures MidMessage(e, o, OnSendMsgBegin(o, binary).out, [], if binary then BINARY else TEXT, [])
  {
    assert o.sent + [] == o.sent && o.wire + [] == o.wire;
  }

  /**
    A message longer than the frame size limit, whenever sending it reports success,
    went out as frames of the announced kind that carry exactly its bytes, none
    longer than the limit, one per piece and an empty final one, each with a key of its
    own; and the session is ready to send again.
  */
  lemma FragmentationWellFormed(e: Env, o: Out, msg: seq<byte>, binary: bool) returns (fs: seq<Frame>)
    requires 0 < e.maxFrameSize < |msg| && SendMsgEx(e, o, msg, binary).ok
    ensures var o' := SendMsgEx(e, o, msg, binary).out;
            && Fragmented(fs, if binary then BINARY else TEXT, e.maxFrameSize, msg)
            && Wrote(o, o', fs, EncodeAll(e.lenField, fs)) && FreshKeys(e, o, o', fs)
            && o'.send == NotSending
  {
    var op := if binary then BINARY else TEXT;
    var o1 := OnSendMsgBegin(o, binary).out;
    FirstFragment(e, o, binary);
    var o2 := SendFragments(e, o1, msg).out;
    var pieces := FragmentsWrite(e, o, o1, [], op, [], msg, o2);
    assert [] + msg == msg;
    var f := LastFragment(e, o, o2, pieces, op, msg);
    fs := pieces + [f];
    assert fs[..|pieces|] == pieces;
  }

  /** What is too long for its kind of frame is refused, and nothing is written. */
  lemma SendLimits(e: Env, o: Out, op: nibble, data: seq<byte>)
    ensures IsControl(op) && |data| > 125 ==> SendFrameRaw(e, o, op, data) == Sent(false, o)
    ensures |data| > 0x7FFF_FFFF_FFFF_FFFF ==>
              var s := SendFrameRaw(e, o, op, data); !s.ok && s.out == o.(hdr := s.out.hdr)
    ensures |data| > 0x7FFF_FFFF_FFFF_FFFF ==> OnMsgFrameSend(e, o, data) == Sent(false, o)
  {
  }

  /** The steps of a fragmented message are refused, and change nothing, when it is not their turn. */
  lemma SendOrder(e: Env, o: Out, data: seq<byte>, binary: bool)
    ensures OnSendMsgBegin(o, binary).ok <==> o.send == NotSending
    ensures o.send != NotSending ==> OnSendMsgBegin(o, binary) == Sent(false, o)
    ensures o.send == NotSending ==> OnMsgFrameDataBegin(e, o, |data|) == OnMsgFrameSend(e, o, data) == Sent(false, o)
    ensures o.send != InMessage ==> OnMsgFrameDataSend(e, o, data) == OnSendMsgEnd(e, o) == Sent(false, o)
  {
  }

  /** While a message is under way or stuck, every other send is refused and writes nothing. */
  lemma SendRefused(e: Env, o: Out, op: nibble, data: seq<byte>, binary: bool)
    requires o.send != NotSending
    ensures SendFrameRaw(e, o, op, data) == Sent(false, o)
    ensures SendMsgEx(e, o, data, binary) == Sent(false, o)
  {
  }

  /** After a fragmented send failed under way, nothing can be sent any more, not even a close frame. */
  lemma FailedSendIsFinal(e: Env, o: Out, msg: seq<byte>, binary: bool, op: nibble, data: seq<byte>, bin: bool)
    requires 0 < e.maxFrameSize < |msg| && o.send == NotSending && !SendMsgEx(e, o, msg, binary).ok
    ensures var o' := SendMsgEx(e, o, msg, binary).out;
            && SendFrameRaw(e, o', op, data) == Sent(false, o')
            && SendMsgEx(e, o', data, bin) == Sent(false, o')
  {
    SendStuck(e, o, msg, binary);
    SendRefused(e, SendMsgEx(e, o, msg, binary).out, op, data, bin);
  }

  lemma SendStuck(e: Env, o: Out, msg: seq<byte>, binary: bool)
    requires 0 < e.maxFrameSize < |msg| && o.send == NotSending && !SendMsgEx(e, o, msg, binary).ok
    ensures SendMsgEx(e, o, msg, binary).out.send != NotSending
  {
    var o1 := OnSendMsgBegin(o, binary).out;
    FragmentsStuck(e, o1, msg);
    var o2 := SendFragments(e, o1, msg).out;
    FragmentStuck(e, o2.(hdr := o2.hdr.(fin := true)), []);
  }

  lemma FragmentStuck(e: Env, o: Out, data: seq<byte>)
    requires o.send != NotSending
    ensures OnMsgFrameSend(e, o, data).out.send != NotSending
    ensures OnMsgFrameSend(e, o, data).ok ==> OnMsgFrameSend(e, o, data).out.send == InMessage
  {
  }

  lemma {:induction false} FragmentsStuck(e: Env, o: Out, rest: seq<byte>)
    requires e.maxFrameSize > 0 && o.send != NotSending
    ensures SendFragments(e, o, rest).out.send != NotSending
    ensures SendFragments(e, o, rest).ok ==> SendFragments(e, o, rest).out.send == InMessage
    decreases |rest|
  {
    var n := Least(e.maxFrameSize, |rest|);
    var s := OnMsgFrameSend(e, o, rest[..n]);
    FragmentStuck(e, o, rest[..n]);
    if s.ok && n < |rest| { FragmentsStuck(e, s.out, rest[n..]); }
  }

  // ----- The examples of section 5.7 of RFC 6455

  lemma ShortHeader(w: LenField, f: Frame)
    requires |f.payload| <= 125
    ensures HeaderBytes(HeaderOf(w, f)) ==
              [Bit(f.fin) * 128 + f.opcode, Bit(f.key.Some?) * 128 + |f.payload|]
              + if f.key.Some? then f.key.value else []
  {
    var h := HeaderOf(w, f);
    assert h.payloadLen == |f.payload| && h.mask == KeyOf(f);
    ShortBytes(h);
  }

  lemma ShortBytes(h: Header)
    requires h.payloadLen <= 125 && NoReserved(h)
    ensures HeaderBytes(h) == [Bit(h.fin) * 128 + h.opcode, Bit(h.maskBit) * 128 + h.payloadLen]
                              + if h.maskBit then h.mask else []
  {
    assert BigEndian(0, h.payloadLen) == [];
  }

  lemma ShortFrame(w: LenField, f: Frame, bytes: seq<byte>)
    requires |f.payload| <= 125 && bytes == Encode(w, f)
    ensures f.key.None? ==> bytes == [Bit(f.fin) * 128 + f.opcode, |f.payload|] + f.payload
    ensures f.key.Some? ==>
              bytes == [Bit(f.fin) * 128 + f.opcode, 128 + |f.payload|] + f.key.value + Mask(f.key.value, f.payload)
  {
    ShortHeader(w, f);
  }

  /** "Hello" as a text message and as a ping. */
  lemma HelloFrames(w: LenField, f: Frame, bytes: seq<byte>)
    requires f.fin && f.key.None? && f.payload == HELLO && bytes == Encode(w, f)
    ensures f.opcode == TEXT ==> bytes == [0x81, 0x05, 0x48, 0x65, 0x6C, 0x6C, 0x6F]
    ensures f.opcode == PING ==> bytes == [0x89, 0x05, 0x48, 0x65, 0x6C, 0x6C, 0x6F]
  {
    ShortFrame(w, f, bytes);
  }

  /** The text message in two frames. */
  lemma HelloFragments(w: LenField, f: Frame, g: Frame, bytes: seq<byte>)
    requires f == Frame(false, TEXT, None, [0x48, 0x65, 0x6C]) && g == Frame(true, CONTINUATION, None, [0x6C, 0x6F])
    requires bytes == Encode(w, f) + Encode(w, g)
    ensures bytes == [0x01, 0x03, 0x48, 0x65, 0x6C] + [0x80, 0x02, 0x6C, 0x6F]
  {
    ShortFrame(w, f, Encode(w, f));
    ShortFrame(w, g, Encode(w, g));
  }

  /** And masked: the text message and a pong. */
  lemma MaskedHelloFrames(w: LenField, f: Frame, bytes: seq<byte>)
    requires bytes == Encode(w, f)
    ensures f == Frame(true, TEXT, Some(SAMPLE_KEY), HELLO) ==>
              bytes == [0x81, 0x85, 0x37, 0xFA, 0x21, 0x3D, 0x7F, 0x9F, 0x4D, 0x51, 0x58]
    ensures f == Frame(true, PONG, Some(SAMPLE_KEY), HELLO) ==>
              bytes == [0x8A, 0x85, 0x37, 0xFA, 0x21, 0x3D, 0x7F, 0x9F, 0x4D, 0x51, 0x58]
  {
    if f.key == Some(SAMPLE_KEY) && f.payload == HELLO {
      ShortFrame(w, f, bytes);
      MaskedHello(f.key.value, f.payload, Mask(f.key.value, f.payload));
    }
  }

  /** 256 bytes and 64 KiB of binary data in one unmasked frame. */
  lemma LongFrames(f: Frame)
    requires f == Frame(true, BINARY, None, f.payload)
    ensures |f.payload| == 256 ==> Encode(Bits64, f) == [0x82, 0x7E, 0x01, 0x00] + f.payload
    ensures |f.payload| == 65536 ==> Encode(Bits64, f) == [0x82, 0x7F, 0, 0, 0, 0, 0, 1, 0, 0] + f.payload
  {
    LengthExamples(|f.payload|);
  }

  lemma LengthExamples(n: nat)
    ensures n == 256 ==> BigEndian(2, n) == [1, 0]
    ensures n == 65536 ==> BigEndian(8, n) == [0, 0, 0, 0, 0, 1, 0, 0]
  {
    if n == 256 { Length16(n, BigEndian(2, n)); }
    if n == 65536 { Length64(n, BigEndian(8, n)); }
  }

  lemma Length16(n: nat, s: seq<byte>)
    requires n == 256 && s == BigEndian(2, n)
    ensures s == [1, 0]
  {
    BigEndianAt(2, n, 0);
    BigEndianAt(2, n, 1);
    EncodeN2H64At(n, 0);
  }

  lemma Length64(n: nat, s: seq<byte>)
    requires n == 65536 && s == BigEndian(8, n)
    ensures s == [0, 0, 0, 0, 0, 1, 0, 0]
  {
    var low := LittleEndian(8, n);
    LowerBytes(8, n, 0, 256);
    LowerBytes(7, 256, 0, 1);
    LowerBytes(6, 1, 1, 0);
    ZeroBytes(5);
    assert low == [0, 0, 1] + LittleEndian(5, 0);
  }

  lemma LowerBytes(k: nat, x: nat, low: byte, high: nat)
    requires k > 0 && x == low + 256 * high
    ensures LittleEndian(k, x) == [low] + LittleEndian(k - 1, high)
  {
    LowByte(x, low, high);
  }

  lemma {:induction false} ZeroBytes(k: nat)
    ensures forall i | 0 <= i < k :: LittleEndian(k, 0)[i] == 0
  {
    if k > 0 { ZeroBytes(k - 1); }
  }
}
