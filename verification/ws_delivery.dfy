/**
  What the receiver delivers for the frame sequences that RFC 6455 allows, and
  exactly when it does.
*/
module Delivery {
  import opened Bytes
  import opened FrameHeader
  import opened SessionState
  import opened Sender
  import opened Receiver
  import opened Streams
  import Utf8

  // ----- Message reassembly by the standard

  /** Between messages, or within one of some kind with `text` received so far. */
  datatype Partial = Between | Within(binary: bool, text: seq<byte>)

  predicate IsBinary(p: Partial, f: Frame) {
    if p.Within? then p.binary else f.opcode == BINARY
  }

  /** The message so far, including `f`. */
  function Joined(p: Partial, f: Frame): (r: seq<byte>) {
    if p.Within? then p.text + f.payload else f.payload
  }

  function Advance(p: Partial, f: Frame): (r: Partial) {
    if IsControl(f.opcode) then p
    else if f.fin then Between
    else Within(IsBinary(p, f), Joined(p, f))
  }

  /** What the arrival of `f` shows the user (sections 5.4 and 5.5). */
  function Shown(p: Partial, f: Frame): (r: seq<Event>) {
    if f.opcode == PING then [Ping(f.payload)]
    else if f.opcode == PONG then [Pong(f.payload)]
    else if !IsControl(f.opcode) && f.fin then [Message(Joined(p, f), IsBinary(p, f))]
    else []
  }

  function ShownAll(p: Partial, fs: seq<Frame>): (r: seq<Event>)
    decreases fs
  {
    if fs == [] then [] else Shown(p, fs[0]) + ShownAll(Advance(p, fs[0]), fs[1..])
  }

  /** The text of a final frame completes a well-formed string; any other can still become one. */
  ghost predicate TextAllowed(p: Partial, f: Frame) {
    !IsControl(f.opcode) && !IsBinary(p, f) ==>
      if f.fin then Utf8.WellFormed(Joined(p, f)) else exists t: seq<byte> :: Utf8.WellFormed(Joined(p, f) + t)
  }

  /** A frame the standard allows next, other than a close frame. */
  ghost predicate Allowed(p: Partial, f: Frame) {
    && |f.payload| <= MAX_PAYLOAD_LEN
    && (if IsControl(f.opcode) then f.opcode in {PING, PONG} && f.fin && |f.payload| <= CONTROL_MAX
        else if p.Within? then f.opcode == CONTINUATION else f.opcode in {TEXT, BINARY})
    && TextAllowed(p, f)
  }

  /** The continuation guard as documented lets everything allowed pass; as written, all but continuations. */
  predicate GuardLets(e: Env, f: Frame) {
    e.guard == AsDocumented || f.opcode != CONTINUATION
  }

  /** A frame that is allowed and that this build of the session can represent and lets pass. */
  ghost predicate Receivable(e: Env, p: Partial, f: Frame) {
    Allowed(p, f) && GuardLets(e, f) && |f.payload| < Limit(e.lenField)
  }

  ghost predicate ReceivableAll(e: Env, p: Partial, fs: seq<Frame>)
    decreases fs
  {
    fs == [] || (Receivable(e, p, fs[0]) && ReceivableAll(e, Advance(p, fs[0]), fs[1..]))
  }

  // ----- The receiver keeps step with it

  /** The session's reassembly buffers hold what the standard's partial message is. */
  predicate InStep(c: Conn, p: Partial) {
    match p
    case Between => !c.rx.inMsg
    case Within(binary, text) =>
      && c.rx.inMsg && c.rx.binary == binary && c.rx.msg == text
      && (!binary ==> c.rx.utf8 == Utf8.Run(Utf8.ACCEPT, text))
  }

  lemma TextAllowedRuns(p: Partial, f: Frame)
    requires TextAllowed(p, f) && !IsControl(f.opcode) && !IsBinary(p, f)
    ensures var u := Utf8.Run(Utf8.ACCEPT, Joined(p, f));
            u != Utf8.REJECT && (f.fin ==> u == Utf8.ACCEPT)
  {
    Utf8.AcceptExact(Joined(p, f));
    Utf8.RejectExact(Joined(p, f));
  }

  lemma OpenedText(e: Env, c: Conn, p: Partial, f: Frame)
    requires InStep(c, p) && !IsControl(f.opcode)
    ensures var o := Opened(e, c, f);
            && o.rx.binary == IsBinary(p, f)
            && (!o.rx.binary ==> Utf8.Run(o.rx.utf8, f.payload) == Utf8.Run(Utf8.ACCEPT, Joined(p, f)))
  {
    if p.Within? { Utf8.RunConcat(Utf8.ACCEPT, p.text, f.payload); }
  }

  /** A frame the standard allows is one the session takes. */
  lemma AllowedIsFine(e: Env, c: Conn, p: Partial, f: Frame)
    requires Boundary(c) && InStep(c, p) && Receivable(e, p, f)
    ensures FrameFine(e, c, f)
  {
    if !IsControl(f.opcode) {
      OpenedText(e, c, p, f);
      if !IsBinary(p, f) { TextAllowedRuns(p, f); }
    }
  }

  /** Reading a whole frame ends in the frame-end handler. */
  lemma AcceptEnds(e: Env, c: Conn, f: Frame)
    requires Boundary(c) && FrameFine(e, c, f)
    ensures Accept(e, c, f) == HandleFrameEnd(e, Absorb(Opened(e, c, f), f.payload))
  {
    OpenedInFrame(e, c, f);
  }

  /** `c'` is `c` after a frame with header `h` that showed `events`, in step with `p`. */
  predicate Advanced(c: Conn, c': Conn, h: Header, events: seq<Event>, p: Partial) {
    InStep(c', p) && c'.out == c.out.(hdr := h, events := c.out.events + events)
  }

  lemma AcceptControl(e: Env, c: Conn, p: Partial, f: Frame)
    requires Boundary(c) && InStep(c, p) && Allowed(p, f) && FrameFine(e, c, f) && IsControl(f.opcode)
    ensures Advanced(c, Accept(e, c, f), HeaderOf(e.lenField, f), Shown(p, f), p)
  {
    AcceptEnds(e, c, f);
    assert Absorb(Opened(e, c, f), f.payload).rx.ctrl == f.payload;
  }

  lemma AcceptData(e: Env, c: Conn, p: Partial, f: Frame)
    requires Boundary(c) && InStep(c, p) && FrameFine(e, c, f) && !IsControl(f.opcode) && c.out.state != Closing
    ensures Advanced(c, Accept(e, c, f), HeaderOf(e.lenField, f), Shown(p, f), Advance(p, f))
  {
    AcceptEnds(e, c, f);
    OpenedText(e, c, p, f);
    var a := Absorb(Opened(e, c, f), f.payload);
    assert a.rx.msg + a.rx.frameData == Joined(p, f);
    assert c.out.events + [] == c.out.events;
  }

  /** The session after an allowed frame: in step, showing what the standard shows. */
  lemma AcceptAllowed(e: Env, c: Conn, p: Partial, f: Frame)
    requires Boundary(c) && InStep(c, p) && Allowed(p, f) && FrameFine(e, c, f) && c.out.state != Closing
    ensures Advanced(c, Accept(e, c, f), HeaderOf(e.lenField, f), Shown(p, f), Advance(p, f))
  {
    if IsControl(f.opcode) {
      AcceptControl(e, c, p, f);
    } else {
      AcceptData(e, c, p, f);
    }
  }

  // ----- Whole streams

  /** An open session between frames, holding the partial message `p`. */
  predicate Ready(c: Conn, p: Partial) {
    Boundary(c) && InStep(c, p) && c.out.state == Connected
  }

  /**
    Every stream the standard allows is taken whole, and what it shows is exactly what
    the standard says: each message is the concatenation of its frames' payloads,
    with control frames anywhere between them.
  */
  lemma {:induction false} DeliversAllowed(e: Env, c: Conn, p: Partial, fs: seq<Frame>)
    requires Ready(c, p) && ReceivableAll(e, p, fs)
    ensures StreamFine(e, c, fs)
    ensures var c' := AcceptAll(e, c, fs);
            && c'.out.events == c.out.events + ShownAll(p, fs)
            && c'.out.state == Connected && c'.out.wire == c.out.wire && c'.out.sentClose == c.out.sentClose
    decreases fs
  {
    if fs == [] {
      assert c.out.events + [] == c.out.events;
    } else {
      AllowedIsFine(e, c, p, fs[0]);
      AcceptAllowed(e, c, p, fs[0]);
      AcceptIdle(e, c, fs[0]);
      var c1, p1 := Accept(e, c, fs[0]), Advance(p, fs[0]);
      DeliversAllowed(e, c1, p1, fs[1..]);
      Regroup(c.out.events, Shown(p, fs[0]), ShownAll(p1, fs[1..]));
    }
  }

  lemma Regroup(a: seq<Event>, b: seq<Event>, c: seq<Event>)
    ensures a + b + c == a + (b + c)
  {
  }

  /**
    Chunk independence and reassembly together: split over
    reads at any places where a read may stop, an allowed stream shows exactly its
    messages, pings and pongs, in order, and leaves no input behind.
  */
  lemma ChunkedDelivery(e: Env, c: Conn, p: Partial, fs: seq<Frame>, chunks: seq<seq<byte>>)
    requires Ready(c, p) && ReceivableAll(e, p, fs)
    requires Concat(chunks) == EncodeAll(e.lenField, fs)
    requires forall i | 0 <= i <= |chunks| :: StreamCut(e, c, fs, |Concat(chunks[..i])|)
    ensures var r := Feeds(e, c, chunks);
            r.left == [] && r.conn.out.events == c.out.events + ShownAll(p, fs) && r.conn.out.state == Connected
  {
    DeliversAllowed(e, c, p, fs);
    ChunkIndependence(e, c, fs, chunks);
  }
}
