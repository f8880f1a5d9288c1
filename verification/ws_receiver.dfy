/**
  Reading in pieces: what one call of the read loop does with a whole buffer, a
  sequence of calls does with its parts.
*/
module Receiver {
  import opened Bytes
  import opened Masking
  import opened FrameHeader
  import opened SessionState
  import Utf8

  /** Between reads the control buffer is within its bounds. */
  predicate Sound(c: Conn) {
    |c.rx.ctrl| <= CONTROL_MAX
  }

  // ----- Payload that raises no alarm

  predicate TextFrame(c: Conn) {
    !c.rx.binary && !IsControl(c.out.hdr.opcode)
  }

  /** Inside a frame, before its end, with the control buffer in step. */
  predicate InFrame(c: Conn) {
    && c.rx.hasHeader
    && c.rx.recvLen <= c.out.hdr.payloadLen < SIZE_MAX
    && (IsControl(c.out.hdr.opcode) ==> c.out.hdr.payloadLen <= CONTROL_MAX && |c.rx.ctrl| == c.rx.recvLen)
  }

  /** After `buf` the text so far is neither rejected nor, in a final frame, incomplete. */
  predicate TextFine(c: Conn, buf: seq<byte>) {
    TextFrame(c) ==>
      var u := Utf8.Run(c.rx.utf8, buf);
      u != Utf8.REJECT && (u == Utf8.ACCEPT || !c.out.hdr.fin)
  }

  /** The effect of payload bytes that raise no alarm, up to the end of the frame. */
  function Absorb(c: Conn, buf: seq<byte>): (r: Conn) {
    c.(rx := c.rx.(
         recvLen := c.rx.recvLen + |buf|,
         utf8 := if TextFrame(c) then Utf8.Run(c.rx.utf8, buf) else c.rx.utf8,
         ctrl := if IsControl(c.out.hdr.opcode) then c.rx.ctrl + buf else c.rx.ctrl,
         frameData := if IsControl(c.out.hdr.opcode) then c.rx.frameData else c.rx.frameData + buf))
  }

  /** The end of the frame, if all of it has arrived. */
  function Finish(e: Env, c: Conn): (r: Conn) {
    if c.rx.recvLen == c.out.hdr.payloadLen then HandleFrameEnd(e, c) else c
  }

  lemma TakeFine(e: Env, c: Conn, raw: seq<byte>)
    requires Sound(c) && InFrame(c) && c.rx.recvLen + |raw| <= c.out.hdr.payloadLen
    requires TextFine(c, Unmask(c.out.hdr, raw))
    ensures TakeBody(e, c, raw) == Finish(e, Absorb(c, Unmask(c.out.hdr, raw)))
  {
  }

  lemma AbsorbConcat(c: Conn, x: seq<byte>, y: seq<byte>)
    ensures Absorb(Absorb(c, x), y) == Absorb(c, x + y)
  {
    Utf8.RunConcat(c.rx.utf8, x, y);
    assert c.rx.ctrl + x + y == c.rx.ctrl + (x + y);
    assert c.rx.frameData + x + y == c.rx.frameData + (x + y);
  }

  /** How many payload bytes of the current frame are at hand. */
  function Arrived(c: Conn, input: seq<byte>): (r: nat)
    ensures r <= |input|
  {
    Least(|input|, Remaining(c))
  }

  /** The payload bytes at hand raise no alarm, and a masked frame is cut on a four-byte boundary. */
  predicate CleanBody(c: Conn, input: seq<byte>) {
    var n := Arrived(c, input);
    && InFrame(c)
    && (Remaining(c) > 0 ==> TextFine(c, Unmask(c.out.hdr, input[..n])))
    && (n < Remaining(c) && c.out.hdr.maskBit ==> n % 4 == 0)
  }

  /** Reading `input` in one call meets no protocol violation and no torn header or code point. */
  predicate Clean(e: Env, c: Conn, input: seq<byte>)
    requires Sound(c)
    decreases |input|, c.rx.hasHeader
  {
    if !c.out.bev || input == [] then true
    else if c.rx.hasHeader then
      var b := ReadBody(e, c, input); CleanBody(c, input) && Clean(e, b.conn, b.left)
    else
      var p := ReadHeader(e, c, input);
      if NeedsMore(e, input) then true
      else
        && p.Go? && WholeHeader(e, input)
        && var (o, rest) := (p.conn, input[p.used..]);
           var b := ReadBody(e, o, rest); CleanBody(o, rest) && Clean(e, b.conn, b.left)
  }

  predicate NeedsMore(e: Env, input: seq<byte>) {
    Unpack(e.lenField, input, e.stale).state == NeedMore
  }

  predicate WholeHeader(e: Env, input: seq<byte>) {
    Unpack(e.lenField, input, e.stale).headerLen <= |input|
  }

  // ----- Gluing two reads together

  lemma CopyOutAgrees(input: seq<byte>, more: seq<byte>, stale: nat -> byte, i: nat, j: nat)
    requires i <= j <= Copied(input)
    ensures CopyOut(input + more, stale)[i..j] == CopyOut(input, stale)[i..j]
  {
  }

  /** What follows a whole header does not change how it is read. */
  lemma UnpackExtends(w: LenField, input: seq<byte>, more: seq<byte>, stale: nat -> byte)
    requires Unpack(w, input, stale).state == Success && Unpack(w, input, stale).headerLen <= |input|
    ensures Unpack(w, input + more, stale) == Unpack(w, input, stale)
  {
    var b, b' := CopyOut(input, stale), CopyOut(input + more, stale);
    var h := UnpackFixed(b);
    assert UnpackFixed(b') == h;
    var ext := if h.payloadLen == 126 then 2 else if h.payloadLen == 127 then 8 else 0;
    CopyOutAgrees(input, more, stale, 2, 2 + ext);
    if h.maskBit { CopyOutAgrees(input, more, stale, 2 + ext, 6 + ext); }
  }

  lemma UnmaskConcat(h: Header, x: seq<byte>, y: seq<byte>)
    requires h.maskBit ==> |x| % 4 == 0
    ensures Unmask(h, x + y) == Unmask(h, x) + Unmask(h, y)
  {
    if h.maskBit { MaskAligned(h.mask, x, y); }
  }

  lemma RemainingInFrame(c: Conn)
    requires InFrame(c)
    ensures Remaining(c) == c.out.hdr.payloadLen - c.rx.recvLen
  {
  }

  /** What reading clean payload does. */
  lemma CleanRead(e: Env, c: Conn, input: seq<byte>)
    requires Sound(c) && CleanBody(c, input)
    ensures var n := Arrived(c, input);
            ReadBody(e, c, input) == Reading(Finish(e, Absorb(c, Unmask(c.out.hdr, input[..n]))), input[n..])
  {
    RemainingInFrame(c);
    var n := Arrived(c, input);
    if Remaining(c) > 0 {
      TakeFine(e, c, input[..n]);
    } else {
      assert Unmask(c.out.hdr, input[..n]) == [];
      assert Absorb(c, []) == c;
    }
  }

  lemma SliceConcat(x: seq<byte>, y: seq<byte>, n: nat)
    requires n <= |y|
    ensures (x + y)[..|x| + n] == x + y[..n] && (x + y)[|x| + n..] == y[n..]
  {
  }

  lemma TextFineConcat(c: Conn, x: seq<byte>, y: seq<byte>)
    ensures TextFine(c, x + y) <==> TextFine(Absorb(c, x), y)
  {
    Utf8.RunConcat(c.rx.utf8, x, y);
  }

  /** A part of a frame is only stored. */
  lemma PartIsAbsorbed(e: Env, c: Conn, x: seq<byte>)
    requires Sound(c) && CleanBody(c, x) && |x| < Remaining(c)
    ensures ReadBody(e, c, x) == Reading(Absorb(c, Unmask(c.out.hdr, x)), [])
    ensures InFrame(Absorb(c, Unmask(c.out.hdr, x)))
  {
    RemainingInFrame(c);
    assert x[..|x|] == x && x[|x|..] == [];
    CleanRead(e, c, x);
  }

  /** What is left to read of a frame after a part of it was stored. */
  lemma PartLeaves(c: Conn, x: seq<byte>, y: seq<byte>)
    requires CleanBody(c, x) && |x| < Remaining(c) && CleanBody(c, x + y)
    ensures var c' := Absorb(c, Unmask(c.out.hdr, x));
            && Arrived(c, x + y) == |x| + Arrived(c', y)
            && CleanBody(c', y)
  {
    var h := c.out.hdr;
    var c' := Absorb(c, Unmask(h, x));
    RemainingInFrame(c);
    RemainingInFrame(c');
    var n := Arrived(c', y);
    SliceConcat(x, y, n);
    if h.maskBit { Aligned(|x|, n); }
    UnmaskConcat(h, x, y[..n]);
    TextFineConcat(c, Unmask(h, x), Unmask(h, y[..n]));
  }

  lemma Aligned(a: nat, b: nat)
    requires a % 4 == 0
    ensures (a + b) % 4 == 0 <==> b % 4 == 0
  {
  }

  lemma AbsorbParts(c: Conn, x: seq<byte>, y: seq<byte>, z: seq<byte>)
    requires z == x + y
    ensures Absorb(Absorb(c, x), y) == Absorb(c, z)
  {
    AbsorbConcat(c, x, y);
  }

  lemma PartsAbsorbed(c: Conn, c': Conn, x: seq<byte>, y: seq<byte>, z: seq<byte>, n: nat, m: nat) returns (a: Conn)
    requires (c.out.hdr.maskBit ==> |x| % 4 == 0) && c' == Absorb(c, Unmask(c.out.hdr, x))
    requires z == x + y && n <= |y| && m == |x| + n
    ensures a == Absorb(c', Unmask(c'.out.hdr, y[..n]))
    ensures a == Absorb(c, Unmask(c.out.hdr, z[..m]))
    ensures z[m..] == y[n..]
  {
    var h := c.out.hdr;
    SliceConcat(x, y, n);
    UnmaskConcat(h, x, y[..n]);
    AbsorbParts(c, Unmask(h, x), Unmask(h, y[..n]), Unmask(h, z[..m]));
    a := Absorb(c', Unmask(h, y[..n]));
  }

  /** The reading of `y` after the part `x` was stored. */
  function ReadingOn(e: Env, c: Conn, x: seq<byte>, y: seq<byte>): (r: Reading) {
    var c' := Absorb(c, Unmask(c.out.hdr, x));
    var n := Arrived(c', y);
    Reading(Finish(e, Absorb(c', Unmask(c'.out.hdr, y[..n]))), y[n..])
  }

  lemma ReadingOnFromPart(e: Env, c: Conn, x: seq<byte>, y: seq<byte>, z: seq<byte>)
    requires Sound(c) && CleanBody(c, x) && |x| < Remaining(c) && z == x + y && CleanBody(c, z)
    ensures var c' := Absorb(c, Unmask(c.out.hdr, x));
            Sound(c') && ReadBody(e, c', y) == ReadingOn(e, c, x, y)
  {
    PartIsAbsorbed(e, c, x);
    PartLeaves(c, x, y);
    CleanRead(e, Absorb(c, Unmask(c.out.hdr, x)), y);
  }

  lemma ReadingOnFromStart(e: Env, c: Conn, x: seq<byte>, y: seq<byte>, z: seq<byte>)
    requires Sound(c) && CleanBody(c, x) && |x| < Remaining(c) && z == x + y && CleanBody(c, z)
    ensures ReadBody(e, c, z) == ReadingOn(e, c, x, y)
  {
    var c' := Absorb(c, Unmask(c.out.hdr, x));
    PartLeaves(c, x, y);
    var n := Arrived(c', y);
    var m := |x| + n;
    var a := PartsAbsorbed(c, c', x, y, z, n, m);
    CleanReadAs(e, c, z, m, a, y[n..]);
  }

  lemma CleanReadAs(e: Env, c: Conn, input: seq<byte>, n: nat, a: Conn, left: seq<byte>)
    requires Sound(c) && CleanBody(c, input)
    requires n == Arrived(c, input) && a == Absorb(c, Unmask(c.out.hdr, input[..n])) && left == input[n..]
    ensures ReadBody(e, c, input) == Reading(Finish(e, a), left)
  {
    CleanRead(e, c, input);
  }

  /** Storing a part and then reading on is reading on from the beginning of the part. */
  lemma PartsMerge(e: Env, c: Conn, x: seq<byte>, y: seq<byte>, z: seq<byte>)
    requires Sound(c) && CleanBody(c, x) && |x| < Remaining(c) && z == x + y && CleanBody(c, z)
    ensures var c' := Absorb(c, Unmask(c.out.hdr, x));
            Sound(c') && ReadBody(e, c', y) == ReadBody(e, c, z)
  {
    ReadingOnFromPart(e, c, x, y, z);
    ReadingOnFromStart(e, c, x, y, z);
  }

  /** A frame whose payload is all there is read the same whatever follows. */
  lemma BodyExtends(e: Env, c: Conn, x: seq<byte>, y: seq<byte>)
    requires Sound(c) && Remaining(c) <= |x|
    ensures ReadBody(e, c, x + y) == Reading(ReadBody(e, c, x).conn, ReadBody(e, c, x).left + y)
    ensures CleanBody(c, x + y) <==> CleanBody(c, x)
  {
    var n := Remaining(c);
    assert (x + y)[..n] == x[..n] && (x + y)[n..] == x[n..] + y;
  }

  /** A whole header is read the same whatever follows. */
  lemma HeaderExtends(e: Env, c: Conn, x: seq<byte>, y: seq<byte>)
    requires Sound(c) && !NeedsMore(e, x) && WholeHeader(e, x) && ReadHeader(e, c, x).Go?
    ensures ReadHeader(e, c, x + y) == ReadHeader(e, c, x)
    ensures !NeedsMore(e, x + y) && WholeHeader(e, x + y)
    ensures (x + y)[ReadHeader(e, c, x).used..] == x[ReadHeader(e, c, x).used..] + y
  {
    UnpackExtends(e.lenField, x, y, e.stale);
  }

  /** A header read starts from the input alone. */
  lemma HeaderRestarts(e: Env, c: Conn, h: Header, input: seq<byte>)
    requires Sound(c)
    ensures ReadHeader(e, c.(out := c.out.(hdr := h)), input) == ReadHeader(e, c, input)
  {
  }

  /** The current frame and those after it. */
  predicate CleanOn(e: Env, c: Conn, input: seq<byte>)
    requires Sound(c)
  {
    var b := ReadBody(e, c, input);
    CleanBody(c, input) && Clean(e, b.conn, b.left)
  }

  /** Where one call on `x` stops, the next one goes on as if it had been given `y` along with it. */
  predicate Resumes(e: Env, c: Conn, x: seq<byte>, y: seq<byte>)
    requires Sound(c)
  {
    var r := ReadWebsocket(e, c, x);
    ReadWebsocket(e, r.conn, r.left + y) == ReadWebsocket(e, c, x + y)
  }

  /** The loop read `x` of a frame and stopped; with `y` it goes on as from the beginning of `x`. */
  predicate BodyResumed(e: Env, c: Conn, x: seq<byte>, y: seq<byte>)
    requires Sound(c)
  {
    var b, b' := ReadBody(e, c, x), ReadBody(e, c, x + y);
    var r := ReadWebsocket(e, b.conn, b.left);
    ReadWebsocket(e, r.conn, r.left + y) == ReadWebsocket(e, b'.conn, b'.left)
  }

  lemma PartResumes(e: Env, c: Conn, x: seq<byte>, y: seq<byte>)
    requires Sound(c) && c.out.bev && CleanBody(c, x) && CleanBody(c, x + y) && |x| < Remaining(c)
    ensures BodyResumed(e, c, x, y)
  {
    PartIsAbsorbed(e, c, x);
    PartsMerge(e, c, x, y, x + y);
    var c' := Absorb(c, Unmask(c.out.hdr, x));
    assert ReadWebsocket(e, c', []) == Reading(c', []);
    assert [] + y == y;
    if y == [] {
      assert x + y == x;
    }
  }

  /** Inside a frame, given that later frames resume. */
  lemma BodyResumes(e: Env, c: Conn, x: seq<byte>, y: seq<byte>)
    requires Sound(c) && c.out.bev && CleanBody(c, x) && CleanBody(c, x + y)
    requires Remaining(c) <= |x| ==> Resumes(e, ReadBody(e, c, x).conn, ReadBody(e, c, x).left, y)
    ensures BodyResumed(e, c, x, y)
  {
    if Remaining(c) <= |x| {
      BodyExtends(e, c, x, y);
    } else {
      PartResumes(e, c, x, y);
    }
  }

  lemma InFrameResumes(e: Env, c: Conn, x: seq<byte>, y: seq<byte>)
    requires Sound(c) && c.out.bev && c.rx.hasHeader && x != [] && BodyResumed(e, c, x, y)
    ensures Resumes(e, c, x, y)
  {
  }

  lemma AtHeaderResumes(e: Env, c: Conn, x: seq<byte>, y: seq<byte>, o: Conn, used: nat)
    requires Sound(c) && c.out.bev && !c.rx.hasHeader && x != []
    requires ReadHeader(e, c, x) == Go(o, used) && ReadHeader(e, c, x + y) == Go(o, used)
    requires (x + y)[used..] == x[used..] + y && BodyResumed(e, o, x[used..], y)
    ensures Resumes(e, c, x, y)
  {
  }

  lemma {:induction false} CleanResumes(e: Env, c: Conn, x: seq<byte>, y: seq<byte>)
    requires Sound(c)
    ensures Clean(e, c, x) && Clean(e, c, x + y) ==> Resumes(e, c, x, y)
    decreases |x|, c.rx.hasHeader
  {
    if Clean(e, c, x) && Clean(e, c, x + y) {
      if !c.out.bev {
      } else if x == [] {
        assert [] + y == x + y;
      } else if c.rx.hasHeader {
        InsideResumes(e, c, x, y);
        InFrameResumes(e, c, x, y);
      } else if NeedsMore(e, x) {
        WaitResumes(e, c, x, y);
      } else {
        var p := ReadHeader(e, c, x);
        HeaderExtends(e, c, x, y);
        InsideResumes(e, p.conn, x[p.used..], y);
        AtHeaderResumes(e, c, x, y, p.conn, p.used);
      }
    }
  }

  /** A call that stopped at an incomplete header starts over with it. */
  lemma WaitResumes(e: Env, c: Conn, x: seq<byte>, y: seq<byte>)
    requires Sound(c) && c.out.bev && !c.rx.hasHeader && x != [] && NeedsMore(e, x)
    ensures Resumes(e, c, x, y)
  {
    HeaderRestarts(e, c, Unpack(e.lenField, x, e.stale).hdr, x + y);
  }

  /** The induction step: the current frame resumes, because those after it do. */
  lemma {:induction false} InsideResumes(e: Env, c: Conn, x: seq<byte>, y: seq<byte>)
    requires Sound(c) && c.out.bev
    ensures CleanOn(e, c, x) && CleanOn(e, c, x + y) ==> BodyResumed(e, c, x, y)
    decreases |x|, c.rx.hasHeader, 0
  {
    if CleanOn(e, c, x) && CleanOn(e, c, x + y) {
      if Remaining(c) <= |x| {
        BodyExtends(e, c, x, y);
        var b := ReadBody(e, c, x);
        CleanResumes(e, b.conn, b.left, y);
      }
      BodyResumes(e, c, x, y);
    }
  }

  // ----- And what is left is clean too

  lemma PartContinues(e: Env, c: Conn, x: seq<byte>, y: seq<byte>, z: seq<byte>)
    requires Sound(c) && CleanBody(c, x) && |x| < Remaining(c) && z == x + y && CleanOn(e, c, z)
    ensures var c' := Absorb(c, Unmask(c.out.hdr, x)); Sound(c') && Clean(e, c', y)
  {
    PartIsAbsorbed(e, c, x);
    PartLeaves(c, x, y);
    PartsMerge(e, c, x, y, z);
  }

  /** Inside a frame: the reading stopped at `r`, and with `y` it is clean from there. */
  lemma {:induction false} InsideContinues(e: Env, c: Conn, x: seq<byte>, y: seq<byte>, r: Reading, clean: bool)
    requires Sound(c) && c.out.bev
    requires var b := ReadBody(e, c, x); r == ReadWebsocket(e, b.conn, b.left)
    requires clean == Clean(e, r.conn, r.left + y)
    ensures CleanOn(e, c, x) && CleanOn(e, c, x + y) ==> clean
    decreases |x|, c.rx.hasHeader, 0
  {
    if CleanOn(e, c, x) && CleanOn(e, c, x + y) {
      if Remaining(c) <= |x| {
        BodyExtends(e, c, x, y);
        var b := ReadBody(e, c, x);
        CleanContinues(e, b.conn, b.left, y, r, clean);
      } else {
        PartIsAbsorbed(e, c, x);
        PartContinues(e, c, x, y, x + y);
        assert [] + y == y;
      }
    }
  }

  lemma WaitContinues(e: Env, c: Conn, x: seq<byte>, z: seq<byte>, r: Reading)
    requires Sound(c) && c.out.bev && !c.rx.hasHeader && x != [] && NeedsMore(e, x) && r == ReadWebsocket(e, c, x)
    ensures Clean(e, c, z) ==> Clean(e, r.conn, z)
  {
    HeaderRestarts(e, c, Unpack(e.lenField, x, e.stale).hdr, z);
  }

  /** Where a clean call on `x` stops, going on with `y` is clean if one call on both is. */
  lemma {:induction false} CleanContinues(e: Env, c: Conn, x: seq<byte>, y: seq<byte>, r: Reading, clean: bool)
    requires Sound(c) && r == ReadWebsocket(e, c, x) && clean == Clean(e, r.conn, r.left + y)
    ensures Clean(e, c, x) && Clean(e, c, x + y) ==> clean
    decreases |x|, c.rx.hasHeader
  {
    if Clean(e, c, x) && Clean(e, c, x + y) {
      if !c.out.bev {
      } else if x == [] {
        assert [] + y == x + y;
      } else if c.rx.hasHeader {
        InsideContinues(e, c, x, y, r, clean);
      } else if NeedsMore(e, x) {
        WaitContinues(e, c, x, x + y, r);
      } else {
        var p := ReadHeader(e, c, x);
        HeaderExtends(e, c, x, y);
        InsideContinues(e, p.conn, x[p.used..], y, r, clean);
      }
    }
  }

  /** One turn of the loop at a frame boundary. */
  lemma TurnAtHeader(e: Env, c: Conn, input: seq<byte>, o: Conn, used: nat, b: Reading)
    requires Sound(c) && c.out.bev && !c.rx.hasHeader && input != []
    requires ReadHeader(e, c, input) == Go(o, used)
    requires ReadBody(e, o, input[used..]) == b
    ensures ReadWebsocket(e, c, input) == ReadWebsocket(e, b.conn, b.left)
    ensures !NeedsMore(e, input) && WholeHeader(e, input) && CleanBody(o, input[used..]) ==>
              (Clean(e, c, input) <==> Clean(e, b.conn, b.left))
  {
  }
}
