/**
  Which replies complete the opening handshake, and when that does not depend on
  how they are split over reads.
*/
module HandshakeExact {
  import opened Bytes
  import opened FrameHeader
  import opened SessionState
  import opened OpeningHandshake
  import Base64

  // ----- The reply as a whole

  /** The header lines up to the blank line that ends the reply. */
  function FieldsOf(cfg: Config, input: seq<byte>): (r: seq<Field>)
    decreases |input|
  {
    match ReadLine(input)
    case NoLine => []
    case Line(text, rest) => if Blank(text) then [] else [cfg.parseHeader(text)] + FieldsOf(cfg, rest)
  }

  predicate HeadEnds(input: seq<byte>)
    decreases |input|
  {
    match ReadLine(input)
    case NoLine => false
    case Line(text, rest) => Blank(text) || HeadEnds(rest)
  }

  /** What follows the blank line. */
  function AfterHead(input: seq<byte>): (r: seq<byte>)
    requires HeadEnds(input)
    decreases |input|
  {
    var line := ReadLine(input);
    if Blank(line.text) then line.rest else AfterHead(line.rest)
  }

  /** The value in effect at a line: its own, or else that of the nearest line above that has one. */
  function Value(fs: seq<Field>, i: nat): (r: string)
    requires i < |fs|
  {
    if fs[i].value.Some? then fs[i].value.value else if i == 0 then "" else Value(fs, i - 1)
  }

  predicate Named(f: Field, name: string) {
    Same(name, f.name)
  }

  predicate Seen(fs: seq<Field>, name: string) {
    exists i | 0 <= i < |fs| :: Named(fs[i], name)
  }

  /** The header appears at most once, and with the expected value. */
  predicate Fine(fs: seq<Field>, name: string, expected: string) {
    forall i | 0 <= i < |fs| && Named(fs[i], name) ::
      Same(expected, Value(fs, i)) && forall j | 0 <= j < |fs| && Named(fs[j], name) :: j == i
  }

  predicate Absent(fs: seq<Field>, name: string) {
    forall i | 0 <= i < |fs| :: !Named(fs[i], name)
  }

  /** No header is wrong so far. */
  predicate NoneWrong(cfg: Config, fs: seq<Field>) {
    && Fine(fs, UPGRADE, "websocket") && Fine(fs, CONNECTION, "upgrade") && Fine(fs, ACCEPT, AcceptKey(cfg))
    && Absent(fs, EXTENSIONS) && Absent(fs, PROTOCOL)
    && (fs != [] ==> AcceptKey(cfg) != "")
  }

  /** Exactly one of each required header, with its value, and none of the refused ones: section 4.1 of RFC 6455. */
  predicate GoodFields(cfg: Config, fs: seq<Field>) {
    NoneWrong(cfg, fs) && Seen(fs, UPGRADE) && Seen(fs, CONNECTION) && Seen(fs, ACCEPT)
  }

  predicate GoodReply(cfg: Config, input: seq<byte>) {
    var line := ReadLine(input);
    && line.Line? && cfg.parseStatus(line.text) == Some(Status(1, 1, 101))
    && HeadEnds(line.rest) && GoodFields(cfg, FieldsOf(cfg, line.rest))
  }

  // ----- The checks, line by line

  lemma {:induction false} ValuePrefix(fs: seq<Field>, n: nat, i: nat)
    requires i < n <= |fs|
    ensures Value(fs[..n], i) == Value(fs, i)
  {
    if i > 0 { ValuePrefix(fs, n, i - 1); }
  }

  lemma SeenStep(gs: seq<Field>, f: Field, name: string)
    ensures Seen(gs + [f], name) <==> Seen(gs, name) || Named(f, name)
  {
    if Seen(gs, name) {
      var i :| 0 <= i < |gs| && Named(gs[i], name);
      assert (gs + [f])[i] == gs[i];
    }
    if Named(f, name) { assert (gs + [f])[|gs|] == f; }
  }

  lemma FineForth(gs: seq<Field>, f: Field, fs: seq<Field>, name: string, expected: string)
    requires fs == gs + [f] && Fine(fs, name, expected)
    ensures Fine(gs, name, expected)
    ensures Named(f, name) ==> !Seen(gs, name) && Same(expected, Value(fs, |gs|))
  {
    forall i | 0 <= i < |gs| && Named(gs[i], name)
      ensures Same(expected, Value(gs, i)) && forall j | 0 <= j < |gs| && Named(gs[j], name) :: j == i
    {
      assert fs[i] == gs[i] && fs[..|gs|] == gs;
      ValuePrefix(fs, |gs|, i);
      assert forall j | 0 <= j < |gs| :: fs[j] == gs[j];
    }
    if Named(f, name) {
      assert fs[|gs|] == f;
      forall i | 0 <= i < |gs|
        ensures !Named(gs[i], name)
      {
        assert fs[i] == gs[i];
      }
    }
  }

  lemma FineBack(gs: seq<Field>, f: Field, fs: seq<Field>, name: string, expected: string)
    requires fs == gs + [f] && Fine(gs, name, expected)
    requires Named(f, name) ==> !Seen(gs, name) && Same(expected, Value(fs, |gs|))
    ensures Fine(fs, name, expected)
  {
    forall i | 0 <= i < |fs| && Named(fs[i], name)
      ensures Same(expected, Value(fs, i)) && forall j | 0 <= j < |fs| && Named(fs[j], name) :: j == i
    {
      if i < |gs| {
        assert fs[i] == gs[i] && fs[..|gs|] == gs;
        ValuePrefix(fs, |gs|, i);
      }
      forall j | 0 <= j < |fs| && Named(fs[j], name)
        ensures j == i
      {
        if j < |gs| { assert fs[j] == gs[j]; }
      }
    }
  }

  /** One more line is checked against the lines above it. */
  lemma FineStep(gs: seq<Field>, f: Field, fs: seq<Field>, name: string, expected: string)
    requires fs == gs + [f]
    ensures Fine(fs, name, expected) <==>
              Fine(gs, name, expected) && (Named(f, name) ==> !Seen(gs, name) && Same(expected, Value(fs, |gs|)))
  {
    if Fine(fs, name, expected) { FineForth(gs, f, fs, name, expected); }
    if Fine(gs, name, expected) && (Named(f, name) ==> !Seen(gs, name) && Same(expected, Value(fs, |gs|))) {
      FineBack(gs, f, fs, name, expected);
    }
  }

  lemma AbsentStep(gs: seq<Field>, f: Field, name: string)
    ensures Absent(gs + [f], name) <==> Absent(gs, name) && !Named(f, name)
  {
    SeenStep(gs, f, name);
    assert Absent(gs + [f], name) <==> !Seen(gs + [f], name);
    assert Absent(gs, name) <==> !Seen(gs, name);
  }

  /** The flags after the lines `fs`. */
  predicate Flags(hs: Handshake, fs: seq<Field>) {
    hs.upgrade == Seen(fs, UPGRADE) && hs.connection == Seen(fs, CONNECTION) && hs.accept == Seen(fs, ACCEPT)
  }

  lemma SameSymmetric(a: string, b: string)
    ensures Same(a, b) == Same(b, a)
  {
  }

  /** The check of one header against a line. */
  lemma HeaderExact(seen: bool, gs: seq<Field>, f: Field, fs: seq<Field>, name: string, expected: string)
    requires fs == gs + [f] && seen == Seen(gs, name) && Fine(gs, name, expected)
    ensures var v := ValidateHttpHeader(seen, f.name, Value(fs, |gs|), name, expected);
            && (v != Refused <==> Fine(fs, name, expected))
            && (v != Refused ==> (seen || v == Matched) == Seen(fs, name))
  {
    FineStep(gs, f, fs, name, expected);
    SeenStep(gs, f, name);
  }

  /** The checks of a line, each against the lines so far. */
  predicate Judged(cfg: Config, hs: Handshake, f: Field, fs: seq<Field>, v: string) {
    var u := ValidateHttpHeader(hs.upgrade, f.name, v, UPGRADE, "websocket");
    var c := ValidateHttpHeader(hs.connection, f.name, v, CONNECTION, "upgrade");
    var a := ValidateHttpHeader(hs.accept, f.name, v, ACCEPT, AcceptKey(cfg));
    && (u != Refused <==> Fine(fs, UPGRADE, "websocket"))
    && (c != Refused <==> Fine(fs, CONNECTION, "upgrade"))
    && (a != Refused <==> Fine(fs, ACCEPT, AcceptKey(cfg)))
    && (u != Refused ==> (hs.upgrade || u == Matched) == Seen(fs, UPGRADE))
    && (c != Refused ==> (hs.connection || c == Matched) == Seen(fs, CONNECTION))
    && (a != Refused ==> (hs.accept || a == Matched) == Seen(fs, ACCEPT))
  }

  lemma LineJudged(cfg: Config, hs: Handshake, gs: seq<Field>, f: Field, fs: seq<Field>, v: string)
    requires fs == gs + [f] && Flags(hs, gs) && NoneWrong(cfg, gs) && v == Value(fs, |gs|)
    ensures Judged(cfg, hs, f, fs, v)
  {
    HeaderExact(hs.upgrade, gs, f, fs, UPGRADE, "websocket");
    HeaderExact(hs.connection, gs, f, fs, CONNECTION, "upgrade");
    HeaderExact(hs.accept, gs, f, fs, ACCEPT, AcceptKey(cfg));
  }

  lemma JudgedExact(cfg: Config, hs: Handshake, f: Field, fs: seq<Field>, v: string, r: Option<Handshake>)
    requires fs != [] && Judged(cfg, hs, f, fs, v) && r == ValidateHttpHeaders(cfg, hs, f.name, v)
    requires Absent(fs, EXTENSIONS) <==> !Named(f, EXTENSIONS)
    requires Absent(fs, PROTOCOL) <==> !Named(f, PROTOCOL)
    ensures (r.Some? <==> NoneWrong(cfg, fs)) && (r.Some? ==> Flags(r.value, fs) && r.value.phase == hs.phase)
  {
    SameSymmetric(f.name, EXTENSIONS);
    SameSymmetric(f.name, PROTOCOL);
  }

  /** A line passes exactly when the lines so far and it are not wrong. */
  lemma LineExact(cfg: Config, hs: Handshake, gs: seq<Field>, f: Field, fs: seq<Field>)
    requires fs == gs + [f] && Flags(hs, gs) && NoneWrong(cfg, gs)
    ensures var r := ValidateHttpHeaders(cfg, hs, f.name, Value(fs, |gs|));
            (r.Some? <==> NoneWrong(cfg, fs)) && (r.Some? ==> Flags(r.value, fs) && r.value.phase == hs.phase)
  {
    var v := Value(fs, |gs|);
    LineJudged(cfg, hs, gs, f, fs, v);
    AbsentStep(gs, f, EXTENSIONS);
    AbsentStep(gs, f, PROTOCOL);
    JudgedExact(cfg, hs, f, fs, v, ValidateHttpHeaders(cfg, hs, f.name, v));
  }

  lemma WrongStays1(cfg: Config, gs: seq<Field>, f: Field, fs: seq<Field>)
    requires fs == gs + [f] && NoneWrong(cfg, fs)
    ensures NoneWrong(cfg, gs)
  {
    FineForth(gs, f, fs, UPGRADE, "websocket");
    FineForth(gs, f, fs, CONNECTION, "upgrade");
    FineForth(gs, f, fs, ACCEPT, AcceptKey(cfg));
    AbsentStep(gs, f, EXTENSIONS);
    AbsentStep(gs, f, PROTOCOL);
  }

  lemma {:induction false} WrongStays(cfg: Config, gs: seq<Field>, more: seq<Field>)
    requires NoneWrong(cfg, gs + more)
    ensures NoneWrong(cfg, gs)
    decreases |more|
  {
    if more == [] {
      assert gs + more == gs;
    } else {
      var n := |more| - 1;
      assert gs + more == gs + more[..n] + [more[n]];
      WrongStays1(cfg, gs + more[..n], more[n], gs + more);
      WrongStays(cfg, gs, more[..n]);
    }
  }

  /** The value carried on after the lines `fs`. */
  function Carried(fs: seq<Field>): (r: string) {
    if fs == [] then "" else Value(fs, |fs| - 1)
  }

  lemma CarriedStep(gs: seq<Field>, f: Field, fs: seq<Field>)
    requires fs == gs + [f]
    ensures Carried(fs) == Value(fs, |gs|) == if f.value.Some? then f.value.value else Carried(gs)
  {
    if gs != [] {
      assert fs[..|gs|] == gs;
      ValuePrefix(fs, |gs|, |gs| - 1);
    }
  }

  /** What reading header lines comes to, after the lines `gs` passed. */
  predicate HeadersOutcome(cfg: Config, r: HeadersRead, fs: seq<Field>, input: seq<byte>) {
    && (r.state == Error <==> !NoneWrong(cfg, fs))
    && (r.state != Error ==> Flags(r.hs, fs))
    && (r.state == Success ==> HeadEnds(input) && r.left == AfterHead(input))
    && (r.state == NeedMore ==> !HeadEnds(input))
  }

  lemma {:induction false} HeadersExact(cfg: Config, hs: Handshake, val: string, input: seq<byte>, gs: seq<Field>)
    requires Flags(hs, gs) && NoneWrong(cfg, gs) && val == Carried(gs)
    ensures HeadersOutcome(cfg, ReadHttpHeaders(cfg, hs, val, input), gs + FieldsOf(cfg, input), input)
    decreases |input|
  {
    var line := ReadLine(input);
    if line.NoLine? || Blank(line.text) {
      assert gs + FieldsOf(cfg, input) == gs;
    } else {
      var f := cfg.parseHeader(line.text);
      var fs, more := gs + [f], FieldsOf(cfg, line.rest);
      CarriedStep(gs, f, fs);
      LineExact(cfg, hs, gs, f, fs);
      assert gs + FieldsOf(cfg, input) == fs + more;
      var r := ValidateHttpHeaders(cfg, hs, f.name, Value(fs, |gs|));
      if r.Some? {
        HeadersExact(cfg, r.value, Value(fs, |gs|), line.rest, fs);
      } else if NoneWrong(cfg, fs + more) {
        WrongStays(cfg, fs, more);
      }
    }
  }

  lemma NothingSeen(cfg: Config)
    ensures Flags(REQUESTED, []) && NoneWrong(cfg, []) && Carried([]) == ""
  {
  }

  /**
    One read of a reply completes the handshake if and only if it begins with an
    HTTP/1.1 101 status line followed by header lines with exactly one matching
    Upgrade, Connection and Sec-WebSocket-Accept, no extension and no subprotocol,
    and a blank line; what follows that is left for the frame reader.
  */
  lemma ReplyExact(cfg: Config, hs: Handshake, input: seq<byte>)
    requires hs.phase == SentReq
    ensures var r := ReadServerHandshakeReply(cfg, hs, input);
            && (r.state == Success <==> GoodReply(cfg, input))
            && (r.state == Success <==> r.hs.phase == Complete)
            && (r.state == Success ==> r.left == AfterHead(ReadLine(input).rest))
  {
    var line := ReadLine(input);
    if line.Line? {
      NothingSeen(cfg);
      var hs1 := REQUESTED.(phase := ParsedStatus);
      assert [] + FieldsOf(cfg, line.rest) == FieldsOf(cfg, line.rest);
      HeadersExact(cfg, hs1, "", line.rest, []);
    }
  }

  // ----- The same in the words of section 4.1 of RFC 6455

  /** Equal but for the case of ASCII letters. */
  predicate EqualIgnoreCase(a: string, b: string) {
    && |a| == |b|
    && forall i | 0 <= i < |a| ::
         || a[i] == b[i]
         || ('A' <= a[i] <= 'Z' && b[i] as int == a[i] as int + 32)
         || ('A' <= b[i] <= 'Z' && a[i] as int == b[i] as int + 32)
  }

  lemma {:induction false} SameExact(a: string, b: string)
    ensures Same(a, b) <==> EqualIgnoreCase(a, b)
  {
    if |a| == |b| && a != "" {
      SameExact(a[1..], b[1..]);
      if EqualIgnoreCase(a[1..], b[1..]) {
        forall i | 1 <= i < |a|
          ensures || a[i] == b[i]
                  || ('A' <= a[i] <= 'Z' && b[i] as int == a[i] as int + 32)
                  || ('A' <= b[i] <= 'Z' && a[i] as int == b[i] as int + 32)
        {
          assert a[i] == a[1..][i - 1] && b[i] == b[1..][i - 1];
        }
      }
    }
  }

  /** Some line has this name. */
  predicate Appears(fs: seq<Field>, name: string) {
    exists i | 0 <= i < |fs| :: EqualIgnoreCase(name, fs[i].name)
  }

  /** One line has this name, and the value in effect there is the expected one. */
  predicate Once(fs: seq<Field>, name: string, expected: string) {
    exists i | 0 <= i < |fs| ::
      && EqualIgnoreCase(name, fs[i].name) && EqualIgnoreCase(expected, Value(fs, i))
      && forall j | 0 <= j < |fs| && EqualIgnoreCase(name, fs[j].name) :: j == i
  }

  lemma SeenIsAppears(fs: seq<Field>, name: string)
    ensures Seen(fs, name) <==> Appears(fs, name)
    ensures Absent(fs, name) <==> !Appears(fs, name)
  {
    forall i | 0 <= i < |fs|
      ensures Named(fs[i], name) <==> EqualIgnoreCase(name, fs[i].name)
    {
      SameExact(name, fs[i].name);
    }
  }

  lemma FineIsOnce(fs: seq<Field>, name: string, expected: string)
    ensures Fine(fs, name, expected) && Seen(fs, name) <==> Once(fs, name, expected)
  {
    forall i | 0 <= i < |fs|
      ensures Named(fs[i], name) <==> EqualIgnoreCase(name, fs[i].name)
      ensures Same(expected, Value(fs, i)) <==> EqualIgnoreCase(expected, Value(fs, i))
    {
      SameExact(name, fs[i].name);
      SameExact(expected, Value(fs, i));
    }
  }

  predicate StandardFields(cfg: Config, fs: seq<Field>) {
    var accept := Base64.Encode(cfg.sha1(cfg.key + "258EAFA5-E914-47DA-95CA-C5AB0DC85B11"));
    && accept != ""
    && Once(fs, "Upgrade", "websocket") && Once(fs, "Connection", "upgrade") && Once(fs, "Sec-WebSocket-Accept", accept)
    && !Appears(fs, "Sec-WebSocket-Extensions") && !Appears(fs, "Sec-WebSocket-Protocol")
  }

  /** The names and the expected accept value, spelled out. */
  lemma SpelledOut(cfg: Config)
    ensures UPGRADE == "Upgrade" && CONNECTION == "Connection" && ACCEPT == "Sec-WebSocket-Accept"
    ensures EXTENSIONS == "Sec-WebSocket-Extensions" && PROTOCOL == "Sec-WebSocket-Protocol"
    ensures AcceptKey(cfg) == Base64.Encode(cfg.sha1(cfg.key + "258EAFA5-E914-47DA-95CA-C5AB0DC85B11"))
  {
  }

  lemma GoodIsStandard(cfg: Config, fs: seq<Field>)
    ensures GoodFields(cfg, fs) <==> StandardFields(cfg, fs)
  {
    SpelledOut(cfg);
    FineIsOnce(fs, UPGRADE, "websocket");
    FineIsOnce(fs, CONNECTION, "upgrade");
    FineIsOnce(fs, ACCEPT, AcceptKey(cfg));
    SeenIsAppears(fs, EXTENSIONS);
    SeenIsAppears(fs, PROTOCOL);
  }

  /** One read of any input completes the handshake if and only if this holds of the reply at its start. */
  lemma ReplyStandard(cfg: Config, hs: Handshake, input: seq<byte>)
    requires hs.phase == SentReq
    ensures ReadServerHandshakeReply(cfg, hs, input).state == Success <==>
              var line := ReadLine(input);
              && line.Line? && cfg.parseStatus(line.text) == Some(Status(1, 1, 101))
              && HeadEnds(line.rest) && StandardFields(cfg, FieldsOf(cfg, line.rest))
  {
    ReplyExact(cfg, hs, input);
    var line := ReadLine(input);
    if line.Line? { GoodIsStandard(cfg, FieldsOf(cfg, line.rest)); }
  }

  // ----- Replies as they are sent

  /** The lines as bytes, each with its line end. */
  function Wire(lines: seq<seq<byte>>): (r: seq<byte>) {
    if lines == [] then [] else lines[0] + [13, 10] + Wire(lines[1..])
  }

  /** Lines of a header: no line feed in them, and none looks empty. */
  predicate HeaderLines(lines: seq<seq<byte>>) {
    forall i | 0 <= i < |lines| :: 10 !in lines[i] && lines[i] != [] && lines[i][0] != 0
  }

  predicate EmptyLine(line: seq<byte>) {
    10 !in line && (line == [] || line[0] == 0)
  }

  function Parsed(cfg: Config, lines: seq<seq<byte>>): (r: seq<Field>)
    ensures |r| == |lines|
  {
    seq(|lines|, i requires 0 <= i < |lines| => cfg.parseHeader(lines[i]))
  }

  lemma WireHead(lines: seq<seq<byte>>, tail: seq<byte>)
    requires lines != []
    ensures Wire(lines) + tail == lines[0] + [13, 10] + (Wire(lines[1..]) + tail)
  {
  }

  /** One line of the head. */
  lemma HeadStep(cfg: Config, input: seq<byte>, text: seq<byte>, more: seq<byte>)
    requires ReadLine(input) == Line(text, more) && !Blank(text)
    ensures HeadEnds(input) == HeadEnds(more) && (HeadEnds(more) ==> AfterHead(input) == AfterHead(more))
    ensures FieldsOf(cfg, input) == [cfg.parseHeader(text)] + FieldsOf(cfg, more)
  {
  }

  lemma HeadStops(cfg: Config, blank: seq<byte>, rest: seq<byte>, input: seq<byte>)
    requires EmptyLine(blank) && input == blank + [13, 10] + rest
    ensures HeadEnds(input) && AfterHead(input) == rest && FieldsOf(cfg, input) == []
  {
    ReadsLine(blank, rest);
  }

  lemma ParsedHead(cfg: Config, lines: seq<seq<byte>>)
    requires lines != []
    ensures Parsed(cfg, lines) == [cfg.parseHeader(lines[0])] + Parsed(cfg, lines[1..])
  {
  }

  lemma {:induction false} HeadOnWire(
      cfg: Config, lines: seq<seq<byte>>, blank: seq<byte>, rest: seq<byte>, tail: seq<byte>, input: seq<byte>)
    requires HeaderLines(lines) && EmptyLine(blank) && tail == blank + [13, 10] + rest && input == Wire(lines) + tail
    ensures HeadEnds(input) && AfterHead(input) == rest && FieldsOf(cfg, input) == Parsed(cfg, lines)
    decreases |lines|
  {
    if lines == [] {
      assert input == tail;
      HeadStops(cfg, blank, rest, input);
    } else {
      var more := Wire(lines[1..]) + tail;
      WireHead(lines, tail);
      ReadsLine(lines[0], more);
      HeadStep(cfg, input, lines[0], more);
      HeadOnWire(cfg, lines[1..], blank, rest, tail, more);
      ParsedHead(cfg, lines);
    }
  }

  /**
    A reply of a status line, header lines and an empty line, whatever follows it,
    completes the handshake if and only if it is an HTTP/1.1 101 and its fields are those
    the standard asks for; then what follows it is left.
  */
  lemma ReplyOnWire(
      cfg: Config, status: seq<byte>, lines: seq<seq<byte>>, blank: seq<byte>, rest: seq<byte>, input: seq<byte>, r: Reply)
    requires 10 !in status && HeaderLines(lines) && EmptyLine(blank)
    requires input == status + [13, 10] + (Wire(lines) + (blank + [13, 10] + rest))
    requires r == ReadServerHandshakeReply(cfg, REQUESTED, input)
    ensures r.state == Success <==>
              cfg.parseStatus(status) == Some(Status(1, 1, 101)) && StandardFields(cfg, Parsed(cfg, lines))
    ensures r.state == Success ==> r.left == rest
  {
    var tail := blank + [13, 10] + rest;
    var head := Wire(lines) + tail;
    ReadsLine(status, head);
    HeadOnWire(cfg, lines, blank, rest, tail, head);
    ReplyExact(cfg, REQUESTED, input);
    GoodIsStandard(cfg, Parsed(cfg, lines));
  }
}
