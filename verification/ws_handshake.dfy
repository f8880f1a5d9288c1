/**
  The opening handshake: the reply is read line by line as it arrives. Parsing a
  status line and splitting a header line into name and value are parameters.
*/
module OpeningHandshake {
  import opened Bytes
  import opened FrameHeader
  import opened SessionState
  import Base64

  const LF: byte := 10
  const CR: byte := 13

  // ----- Lines

  datatype Line = NoLine | Line(text: seq<byte>, rest: seq<byte>)

  function FindLf(input: seq<byte>): (r: nat)
    ensures r <= |input| && LF !in input[..r] && (r < |input| ==> input[r] == LF)
  {
    if input == [] || input[0] == LF then 0
    else
      assert input[1..][..FindLf(input[1..])] == input[1..FindLf(input[1..]) + 1];
      1 + FindLf(input[1..])
  }

  /** A line ends with LF, and a CR before that is dropped. */
  function ReadLine(input: seq<byte>): (r: Line)
    ensures r.Line? ==> |r.rest| < |input|
  {
    var n := FindLf(input);
    if n == |input| then NoLine
    else Line(if n > 0 && input[n - 1] == CR then input[..n - 1] else input[..n], input[n + 1..])
  }

  lemma {:induction false} FindLfAt(input: seq<byte>, n: nat)
    requires n < |input| && LF !in input[..n] && input[n] == LF
    ensures FindLf(input) == n
  {
    if n > 0 {
      assert input[..n][0] == input[0];
      assert input[1..][..n - 1] == input[..n][1..];
      FindLfAt(input[1..], n - 1);
    }
  }

  /** Reading a line undoes writing one. */
  lemma ReadsLine(text: seq<byte>, rest: seq<byte>)
    requires LF !in text
    ensures ReadLine(text + [13, 10] + rest) == Line(text, rest)
  {
    var input := text + [CR, LF] + rest;
    assert input[..|text| + 1] == text + [CR];
    FindLfAt(input, |text| + 1);
    assert input[..|text|] == text && input[|text| + 2..] == rest;
  }

  /** A line is what stands before the first LF, without a CR at its end. */
  lemma ReadLineExact(input: seq<byte>)
    ensures ReadLine(input).NoLine? <==> 10 !in input
    ensures ReadLine(input).Line? ==>
              var line := ReadLine(input);
              && 10 !in line.text
              && (|| input == line.text + [13, 10] + line.rest
                  || (input == line.text + [10] + line.rest && (line.text == [] || line.text[|line.text| - 1] != 13)))
  {
    var n := FindLf(input);
    if n < |input| {
      assert input == input[..n] + [10] + input[n + 1..];
      if n > 0 && input[n - 1] == 13 { assert input[..n] == input[..n - 1] + [13]; }
    }
  }

  /** A line that is there stays the same when more input arrives. */
  lemma LineExtends(x: seq<byte>, y: seq<byte>)
    requires ReadLine(x).Line?
    ensures ReadLine(x + y) == Line(ReadLine(x).text, ReadLine(x).rest + y)
  {
    var n := FindLf(x);
    assert (x + y)[..n] == x[..n];
    FindLfAt(x + y, n);
    assert (x + y)[n + 1..] == x[n + 1..] + y;
    if n > 0 { assert (x + y)[..n - 1] == x[..n - 1]; }
  }

  // ----- Header fields

  datatype Status = Status(major: int, minor: int, code: int)

  /** A header line; the value is missing when nothing but blanks follows the colon, or there is no colon. */
  datatype Field = Field(name: string, value: Option<string>)

  datatype Config = Config(
    parseStatus: seq<byte> -> Option<Status>, parseHeader: seq<byte> -> Field,
    key: string, sha1: string -> seq<byte>)

  const GUID := "258EAFA5-E914-47DA-95CA-C5AB0DC85B11"

  function AcceptKey(cfg: Config): (r: string) {
    Base64.Encode(cfg.sha1(cfg.key + GUID))
  }

  function Lower(c: char): (r: char) {
    if 'A' <= c <= 'Z' then c + 32 as char else c
  }

  /** Equal but for the case of letters. */
  predicate Same(a: string, b: string) {
    |a| == |b| && (a == "" || (Lower(a[0]) == Lower(b[0]) && Same(a[1..], b[1..])))
  }

  datatype Phase = SentReq | ParsedStatus | ParsedHeaders | Complete

  /** The progress of the handshake and the required headers seen so far. */
  datatype Handshake = Handshake(phase: Phase, upgrade: bool, connection: bool, accept: bool)

  const REQUESTED := Handshake(SentReq, false, false, false)

  datatype Verdict = Unrelated | Matched | Refused

  function ValidateHttpHeader(seen: bool, name: string, val: string, expectedName: string, expectedVal: string): (r: Verdict) {
    if !Same(expectedName, name) then Unrelated
    else if seen || !Same(expectedVal, val) then Refused
    else Matched
  }

  const UPGRADE := "Upgrade"
  const CONNECTION := "Connection"
  const ACCEPT := "Sec-WebSocket-Accept"
  const EXTENSIONS := "Sec-WebSocket-Extensions"
  const PROTOCOL := "Sec-WebSocket-Protocol"

  function ValidateHttpHeaders(cfg: Config, hs: Handshake, name: string, val: string): (r: Option<Handshake>) {
    var u := ValidateHttpHeader(hs.upgrade, name, val, UPGRADE, "websocket");
    var c := ValidateHttpHeader(hs.connection, name, val, CONNECTION, "upgrade");
    var a := ValidateHttpHeader(hs.accept, name, val, ACCEPT, AcceptKey(cfg));
    if u == Refused || c == Refused || AcceptKey(cfg) == "" || a == Refused then None
    else if Same(name, EXTENSIONS) || Same(PROTOCOL, name) then None
    else Some(hs.(upgrade := hs.upgrade || u == Matched, connection := hs.connection || c == Matched,
                  accept := hs.accept || a == Matched))
  }

  // ----- Reading the reply

  predicate Blank(line: seq<byte>) {
    line == [] || line[0] == 0
  }

  /** `val` is the value last read, which a line without a value leaves in place. */
  datatype HeadersRead = HeadersRead(state: ParseState, hs: Handshake, val: string, left: seq<byte>)

  function ReadHttpHeaders(cfg: Config, hs: Handshake, val: string, input: seq<byte>): (r: HeadersRead)
    ensures r.hs.phase == hs.phase && |r.left| <= |input| && (r.state == Error ==> |r.left| < |input|)
    decreases |input|
  {
    match ReadLine(input)
    case NoLine => HeadersRead(NeedMore, hs, val, input)
    case Line(text, rest) =>
      if Blank(text) then HeadersRead(Success, hs, val, rest)
      else
        var f := cfg.parseHeader(text);
        var v := if f.value.Some? then f.value.value else val;
        match ValidateHttpHeaders(cfg, hs, f.name, v)
        case None => HeadersRead(Error, hs, v, rest)
        case Some(hs') => ReadHttpHeaders(cfg, hs', v, rest)
  }

  datatype Reply = Reply(state: ParseState, hs: Handshake, left: seq<byte>)

  /** The check for the required headers. */
  function FinishReply(hs: Handshake, left: seq<byte>): (r: Reply) {
    if hs.upgrade && hs.connection && hs.accept then Reply(Success, hs.(phase := Complete), left)
    else Reply(Error, hs, left)
  }

  function ReadHeaderLines(cfg: Config, hs: Handshake, input: seq<byte>): (r: Reply) {
    var r := ReadHttpHeaders(cfg, hs, "", input);
    if r.state != Success then Reply(r.state, r.hs, r.left)
    else FinishReply(r.hs.(phase := ParsedHeaders), r.left)
  }

  function ReadServerHandshakeReply(cfg: Config, hs: Handshake, input: seq<byte>): (r: Reply) {
    match hs.phase
    case SentReq =>
      (match ReadLine(input)
       case NoLine => Reply(NeedMore, REQUESTED, input)
       case Line(text, rest) =>
         if cfg.parseStatus(text) != Some(Status(1, 1, 101)) then Reply(Error, REQUESTED, rest)
         else ReadHeaderLines(cfg, REQUESTED.(phase := ParsedStatus), rest))
    case ParsedStatus => ReadHeaderLines(cfg, hs, input)
    case ParsedHeaders => FinishReply(hs, input)
    case Complete => Reply(Error, hs, input)
  }
}
