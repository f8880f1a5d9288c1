/**
  The reply of the opening handshake split over reads. Each read starts with no
  header value, and a line without a value takes the one read before it in the
  same read; that is the only way in which the split can matter.
*/
module HandshakeChunks {
  import opened Bytes
  import opened FrameHeader
  import opened SessionState
  import opened OpeningHandshake
  import opened HandshakeExact

  // ----- When the carried value matters

  /** A required header that would pass with the value `v` from another line, and cannot pass without. */
  predicate Borrows(cfg: Config, hs: Handshake, name: string, v: string) {
    && AcceptKey(cfg) != ""
    && ( || (Same(UPGRADE, name) && !hs.upgrade && Same("websocket", v))
         || (Same(CONNECTION, name) && !hs.connection && Same("upgrade", v))
         || (Same(ACCEPT, name) && !hs.accept && Same(AcceptKey(cfg), v)))
  }

  lemma BorrowsExact(cfg: Config, hs: Handshake, name: string, v: string)
    ensures var (a, b) := (ValidateHttpHeaders(cfg, hs, name, v), ValidateHttpHeaders(cfg, hs, name, ""));
            if Borrows(cfg, hs, name, v) then a.Some? && b.None? else a == b
  {
  }

  /** The value carried over decides: the next required header without a value of its own borrows it. */
  predicate CarryMatters(cfg: Config, hs: Handshake, v: string, input: seq<byte>)
    decreases |input|
  {
    match ReadLine(input)
    case NoLine => false
    case Line(text, rest) =>
      var f := cfg.parseHeader(text);
      !Blank(text) && f.value.None? &&
      (Borrows(cfg, hs, f.name, v) ||
       var r := ValidateHttpHeaders(cfg, hs, f.name, v); r.Some? && CarryMatters(cfg, r.value, v, rest))
  }

  predicate SameRead(a: HeadersRead, b: HeadersRead) {
    a.state == b.state && a.hs == b.hs && a.left == b.left
  }

  lemma {:induction false} CarryExact(cfg: Config, hs: Handshake, v: string, input: seq<byte>)
    ensures SameRead(ReadHttpHeaders(cfg, hs, v, input), ReadHttpHeaders(cfg, hs, "", input)) <==>
              !CarryMatters(cfg, hs, v, input)
    ensures CarryMatters(cfg, hs, v, input) ==> ReadHttpHeaders(cfg, hs, "", input).state == Error
    decreases |input|
  {
    var line := ReadLine(input);
    if line.Line? && !Blank(line.text) {
      var f := cfg.parseHeader(line.text);
      if f.value.None? {
        BorrowsExact(cfg, hs, f.name, v);
        var r := ValidateHttpHeaders(cfg, hs, f.name, v);
        if r.Some? { CarryExact(cfg, r.value, v, line.rest); }
      }
    }
  }

  // ----- Two reads

  lemma {:induction false} HeadersSplit(cfg: Config, hs: Handshake, val: string, x: seq<byte>, y: seq<byte>)
    ensures var r := ReadHttpHeaders(cfg, hs, val, x);
            ReadHttpHeaders(cfg, hs, val, x + y) ==
              if r.state == NeedMore then ReadHttpHeaders(cfg, r.hs, r.val, r.left + y) else r.(left := r.left + y)
    decreases |x|
  {
    var line := ReadLine(x);
    if line.Line? {
      LineExtends(x, y);
      if !Blank(line.text) {
        var f := cfg.parseHeader(line.text);
        var v := if f.value.Some? then f.value.value else val;
        var r := ValidateHttpHeaders(cfg, hs, f.name, v);
        if r.Some? { HeadersSplit(cfg, r.value, v, line.rest, y); }
      }
    }
  }

  /** One more read of the reply; bytes after its end are kept for the frame reader. */
  function FeedReply(cfg: Config, r: Reply, chunk: seq<byte>): (r': Reply) {
    match r.state
    case NeedMore => ReadServerHandshakeReply(cfg, r.hs, r.left + chunk)
    case Success => r.(left := r.left + chunk)
    case Error => r
  }

  /** The header value in effect where a read of `x` stops. */
  function CarriedOver(cfg: Config, hs: Handshake, x: seq<byte>): (r: string) {
    match hs.phase
    case SentReq =>
      var line := ReadLine(x);
      if line.NoLine? then "" else ReadHttpHeaders(cfg, REQUESTED.(phase := ParsedStatus), "", line.rest).val
    case ParsedStatus => ReadHttpHeaders(cfg, hs, "", x).val
    case _ => ""
  }

  /** A header in `y` would have borrowed its value from `x`. */
  predicate CutBorrows(cfg: Config, hs: Handshake, x: seq<byte>, y: seq<byte>) {
    var r := ReadServerHandshakeReply(cfg, hs, x);
    r.hs.phase == ParsedStatus && CarryMatters(cfg, r.hs, CarriedOver(cfg, hs, x), r.left + y)
  }

  /** What a read of `x` and a read of `y` come to, compared with one read of both. */
  predicate SplitOutcome(cfg: Config, hs: Handshake, x: seq<byte>, y: seq<byte>) {
    var (r, whole) := (ReadServerHandshakeReply(cfg, hs, x), ReadServerHandshakeReply(cfg, hs, x + y));
    if r.state == NeedMore
    then && (FeedReply(cfg, r, y) == whole <==> !CutBorrows(cfg, hs, x, y))
         && (CutBorrows(cfg, hs, x, y) ==> FeedReply(cfg, r, y).state == Error)
    else whole == r.(left := r.left + y)
  }

  lemma LinesSplit(cfg: Config, hs: Handshake, x: seq<byte>, y: seq<byte>)
    requires hs.phase == ParsedStatus
    ensures SplitOutcome(cfg, hs, x, y)
  {
    var r := ReadHttpHeaders(cfg, hs, "", x);
    HeadersSplit(cfg, hs, "", x, y);
    if r.state == NeedMore { CarryExact(cfg, r.hs, r.val, r.left + y); }
  }

  /** The status line: what follows it is read as header lines. */
  lemma StatusSplit(cfg: Config, hs: Handshake, x: seq<byte>, y: seq<byte>, text: seq<byte>, rest: seq<byte>)
    requires hs.phase == SentReq && ReadLine(x) == Line(text, rest) && cfg.parseStatus(text) == Some(Status(1, 1, 101))
    ensures var hs1 := REQUESTED.(phase := ParsedStatus);
            && ReadServerHandshakeReply(cfg, hs, x) == ReadServerHandshakeReply(cfg, hs1, rest)
            && ReadServerHandshakeReply(cfg, hs, x + y) == ReadServerHandshakeReply(cfg, hs1, rest + y)
            && CarriedOver(cfg, hs, x) == CarriedOver(cfg, hs1, rest)
  {
    LineExtends(x, y);
  }

  /**
    A reply read in two parts is read as in one part if and only if no required
    header after the cut lacks a value and would match the value carried over the
    cut; then the second read fails.
  */
  lemma SplitExact(cfg: Config, hs: Handshake, x: seq<byte>, y: seq<byte>)
    requires hs.phase == SentReq || hs.phase == ParsedStatus
    ensures SplitOutcome(cfg, hs, x, y)
  {
    if hs.phase == ParsedStatus {
      LinesSplit(cfg, hs, x, y);
    } else {
      var line := ReadLine(x);
      if line.Line? {
        LineExtends(x, y);
        if cfg.parseStatus(line.text) == Some(Status(1, 1, 101)) {
          StatusSplit(cfg, hs, x, y, line.text, line.rest);
          LinesSplit(cfg, REQUESTED.(phase := ParsedStatus), line.rest, y);
        }
      }
    }
  }

  // ----- Any number of reads

  function FeedsReply(cfg: Config, chunks: seq<seq<byte>>): (r: Reply) {
    if chunks == [] then Reply(NeedMore, REQUESTED, [])
    else FeedReply(cfg, FeedsReply(cfg, chunks[..|chunks| - 1]), chunks[|chunks| - 1])
  }

  lemma FirstRead(cfg: Config)
    ensures ReadServerHandshakeReply(cfg, REQUESTED, []) == Reply(NeedMore, REQUESTED, [])
  {
  }

  /**
    However a reply is split over reads, if none of them fails the outcome is that of
    one read of everything. So the handshake completes only for the replies that
    complete it in one read.
  */
  lemma {:induction false} NoErrorIsOne(cfg: Config, chunks: seq<seq<byte>>)
    requires FeedsReply(cfg, chunks).state != Error
    ensures FeedsReply(cfg, chunks) == ReadServerHandshakeReply(cfg, REQUESTED, Concat(chunks))
    ensures FeedsReply(cfg, chunks).state == Success <==> GoodReply(cfg, Concat(chunks))
  {
    if chunks == [] {
      FirstRead(cfg);
    } else {
      var front, last := chunks[..|chunks| - 1], chunks[|chunks| - 1];
      NoErrorIsOne(cfg, front);
      SplitExact(cfg, REQUESTED, Concat(front), last);
    }
    ReplyExact(cfg, REQUESTED, Concat(chunks));
  }

  // ----- Replies whose required headers carry their values

  predicate Required(f: Field) {
    Named(f, UPGRADE) || Named(f, CONNECTION) || Named(f, ACCEPT)
  }

  predicate OwnValues(cfg: Config, input: seq<byte>)
    decreases |input|
  {
    match ReadLine(input)
    case NoLine => true
    case Line(text, rest) =>
      Blank(text) || (var f := cfg.parseHeader(text); (Required(f) ==> f.value.Some?) && OwnValues(cfg, rest))
  }

  lemma {:induction false} OwnNeverBorrows(cfg: Config, hs: Handshake, v: string, input: seq<byte>)
    requires OwnValues(cfg, input)
    ensures !CarryMatters(cfg, hs, v, input)
    decreases |input|
  {
    var line := ReadLine(input);
    if line.Line? && !Blank(line.text) {
      var r := ValidateHttpHeaders(cfg, hs, cfg.parseHeader(line.text).name, v);
      if r.Some? { OwnNeverBorrows(cfg, r.value, v, line.rest); }
    }
  }

  lemma {:induction false} OwnParts(cfg: Config, hs: Handshake, v: string, x: seq<byte>, y: seq<byte>)
    requires OwnValues(cfg, x + y)
    ensures OwnValues(cfg, x)
    ensures var r := ReadHttpHeaders(cfg, hs, v, x); r.state == NeedMore ==> OwnValues(cfg, r.left + y)
    decreases |x|
  {
    var line := ReadLine(x);
    if line.Line? {
      LineExtends(x, y);
      if !Blank(line.text) {
        var f := cfg.parseHeader(line.text);
        var v' := if f.value.Some? then f.value.value else v;
        var r := ValidateHttpHeaders(cfg, hs, f.name, v');
        OwnParts(cfg, if r.Some? then r.value else hs, v', line.rest, y);
      }
    }
  }

  /** The same for a whole reply: its header lines after the status line. */
  predicate OwnReply(cfg: Config, input: seq<byte>) {
    var line := ReadLine(input);
    line.Line? ==> OwnValues(cfg, line.rest)
  }

  lemma OwnLinesSplit(cfg: Config, hs: Handshake, x: seq<byte>, y: seq<byte>)
    requires hs.phase == ParsedStatus && OwnValues(cfg, x + y)
    ensures ReadServerHandshakeReply(cfg, hs, x).state == NeedMore ==> !CutBorrows(cfg, hs, x, y)
  {
    OwnParts(cfg, hs, "", x, y);
    var r := ReadHttpHeaders(cfg, hs, "", x);
    if r.state == NeedMore { OwnNeverBorrows(cfg, r.hs, r.val, r.left + y); }
  }

  lemma OwnSplit(cfg: Config, x: seq<byte>, y: seq<byte>)
    requires OwnReply(cfg, x + y)
    ensures OwnReply(cfg, x)
    ensures ReadServerHandshakeReply(cfg, REQUESTED, x).state == NeedMore ==> !CutBorrows(cfg, REQUESTED, x, y)
  {
    var line := ReadLine(x);
    if line.Line? {
      LineExtends(x, y);
      var hs := REQUESTED.(phase := ParsedStatus);
      OwnParts(cfg, hs, "", line.rest, y);
      OwnLinesSplit(cfg, hs, line.rest, y);
      if cfg.parseStatus(line.text) == Some(Status(1, 1, 101)) {
        StatusSplit(cfg, REQUESTED, x, y, line.text, line.rest);
      }
    }
  }

  /**
    When every required header carries its value, the outcome does not depend on how
    the reply is split over reads.
  */
  lemma {:induction false} SplitIndependent(cfg: Config, chunks: seq<seq<byte>>)
    requires OwnReply(cfg, Concat(chunks))
    ensures var (r, whole) := (FeedsReply(cfg, chunks), ReadServerHandshakeReply(cfg, REQUESTED, Concat(chunks)));
            r.state == whole.state && (r.state != Error ==> r == whole)
  {
    if chunks == [] {
      FirstRead(cfg);
    } else {
      var front, last := chunks[..|chunks| - 1], chunks[|chunks| - 1];
      OwnSplit(cfg, Concat(front), last);
      SplitIndependent(cfg, front);
      SplitExact(cfg, REQUESTED, Concat(front), last);
    }
  }

  /** The input is one header line. */
  predicate OneLine(cfg: Config, input: seq<byte>, f: Field) {
    var line := ReadLine(input);
    line.Line? && line.rest == [] && !Blank(line.text) && cfg.parseHeader(line.text) == f
  }

  lemma NothingLeft(cfg: Config, hs: Handshake, v: string)
    ensures ReadHttpHeaders(cfg, hs, v, []) == HeadersRead(NeedMore, hs, v, [])
  {
  }

  lemma OneLineRead(cfg: Config, hs: Handshake, v: string, input: seq<byte>, f: Field, v': string)
    requires OneLine(cfg, input, f) && v' == if f.value.Some? then f.value.value else v
    ensures ReadHttpHeaders(cfg, hs, v, input) ==
              match ValidateHttpHeaders(cfg, hs, f.name, v')
              case None => HeadersRead(Error, hs, v', [])
              case Some(hs') => HeadersRead(NeedMore, hs', v', [])
  {
    var r := ValidateHttpHeaders(cfg, hs, f.name, v');
    if r.Some? { NothingLeft(cfg, r.value, v'); }
  }

  lemma UpgradeBorrows(cfg: Config, hs: Handshake, v: string)
    requires !hs.upgrade && AcceptKey(cfg) != "" && Same("websocket", v)
    ensures Borrows(cfg, hs, UPGRADE, v)
  {
    assert Same("Upgrade", "Upgrade");
  }

  /** Two lines, the second without a value. */
  lemma TwoLines(cfg: Config, hs: Handshake, a: seq<byte>, b: seq<byte>, f: Field, v: string, g: Field)
    requires OneLine(cfg, a, f) && f.value == Some(v) && ValidateHttpHeaders(cfg, hs, f.name, v) == Some(hs)
    requires OneLine(cfg, b, g) && g.value == None
    ensures ReadHttpHeaders(cfg, hs, "", a) == HeadersRead(NeedMore, hs, v, [])
    ensures ReadHttpHeaders(cfg, hs, "", a + b) == ReadHttpHeaders(cfg, hs, v, b)
  {
    OneLineRead(cfg, hs, "", a, f, v);
    HeadersSplit(cfg, hs, "", a, b);
    assert [] + b == b;
  }

  /**
    It does otherwise: any line that passes with the value "websocket", then an
    Upgrade line without a value. Read together they pass; read apart the second one
    fails.
  */
  lemma BorrowedUpgrade(cfg: Config, hs: Handshake, a: seq<byte>, b: seq<byte>, f: Field, v: string, g: Field)
    requires hs.phase == ParsedStatus && !hs.upgrade && AcceptKey(cfg) != "" && Same("websocket", v)
    requires OneLine(cfg, a, f) && f.value == Some(v) && ValidateHttpHeaders(cfg, hs, f.name, v) == Some(hs)
    requires OneLine(cfg, b, g) && g == Field(UPGRADE, None)
    ensures ReadServerHandshakeReply(cfg, hs, a + b).state == NeedMore
    ensures FeedReply(cfg, ReadServerHandshakeReply(cfg, hs, a), b).state == Error
  {
    UpgradeBorrows(cfg, hs, v);
    BorrowsExact(cfg, hs, UPGRADE, v);
    TwoLines(cfg, hs, a, b, f, v, g);
    OneLineRead(cfg, hs, v, b, g, v);
    OneLineRead(cfg, hs, "", b, g, "");
    assert [] + b == b;
  }
}
