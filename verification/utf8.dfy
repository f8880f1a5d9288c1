/**
  The table-driven UTF-8 validator and decoder, against the grammar of section 4
  and the encoding of section 3 of RFC 3629.
*/
module Utf8 {
  import opened Bytes

  type Utf8State = x: int | 0 <= x < 9

  const ACCEPT: Utf8State := 0
  const REJECT: Utf8State := 1

  // ----- The tables

  type ByteClass = x: int | 0 <= x < 12

  function Rep(v: ByteClass, n: nat): (r: seq<ByteClass>)
    ensures |r| == n
  {
    seq(n, _ => v)
  }

  /** The first 256 entries of the table, run by run. */
  function ByteClasses(): (r: seq<ByteClass>)
    ensures |r| == 256
  {
    Rep(0, 128) + Rep(1, 16) + Rep(9, 16) + Rep(7, 32)
      + [8, 8] + Rep(2, 30)
      + [10] + Rep(3, 12) + [4] + Rep(3, 2)
      + [11] + Rep(6, 3) + [5] + Rep(8, 11)
  }

  /** The other entries, one row of 16 per state: `table[256 + 16 * state + class]`. */
  const TRANSITIONS: seq<seq<Utf8State>> := [
    [0, 1, 2, 3, 5, 8, 7, 1, 1, 1, 4, 6, 1, 1, 1, 1],
    [1, 1, 1, 1, 1, 1, 1, 1, 1, 1, 1, 1, 1, 1, 1, 1],
    [1, 0, 1, 1, 1, 1, 1, 0, 1, 0, 1, 1, 1, 1, 1, 1],
    [1, 2, 1, 1, 1, 1, 1, 2, 1, 2, 1, 1, 1, 1, 1, 1],
    [1, 1, 1, 1, 1, 1, 1, 2, 1, 1, 1, 1, 1, 1, 1, 1],
    [1, 2, 1, 1, 1, 1, 1, 1, 1, 2, 1, 1, 1, 1, 1, 1],
    [1, 1, 1, 1, 1, 1, 1, 3, 1, 3, 1, 1, 1, 1, 1, 1],
    [1, 3, 1, 1, 1, 1, 1, 3, 1, 3, 1, 1, 1, 1, 1, 1],
    [1, 3, 1, 1, 1, 1, 1, 1, 1, 1, 1, 1, 1, 1, 1, 1]
  ]

  function ClassOf(b: byte): (r: ByteClass)
    ensures r == if b < 0x80 then 0 else if b < 0x90 then 1 else if b < 0xA0 then 9
                 else if b < 0xC0 then 7 else if b < 0xC2 then 8 else if b < 0xE0 then 2
                 else if b == 0xE0 then 10 else if b == 0xED then 4 else if b < 0xF0 then 3
                 else if b == 0xF0 then 11 else if b < 0xF4 then 6 else if b == 0xF4 then 5 else 8
  {
    ByteClasses()[b]
  }

  function Next(st: Utf8State, b: byte): (r: Utf8State) {
    TRANSITIONS[st][ClassOf(b)]
  }

  function Run(st: Utf8State, s: seq<byte>): (r: Utf8State)
    decreases s
  {
    if s == [] then st else Run(Next(st, s[0]), s[1..])
  }

  // ----- Section 4 of RFC 3629

  predicate Tail(b: byte) {
    0x80 <= b <= 0xBF
  }

  /** One character: UTF8-1, UTF8-2, UTF8-3 or UTF8-4. */
  predicate IsChar(c: seq<byte>) {
    || (|c| == 1 && c[0] <= 0x7F)
    || (|c| == 2 && 0xC2 <= c[0] <= 0xDF && Tail(c[1]))
    || (|c| == 3 && Tail(c[2])
        && (|| (c[0] == 0xE0 && 0xA0 <= c[1] <= 0xBF)
            || (0xE1 <= c[0] <= 0xEC && Tail(c[1]))
            || (c[0] == 0xED && 0x80 <= c[1] <= 0x9F)
            || (0xEE <= c[0] <= 0xEF && Tail(c[1]))))
    || (|c| == 4 && Tail(c[2]) && Tail(c[3])
        && (|| (c[0] == 0xF0 && 0x90 <= c[1] <= 0xBF)
            || (0xF1 <= c[0] <= 0xF3 && Tail(c[1]))
            || (c[0] == 0xF4 && 0x80 <= c[1] <= 0x8F)))
  }

  /** A sequence of characters. */
  predicate WellFormed(s: seq<byte>) {
    || s == []
    || (|s| >= 1 && IsChar(s[..1]) && WellFormed(s[1..]))
    || (|s| >= 2 && IsChar(s[..2]) && WellFormed(s[2..]))
    || (|s| >= 3 && IsChar(s[..3]) && WellFormed(s[3..]))
    || (|s| >= 4 && IsChar(s[..4]) && WellFormed(s[4..]))
  }

  // ----- What each state still expects

  datatype Expected = Expected(lo: byte, hi: byte, count: nat)

  /** Inside a character: the range of the next byte and how many bytes are missing. */
  function Missing(st: Utf8State): (r: Expected)
    ensures 1 <= r.count <= 3
  {
    match st
    case 2 => Expected(0x80, 0xBF, 1)
    case 3 => Expected(0x80, 0xBF, 2)
    case 4 => Expected(0xA0, 0xBF, 2)
    case 5 => Expected(0x80, 0x9F, 2)
    case 6 => Expected(0x90, 0xBF, 3)
    case 7 => Expected(0x80, 0xBF, 3)
    case _ => Expected(0x80, 0x8F, 3)
  }

  /** The continuations that complete a well-formed string from state `st`. */
  predicate Completes(st: Utf8State, s: seq<byte>) {
    if st == ACCEPT then WellFormed(s)
    else if st == REJECT then false
    else
      var m := Missing(st);
      && |s| >= m.count
      && m.lo <= s[0] <= m.hi
      && (m.count >= 2 ==> Tail(s[1]))
      && (m.count >= 3 ==> Tail(s[2]))
      && WellFormed(s[m.count..])
  }

  /** The table's entries for the states inside a character. */
  lemma NextInside(st: Utf8State, b: byte)
    requires st >= 2
    ensures var m := Missing(st);
            Next(st, b) == if !(m.lo <= b <= m.hi) then REJECT
                           else if m.count == 1 then ACCEPT else m.count
  {
  }

  /** One table step, from inside a character. */
  lemma StepInside(st: Utf8State, s: seq<byte>)
    requires st >= 2 && s != []
    ensures Completes(st, s) <==> Completes(Next(st, s[0]), s[1..])
  {
    var m := Missing(st);
    NextInside(st, s[0]);
    if |s| >= m.count {
      assert s[1..][m.count - 1..] == s[m.count..];
    }
  }

  /** How long a character with this first byte is, if there is one. */
  function Length(b: byte): (r: nat) {
    if b <= 0x7F then 1
    else if 0xC2 <= b <= 0xDF then 2
    else if 0xE0 <= b <= 0xEF then 3
    else if 0xF0 <= b <= 0xF4 then 4
    else 0
  }

  lemma CharLength(c: seq<byte>)
    requires IsChar(c)
    ensures |c| == Length(c[0])
  {
  }

  lemma WellFormedByLead(s: seq<byte>)
    requires s != []
    ensures var n := Length(s[0]); WellFormed(s) <==> 1 <= n <= |s| && IsChar(s[..n]) && WellFormed(s[n..])
  {
    forall k | 1 <= k <= |s| && IsChar(s[..k])
      ensures k == Length(s[0])
    {
      CharLength(s[..k]);
    }
  }

  /** The table's entries for the first byte of a character. */
  lemma NextLead(s: seq<byte>)
    requires s != []
    ensures var (n, st) := (Length(s[0]), Next(ACCEPT, s[0]));
            && (n == 0 <==> st == REJECT) && (n == 1 <==> st == ACCEPT)
            && (n >= 2 ==> Missing(st).count == n - 1)
            && (2 <= n <= |s| ==> (IsChar(s[..n]) <==>
                  Missing(st).lo <= s[1] <= Missing(st).hi && (n >= 3 ==> Tail(s[2])) && (n >= 4 ==> Tail(s[3]))))
  {
  }

  /** One table step, from between characters. */
  lemma StepBetween(s: seq<byte>)
    requires s != []
    ensures WellFormed(s) <==> Completes(Next(ACCEPT, s[0]), s[1..])
  {
    var n := Length(s[0]);
    WellFormedByLead(s);
    NextLead(s);
    if 2 <= n <= |s| { assert s[1..][n - 1..] == s[n..]; }
  }

  /** From every state, the table accepts exactly the completions. */
  lemma {:induction false} RunAccepts(st: Utf8State, s: seq<byte>)
    ensures Run(st, s) == ACCEPT <==> Completes(st, s)
    decreases s
  {
    if s != [] {
      RunAccepts(Next(st, s[0]), s[1..]);
      if st == ACCEPT { StepBetween(s); }
      if st >= 2 { StepInside(st, s); }
    }
  }

  lemma {:induction false} RejectAbsorbs(s: seq<byte>)
    ensures Run(REJECT, s) == REJECT
  {
    if s != [] { RejectAbsorbs(s[1..]); }
  }

  /** Validating a concatenation is validating the parts in turn. */
  lemma {:induction false} RunConcat(st: Utf8State, a: seq<byte>, b: seq<byte>)
    ensures Run(st, a + b) == Run(Run(st, a), b)
    decreases a
  {
    if a == [] {
      assert a + b == b;
    } else {
      assert (a + b)[1..] == a[1..] + b;
      RunConcat(Next(st, a[0]), a[1..], b);
    }
  }

  /** Some bytes that finish the character a state is in. */
  function Completion(st: Utf8State): (r: seq<byte>) {
    if st == ACCEPT then []
    else
      var m := Missing(st);
      [m.lo] + (if m.count >= 2 then [0x80] else []) + (if m.count >= 3 then [0x80] else [])
  }

  lemma CompletionCompletes(st: Utf8State)
    requires st != REJECT
    ensures Completes(st, Completion(st))
  {
    if st != ACCEPT {
      assert Completion(st)[Missing(st).count..] == [];
    }
  }

  /** Acceptance is well-formedness. */
  lemma AcceptExact(s: seq<byte>)
    ensures Run(ACCEPT, s) == ACCEPT <==> WellFormed(s)
  {
    RunAccepts(ACCEPT, s);
  }

  /** Rejection means that nothing appended to the bytes makes them well-formed. */
  lemma RejectExact(s: seq<byte>)
    ensures Run(ACCEPT, s) == REJECT <==> forall t :: !WellFormed(s + t)
  {
    var st := Run(ACCEPT, s);
    if st == REJECT {
      forall t
        ensures !WellFormed(s + t)
      {
        RunConcat(ACCEPT, s, t);
        RejectAbsorbs(t);
        AcceptExact(s + t);
      }
    } else {
      var t := Completion(st);
      CompletionCompletes(st);
      RunAccepts(st, t);
      RunConcat(ACCEPT, s, t);
      AcceptExact(s + t);
    }
  }

  /** Validates `s` from state `st`, stopping at the first rejected byte. */
  method ValidateUtf8(st: Utf8State, s: seq<byte>) returns (r: Utf8State)
    ensures r == Run(st, s)
  {
    r := st;
    for i := 0 to |s|
      invariant Run(r, s[i..]) == Run(st, s)
    {
      r := Next(r, s[i]);
      assert s[i..][1..] == s[i + 1..];
      if r == REJECT {
        RejectAbsorbs(s[i + 1..]);
        break;
      }
    }
  }

  // ----- Code points

  const WORD := 0x1_0000_0000

  datatype Decoder = Decoder(state: Utf8State, codep: nat)

  /** The decoder's step on one byte, in 32-bit arithmetic. */
  function Step(d: Decoder, b: byte): (r: Decoder) {
    Decoder(Next(d.state, b),
            if d.state != ACCEPT then d.codep * 64 % WORD + b % 64
            else if ClassOf(b) <= 8 then b % Pow2(8 - ClassOf(b)) else 0)
  }

  /** Advances the decoder held in the caller's two variables. */
  method DecodeUtf8(state: Utf8State, codep: nat, b: byte) returns (state': Utf8State, codep': nat)
    ensures Decoder(state', codep') == Step(Decoder(state, codep), b)
  {
    var kind := ClassOf(b);
    if state != ACCEPT {
      codep' := codep * 64 % WORD + b % 64;
    } else {
      codep' := if kind <= 8 then b % Pow2(8 - kind) else 0;
    }
    state' := TRANSITIONS[state][kind];
  }

  function Steps(d: Decoder, s: seq<byte>): (r: Decoder)
    decreases s
  {
    if s == [] then d else Steps(Step(d, s[0]), s[1..])
  }

  /** The code points read off at each arrival in ACCEPT. */
  function Decoded(d: Decoder, s: seq<byte>): (r: seq<nat>)
    decreases s
  {
    if s == [] then []
    else
      var d' := Step(d, s[0]);
      (if d'.state == ACCEPT then [d'.codep] else []) + Decoded(d', s[1..])
  }

  type Scalar = x: int | 0 <= x < 0xD800 || 0xE000 <= x <= 0x10FFFF

  /** Section 3 of RFC 3629. */
  function Encode(v: Scalar): (r: seq<byte>)
    ensures 1 <= |r| <= 4
  {
    if v < 0x80 then [v]
    else if v < 0x800 then [0xC0 + v / 64, 0x80 + v % 64]
    else if v < 0x1_0000 then [0xE0 + v / 64 / 64, 0x80 + v / 64 % 64, 0x80 + v % 64]
    else [0xF0 + v / 64 / 64 / 64, 0x80 + v / 64 / 64 % 64, 0x80 + v / 64 % 64, 0x80 + v % 64]
  }

  function EncodeAll(vs: seq<Scalar>): (r: seq<byte>) {
    if vs == [] then [] else Encode(vs[0]) + EncodeAll(vs[1..])
  }

  /** What a lead byte contributes to the code point, and the state it leads to. */
  lemma LeadStep(codep: nat, b: byte)
    requires b < 0x80 || 0xC2 <= b <= 0xF4
    ensures Step(Decoder(ACCEPT, codep), b)
         == if b < 0x80 then Decoder(0, b)
            else if b < 0xE0 then Decoder(2, b - 0xC0)
            else if b < 0xF0 then Decoder(if b == 0xE0 then 4 else if b == 0xED then 5 else 3, b - 0xE0)
            else Decoder(if b == 0xF0 then 6 else if b == 0xF4 then 8 else 7, b - 0xF0)
  {
    Pow2Of8();
    assert Pow2(5) == 32 && Pow2(3) == 8 && Pow2(1) == 2;
  }

  lemma TailStep(d: Decoder, b: byte)
    requires d.state >= 2 && Missing(d.state).lo <= b <= Missing(d.state).hi && d.codep < 0x400_0000
    ensures Step(d, b) == Decoder(if Missing(d.state).count == 1 then ACCEPT else Missing(d.state).count,
                                  d.codep * 64 + (b - 0x80))
  {
    NextInside(d.state, b);
  }

  /** The states and code points while one character is read. */
  lemma EncodingTrace(codep: nat, v: Scalar)
    ensures var e := Encode(v);
            var d1 := Step(Decoder(ACCEPT, codep), e[0]);
            && (|e| == 1 ==> d1 == Decoder(ACCEPT, v))
            && (|e| == 2 ==> d1.state >= 2 && Step(d1, e[1]) == Decoder(ACCEPT, v))
            && (|e| == 3 ==>
                  var d2 := Step(d1, e[1]);
                  d1.state >= 2 && d2.state >= 2 && Step(d2, e[2]) == Decoder(ACCEPT, v))
            && (|e| == 4 ==>
                  var d2 := Step(d1, e[1]);
                  var d3 := Step(d2, e[2]);
                  d1.state >= 2 && d2.state >= 2 && d3.state >= 2 && Step(d3, e[3]) == Decoder(ACCEPT, v))
  {
    var e := Encode(v);
    LeadStep(codep, e[0]);
    var d1 := Step(Decoder(ACCEPT, codep), e[0]);
    if |e| >= 2 {
      TailStep(d1, e[1]);
      var d2 := Step(d1, e[1]);
      if |e| >= 3 {
        TailStep(d2, e[2]);
        if |e| >= 4 { TailStep(Step(d2, e[2]), e[3]); }
      }
    }
  }

  /**
    Reading one encoded scalar value: strictly inside it the decoder is neither
    accepting nor rejecting, and at its end it accepts with that value.
  */
  lemma EncodingRun(codep: nat, v: Scalar, k: nat)
    requires k <= |Encode(v)|
    ensures k == |Encode(v)| ==> Steps(Decoder(ACCEPT, codep), Encode(v)) == Decoder(ACCEPT, v)
    ensures 0 < k < |Encode(v)| ==> Steps(Decoder(ACCEPT, codep), Encode(v)[..k]).state >= 2
  {
    EncodingTrace(codep, v);
    StepsUnfold(Decoder(ACCEPT, codep), Encode(v)[..k]);
    assert Encode(v)[..|Encode(v)|] == Encode(v);
  }

  lemma StepsUnfold(d: Decoder, s: seq<byte>)
    ensures |s| == 1 ==> Steps(d, s) == Step(d, s[0])
    ensures |s| == 2 ==> Steps(d, s) == Step(Step(d, s[0]), s[1])
    ensures |s| == 3 ==> Steps(d, s) == Step(Step(Step(d, s[0]), s[1]), s[2])
    ensures |s| == 4 ==> Steps(d, s) == Step(Step(Step(Step(d, s[0]), s[1]), s[2]), s[3])
    decreases s
  {
    if 2 <= |s| <= 4 {
      StepsUnfold(Step(d, s[0]), s[1..]);
    }
  }

  lemma {:induction false} StepsConcat(d: Decoder, a: seq<byte>, b: seq<byte>)
    ensures Steps(d, a + b) == Steps(Steps(d, a), b)
    decreases a
  {
    if a == [] {
      assert a + b == b;
    } else {
      assert (a + b)[1..] == a[1..] + b;
      StepsConcat(Step(d, a[0]), a[1..], b);
    }
  }

  lemma {:induction false} DecodedConcat(d: Decoder, a: seq<byte>, b: seq<byte>)
    ensures Decoded(d, a + b) == Decoded(d, a) + Decoded(Steps(d, a), b)
    decreases a
  {
    if a == [] {
      assert a + b == b;
    } else {
      assert (a + b)[1..] == a[1..] + b;
      DecodedConcat(Step(d, a[0]), a[1..], b);
    }
  }

  lemma DecodedUnfold(d: Decoder, s: seq<byte>)
    requires s != []
    requires forall k | 0 < k < |s| :: Steps(d, s[..k]).state != ACCEPT
    requires Steps(d, s).state == ACCEPT
    ensures Decoded(d, s) == [Steps(d, s).codep]
    decreases s
  {
    if |s| > 1 {
      var d' := Step(d, s[0]);
      assert Steps(d, s[..1]) == d' by { assert s[..1][1..] == []; }
      forall k | 0 < k < |s[1..]|
        ensures Steps(d', s[1..][..k]).state != ACCEPT
      {
        assert s[..k + 1][1..] == s[1..][..k];
        assert Steps(d, s[..k + 1]).state != ACCEPT;
      }
      DecodedUnfold(d', s[1..]);
    }
  }

  /** Decoding the encodings of any scalar values gives those values back. */
  lemma {:induction false} DecodeInvertsEncode(codep: nat, vs: seq<Scalar>)
    ensures Decoded(Decoder(ACCEPT, codep), EncodeAll(vs)) == vs
    ensures Steps(Decoder(ACCEPT, codep), EncodeAll(vs)).state == ACCEPT
    decreases vs
  {
    if vs != [] {
      var d, e := Decoder(ACCEPT, codep), Encode(vs[0]);
      EncodingRun(codep, vs[0], |e|);
      forall k | 0 < k < |e|
        ensures Steps(d, e[..k]).state != ACCEPT
      {
        EncodingRun(codep, vs[0], k);
      }
      DecodedUnfold(d, e);
      StepsConcat(d, e, EncodeAll(vs[1..]));
      DecodedConcat(d, e, EncodeAll(vs[1..]));
      DecodeInvertsEncode(vs[0], vs[1..]);
    }
  }

  /** The value a character of the grammar stands for. */
  function Value(c: seq<byte>): (r: Scalar)
    requires IsChar(c)
  {
    if |c| == 1 then c[0]
    else if |c| == 2 then Push(c[0] - 0xC0, c[1])
    else if |c| == 3 then Push(Push(c[0] - 0xE0, c[1]), c[2])
    else Push(Push(Push(c[0] - 0xF0, c[1]), c[2]), c[3])
  }

  /** A code point so far, extended by the six bits of a tail byte. */
  function Push(v: nat, b: byte): (r: nat)
    requires Tail(b)
    ensures r / 64 == v && r % 64 == b - 0x80
  {
    v * 64 + (b - 0x80)
  }

  lemma EncodeValue(c: seq<byte>)
    requires IsChar(c)
    ensures Encode(Value(c)) == c
  {
  }

  lemma EncodeIsChar(v: Scalar)
    ensures IsChar(Encode(v)) && Value(Encode(v)) == v
  {
  }

  lemma WellFormedHead(s: seq<byte>) returns (c: seq<byte>)
    requires WellFormed(s) && s != []
    ensures IsChar(c) && c <= s && WellFormed(s[|c|..])
  {
    if |s| >= 1 && IsChar(s[..1]) && WellFormed(s[1..]) {
      c := s[..1];
    } else if |s| >= 2 && IsChar(s[..2]) && WellFormed(s[2..]) {
      c := s[..2];
    } else if |s| >= 3 && IsChar(s[..3]) && WellFormed(s[3..]) {
      c := s[..3];
    } else {
      c := s[..4];
    }
  }

  lemma {:induction false} IsEncoding(s: seq<byte>) returns (vs: seq<Scalar>)
    requires WellFormed(s)
    ensures EncodeAll(vs) == s
    decreases |s|
  {
    if s == [] {
      vs := [];
    } else {
      var c := WellFormedHead(s);
      var rest := IsEncoding(s[|c|..]);
      EncodeValue(c);
      vs := [Value(c)] + rest;
      assert s == c + s[|c|..] && vs[1..] == rest;
    }
  }

  /** Every well-formed string is the encoding of the scalar values the decoder reads in it. */
  lemma EncodeInvertsDecode(s: seq<byte>) returns (vs: seq<Scalar>)
    requires WellFormed(s)
    ensures EncodeAll(vs) == s
    ensures forall codep: nat :: Decoded(Decoder(ACCEPT, codep), s) == vs
  {
    vs := IsEncoding(s);
    forall codep: nat
      ensures Decoded(Decoder(ACCEPT, codep), s) == vs
    {
      DecodeInvertsEncode(codep, vs);
    }
  }

  lemma {:induction false} EncodedWellFormed(vs: seq<Scalar>)
    ensures WellFormed(EncodeAll(vs))
    decreases vs
  {
    if vs != [] {
      var e, rest := Encode(vs[0]), EncodeAll(vs[1..]);
      EncodeIsChar(vs[0]);
      EncodedWellFormed(vs[1..]);
      assert (e + rest)[..|e|] == e && (e + rest)[|e|..] == rest;
    }
  }

  /** So validation accepts exactly the encodings of scalar values. */
  lemma EncodingsExact(s: seq<byte>)
    ensures Run(ACCEPT, s) == ACCEPT <==> exists vs: seq<Scalar> :: EncodeAll(vs) == s
  {
    AcceptExact(s);
    if WellFormed(s) {
      var vs := EncodeInvertsDecode(s);
    } else if vs: seq<Scalar> :| EncodeAll(vs) == s {
      EncodedWellFormed(vs);
    }
  }
}
