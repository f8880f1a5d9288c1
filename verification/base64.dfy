/** Base64 encoding and decoding (section 4 of RFC 4648). */
module Base64 {
  import opened Bytes

  const UPPER: string := "ABCDEFGHIJKLMNOPQRSTUVWXYZ"
  const LOWER: string := "abcdefghijklmnopqrstuvwxyz"
  const OTHER: string := "0123456789+/"
  const ALPHABET: string := UPPER + LOWER + OTHER

  type Sextet = x: int | 0 <= x < 64

  /** The characters in arithmetic form. */
  function CharOf(x: Sextet): (r: char) {
    (if x < 26 then 65 + x else if x < 52 then 71 + x
     else if x < 62 then x - 4 else if x == 62 then 43 else 47) as char
  }

  /** That form is the table. */
  lemma AlphabetTable(x: Sextet)
    ensures ALPHABET[x] == CharOf(x)
  {
    if x < 26 { UpperAt(x); } else if x < 52 { LowerAt(x - 26); } else { OtherAt(x - 52); }
  }

  lemma UpperAt(x: int)
    requires 0 <= x < 26
    ensures UPPER[x] as int == 65 + x
  {
  }

  lemma LowerAt(x: int)
    requires 0 <= x < 26
    ensures LOWER[x] as int == 97 + x
  {
  }

  lemma OtherAt(x: int)
    requires 0 <= x < 12
    ensures OTHER[x] as int == if x < 10 then 48 + x else if x == 10 then 43 else 47
  {
  }

  /** The position `find` reports, cut to a byte: 255 when the character is not in the table. */
  function Find(c: char): (r: byte)
    ensures r < 64 || r == 255
  {
    var x := c as int;
    if 65 <= x <= 90 then x - 65 else if 97 <= x <= 122 then x - 71
    else if 48 <= x <= 57 then x + 4 else if x == 43 then 62 else if x == 47 then 63 else 255
  }

  /** Positions and characters are inverse, and 255 means absent. */
  lemma FindExact(c: char)
    ensures Find(c) < 64 ==> ALPHABET[Find(c)] == CharOf(Find(c)) == c
    ensures Find(c) == 255 <==> c !in ALPHABET
  {
    FindHits(c, Find(c));
    if c in ALPHABET { FindsAll(c); }
  }

  lemma FindHits(c: char, x: byte)
    requires x == Find(c)
    ensures x < 64 ==> ALPHABET[x] == CharOf(x) == c
  {
    if x < 64 { AlphabetTable(x); }
  }

  lemma FindsAll(c: char)
    requires c in ALPHABET
    ensures Find(c) < 64
  {
    var x :| 0 <= x < |ALPHABET| && ALPHABET[x] == c;
    AlphabetTable(x);
    FindChar(x);
  }

  lemma FindChar(x: Sextet)
    ensures Find(CharOf(x)) == x && CharOf(x) != '='
  {
  }

  // ----- Encoding

  function EncodeGroup(a: byte, b: byte, c: byte): (r: string)
    ensures |r| == 4
  {
    [CharOf(a / 4), CharOf(a % 4 * 16 + b / 16), CharOf(b % 16 * 4 + c / 64), CharOf(c % 64)]
  }

  /** The last one or two bytes, padded. */
  function EncodeTail(s: seq<byte>): (r: string)
    requires |s| < 3
    ensures |r| == if s == [] then 0 else 4
  {
    if |s| == 2 then EncodeGroup(s[0], s[1], 0)[..3] + "="
    else if |s| == 1 then EncodeGroup(s[0], 0, 0)[..2] + "=="
    else ""
  }

  /** How many groups `n` bytes make, the last one perhaps padded. */
  function Groups(n: nat): (r: nat) {
    if n >= 3 then 1 + Groups(n - 3) else if n == 0 then 0 else 1
  }

  function Encode(s: seq<byte>): (r: string)
    ensures |r| == 4 * Groups(|s|)
  {
    if |s| >= 3 then EncodeGroup(s[0], s[1], s[2]) + Encode(s[3..]) else EncodeTail(s)
  }

  lemma EncodeStep(s: seq<byte>, i: nat, res: string)
    requires i + 3 <= |s|
    ensures res + Encode(s[i..]) == res + EncodeGroup(s[i], s[i + 1], s[i + 2]) + Encode(s[i + 3..])
  {
    assert s[i..][3..] == s[i + 3..];
  }

  method EncodeBase64(s: seq<byte>) returns (res: string)
    ensures res == Encode(s)
  {
    res := "";
    var i := 0;
    while i + 3 <= |s|
      invariant 0 <= i <= |s|
      invariant res + Encode(s[i..]) == Encode(s)
    {
      EncodeStep(s, i, res);
      res := res + EncodeGroup(s[i], s[i + 1], s[i + 2]);
      i := i + 3;
    }
    res := res + EncodeTail(s[i..]);
  }

  /** The output length is four characters for every three bytes begun. */
  lemma {:induction false} EncodedLength(n: nat)
    ensures Groups(n) == (n + 2) / 3
  {
    if n >= 3 { EncodedLength(n - 3); }
  }

  /** A group of four characters is the number that its three bytes are, in base 64. */
  lemma GroupValue(a: byte, b: byte, c: byte)
    ensures var g := EncodeGroup(a, b, c);
            && 262144 * Find(g[0]) + 4096 * Find(g[1]) + 64 * Find(g[2]) + Find(g[3]) == 65536 * a + 256 * b + c
            && forall i | 0 <= i < 4 :: g[i] in ALPHABET
  {
    var g := EncodeGroup(a, b, c);
    FindChar(a / 4);
    FindChar(a % 4 * 16 + b / 16);
    FindChar(b % 16 * 4 + c / 64);
    FindChar(c % 64);
    forall i | 0 <= i < 4
      ensures g[i] in ALPHABET
    {
      FindExact(g[i]);
    }
  }

  /** Test vectors of section 10 of RFC 4648, and one for the last two characters of the alphabet. */
  lemma TestVectors(s: seq<byte>)
    ensures s == [] ==> Encode(s) == ""
    ensures s == [0xFB, 0xEF, 0xFF] ==> Encode(s) == "++//"
    ensures s == [0x66] ==> Encode(s) == "Zg=="
    ensures s == [0x66, 0x6F] ==> Encode(s) == "Zm8="
    ensures s == [0x66, 0x6F, 0x6F] ==> Encode(s) == "Zm9v"
    ensures s == [0x66, 0x6F, 0x6F, 0x62, 0x61, 0x72] ==> Encode(s) == "Zm9vYmFy"
  {
    if s == [0x66, 0x6F, 0x6F, 0x62, 0x61, 0x72] { assert s[3..] == [0x62, 0x61, 0x72]; }
  }

  // ----- Decoding

  /** Reading one past the end gives the terminator. */
  function At(t: string, i: nat): (r: char)
    requires i <= |t|
  {
    if i < |t| then t[i] else 0 as char
  }

  function Pad(s: string): (r: nat)
    requires |s| >= 2
    ensures r <= 2
  {
    (if s[|s| - 1] == '=' then 1 else 0) + (if s[|s| - 2] == '=' then 1 else 0)
  }

  /** With `n` characters unread, does every index formed stay within the string or its terminator? */
  predicate Enough(n: nat, pad: nat) {
    if n >= 4 + pad then Enough(n - 4, pad) else n >= pad && (pad == 1 ==> n >= 2)
  }

  /** The strings the decoder can read without leaving them. */
  predicate Readable(s: string) {
    |s| >= 2 && Enough(|s|, Pad(s))
  }

  lemma {:induction false} EnoughExact(n: nat, pad: nat)
    requires pad <= 2
    ensures Enough(n, pad) <==> n >= pad && (pad == 1 ==> n % 4 != 1)
  {
    if n >= 4 + pad { EnoughExact(n - 4, pad); }
  }

  function First(a: byte, b: byte): (r: byte) {
    Or(a * 4 % 256, b / 16)
  }

  function Second(b: byte, c: byte): (r: byte) {
    Or(b * 16 % 256, c / 4)
  }

  function Third(c: byte, d: byte): (r: byte) {
    Or(c * 64 % 256, d)
  }

  function DecodeGroup(t: string): (r: seq<byte>)
    requires |t| >= 4
    ensures |r| == 3
  {
    var (a, b, c, d) := (Find(t[0]), Find(t[1]), Find(t[2]), Find(t[3]));
    [First(a, b), Second(b, c), Third(c, d)]
  }

  /** What is decoded from the unread rest `t` of a string with `pad` padding characters. */
  function DecodeRest(t: string, pad: nat): (r: seq<byte>)
    requires pad <= 2 && Enough(|t|, pad)
  {
    if |t| >= 4 + pad then DecodeGroup(t) + DecodeRest(t[4..], pad) else DecodeTail(t, pad)
  }

  /** The bytes of the last, padded group. */
  function DecodeTail(t: string, pad: nat): (r: seq<byte>)
    requires pad <= 2 && |t| >= pad && (pad == 1 ==> |t| >= 2)
  {
    if pad == 1 then
      var (a, b, c) := (Find(At(t, 0)), Find(At(t, 1)), Find(At(t, 2)));
      [First(a, b), Second(b, c)]
    else if pad == 2 then [First(Find(At(t, 0)), Find(At(t, 1)))]
    else []
  }

  function Decode(s: string): (r: seq<byte>)
    requires Readable(s)
  {
    DecodeRest(s, Pad(s))
  }

  lemma DecodeStep(s: string, i: nat, pad: nat, res: seq<byte>)
    requires i + 4 + pad <= |s| && pad <= 2 && Enough(|s| - i, pad)
    ensures res + DecodeRest(s[i..], pad) == res + DecodeGroup(s[i..]) + DecodeRest(s[i + 4..], pad)
  {
    assert s[i..][4..] == s[i + 4..];
  }

  method DecodeBase64(s: string) returns (res: seq<byte>)
    requires Readable(s)
    ensures res == Decode(s)
  {
    var pad := Pad(s);
    ghost var goal := Decode(s);
    res := [];
    var i := 0;
    while i + 4 + pad <= |s|
      invariant 0 <= i <= |s| - pad && Enough(|s| - i, pad)
      invariant res + DecodeRest(s[i..], pad) == goal
    {
      DecodeStep(s, i, pad, res);
      res := res + DecodeGroup(s[i..]);
      i := i + 4;
    }
    res := res + DecodeTail(s[i..], pad);
  }

  // ----- Inversion

  lemma FirstOf(a: Sextet, b: Sextet)
    ensures First(a, b) == 4 * a + b / 16
  {
    assert a * 4 % 256 == 4 * a;
    Or4(a, b / 16);
  }

  lemma SecondOf(b: Sextet, c: Sextet)
    ensures Second(b, c) == 16 * (b % 16) + c / 4
  {
    assert b * 16 % 256 == 16 * (b % 16);
    Or16(b % 16, c / 4);
  }

  lemma ThirdOf(c: Sextet, d: Sextet)
    ensures Third(c, d) == 64 * (c % 4) + d
  {
    assert c * 64 % 256 == 64 * (c % 4);
    Or64(c % 4, d);
  }

  /** Splitting three bytes into sextets and joining them again. */
  lemma JoinSplit(a: byte, b: byte, c: byte)
    ensures First(a / 4, a % 4 * 16 + b / 16) == a
    ensures Second(a % 4 * 16 + b / 16, b % 16 * 4 + c / 64) == b
    ensures Third(b % 16 * 4 + c / 64, c % 64) == c
  {
    var x, y := a % 4 * 16 + b / 16, b % 16 * 4 + c / 64;
    FirstOf(a / 4, x);
    SecondOf(x, y);
    ThirdOf(y, c % 64);
    assert x / 16 == a % 4 && x % 16 == b / 16;
    assert y / 4 == b % 16 && y % 4 == c / 64;
  }

  /** Joining four sextets into bytes and splitting them again. */
  lemma SplitJoin(w: Sextet, x: Sextet, y: Sextet, z: Sextet)
    ensures var (a, b, c) := (First(w, x), Second(x, y), Third(y, z));
            && a / 4 == w && a % 4 * 16 + b / 16 == x
            && b % 16 * 4 + c / 64 == y && c % 64 == z
            && a % 4 * 16 == x - x % 16 && b % 16 * 4 == y - y % 4
  {
    FirstOf(w, x);
    SecondOf(x, y);
    ThirdOf(y, z);
  }

  lemma GroupInverse(a: byte, b: byte, c: byte, t: string)
    requires |t| >= 4 && t[..4] == EncodeGroup(a, b, c)
    ensures DecodeGroup(t) == [a, b, c]
  {
    var e := EncodeGroup(a, b, c);
    assert t[0] == e[0] && t[1] == e[1] && t[2] == e[2] && t[3] == e[3];
    FindChar(a / 4);
    FindChar(a % 4 * 16 + b / 16);
    FindChar(b % 16 * 4 + c / 64);
    FindChar(c % 64);
    JoinSplit(a, b, c);
  }

  lemma TailInverse1(a: byte, t: string)
    requires |t| == 4 && t[0] == CharOf(a / 4) && t[1] == CharOf(a % 4 * 16)
    ensures DecodeTail(t, 2) == [a]
  {
    FindChar(a / 4);
    FindChar(a % 4 * 16);
    JoinSplit(a, 0, 0);
  }

  lemma TailInverse2(a: byte, b: byte, t: string)
    requires |t| == 4 && t[0] == CharOf(a / 4) && t[1] == CharOf(a % 4 * 16 + b / 16) && t[2] == CharOf(b % 16 * 4)
    ensures DecodeTail(t, 1) == [a, b]
  {
    FindChar(a / 4);
    FindChar(a % 4 * 16 + b / 16);
    FindChar(b % 16 * 4);
    JoinSplit(a, b, 0);
  }

  lemma TailInverse(s: seq<byte>)
    requires 1 <= |s| <= 2
    ensures DecodeTail(EncodeTail(s), 3 - |s|) == s
  {
    if |s| == 1 {
      TailInverse1(s[0], EncodeTail(s));
    } else {
      TailInverse2(s[0], s[1], EncodeTail(s));
    }
  }

  /** The number of padding characters an encoding of `n` bytes ends in. */
  function PadOf(n: nat): (r: nat)
    ensures r <= 2 && Enough(4 * Groups(n), r)
  {
    if n >= 3 then PadOf(n - 3) else if n == 0 then 0 else 3 - n
  }

  lemma {:induction false} RestInverse(s: seq<byte>)
    ensures DecodeRest(Encode(s), PadOf(|s|)) == s
  {
    if |s| >= 3 {
      var t := Encode(s);
      assert t[..4] == EncodeGroup(s[0], s[1], s[2]) && t[4..] == Encode(s[3..]);
      GroupInverse(s[0], s[1], s[2], t);
      RestInverse(s[3..]);
    } else if |s| > 0 {
      TailInverse(s);
    }
  }

  lemma NotPadding(x: Sextet)
    ensures CharOf(x) != '='
  {
  }

  lemma {:induction false} EncodedPad(s: seq<byte>)
    requires s != []
    ensures Pad(Encode(s)) == PadOf(|s|)
  {
    var t := Encode(s);
    if |s| > 3 {
      EncodedPad(s[3..]);
      var u := Encode(s[3..]);
      assert t[|t| - 1] == u[|u| - 1] && t[|t| - 2] == u[|u| - 2];
    } else if |s| == 3 {
      assert t == EncodeGroup(s[0], s[1], s[2]) + [];
      NotPadding(s[1] % 16 * 4 + s[2] / 64);
      NotPadding(s[2] % 64);
    } else if |s| == 2 {
      NotPadding(s[1] % 16 * 4);
    }
  }

  /** Decoding undoes encoding, for every non-empty byte string. */
  lemma DecodeInvertsEncode(s: seq<byte>)
    requires s != []
    ensures Readable(Encode(s)) && Decode(Encode(s)) == s
  {
    EncodedPad(s);
    RestInverse(s);
  }

  predicate Plain(c: char) {
    Find(c) < 64
  }

  /** A last group: full, or padded with its unused bits zero. */
  predicate LastGroup(t: string)
    requires |t| == 4
  {
    && Plain(t[0]) && Plain(t[1])
    && (|| (Plain(t[2]) && Plain(t[3]))
        || (Plain(t[2]) && Find(t[2]) % 4 == 0 && t[3] == '=')
        || (Find(t[1]) % 16 == 0 && t[2] == '=' && t[3] == '='))
  }

  /** Whole groups of alphabet characters, the last one perhaps padded (section 3.5 of RFC 4648). */
  predicate Canonical(s: string) {
    if |s| > 4 then Plain(s[0]) && Plain(s[1]) && Plain(s[2]) && Plain(s[3]) && Canonical(s[4..])
    else |s| == 4 && LastGroup(s)
  }

  lemma CharFound(c: char)
    requires Plain(c)
    ensures CharOf(Find(c)) == c
  {
  }

  lemma JoinedGroup(w: Sextet, x: Sextet, y: Sextet, z: Sextet)
    ensures EncodeGroup(First(w, x), Second(x, y), Third(y, z)) == [CharOf(w), CharOf(x), CharOf(y), CharOf(z)]
  {
    SplitJoin(w, x, y, z);
  }

  lemma JoinedTail1(w: Sextet, x: Sextet)
    requires x % 16 == 0
    ensures EncodeTail([First(w, x)]) == [CharOf(w), CharOf(x), '=', '=']
  {
    SplitJoin(w, x, 0, 0);
  }

  lemma JoinedTail2(w: Sextet, x: Sextet, y: Sextet)
    requires y % 4 == 0
    ensures EncodeTail([First(w, x), Second(x, y)]) == [CharOf(w), CharOf(x), CharOf(y), '=']
  {
    SplitJoin(w, x, y, 0);
  }

  lemma GroupRestored(t: string)
    requires |t| >= 4 && Plain(t[0]) && Plain(t[1]) && Plain(t[2]) && Plain(t[3])
    ensures var g := DecodeGroup(t); EncodeGroup(g[0], g[1], g[2]) == t[..4]
  {
    CharFound(t[0]);
    CharFound(t[1]);
    CharFound(t[2]);
    CharFound(t[3]);
    JoinedGroup(Find(t[0]), Find(t[1]), Find(t[2]), Find(t[3]));
  }

  lemma TailRestored(t: string)
    requires |t| == 4 && LastGroup(t) && !Plain(t[3])
    ensures EncodeTail(DecodeTail(t, Pad(t))) == t
  {
    CharFound(t[0]);
    CharFound(t[1]);
    if t[2] == '=' {
      JoinedTail1(Find(t[0]), Find(t[1]));
      assert DecodeTail(t, 2) == [First(Find(t[0]), Find(t[1]))];
    } else {
      CharFound(t[2]);
      JoinedTail2(Find(t[0]), Find(t[1]), Find(t[2]));
      assert DecodeTail(t, 1) == [First(Find(t[0]), Find(t[1])), Second(Find(t[1]), Find(t[2]))];
    }
  }

  lemma {:induction false} CanonicalRestored(t: string)
    requires Canonical(t)
    ensures Enough(|t|, Pad(t)) && Encode(DecodeRest(t, Pad(t))) == t
  {
    if |t| > 4 {
      var pad := Pad(t);
      assert Pad(t[4..]) == pad;
      CanonicalRestored(t[4..]);
      GroupRestored(t);
      FrontRestored(t, DecodeGroup(t), DecodeRest(t[4..], pad));
      assert DecodeRest(t, pad) == DecodeGroup(t) + DecodeRest(t[4..], pad);
    } else {
      LastRestored(t);
    }
  }

  lemma EncodeFront(g: seq<byte>, rest: seq<byte>)
    requires |g| == 3
    ensures Encode(g + rest) == EncodeGroup(g[0], g[1], g[2]) + Encode(rest)
  {
    assert (g + rest)[3..] == rest;
  }

  lemma FrontRestored(t: string, g: seq<byte>, rest: seq<byte>)
    requires |t| >= 4 && |g| == 3 && EncodeGroup(g[0], g[1], g[2]) == t[..4] && Encode(rest) == t[4..]
    ensures Encode(g + rest) == t
  {
    EncodeFront(g, rest);
    assert t == t[..4] + t[4..];
  }

  lemma LastRestored(t: string)
    requires |t| == 4 && LastGroup(t)
    ensures Enough(|t|, Pad(t)) && Encode(DecodeRest(t, Pad(t))) == t
  {
    if Plain(t[3]) {
      GroupRestored(t);
      EncodeFront(DecodeGroup(t), []);
      assert t[4..] == "" && t[..4] == t;
    } else {
      TailRestored(t);
    }
  }

  lemma GroupPlain(a: byte, b: byte, c: byte)
    ensures var e := EncodeGroup(a, b, c); Plain(e[0]) && Plain(e[1]) && Plain(e[2]) && Plain(e[3])
  {
    FindChar(a / 4);
    FindChar(a % 4 * 16 + b / 16);
    FindChar(b % 16 * 4 + c / 64);
    FindChar(c % 64);
  }

  lemma TailCanonical(s: seq<byte>)
    requires 1 <= |s| <= 2
    ensures LastGroup(EncodeTail(s))
  {
    GroupPlain(s[0], if |s| == 2 then s[1] else 0, 0);
    FindChar(s[0] % 4 * 16);
    if |s| == 2 { FindChar(s[1] % 16 * 4); }
  }

  lemma {:induction false} EncodeCanonical(s: seq<byte>)
    requires s != []
    ensures Canonical(Encode(s))
  {
    if |s| < 3 {
      TailCanonical(s);
    } else {
      var t := Encode(s);
      GroupPlain(s[0], s[1], s[2]);
      assert t[4..] == Encode(s[3..]);
      if |s| > 3 { EncodeCanonical(s[3..]); }
    }
  }

  /** Encoding undoes decoding exactly on the canonical strings. */
  lemma EncodeInvertsDecodeExact(s: string)
    requires Readable(s)
    ensures Encode(Decode(s)) == s <==> Canonical(s)
  {
    if Canonical(s) {
      CanonicalRestored(s);
    }
    if Encode(Decode(s)) == s {
      EncodeCanonical(Decode(s));
    }
  }
}
