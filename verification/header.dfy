/**
  The WebSocket frame header (section 5.2 of RFC 6455): the packer of the
  sending side, the incremental unpacker of the receiving side, and the round
  trip between them.
*/
module FrameHeader {
  import opened Bytes
  import opened Masking

  const HDR_MIN_SIZE := 2
  const HDR_MAX_SIZE := 14
  const MAX_PAYLOAD_LEN := 0x7FFF_FFFF_FFFF_FFFF

  type nibble = x: int | 0 <= x < 16

  /**
    The width of the header structure's payload length. The structure declares
    seven bits; the extended-length branches are written for 64.
  */
  datatype LenField = Bits7 | Bits64

  function Limit(w: LenField): (r: nat) {
    match w
    case Bits7 => 128
    case Bits64 => 0x1_0000_0000_0000_0000
  }

  /** What remains of a length assigned to the structure's field. */
  function Store(w: LenField, n: nat): (r: nat)
    ensures r < Limit(w)
    ensures r == n <==> n < Limit(w)
  {
    n % Limit(w)
  }

  datatype Header = Header(
    fin: bool, rsv1: bool, rsv2: bool, rsv3: bool, opcode: nibble,
    maskBit: bool, payloadLen: nat, mask: Key)

  const NO_MASK: Key := [0, 0, 0, 0]
  const ZERO_HEADER := Header(false, false, false, false, 0, false, 0, NO_MASK)

  function Bit(b: bool): (r: int) {
    if b then 1 else 0
  }

  // ----- The wire format

  /** The three length forms of section 5.2: inline, 16 bits, 64 bits. */
  datatype LenForm = Inline | Ext16 | Ext64

  function ExtSize(f: LenForm): (r: nat) {
    match f
    case Inline => 0
    case Ext16 => 2
    case Ext64 => 8
  }

  /** Can the form express the length? Inline values 126 and 127 announce the other forms. */
  predicate Expresses(f: LenForm, n: nat) {
    match f
    case Inline => n <= 125
    case Ext16 => n < Pow256(2)
    case Ext64 => n <= MAX_PAYLOAD_LEN
  }

  function FormOf(n: nat): (r: LenForm) {
    if n <= 125 then Inline else if n <= 0xFFFF then Ext16 else Ext64
  }

  function LenCode(n: nat): (r: nat)
    ensures r < 128
  {
    match FormOf(n)
    case Inline => n
    case Ext16 => 126
    case Ext64 => 127
  }

  function FirstByte(h: Header): (r: byte) {
    Bit(h.fin) * 128 + Bit(h.rsv1) * 64 + Bit(h.rsv2) * 32 + Bit(h.rsv3) * 16 + h.opcode
  }

  function SecondByte(h: Header): (r: byte) {
    Bit(h.maskBit) * 128 + LenCode(h.payloadLen)
  }

  /** The bytes of a header on the wire. */
  function HeaderBytes(h: Header): (r: seq<byte>)
    ensures |r| == HeaderSize(h)
  {
    [FirstByte(h), SecondByte(h)] + BigEndian(ExtSize(FormOf(h.payloadLen)), h.payloadLen)
      + (if h.maskBit then h.mask else [])
  }

  function HeaderSize(h: Header): (r: nat)
    ensures HDR_MIN_SIZE <= r <= HDR_MAX_SIZE
  {
    2 + ExtSize(FormOf(h.payloadLen)) + (if h.maskBit then 4 else 0)
  }

  /** The packer always picks the shortest form that can express the length. */
  lemma ShortestForm(n: nat)
    requires n <= MAX_PAYLOAD_LEN
    ensures Expresses(FormOf(n), n)
    ensures forall f | Expresses(f, n) :: ExtSize(FormOf(n)) <= ExtSize(f)
  {
    Pow256Values();
  }

  // ----- Packing

  /** Stores an `n`-byte integer the way a little-endian host does. */
  method StoreHost(b: array<byte>, at: nat, n: nat, x: nat)
    requires at + n <= b.Length
    modifies b
    ensures b[at..at + n] == LittleEndian(n, x)
    ensures b[..at] == old(b[..at]) && b[at + n..] == old(b[at + n..])
    decreases n
  {
    if n > 0 {
      b[at] := x % 256;
      StoreHost(b, at + 1, n - 1, x / 256);
      assert b[at] == b[..at + 1][at];
      assert b[at..at + n] == [b[at]] + b[at + 1..at + n];
      assert b[..at] == b[..at + 1][..at];
    }
  }

  method PackHeaderFirstByte(h: Header, b: array<byte>)
    requires b.Length >= 1
    modifies b
    ensures b[0] == FirstByte(h) && b[1..] == old(b[1..])
  {
    b[0] := 0;
    b[0] := b[0] + Bit(h.fin) * 128;
    b[0] := b[0] + Bit(h.rsv1) * 64;
    b[0] := b[0] + Bit(h.rsv2) * 32;
    b[0] := b[0] + Bit(h.rsv3) * 16;
    b[0] := b[0] + h.opcode;
  }

  /** Writes the second byte and the extended length. */
  method PackLength(h: Header, b: array<byte>) returns (headerLen: nat)
    requires b.Length >= HDR_MAX_SIZE && h.payloadLen <= MAX_PAYLOAD_LEN
    modifies b
    ensures headerLen == 2 + ExtSize(FormOf(h.payloadLen))
    ensures b[1] == SecondByte(h) && b[2..headerLen] == BigEndian(headerLen - 2, h.payloadLen)
    ensures b[0] == old(b[0]) && b[headerLen..] == old(b[headerLen..])
  {
    b[1] := Bit(h.maskBit) * 128;
    headerLen := 2;
    var n := h.payloadLen;
    if n <= 125 {
      b[1] := b[1] + n;
    } else if n <= 0xFFFF {
      b[1] := b[1] + 126;
      StoreField(b, 2, n);
      headerLen := headerLen + 2;
    } else {
      b[1] := b[1] + 127;
      StoreField(b, 8, n);
      headerLen := headerLen + 8;
    }
  }

  /** `*(T *)&b[2] = swap(x)` for an `n`-byte integer type. */
  method StoreField(b: array<byte>, n: nat, x: nat)
    requires n + 2 <= b.Length
    modifies b
    ensures b[2..2 + n] == BigEndian(n, x)
    ensures b[0] == old(b[0]) && b[1] == old(b[1]) && b[2 + n..] == old(b[2 + n..])
  {
    StoreSwapped(n, x);
    StoreHost(b, 2, n, SwapBytes(n, x));
    assert b[0] == b[..2][0] && b[1] == b[..2][1];
  }

  method PackHeaderRest(h: Header, b: array<byte>) returns (headerLen: nat)
    requires b.Length >= HDR_MAX_SIZE && h.payloadLen <= MAX_PAYLOAD_LEN
    modifies b
    ensures headerLen == HeaderSize(h)
    ensures b[1..headerLen] == HeaderBytes(h)[1..]
    ensures b[0] == old(b[0]) && b[headerLen..] == old(b[headerLen..])
  {
    headerLen := PackLength(h, b);
    ghost var front, tail := b[..headerLen], if h.maskBit then h.mask else [];
    assert front[1..] == [b[1]] + b[2..headerLen];
    if h.maskBit {
      StoreMask(b, headerLen, h.mask);
      headerLen := headerLen + 4;
    }
    assert b[..headerLen] == front + tail;
    HeaderRest(h, front, tail);
    assert b[1..headerLen] == (front + tail)[1..];
  }

  lemma HeaderRest(h: Header, front: seq<byte>, tail: seq<byte>)
    requires |front| == 2 + ExtSize(FormOf(h.payloadLen)) && tail == if h.maskBit then h.mask else []
    requires front[1..] == [SecondByte(h)] + BigEndian(ExtSize(FormOf(h.payloadLen)), h.payloadLen)
    ensures (front + tail)[1..] == HeaderBytes(h)[1..]
  {
    assert HeaderBytes(h) == [FirstByte(h)] + front[1..] + tail;
  }

  /** `*(uint32_t *)&b[at] = mask`. */
  method StoreMask(b: array<byte>, at: nat, mask: Key)
    requires at + 4 <= b.Length
    modifies b
    ensures b[at..at + 4] == mask && b[..at] == old(b[..at]) && b[at + 4..] == old(b[at + 4..])
    ensures b[..at + 4] == old(b[..at]) + mask
  {
    b[at], b[at + 1], b[at + 2], b[at + 3] := mask[0], mask[1], mask[2], mask[3];
  }

  /** Writes the header at the start of `b` and leaves the rest of `b` alone. */
  method PackHeader(h: Header, b: array<byte>) returns (headerLen: nat)
    requires b.Length >= HDR_MAX_SIZE && h.payloadLen <= MAX_PAYLOAD_LEN
    modifies b
    ensures headerLen == HeaderSize(h)
    ensures b[..headerLen] == HeaderBytes(h)
    ensures b[headerLen..] == old(b[headerLen..])
  {
    PackHeaderFirstByte(h, b);
    headerLen := PackHeaderRest(h, b);
    assert b[..headerLen] == [b[0]] + b[1..headerLen];
  }

  // ----- Unpacking

  datatype ParseState = Success | NeedMore | Error

  datatype Unpacked = Unpacked(state: ParseState, hdr: Header, headerLen: nat)

  function UnpackFixed(b: seq<byte>): (r: Header)
    requires |b| >= 2
  {
    Header(b[0] / 128 % 2 == 1, b[0] / 64 % 2 == 1, b[0] / 32 % 2 == 1, b[0] / 16 % 2 == 1,
           b[0] % 16, b[1] / 128 % 2 == 1, b[1] % 128, NO_MASK)
  }

  /**
    Unpacks the header at the start of the copy-out buffer `b`, of which only the
    first `len` bytes were received. The masking key is read without asking
    whether it has arrived.
  */
  function UnpackHeader(w: LenField, b: seq<byte>, len: nat): (r: Unpacked)
    requires |b| == HDR_MAX_SIZE && len <= HDR_MAX_SIZE
    ensures r.state != Error
    ensures r.state == Success ==> HDR_MIN_SIZE <= r.headerLen <= HDR_MAX_SIZE
  {
    if len < HDR_MIN_SIZE then Unpacked(NeedMore, ZERO_HEADER, 0)
    else
      var h := UnpackFixed(b);
      if h.payloadLen == 126 && len < 4 then Unpacked(NeedMore, h, 2)
      else if h.payloadLen == 127 && len < 10 then Unpacked(NeedMore, h, 2)
      else
        var ext := if h.payloadLen == 126 then 2 else if h.payloadLen == 127 then 8 else 0;
        var raw := FromLittleEndian(b[2..2 + ext]);
        var n := if ext == 0 then h.payloadLen else Store(w, SwapBytes(ext, raw));
        var mask := if h.maskBit then b[2 + ext..6 + ext] else NO_MASK;
        Unpacked(Success, h.(payloadLen := n, mask := mask), 2 + ext + (if h.maskBit then 4 else 0))
  }

  /** The copy-out buffer after `in` was copied into it; bytes never written keep what they held. */
  function CopyOut(input: seq<byte>, stale: nat -> byte): (r: seq<byte>)
    ensures |r| == HDR_MAX_SIZE
  {
    seq(HDR_MAX_SIZE, i requires 0 <= i => if i < |input| then input[i] else stale(i))
  }

  function Copied(input: seq<byte>): (r: nat)
    ensures r <= HDR_MAX_SIZE
  {
    if |input| < HDR_MAX_SIZE then |input| else HDR_MAX_SIZE
  }

  function Unpack(w: LenField, input: seq<byte>, stale: nat -> byte): (r: Unpacked)
    ensures r.state == Success ==> HDR_MIN_SIZE <= r.headerLen <= HDR_MAX_SIZE
  {
    UnpackHeader(w, CopyOut(input, stale), Copied(input))
  }

  /** A header whose unused masking key is zero, as the receiving side always has it. */
  predicate Plain(h: Header) {
    h.maskBit || h.mask == NO_MASK
  }

  lemma Quotient16(q: nat, r: nat)
    requires r < 16
    ensures (q * 16 + r) / 16 == q && (q * 16 + r) % 16 == r
  {
  }

  lemma Quotient32(q: nat, r: nat)
    requires r < 32
    ensures (q * 32 + r) / 32 == q && (q * 32 + r) % 32 == r
  {
  }

  lemma Quotient64(q: nat, r: nat)
    requires r < 64
    ensures (q * 64 + r) / 64 == q && (q * 64 + r) % 64 == r
  {
  }

  lemma Quotient128(q: nat, r: nat)
    requires r < 128
    ensures (q * 128 + r) / 128 == q && (q * 128 + r) % 128 == r
  {
  }

  lemma LastBit(q: nat, bit: nat)
    requires bit <= 1
    ensures (2 * q + bit) % 2 == bit
  {
  }

  lemma FirstByteBits(f: nat, r1: nat, r2: nat, r3: nat, op: nibble, x: byte)
    requires f <= 1 && r1 <= 1 && r2 <= 1 && r3 <= 1 && x == f * 128 + r1 * 64 + r2 * 32 + r3 * 16 + op
    ensures x / 128 % 2 == f && x / 64 % 2 == r1 && x / 32 % 2 == r2 && x / 16 % 2 == r3 && x % 16 == op
  {
    Quotient128(f, r1 * 64 + r2 * 32 + r3 * 16 + op);
    Quotient64(2 * f + r1, r2 * 32 + r3 * 16 + op);
    Quotient32(2 * (2 * f + r1) + r2, r3 * 16 + op);
    Quotient16(2 * (2 * (2 * f + r1) + r2) + r3, op);
    LastBit(2 * f, r1);
    LastBit(2 * f + r1, r2);
    LastBit(2 * (2 * f + r1) + r2, r3);
  }

  lemma FixedRoundTrip(h: Header, b: seq<byte>)
    requires |b| >= 2 && b[0] == FirstByte(h) && b[1] == SecondByte(h)
    ensures UnpackFixed(b) == h.(payloadLen := LenCode(h.payloadLen), mask := NO_MASK)
  {
    FirstByteBits(Bit(h.fin), Bit(h.rsv1), Bit(h.rsv2), Bit(h.rsv3), h.opcode, b[0]);
  }

  /** The bytes the unpacker looks at are the header's, whatever follows them. */
  lemma CopyOutPrefix(p: seq<byte>, rest: seq<byte>, stale: nat -> byte, lo: nat, hi: nat)
    requires lo <= hi <= |p| && hi <= HDR_MAX_SIZE
    ensures CopyOut(p + rest, stale)[lo..hi] == p[lo..hi]
  {
  }

  lemma ExtendedRoundTrip(h: Header, rest: seq<byte>, stale: nat -> byte)
    requires h.payloadLen <= MAX_PAYLOAD_LEN && h.payloadLen > 125
    ensures var ext := ExtSize(FormOf(h.payloadLen));
            var b := CopyOut(HeaderBytes(h) + rest, stale);
            SwapBytes(ext, FromLittleEndian(b[2..2 + ext])) == h.payloadLen
  {
    var p := HeaderBytes(h);
    var ext := ExtSize(FormOf(h.payloadLen));
    CopyOutPrefix(p, rest, stale, 2, 2 + ext);
    assert p[2..2 + ext] == BigEndian(ext, h.payloadLen);
    LoadSwapped(BigEndian(ext, h.payloadLen));
    Pow256Values();
    BigEndianRoundTrip(ext, h.payloadLen);
  }

  lemma MaskRoundTrip(h: Header, rest: seq<byte>, stale: nat -> byte)
    requires h.maskBit
    ensures var ext := ExtSize(FormOf(h.payloadLen));
            CopyOut(HeaderBytes(h) + rest, stale)[2 + ext..6 + ext] == h.mask
  {
    var ext := ExtSize(FormOf(h.payloadLen));
    CopyOutPrefix(HeaderBytes(h), rest, stale, 2 + ext, 6 + ext);
  }

  /**
    Round trip: unpacking the packed header, followed by anything, succeeds with
    the header's size and every field, the length cut to the structure's width.
  */
  lemma UnpackInverts(w: LenField, h: Header, rest: seq<byte>, stale: nat -> byte)
    requires h.payloadLen <= MAX_PAYLOAD_LEN && Plain(h)
    ensures Unpack(w, HeaderBytes(h) + rest, stale)
         == Unpacked(Success,
                     h.(payloadLen := if h.payloadLen <= 125 then h.payloadLen else Store(w, h.payloadLen)),
                     HeaderSize(h))
  {
    var b := CopyOut(HeaderBytes(h) + rest, stale);
    FixedRoundTrip(h, b);
    if h.maskBit { MaskRoundTrip(h, rest, stale); }
    if h.payloadLen > 125 { ExtendedRoundTrip(h, rest, stale); }
    UnpackFields(w, h, b, Copied(HeaderBytes(h) + rest));
  }

  /** The unpacker puts together what it finds. */
  lemma UnpackFields(w: LenField, h: Header, b: seq<byte>, len: nat)
    requires |b| == HDR_MAX_SIZE && HeaderSize(h) <= len <= HDR_MAX_SIZE && Plain(h)
    requires UnpackFixed(b) == h.(payloadLen := LenCode(h.payloadLen), mask := NO_MASK)
    requires var ext := ExtSize(FormOf(h.payloadLen));
             && (h.maskBit ==> b[2 + ext..6 + ext] == h.mask)
             && (h.payloadLen > 125 ==> SwapBytes(ext, FromLittleEndian(b[2..2 + ext])) == h.payloadLen)
    ensures UnpackHeader(w, b, len)
         == Unpacked(Success,
                     h.(payloadLen := if h.payloadLen <= 125 then h.payloadLen else Store(w, h.payloadLen)),
                     HeaderSize(h))
  {
  }

  /** The header survives the round trip exactly when its length fits the structure's field. */
  lemma RoundTripExact(w: LenField, h: Header, rest: seq<byte>, stale: nat -> byte)
    requires h.payloadLen <= MAX_PAYLOAD_LEN && Plain(h)
    ensures Unpack(w, HeaderBytes(h) + rest, stale) == Unpacked(Success, h, HeaderSize(h))
       <==> h.payloadLen < Limit(w)
  {
    UnpackInverts(w, h, rest, stale);
  }

  /**
    More input is asked for exactly while some byte before the masking key is
    missing: on every strict prefix of an unmasked header, and on a masked one
    only until the key begins.
  */
  lemma NeedMoreExact(w: LenField, h: Header, k: nat, stale: nat -> byte)
    requires h.payloadLen <= MAX_PAYLOAD_LEN && k <= HeaderSize(h)
    ensures Unpack(w, HeaderBytes(h)[..k], stale).state == NeedMore
       <==> k < HeaderSize(h) - (if h.maskBit then 4 else 0)
  {
    if k >= 2 {
      FixedRoundTrip(h, CopyOut(HeaderBytes(h)[..k], stale));
    }
  }

  /** The 64-bit swap used on both sides undoes itself. */
  lemma EncodeN2H64SelfInverse(x: nat)
    requires x < Limit(Bits64)
    ensures SwapBytes(8, SwapBytes(8, x)) == x && SwapBytes(8, x) < Limit(Bits64)
  {
    Pow256Values();
    SwapBytesSelfInverse(8, x);
  }

  /** Byte `i` of the swapped value in memory is the input shifted right by `56 - 8 * i` bits. */
  lemma EncodeN2H64At(x: nat, i: nat)
    requires i < 8
    ensures LittleEndian(8, SwapBytes(8, x))[i] == x / Pow256(7 - i) % 256
    ensures Pow256(7) == 0x100_0000_0000_0000 && Pow256(6) == 0x1_0000_0000_0000 && Pow256(5) == 0x100_0000_0000
    ensures Pow256(4) == 0x1_0000_0000 && Pow256(3) == 0x100_0000 && Pow256(2) == 0x1_0000
    ensures Pow256(1) == 0x100 && Pow256(0) == 1
  {
    StoreSwapped(8, x);
    BigEndianAt(8, x, i);
  }
}
