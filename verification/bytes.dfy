/**
  Bytes, the bitwise operations the sources use on them, and network-order
  integers. A byte is an integer in 0..255: shifts and masks by constants are
  division and remainder, exclusive or and inclusive or go bit by bit.
*/
module Bytes {
  type byte = x: int | 0 <= x < 256

  function Pow2(n: nat): (r: nat)
    ensures r >= 1
  {
    if n == 0 then 1 else 2 * Pow2(n - 1)
  }

  /** The exclusive or of the low `n` bits of `a` and `b`. */
  function XorBits(n: nat, a: nat, b: nat): (r: nat)
    ensures r < Pow2(n)
  {
    if n == 0 then 0 else (a + b) % 2 + 2 * XorBits(n - 1, a / 2, b / 2)
  }

  /** The inclusive or of the low `n` bits of `a` and `b`. */
  function OrBits(n: nat, a: nat, b: nat): (r: nat)
    ensures r < Pow2(n)
  {
    if n == 0 then 0
    else (if a % 2 == 0 && b % 2 == 0 then 0 else 1) + 2 * OrBits(n - 1, a / 2, b / 2)
  }

  function Xor(a: byte, b: byte): (r: byte) {
    assert Pow2(8) == 256 by { Pow2Of8(); }
    XorBits(8, a, b)
  }

  function Or(a: byte, b: byte): (r: byte) {
    assert Pow2(8) == 256 by { Pow2Of8(); }
    OrBits(8, a, b)
  }

  lemma Pow2Of8()
    ensures Pow2(8) == 256 && Pow2(6) == 64 && Pow2(4) == 16 && Pow2(2) == 4
  {
    assert Pow2(2) == 4;
    assert Pow2(4) == 16;
    assert Pow2(6) == 64;
  }

  lemma {:induction false} XorBitsInvolutive(n: nat, a: nat, b: nat)
    requires a < Pow2(n)
    ensures XorBits(n, XorBits(n, a, b), b) == a
  {
    if n > 0 {
      XorBitsInvolutive(n - 1, a / 2, b / 2);
      Halves(XorBits(n, a, b), XorBits(n - 1, a / 2, b / 2), a, b);
    }
  }

  lemma Halves(x: nat, y: nat, a: nat, b: nat)
    requires x == (a + b) % 2 + 2 * y
    ensures x / 2 == y && (x + b) % 2 == a % 2
  {
  }

  lemma {:induction false} XorBitsSymmetric(n: nat, a: nat, b: nat)
    ensures XorBits(n, a, b) == XorBits(n, b, a)
  {
    if n > 0 {
      XorBitsSymmetric(n - 1, a / 2, b / 2);
    }
  }

  /** XOR with the same byte twice gives the first byte back. */
  lemma XorInvolutive(a: byte, b: byte)
    ensures Xor(Xor(a, b), b) == a
  {
    Pow2Of8();
    XorBitsInvolutive(8, a, b);
  }

  /** Two masks that agree on one byte are the same mask. */
  lemma XorInjective(a: byte, b: byte, c: byte)
    requires Xor(a, b) == Xor(a, c)
    ensures b == c
  {
    Pow2Of8();
    XorBitsSymmetric(8, a, b);
    XorBitsSymmetric(8, a, c);
    XorBitsInvolutive(8, b, a);
    XorBitsInvolutive(8, c, a);
  }

  lemma {:induction false} XorBitsZero(n: nat, a: nat)
    requires a < Pow2(n)
    ensures XorBits(n, a, 0) == a
  {
    if n > 0 { XorBitsZero(n - 1, a / 2); }
  }

  /** Only the zero mask leaves a byte as it is. */
  lemma XorUnchanged(a: byte, b: byte)
    ensures Xor(a, b) == a <==> b == 0
  {
    Pow2Of8();
    XorBitsZero(8, a);
    if Xor(a, b) == a { XorInjective(a, b, 0); }
  }

  // ----- Bit by bit

  /** Bit `j` of `x`, counted from the least significant. */
  function BitAt(x: nat, j: nat): (r: nat)
    ensures r <= 1
  {
    if j == 0 then x % 2 else BitAt(x / 2, j - 1)
  }

  /** That is `(x >> j) & 1`. */
  lemma {:induction false} BitIsShifted(x: nat, j: nat)
    ensures BitAt(x, j) == x / Pow2(j) % 2
  {
    if j > 0 {
      BitIsShifted(x / 2, j - 1);
      DivideTwice(x, 2, Pow2(j - 1));
    }
  }

  lemma DivideTwice(x: nat, k: nat, m: nat)
    requires k > 0 && m > 0
    ensures k * m > 0 && x / k / m == x / (k * m)
  {
    var y, s := Divided(x, k);
    var q, r := Divided(y, m);
    Digits(x, k, m, q, r, s);
    QuotientOf(x, k * m, q, k * r + s);
  }

  lemma Divided(x: nat, k: nat) returns (q: nat, r: nat)
    requires k > 0
    ensures x == k * q + r && r < k && q == x / k
  {
    q, r := x / k, x % k;
  }

  lemma Digits(x: nat, k: nat, m: nat, q: nat, r: nat, s: nat)
    requires x == k * (m * q + r) + s && s < k && r < m
    ensures x == k * m * q + (k * r + s) && k * r + s < k * m
  {
    Distribute(k, m, q, r);
    Monotone(k, r + 1, m);
    Distribute(k, 1, r, 1);
  }

  lemma Distribute(k: nat, m: nat, q: nat, r: nat)
    ensures k * (m * q + r) == k * m * q + k * r
  {
  }

  lemma Monotone(k: nat, a: nat, b: nat)
    requires a <= b
    ensures k * a <= k * b
  {
  }

  lemma QuotientOf(x: nat, m: nat, q: nat, r: nat)
    requires m > 0 && x == m * q + r && r < m
    ensures x / m == q
  {
    Unique(m, q, r, x / m, x % m);
  }

  lemma Unique(m: nat, q: nat, r: nat, k: nat, s: nat)
    requires m * q + r == m * k + s && r < m && s < m
    ensures q == k
  {
    if q < k { Monotone(m, q + 1, k); }
    if k < q { Monotone(m, k + 1, q); }
  }

  lemma {:induction false} XorBitsAt(n: nat, a: nat, b: nat, j: nat)
    requires j < n
    ensures BitAt(XorBits(n, a, b), j) == (BitAt(a, j) + BitAt(b, j)) % 2
  {
    Halves(XorBits(n, a, b), XorBits(n - 1, a / 2, b / 2), a, b);
    if j > 0 { XorBitsAt(n - 1, a / 2, b / 2, j - 1); }
  }

  /** Each bit of the exclusive or is the sum of the two bits modulo 2. */
  lemma XorAt(a: byte, b: byte, j: nat)
    requires j < 8
    ensures BitAt(Xor(a, b), j) == (BitAt(a, j) + BitAt(b, j)) % 2
  {
    XorBitsAt(8, a, b, j);
  }

  // ----- Bytes written as bits

  predicate AllBits(s: seq<nat>) {
    forall i | 0 <= i < |s| :: s[i] <= 1
  }

  /** The number whose bits are `s`, least significant first. */
  function FromBits(s: seq<nat>): (r: nat) {
    if s == [] then 0 else s[0] + 2 * FromBits(s[1..])
  }

  function BitSums(a: seq<nat>, b: seq<nat>): (r: seq<nat>)
    requires |a| == |b|
    ensures |r| == |a| && AllBits(r)
  {
    seq(|a|, i requires 0 <= i < |a| => if a[i] == b[i] then 0 else 1)
  }

  lemma XorDigit(n: nat, p: nat, q: nat, a: nat, b: nat)
    requires p <= 1 && q <= 1
    ensures XorBits(n + 1, p + 2 * a, q + 2 * b) == (if p == q then 0 else 1) + 2 * XorBits(n, a, b)
  {
    Digit(p, a);
    Digit(q, b);
    Parity(p, q, a + b, p + 2 * a + (q + 2 * b));
  }

  lemma Digit(p: nat, a: nat)
    requires p <= 1
    ensures (p + 2 * a) / 2 == a
  {
  }

  lemma Parity(p: nat, q: nat, k: nat, x: nat)
    requires p <= 1 && q <= 1 && x == p + q + 2 * k
    ensures x % 2 == if p == q then 0 else 1
  {
  }

  lemma {:induction false} XorFromBits(a: seq<nat>, b: seq<nat>)
    requires |a| == |b| && AllBits(a) && AllBits(b)
    ensures XorBits(|a|, FromBits(a), FromBits(b)) == FromBits(BitSums(a, b))
  {
    if a != [] {
      XorFromBits(a[1..], b[1..]);
      XorDigit(|a| - 1, a[0], b[0], FromBits(a[1..]), FromBits(b[1..]));
      assert BitSums(a, b)[1..] == BitSums(a[1..], b[1..]);
    }
  }

  /** Eight bits by their weights. */
  function Weighed(s: seq<nat>): (r: nat)
    requires |s| == 8
  {
    s[0] + 2 * s[1] + 4 * s[2] + 8 * s[3] + 16 * s[4] + 32 * s[5] + 64 * s[6] + 128 * s[7]
  }

  lemma WeighedIs(s: seq<nat>)
    requires |s| == 8
    ensures FromBits(s) == Weighed(s)
  {
    FourWeights(s, s[4..]);
    FourWeights(s[4..], []);
  }

  lemma FourWeights(s: seq<nat>, t: seq<nat>)
    requires |s| >= 4 && t == s[4..]
    ensures FromBits(s) == s[0] + 2 * s[1] + 4 * s[2] + 8 * s[3] + 16 * FromBits(t)
  {
    assert s[1..][1..] == s[2..] && s[2..][1..] == s[3..] && s[3..][1..] == t;
    assert FromBits(s[2..]) == s[2] + 2 * FromBits(s[3..]);
  }

  /** The exclusive or of two bytes given by their bits. */
  lemma XorOfBits(x: byte, y: byte, z: byte, a: seq<nat>, b: seq<nat>, c: seq<nat>)
    requires |a| == |b| == 8 && AllBits(a) && AllBits(b) && c == BitSums(a, b)
    requires x == Weighed(a) && y == Weighed(b) && z == Weighed(c)
    ensures Xor(x, y) == z
  {
    WeighedIs(a);
    WeighedIs(b);
    WeighedIs(c);
    XorFromBits(a, b);
  }

  lemma {:induction false} OrBitsAt(n: nat, a: nat, b: nat, j: nat)
    requires j < n
    ensures BitAt(OrBits(n, a, b), j) == 1 <==> BitAt(a, j) == 1 || BitAt(b, j) == 1
  {
    if j > 0 { OrBitsAt(n - 1, a / 2, b / 2, j - 1); }
  }

  /** Each bit of the inclusive or is set where one of the two is. */
  lemma OrAt(a: byte, b: byte, j: nat)
    requires j < 8
    ensures BitAt(Or(a, b), j) == 1 <==> BitAt(a, j) == 1 || BitAt(b, j) == 1
  {
    OrBitsAt(8, a, b, j);
  }

  function ShiftLeft(a: nat, k: nat): (r: nat) {
    if k == 0 then a else 2 * ShiftLeft(a, k - 1)
  }

  /** `(a << k) | b` is `(a << k) + b` when `b` has only `k` bits. */
  lemma {:induction false} OrBitsShifted(n: nat, k: nat, a: nat, b: nat)
    requires b < Pow2(k) && a < Pow2(n)
    ensures OrBits(n + k, ShiftLeft(a, k), b) == ShiftLeft(a, k) + b
  {
    if k > 0 {
      OrBitsShifted(n, k - 1, a, b / 2);
    } else {
      OrBitsZero(n, a);
    }
  }

  lemma {:induction false} OrBitsZero(n: nat, a: nat)
    requires a < Pow2(n)
    ensures OrBits(n, a, 0) == a
  {
    if n > 0 {
      OrBitsZero(n - 1, a / 2);
    }
  }

  lemma OrShifted(n: nat, k: nat, a: nat, b: nat, x: byte, y: byte)
    requires n + k == 8 && b < Pow2(k) && a < Pow2(n) && x == ShiftLeft(a, k) && y == b
    ensures Or(x, y) == x + y
  {
    OrBitsShifted(n, k, a, b);
  }

  lemma ShiftValues(a: nat)
    ensures ShiftLeft(a, 2) == 4 * a && ShiftLeft(a, 4) == 16 * a && ShiftLeft(a, 6) == 64 * a
  {
    assert ShiftLeft(a, 1) == 2 * a;
    assert ShiftLeft(a, 3) == 8 * a;
    assert ShiftLeft(a, 5) == 32 * a;
  }

  lemma Or4(a: int, b: int)
    requires 0 <= a < 64 && 0 <= b < 4
    ensures Or(4 * a, b) == 4 * a + b
  {
    Pow2Of8();
    ShiftValues(a);
    OrShifted(6, 2, a, b, 4 * a, b);
  }

  lemma Or16(a: int, b: int)
    requires 0 <= a < 16 && 0 <= b < 16
    ensures Or(16 * a, b) == 16 * a + b
  {
    Pow2Of8();
    ShiftValues(a);
    OrShifted(4, 4, a, b, 16 * a, b);
  }

  lemma Or64(a: int, b: int)
    requires 0 <= a < 4 && 0 <= b < 64
    ensures Or(64 * a, b) == 64 * a + b
  {
    Pow2Of8();
    ShiftValues(a);
    OrShifted(2, 6, a, b, 64 * a, b);
  }

  // ----- Pieces

  function Concat(pieces: seq<seq<byte>>): (r: seq<byte>) {
    if pieces == [] then [] else Concat(pieces[..|pieces| - 1]) + pieces[|pieces| - 1]
  }

  lemma ConcatAppend(pieces: seq<seq<byte>>, last: seq<byte>)
    ensures Concat(pieces + [last]) == Concat(pieces) + last
  {
    assert (pieces + [last])[..|pieces|] == pieces;
  }

  lemma {:induction false} ConcatHead(head: seq<byte>, pieces: seq<seq<byte>>)
    ensures Concat([head] + pieces) == head + Concat(pieces)
  {
    if pieces == [] {
      ConcatAppend([], head);
      assert [head] + pieces == [] + [head];
    } else {
      var front, last := pieces[..|pieces| - 1], pieces[|pieces| - 1];
      ConcatHead(head, front);
      ConcatAppend([head] + front, last);
      assert [head] + pieces == [head] + front + [last];
      Associative(head, Concat(front), last);
    }
  }

  lemma Associative(a: seq<byte>, b: seq<byte>, c: seq<byte>)
    ensures a + b + c == a + (b + c)
  {
  }

  lemma {:induction false} ConcatPrefix(pieces: seq<seq<byte>>, i: nat)
    requires i <= |pieces|
    ensures Concat(pieces[..i]) <= Concat(pieces)
  {
    if i < |pieces| {
      var n := |pieces| - 1;
      ConcatPrefix(pieces[..n], i);
      assert pieces[..n][..i] == pieces[..i];
    } else {
      assert pieces[..i] == pieces;
    }
  }

  // ----- Integers in memory

  /** The low `n` bytes of `x` as a little-endian host stores them. */
  function LittleEndian(n: nat, x: nat): (r: seq<byte>)
    ensures |r| == n
  {
    if n == 0 then [] else [x % 256] + LittleEndian(n - 1, x / 256)
  }

  function FromLittleEndian(s: seq<byte>): (r: nat) {
    if s == [] then 0 else s[0] + 256 * FromLittleEndian(s[1..])
  }

  function Reverse(s: seq<byte>): (r: seq<byte>)
    ensures |r| == |s|
  {
    seq(|s|, i requires 0 <= i < |s| => s[|s| - 1 - i])
  }

  /** The low `n` bytes of `x` in network order, most significant first. */
  function BigEndian(n: nat, x: nat): (r: seq<byte>)
    ensures |r| == n
  {
    Reverse(LittleEndian(n, x))
  }

  function FromBigEndian(s: seq<byte>): (r: nat) {
    FromLittleEndian(Reverse(s))
  }

  /** `htons`, `ntohs` and the 64-bit swap of the sources: the value whose memory image is reversed. */
  function SwapBytes(n: nat, x: nat): (r: nat) {
    FromLittleEndian(BigEndian(n, x))
  }

  function Pow256(n: nat): (r: nat)
    ensures r >= 1
  {
    if n == 0 then 1 else 256 * Pow256(n - 1)
  }

  /** Byte `i` of `x`, counted from the least significant: `(x >> 8 * i) & 0xFF`. */
  lemma {:induction false} LittleEndianAt(n: nat, x: nat, i: nat)
    requires i < n
    ensures LittleEndian(n, x)[i] == x / Pow256(i) % 256
  {
    if i > 0 {
      LittleEndianAt(n - 1, x / 256, i - 1);
      DivideTwice(x, 256, Pow256(i - 1));
    }
  }

  lemma Pow256Values()
    ensures Pow256(2) == 0x1_0000 && Pow256(8) == 0x1_0000_0000_0000_0000
  {
    assert Pow256(4) == 0x1_0000_0000;
    assert Pow256(6) == 0x1_0000_0000_0000;
  }

  lemma {:induction false} FromLittleEndianInverse(n: nat, x: nat)
    requires x < Pow256(n)
    ensures FromLittleEndian(LittleEndian(n, x)) == x
  {
    if n > 0 {
      FromLittleEndianInverse(n - 1, x / 256);
      assert LittleEndian(n, x)[1..] == LittleEndian(n - 1, x / 256);
    }
  }

  lemma {:induction false} LittleEndianInverse(s: seq<byte>)
    ensures LittleEndian(|s|, FromLittleEndian(s)) == s
    ensures FromLittleEndian(s) < Pow256(|s|)
  {
    if s != [] {
      LittleEndianInverse(s[1..]);
      LowByte(FromLittleEndian(s), s[0], FromLittleEndian(s[1..]));
    }
  }

  lemma LowByte(x: nat, low: byte, high: nat)
    requires x == low + 256 * high
    ensures x % 256 == low && x / 256 == high
  {
  }

  /** Reading a network-order integer undoes writing it. */
  lemma BigEndianRoundTrip(n: nat, x: nat)
    requires x < Pow256(n)
    ensures FromBigEndian(BigEndian(n, x)) == x
  {
    FromLittleEndianInverse(n, x);
    assert Reverse(Reverse(LittleEndian(n, x))) == LittleEndian(n, x);
  }

  /** And writing it again undoes reading it. */
  lemma BigEndianInverse(s: seq<byte>)
    ensures BigEndian(|s|, FromBigEndian(s)) == s
  {
    LittleEndianInverse(Reverse(s));
    assert Reverse(Reverse(s)) == s;
  }

  /** Byte `i` of a network-order integer is `(x >> 8 * (n - 1 - i)) & 0xFF`. */
  lemma BigEndianAt(n: nat, x: nat, i: nat)
    requires i < n
    ensures BigEndian(n, x)[i] == x / Pow256(n - 1 - i) % 256
  {
    LittleEndianAt(n, x, n - 1 - i);
  }

  /** Storing the swapped value on a little-endian host leaves network order in memory. */
  lemma StoreSwapped(n: nat, x: nat)
    ensures LittleEndian(n, SwapBytes(n, x)) == BigEndian(n, x)
  {
    LittleEndianInverse(BigEndian(n, x));
  }

  /** Swapping the value loaded by a little-endian host reads network order. */
  lemma LoadSwapped(s: seq<byte>)
    ensures SwapBytes(|s|, FromLittleEndian(s)) == FromBigEndian(s) < Pow256(|s|)
  {
    LittleEndianInverse(s);
    LittleEndianInverse(Reverse(s));
  }

  /** The byte swap is its own inverse. */
  lemma SwapBytesSelfInverse(n: nat, x: nat)
    requires x < Pow256(n)
    ensures SwapBytes(n, x) < Pow256(n) && SwapBytes(n, SwapBytes(n, x)) == x
  {
    var s := BigEndian(n, x);
    LoadSwapped(s);
    LittleEndianInverse(s);
    BigEndianRoundTrip(n, x);
  }
}
