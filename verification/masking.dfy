/** Payload masking: XOR with a four-byte key, section 5.3 of RFC 6455. */
module Masking {
  import opened Bytes

  /** The four bytes of the `uint32_t` mask, in memory order. */
  type Key = k: seq<byte> | |k| == 4 witness [0, 0, 0, 0]

  /** The key byte that masks the payload byte at offset `n`. */
  function KeyAt(key: Key, n: nat): (r: byte) {
    key[n % 4]
  }

  /** `p` masked as a stretch of a payload that starts at offset `at`. */
  function MaskFrom(key: Key, p: seq<byte>, at: nat): (r: seq<byte>)
    ensures |r| == |p|
  {
    seq(|p|, i requires 0 <= i < |p| => Xor(p[i], KeyAt(key, at + i)))
  }

  function Mask(key: Key, p: seq<byte>): (r: seq<byte>)
    ensures |r| == |p|
  {
    MaskFrom(key, p, 0)
  }

  /** Masks `len` bytes of `a` from `off` on, in place. */
  method MaskPayload(key: Key, a: array<byte>, off: nat, len: nat)
    requires off + len <= a.Length
    modifies a
    ensures a[off..off + len] == Mask(key, old(a[off..off + len]))
    ensures forall i | 0 <= i < len :: a[off + i] == Xor(old(a[off + i]), key[i % 4])
    ensures a[..off] == old(a[..off]) && a[off + len..] == old(a[off + len..])
  {
    for i := 0 to len
      invariant forall k | off <= k < off + i :: a[k] == Xor(old(a[k]), KeyAt(key, k - off))
      invariant forall k | off + i <= k < off + len :: a[k] == old(a[k])
      invariant a[..off] == old(a[..off]) && a[off + len..] == old(a[off + len..])
    {
      a[off + i] := Xor(a[off + i], KeyAt(key, i));
    }
  }

  /** Section 5.3: octet `i` is combined with octet `i` modulo 4 of the key. */
  lemma MaskAt(key: Key, p: seq<byte>, i: nat)
    requires i < |p|
    ensures Mask(key, p)[i] == Xor(p[i], key[i % 4])
    ensures forall j | 0 <= j < 8 :: BitAt(Mask(key, p)[i], j) == (BitAt(p[i], j) + BitAt(key[i % 4], j)) % 2
  {
    forall j | 0 <= j < 8
      ensures BitAt(Mask(key, p)[i], j) == (BitAt(p[i], j) + BitAt(key[i % 4], j)) % 2
    {
      XorAt(p[i], key[i % 4], j);
    }
  }

  /** Unmasking is masking again. */
  lemma MaskInvolutive(key: Key, p: seq<byte>)
    ensures Mask(key, Mask(key, p)) == p
  {
    forall i | 0 <= i < |p|
      ensures Mask(key, Mask(key, p))[i] == p[i]
    {
      XorInvolutive(p[i], KeyAt(key, i));
    }
  }

  /** Masking leaves a payload as it is exactly when the key bytes it meets are zero. */
  lemma MaskUnchanged(key: Key, p: seq<byte>)
    ensures Mask(key, p) == p <==> forall i | 0 <= i < |p| :: KeyAt(key, i) == 0
  {
    forall i | 0 <= i < |p|
      ensures Mask(key, p)[i] == p[i] <==> KeyAt(key, i) == 0
    {
      XorUnchanged(p[i], KeyAt(key, i));
    }
  }

  /** A payload masked in two stretches: the second one continues the key's rotation. */
  lemma MaskSplit(key: Key, p: seq<byte>, q: seq<byte>)
    ensures Mask(key, p + q) == Mask(key, p) + MaskFrom(key, q, |p|)
  {
  }

  /** Restarting the rotation for the second stretch is harmless on four-byte boundaries. */
  lemma MaskAligned(key: Key, p: seq<byte>, q: seq<byte>)
    requires |p| % 4 == 0
    ensures Mask(key, p + q) == Mask(key, p) + Mask(key, q)
  {
    MaskSplit(key, p, q);
    forall i | 0 <= i < |q|
      ensures MaskFrom(key, q, |p|)[i] == Mask(key, q)[i]
    {
      Rotation(|p|, i);
    }
  }

  lemma Rotation(n: nat, i: nat)
    requires n % 4 == 0
    ensures (n + i) % 4 == i % 4
  {
    var k, j := n / 4, i / 4;
    assert n + i == 4 * (k + j) + i % 4;
  }

  /** The key bytes met by the first `n` bytes after offset `at` are those met from offset 0. */
  predicate SameRotation(key: Key, at: nat, n: nat) {
    forall i {:trigger KeyAt(key, i)} | 0 <= i < n :: KeyAt(key, i) == KeyAt(key, at + i)
  }

  /**
    Restarting the rotation for the second stretch, which is what happens when a
    frame is unmasked one read at a time, gives the right bytes exactly when the
    key bytes used by the two rotations coincide.
  */
  lemma MaskRestartExact(key: Key, p: seq<byte>, q: seq<byte>)
    ensures Mask(key, p + q) == Mask(key, p) + Mask(key, q) <==> SameRotation(key, |p|, |q|)
  {
    MaskSplit(key, p, q);
    if Mask(key, p + q) == Mask(key, p) + Mask(key, q) {
      assert MaskFrom(key, q, |p|) == (Mask(key, p) + Mask(key, q))[|p|..] == Mask(key, q);
      forall i {:trigger KeyAt(key, i)} | 0 <= i < |q|
        ensures KeyAt(key, i) == KeyAt(key, |p| + i)
      {
        assert MaskFrom(key, q, |p|)[i] == Mask(key, q)[i];
        XorInjective(q[i], KeyAt(key, i), KeyAt(key, |p| + i));
      }
    }
    if SameRotation(key, |p|, |q|) {
      assert MaskFrom(key, q, |p|) == Mask(key, q);
    }
  }

  // ----- The masked "Hello" of section 5.7 of RFC 6455

  const HELLO: seq<byte> := [0x48, 0x65, 0x6C, 0x6C, 0x6F]
  const SAMPLE_KEY: Key := [0x37, 0xFA, 0x21, 0x3D]

  lemma Octet0(x: byte, y: byte)
    requires x == 0x48 && y == 0x37
    ensures Xor(x, y) == 0x7F
  {
    XorOfBits(x, y, 0x7F, [0, 0, 0, 1, 0, 0, 1, 0], [1, 1, 1, 0, 1, 1, 0, 0], [1, 1, 1, 1, 1, 1, 1, 0]);
  }

  lemma Octet1(x: byte, y: byte)
    requires x == 0x65 && y == 0xFA
    ensures Xor(x, y) == 0x9F
  {
    XorOfBits(x, y, 0x9F, [1, 0, 1, 0, 0, 1, 1, 0], [0, 1, 0, 1, 1, 1, 1, 1], [1, 1, 1, 1, 1, 0, 0, 1]);
  }

  lemma Octet2(x: byte, y: byte)
    requires x == 0x6C && y == 0x21
    ensures Xor(x, y) == 0x4D
  {
    XorOfBits(x, y, 0x4D, [0, 0, 1, 1, 0, 1, 1, 0], [1, 0, 0, 0, 0, 1, 0, 0], [1, 0, 1, 1, 0, 0, 1, 0]);
  }

  lemma Octet3(x: byte, y: byte)
    requires x == 0x6C && y == 0x3D
    ensures Xor(x, y) == 0x51
  {
    XorOfBits(x, y, 0x51, [0, 0, 1, 1, 0, 1, 1, 0], [1, 0, 1, 1, 1, 1, 0, 0], [1, 0, 0, 0, 1, 0, 1, 0]);
  }

  lemma Octet4(x: byte, y: byte)
    requires x == 0x6F && y == 0x37
    ensures Xor(x, y) == 0x58
  {
    XorOfBits(x, y, 0x58, [1, 1, 1, 1, 0, 1, 1, 0], [1, 1, 1, 0, 1, 1, 0, 0], [0, 0, 0, 1, 1, 0, 1, 0]);
  }

  lemma MaskedHello(key: Key, p: seq<byte>, m: seq<byte>)
    requires key == SAMPLE_KEY && p == HELLO && m == Mask(key, p)
    ensures m == [0x7F, 0x9F, 0x4D, 0x51, 0x58]
  {
    Octet0(p[0], key[0]);
    Octet1(p[1], key[1]);
    Octet2(p[2], key[2]);
    Octet3(p[3], key[3]);
    Octet4(p[4], key[0]);
  }
}
