/** The textbook form of SHA-1: FIPS 180-4, sections 4.1.1, 4.2.1, 5.1.1, 5.3.1 and 6.1.2. */
module Sha1Standard {

  newtype byte = x: int | 0 <= x < 256
  type word = bv32

  /** The five working variables, and also a hash value H(i). */
  datatype Regs = Regs(a: word, b: word, c: word, d: word, e: word)

  const TWO_TO_THE_64: nat := 0x1_0000_0000_0000_0000

  // Section 5.3.1: the initial hash value.
  const INITIAL := Regs(0x67452301, 0xEFCDAB89, 0x98BADCFE, 0x10325476, 0xC3D2E1F0)

  function Rotl(x: word, n: bv6): word
    requires n <= 32
  {
    (x << n) | (x >> (32 - n))
  }

  // The three rotations that the algorithm uses.
  function Rotl1(x: word): word { Rotl(x, 1) }

  function Rotl5(x: word): word { Rotl(x, 5) }

  function Rotl30(x: word): word { Rotl(x, 30) }

  // Section 4.1.1: the logical functions.
  function Ch(x: word, y: word, z: word): word { (x & y) ^ (!x & z) }

  function Parity(x: word, y: word, z: word): word { x ^ y ^ z }

  function Maj(x: word, y: word, z: word): word { (x & y) ^ (x & z) ^ (y & z) }

  function F(t: nat, x: word, y: word, z: word): word
    requires t < 80
  {
    if t < 20 then Ch(x, y, z)
    else if t < 40 then Parity(x, y, z)
    else if t < 60 then Maj(x, y, z)
    else Parity(x, y, z)
  }

  // Section 4.2.1: the constants.
  function K(t: nat): word
    requires t < 80
  {
    if t < 20 then 0x5A827999
    else if t < 40 then 0x6ED9EBA1
    else if t < 60 then 0x8F1BBCDC
    else 0xCA62C1D6
  }

  function BigEndianWord(p: seq<byte>): word
    requires |p| == 4
  {
    ((p[0] as word) << 24) | ((p[1] as word) << 16) | ((p[2] as word) << 8) | (p[3] as word)
  }

  /** The message schedule word W_t of one 512-bit block. */
  function W(block: seq<byte>, t: nat): word
    requires |block| == 64 && t < 80
  {
    if t < 16 then BigEndianWord(block[4 * t..4 * t + 4])
    else Rotl1(W(block, t - 3) ^ W(block, t - 8) ^ W(block, t - 14) ^ W(block, t - 16))
  }

  function Sum(p: word, q: word, r: word, s: word, t: word): word { p + q + r + s + t }

  /** Step 3 of section 6.1.2 for one t. */
  function Step(r: Regs, t: nat, w: word): Regs
    requires t < 80
  {
    var temp := Sum(Rotl5(r.a), F(t, r.b, r.c, r.d), r.e, K(t), w);
    Regs(temp, r.a, Rotl30(r.b), r.c, r.d)
  }

  /** The working variables after steps 0 .. t-1. */
  function Rounds(h: Regs, block: seq<byte>, t: nat): Regs
    requires |block| == 64 && t <= 80
  {
    if t == 0 then h else Step(Rounds(h, block, t - 1), t - 1, W(block, t - 1))
  }

  /** Addition modulo 2^32. */
  function Plus(x: word, y: word): word { x + y }

  function Add(h: Regs, r: Regs): Regs {
    Regs(Plus(h.a, r.a), Plus(h.b, r.b), Plus(h.c, r.c), Plus(h.d, r.d), Plus(h.e, r.e))
  }

  function HashBlock(h: Regs, block: seq<byte>): Regs
    requires |block| == 64
  {
    Add(h, Rounds(h, block, 80))
  }

  /** The hash value H(N) of a message of N whole blocks. */
  function Chain(data: seq<byte>): Regs
    requires |data| % 64 == 0
  {
    if |data| == 0 then INITIAL
    else HashBlock(Chain(data[..|data| - 64]), data[|data| - 64..])
  }

  // Section 5.1.1: padding.

  /** The number of zero bytes between the 0x80 byte and the length field. */
  function ZeroCount(n: nat): nat { (55 - n) % 64 }

  lemma WholeBlocks(n: nat)
    ensures (n + 1 + ZeroCount(n) + 8) % 64 == 0
  {}

  /** A number in count bytes, most significant first. */
  function BigEndian(n: nat, count: nat): (s: seq<byte>)
    ensures |s| == count
  {
    if count == 0 then [] else BigEndian(n / 256, count - 1) + [(n % 256) as byte]
  }

  /** The number that a big-endian byte string denotes. */
  function Number(s: seq<byte>): nat {
    if |s| == 0 then 0 else 256 * Number(s[..|s| - 1]) + s[|s| - 1] as nat
  }

  function Pow256(j: nat): nat { if j == 0 then 1 else 256 * Pow256(j - 1) }

  lemma {:induction false} BigEndianDenotes(n: nat, count: nat)
    requires n < Pow256(count)
    ensures Number(BigEndian(n, count)) == n
  {
    if count > 0 {
      BigEndianDenotes(n / 256, count - 1);
      var s := BigEndian(n, count);
      assert s[..count - 1] == BigEndian(n / 256, count - 1);
    }
  }

  /** The bit length of a message of n bytes, as the 64-bit number that the length field holds. */
  function BitCount(n: nat): nat { 8 * n % TWO_TO_THE_64 }

  function Zeros(k: nat): (s: seq<byte>)
    ensures |s| == k
  {
    seq(k, _ => 0)
  }

  function Pad(msg: seq<byte>): (s: seq<byte>)
    ensures |s| % 64 == 0
  {
    hide BitCount, ZeroCount;
    WholeBlocks(|msg|);
    msg + [0x80] + Zeros(ZeroCount(|msg|)) + BigEndian(BitCount(|msg|), 8)
  }

  function Sha1Hash(msg: seq<byte>): Regs { Chain(Pad(msg)) }

  /** Section 5.1.1 asks for the least number of zero bits; a byte-wise message needs whole zero bytes. */
  lemma LeastZeroCount(n: nat, k: nat)
    requires (n + 1 + k) % 64 == 56
    ensures (n + 1 + ZeroCount(n)) % 64 == 56 && ZeroCount(n) <= k
  {}

  /** No two messages the standard admits have the same padded form. */
  lemma PadInjective(m: seq<byte>, m': seq<byte>)
    requires 8 * |m| < TWO_TO_THE_64 && 8 * |m'| < TWO_TO_THE_64
    requires Pad(m) == Pad(m')
    ensures m == m'
  {
    hide BitCount, ZeroCount, BigEndian;
    var p := Pad(m);
    assert p[|p| - 8..] == BigEndian(BitCount(|m|), 8);
    assert p[|p| - 8..] == BigEndian(BitCount(|m'|), 8);
    LengthRecovered(|m|);
    LengthRecovered(|m'|);
    assert m == p[..|m|] == m';
  }

  lemma EightBytes()
    ensures Pow256(8) == TWO_TO_THE_64
  {
    assert Pow256(2) == 0x1_0000;
    assert Pow256(4) == 0x1_0000_0000;
    assert Pow256(6) == 0x1_0000_0000_0000;
  }

  lemma LengthRecovered(n: nat)
    requires 8 * n < TWO_TO_THE_64
    ensures Number(BigEndian(BitCount(n), 8)) == 8 * n
  {
    hide Pow256, BigEndian;
    EightBytes();
    BigEndianDenotes(8 * n, 8);
  }
}
