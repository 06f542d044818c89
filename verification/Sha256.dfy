/**
 SHA-256 as section 6.2 of FIPS 180-4 defines it: padding, message schedule, rounds and
 the fold over 64-byte blocks.
 */
module Sha256 {

  type Byte = bv8
  type Word = bv32

  const BLOCK: nat := 64
  const U64: nat := 0x1_0000_0000_0000_0000

  /** The constants of section 4.2.2. */
  function Key(t: nat): Word
    requires t < 64
  {
    K[t / 8][t % 8]
  }

  const K: seq<seq<Word>> := [
    [0x428a2f98, 0x71374491, 0xb5c0fbcf, 0xe9b5dba5, 0x3956c25b, 0x59f111f1, 0x923f82a4, 0xab1c5ed5],
    [0xd807aa98, 0x12835b01, 0x243185be, 0x550c7dc3, 0x72be5d74, 0x80deb1fe, 0x9bdc06a7, 0xc19bf174],
    [0xe49b69c1, 0xefbe4786, 0x0fc19dc6, 0x240ca1cc, 0x2de92c6f, 0x4a7484aa, 0x5cb0a9dc, 0x76f988da],
    [0x983e5152, 0xa831c66d, 0xb00327c8, 0xbf597fc7, 0xc6e00bf3, 0xd5a79147, 0x06ca6351, 0x14292967],
    [0x27b70a85, 0x2e1b2138, 0x4d2c6dfc, 0x53380d13, 0x650a7354, 0x766a0abb, 0x81c2c92e, 0x92722c85],
    [0xa2bfe8a1, 0xa81a664b, 0xc24b8b70, 0xc76c51a3, 0xd192e819, 0xd6990624, 0xf40e3585, 0x106aa070],
    [0x19a4c116, 0x1e376c08, 0x2748774c, 0x34b0bcb5, 0x391c0cb3, 0x4ed8aa4a, 0x5b9cca4f, 0x682e6ff3],
    [0x748f82ee, 0x78a5636f, 0x84c87814, 0x8cc70208, 0x90befffa, 0xa4506ceb, 0xbef9a3f7, 0xc67178f2]]

  const IV: seq<Word> := [
    0x6a09e667, 0xbb67ae85, 0x3c6ef372, 0xa54ff53a, 0x510e527f, 0x9b05688c, 0x1f83d9ab, 0x5be0cd19]

  // ---- the functions of section 4.1.2 ----

  function Rotr(x: Word, n: nat): Word
    requires 0 < n < 32
  {
    (x >> n) | (x << (32 - n))
  }

  function Ch(x: Word, y: Word, z: Word): Word {
    (x & y) ^ (!x & z)
  }

  function Maj(x: Word, y: Word, z: Word): Word {
    (x & y) ^ (x & z) ^ (y & z)
  }

  function BigSigma0(x: Word): Word {
    Rotr(x, 2) ^ Rotr(x, 13) ^ Rotr(x, 22)
  }

  function BigSigma1(x: Word): Word {
    Rotr(x, 6) ^ Rotr(x, 11) ^ Rotr(x, 25)
  }

  function SmallSigma0(x: Word): Word {
    Rotr(x, 7) ^ Rotr(x, 18) ^ (x >> 3)
  }

  function SmallSigma1(x: Word): Word {
    Rotr(x, 17) ^ Rotr(x, 19) ^ (x >> 10)
  }

  // Sums modulo 2^32.

  function Add(x: Word, y: Word): Word {
    x + y
  }

  function Sum4(p: Word, q: Word, r: Word, s: Word): Word {
    p + q + r + s
  }

  function Sum5(p: Word, q: Word, r: Word, s: Word, t: Word): Word {
    p + q + r + s + t
  }

  lemma Sum4Reversed(p: Word, q: Word, r: Word, s: Word)
    ensures Sum4(p, q, r, s) == Sum4(s, r, q, p)
  {
  }

  function Be32(b: seq<Byte>, at: nat): Word
    requires at + 4 <= |b|
  {
    (b[at] as Word << 24) | (b[at + 1] as Word << 16) | (b[at + 2] as Word << 8) | (b[at + 3] as Word)
  }

  function Bytes32(v: Word): (r: seq<Byte>)
    ensures |r| == 4
  {
    [((v >> 24) & 0xFF) as Byte, ((v >> 16) & 0xFF) as Byte, ((v >> 8) & 0xFF) as Byte, (v & 0xFF) as Byte]
  }

  // ---- the message schedule and the rounds of section 6.2.2 ----

  function W(block: seq<Byte>, t: nat): Word
    requires |block| == BLOCK && t < 64
  {
    if t < 16 then Be32(block, 4 * t)
    else Sum4(SmallSigma1(W(block, t - 2)), W(block, t - 7), SmallSigma0(W(block, t - 15)), W(block, t - 16))
  }

  datatype Regs = Regs(a: Word, b: Word, c: Word, d: Word, e: Word, f: Word, g: Word, h: Word)

  function Round(r: Regs, k: Word, w: Word): Regs {
    var t1 := Sum5(r.h, BigSigma1(r.e), Ch(r.e, r.f, r.g), k, w);
    var t2 := Add(BigSigma0(r.a), Maj(r.a, r.b, r.c));
    Regs(Add(t1, t2), r.a, r.b, r.c, Add(r.d, t1), r.e, r.f, r.g)
  }

  function Load(h: seq<Word>): Regs
    requires |h| == 8
  {
    Regs(h[0], h[1], h[2], h[3], h[4], h[5], h[6], h[7])
  }

  function Rounds(h: seq<Word>, block: seq<Byte>, t: nat): Regs
    requires |h| == 8 && |block| == BLOCK && t <= 64
  {
    if t == 0 then Load(h) else Round(Rounds(h, block, t - 1), Key(t - 1), W(block, t - 1))
  }

  function Added(h: seq<Word>, v: Regs): (r: seq<Word>)
    requires |h| == 8
    ensures |r| == 8
  {
    [Add(h[0], v.a), Add(h[1], v.b), Add(h[2], v.c), Add(h[3], v.d),
     Add(h[4], v.e), Add(h[5], v.f), Add(h[6], v.g), Add(h[7], v.h)]
  }

  function Compress(h: seq<Word>, block: seq<Byte>): (r: seq<Word>)
    requires |h| == 8 && |block| == BLOCK
    ensures |r| == 8
  {
    Added(h, Rounds(h, block, 64))
  }

  /** The hash value after every whole block of `bytes`. */
  function HashBlocks(h: seq<Word>, bytes: seq<Byte>): (r: seq<Word>)
    requires |h| == 8
    ensures |r| == 8
    decreases |bytes|
  {
    if |bytes| < BLOCK then h else HashBlocks(Compress(h, bytes[..BLOCK]), bytes[BLOCK..])
  }

  // ---- padding, section 5.1.1 ----

  function Zeros(k: nat): (z: seq<Byte>)
    ensures |z| == k && forall i :: 0 <= i < k ==> z[i] == 0
  {
    seq(k, _ => 0)
  }

  /** `v` as `n` bytes, most significant first. */
  function BeBytes(v: nat, n: nat): (r: seq<Byte>)
    ensures |r| == n
  {
    if n == 0 then [] else BeBytes(v / 256, n - 1) + [(v % 256) as Byte]
  }

  ghost function BeValue(b: seq<Byte>): nat {
    if b == [] then 0 else BeValue(b[..|b| - 1]) * 256 + (b[|b| - 1] as nat)
  }

  ghost function Pow256(n: nat): (p: nat)
    ensures p > 0
  {
    if n == 0 then 1 else 256 * Pow256(n - 1)
  }

  /** The padded message is `msg`, a one bit, the fewest zero bits, and the length in bits as 64 bits. */
  ghost predicate IsPadded(msg: seq<Byte>, p: seq<Byte>) {
    exists k: nat :: k < BLOCK && (|msg| + 1 + k) % BLOCK == 56 &&
                     p == msg + [0x80] + Zeros(k) + BeBytes(8 * |msg|, 8)
  }

  function ZeroCount(len: nat): (k: nat)
    ensures k < BLOCK && (len + 1 + k) % BLOCK == 56
  {
    if len % BLOCK < 56 then 55 - len % BLOCK else 119 - len % BLOCK
  }

  lemma WholeBlocks(len: nat)
    ensures (len + 1 + ZeroCount(len) + 8) % BLOCK == 0
  {
    hide ZeroCount;
    var x := len + 1 + ZeroCount(len);
    assert x % BLOCK == 56;
  }

  /** Padding with the bit length reduced to the 64 bits that the context carries. */
  function Padded(msg: seq<Byte>): (p: seq<Byte>)
    ensures |p| % BLOCK == 0
  {
    WholeBlocks(|msg|);
    msg + [0x80] + Zeros(ZeroCount(|msg|)) + BeBytes(8 * |msg| % U64, 8)
  }

  /** For every message the standard admits (fewer than 2^64 bits) that is the standard's padding. */
  lemma PaddedIsStandard(msg: seq<Byte>)
    requires 8 * |msg| < U64
    ensures IsPadded(msg, Padded(msg))
  {
    hide BeBytes, ZeroCount, Zeros;
    var k := ZeroCount(|msg|);
    assert 8 * |msg| % U64 == 8 * |msg|;
    assert Padded(msg) == msg + [0x80] + Zeros(k) + BeBytes(8 * |msg|, 8);
  }

  lemma {:induction false} BeBytesValue(v: nat, n: nat)
    ensures BeValue(BeBytes(v, n)) == v % Pow256(n)
  {
    if n > 0 {
      BeBytesValue(v / 256, n - 1);
      var b := BeBytes(v, n);
      assert b[..n - 1] == BeBytes(v / 256, n - 1);
      ByteRoundTrip(v % 256);
      DivMod256(v, Pow256(n - 1));
    }
  }

  lemma ByteRoundTrip(x: nat)
    requires x < 256
    ensures (x as Byte) as nat == x
  {
    var wide := x as bv16;
    assert wide < 256;
  }

  lemma DivMod256(v: nat, m: nat)
    requires m > 0
    ensures (v / 256) % m * 256 + v % 256 == v % (256 * m)
  {
    var q, r := v / 256, v % 256;
    var x, y := q / m, q % m;
    assert v == (m * x + y) * 256 + r;
    assert v == (256 * m) * x + (y * 256 + r);
    assert y * 256 + r < 256 * m;
    ModUnique(v, 256 * m, x, y * 256 + r);
  }

  lemma ModUnique(v: nat, m: nat, x: nat, r: nat)
    requires m > 0 && v == m * x + r && r < m
    ensures v % m == r
  {
    var q := v / m;
    assert v == m * q + v % m;
    assert m * (q - x) == m * q - m * x;
    ZeroMultiple(q - x, m);
  }

  lemma ZeroMultiple(k: int, m: int)
    requires 0 - m < m * k < m
    ensures k == 0
  {
    if k > 0 {
      MulAtLeast(k, m);
    } else if k < 0 {
      assert m * (0 - k) == 0 - m * k;
      MulAtLeast(0 - k, m);
    }
  }

  lemma {:induction false} MulAtLeast(k: int, m: int)
    requires k > 0 && m > 0
    ensures m * k >= m
  {
    if k > 1 {
      MulAtLeast(k - 1, m);
      assert m * k == m * (k - 1) + m;
    }
  }

  function Serialize(h: seq<Word>): (r: seq<Byte>)
    ensures |r| == 4 * |h|
  {
    if h == [] then [] else Serialize(h[..|h| - 1]) + Bytes32(h[|h| - 1])
  }

  /** The digest of a whole message at once. */
  function Digest(msg: seq<Byte>): (r: seq<Byte>)
    ensures |r| == 32
  {
    Serialize(HashBlocks(IV, Padded(msg)))
  }

  /** Hashing whole blocks and then more is hashing all of it. */
  lemma {:induction false} HashBlocksAppend(h: seq<Word>, a: seq<Byte>, b: seq<Byte>)
    requires |h| == 8 && |a| % BLOCK == 0
    ensures HashBlocks(h, a + b) == HashBlocks(HashBlocks(h, a), b)
    decreases |a|
  {
    if |a| == 0 {
      assert a + b == b;
    } else {
      assert (a + b)[..BLOCK] == a[..BLOCK];
      assert (a + b)[BLOCK..] == a[BLOCK..] + b;
      HashBlocksAppend(Compress(h, a[..BLOCK]), a[BLOCK..], b);
    }
  }

  lemma HashOneBlock(h: seq<Word>, block: seq<Byte>)
    requires |h| == 8 && |block| == BLOCK
    ensures HashBlocks(h, block) == Compress(h, block)
  {
    assert block[..BLOCK] == block && block[BLOCK..] == [];
  }
}
