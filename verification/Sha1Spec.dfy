/** The Secure Hash Algorithm SHA-1 as FIPS 180-4 defines it. */
module Sha1Spec {

  type Block = s: seq<bv32> | |s| == 16 witness seq(16, i => 0)

  datatype Registers = Registers(a: bv32, b: bv32, c: bv32, d: bv32, e: bv32)

  const H0 := Registers(0x67452301, 0xefcdab89, 0x98badcfe, 0x10325476, 0xc3d2e1f0)

  // ----- Section 4.1.1: functions -----

  function Ch(x: bv32, y: bv32, z: bv32): (r: bv32) { (x & y) ^ (!x & z) }

  function Parity(x: bv32, y: bv32, z: bv32): (r: bv32) { x ^ y ^ z }

  function Maj(x: bv32, y: bv32, z: bv32): (r: bv32) { (x & y) ^ (x & z) ^ (y & z) }

  function F(t: nat, x: bv32, y: bv32, z: bv32): (r: bv32) {
    if t < 20 then Ch(x, y, z) else if t < 40 then Parity(x, y, z) else if t < 60 then Maj(x, y, z) else Parity(x, y, z)
  }

  // ----- Section 4.2.1: constants -----

  function K(t: nat): (r: bv32) {
    if t < 20 then 0x5a827999 else if t < 40 then 0x6ed9eba1 else if t < 60 then 0x8f1bbcdc else 0xca62c1d6
  }

  // ----- Section 6.1.2: the hash computation with an 80-word schedule -----

  function W(m: Block, t: nat): (r: bv32) {
    if t < 16 then m[t]
    else (W(m, t - 3) ^ W(m, t - 8) ^ W(m, t - 14) ^ W(m, t - 16)).RotateLeft(1)
  }

  function Sum(a: bv32, f: bv32, e: bv32, k: bv32, w: bv32): (r: bv32) { a + f + e + k + w }

  function Round(t: nat, r: Registers, w: bv32): (r': Registers) {
    Registers(Sum(r.a.RotateLeft(5), F(t, r.b, r.c, r.d), r.e, K(t), w), r.a, r.b.RotateLeft(30), r.c, r.d)
  }

  function Rounds(m: Block, h: Registers, t: nat): (r: Registers) {
    if t == 0 then h else Round(t - 1, Rounds(m, h, t - 1), W(m, t - 1))
  }

  function Add(x: bv32, y: bv32): (r: bv32) { x + y }

  function Compress(h: Registers, m: Block): (r: Registers) {
    var r := Rounds(m, h, 80);
    Registers(Add(h.a, r.a), Add(h.b, r.b), Add(h.c, r.c), Add(h.d, r.d), Add(h.e, r.e))
  }

  // ----- Section 5.2.1: parsing a message into 512-bit blocks -----

  function Word(p0: bv8, p1: bv8, p2: bv8, p3: bv8): (w: bv32) {
    (p0 as bv32 << 24) | (p1 as bv32 << 16) | (p2 as bv32 << 8) | (p3 as bv32)
  }

  function Parse(s: seq<bv8>): (m: Block)
    requires |s| == 64
  {
    seq(16, i requires 0 <= i < 16 => Word(s[4 * i], s[4 * i + 1], s[4 * i + 2], s[4 * i + 3]))
  }

  function HashBlocks(s: seq<bv8>): (h: Registers)
    requires |s| % 64 == 0
  {
    if s == [] then H0 else Compress(HashBlocks(s[..|s| - 64]), Parse(s[|s| - 64..]))
  }

  // ----- Section 5.1.1: padding -----

  function BitLength(bytes: nat): (l: bv64) { (bytes * 8 % 0x1_0000_0000_0000_0000) as bv64 }

  function High(l: bv64): (w: bv32) { (l >> 32) as bv32 }

  function Low(l: bv64): (w: bv32) { (l & 0xffff_ffff) as bv32 }

  function WordBytes(w: bv32): (s: seq<bv8>)
    ensures |s| == 4
  {
    [(w >> 24) as bv8, ((w >> 16) & 0xff) as bv8, ((w >> 8) & 0xff) as bv8, (w & 0xff) as bv8]
  }

  function Zeros(n: nat): (s: seq<bv8>)
    ensures |s| == n
  {
    seq(n, i => 0)
  }

  /** The fewest zero bytes after which the length ends a block. */
  function Fill(n: nat): (z: nat)
    ensures z < 64 && (n + 9 + z) % 64 == 0
  {
    if n % 64 < 56 then 55 - n % 64 else 119 - n % 64
  }

  /** One bit, zeros, and the length in bits. */
  function Pad(m: seq<bv8>, l: bv64): (s: seq<bv8>)
    ensures |s| % 64 == 0
  {
    hide High;
    hide Low;
    m + [0x80] + Zeros(Fill(|m|)) + (WordBytes(High(l)) + WordBytes(Low(l)))
  }

  function RegisterBytes(h: Registers): (s: seq<bv8>) {
    WordBytes(h.a) + WordBytes(h.b) + WordBytes(h.c) + WordBytes(h.d) + WordBytes(h.e)
  }

  function Digest(m: seq<bv8>): (s: seq<bv8>) { RegisterBytes(HashBlocks(Pad(m, BitLength(|m|)))) }
}
