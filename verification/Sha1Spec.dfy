/** SHA-1 as FIPS 180-4 defines it: padding (section 5.1.1), parsing (5.2.1), initial hash value
    (5.3.1), functions and constants (4.1.1, 4.2.1) and hash computation (6.1.2). */
module Sha1Spec {
  type Octet = bv8

  datatype Hash = Hash(a: bv32, b: bv32, c: bv32, d: bv32, e: bv32)

  const H_INIT := Hash(0x67452301, 0xefcdab89, 0x98badcfe, 0x10325476, 0xc3d2e1f0)

  function Rotl1(x: bv32): bv32 { x.RotateLeft(1) }

  function Rotl5(x: bv32): bv32 { x.RotateLeft(5) }

  function Rotl30(x: bv32): bv32 { x.RotateLeft(30) }

  function Ch(x: bv32, y: bv32, z: bv32): bv32 { (x & y) ^ (!x & z) }

  function Parity(x: bv32, y: bv32, z: bv32): bv32 { (x ^ y) ^ z }

  function Maj(x: bv32, y: bv32, z: bv32): bv32 { ((x & y) ^ (x & z)) ^ (y & z) }

  function F(t: nat, x: bv32, y: bv32, z: bv32): bv32 {
    if t < 20 then Ch(x, y, z)
    else if t < 40 then Parity(x, y, z)
    else if t < 60 then Maj(x, y, z)
    else Parity(x, y, z)
  }

  function K(t: nat): bv32 {
    if t < 20 then 0x5a827999
    else if t < 40 then 0x6ed9eba1
    else if t < 60 then 0x8f1bbcdc
    else 0xca62c1d6
  }

  /** Four bytes as a word, most significant first. */
  function WordOf(b0: Octet, b1: Octet, b2: Octet, b3: Octet): bv32 {
    ((b0 as bv32) << 24) + ((b1 as bv32) << 16) + ((b2 as bv32) << 8) + (b3 as bv32)
  }

  function Mix(x: bv32, y: bv32, z: bv32, u: bv32): bv32 {
    Rotl1(((x ^ y) ^ z) ^ u)
  }

  /** The message schedule of a block. */
  function W(block: seq<Octet>, t: nat): bv32
    requires |block| == 64
    decreases t
  {
    if t < 16 then WordOf(block[4 * t], block[4 * t + 1], block[4 * t + 2], block[4 * t + 3])
    else Mix(W(block, t - 3), W(block, t - 8), W(block, t - 14), W(block, t - 16))
  }

  /** Addition modulo 2^32. */
  function Plus(x: bv32, y: bv32): bv32 { x + y }

  function Sum5(p: bv32, f: bv32, e: bv32, k: bv32, w: bv32): bv32 { p + f + e + k + w }

  /** One round with the schedule word w. */
  function Round(h: Hash, t: nat, w: bv32): Hash {
    Hash(Sum5(Rotl5(h.a), F(t, h.b, h.c, h.d), h.e, K(t), w), h.a, Rotl30(h.b), h.c, h.d)
  }

  /** The 80 words of the message schedule of a block. */
  function Schedule(block: seq<Octet>): (ws: seq<bv32>)
    requires |block| == 64
    ensures |ws| == 80
  {
    seq(80, t requires 0 <= t < 80 => W(block, t))
  }

  /** The working variables after t rounds. */
  function Rounds(h: Hash, ws: seq<bv32>, t: nat): Hash
    requires t <= |ws|
    decreases t
  {
    if t == 0 then h else Round(Rounds(h, ws, t - 1), t - 1, ws[t - 1])
  }

  /** The working variables after one round for each schedule word. */
  function AllRounds(h: Hash, ws: seq<bv32>): Hash {
    Rounds(h, ws, |ws|)
  }

  function AddHash(g: Hash, h: Hash): Hash {
    Hash(Plus(g.a, h.a), Plus(g.b, h.b), Plus(g.c, h.c), Plus(g.d, h.d), Plus(g.e, h.e))
  }

  function Compress(h: Hash, block: seq<Octet>): Hash
    requires |block| == 64
  {
    AddHash(h, AllRounds(h, Schedule(block)))
  }

  /** A word as four bytes, most significant first. */
  function BytesOf(w: bv32): (b: seq<Octet>)
    ensures |b| == 4
  {
    [((w >> 24) & 0xFF) as bv8, ((w >> 16) & 0xFF) as bv8, ((w >> 8) & 0xFF) as bv8, (w & 0xFF) as bv8]
  }

  type Compressor = (Hash, seq<Octet>) -> Hash

  /** Folding a compression over the blocks of m, from the initial hash value. */
  function Fold(f: Compressor, m: seq<Octet>): Hash
    requires |m| % 64 == 0
    decreases |m|
  {
    if |m| == 0 then H_INIT else f(Fold(f, m[..|m| - 64]), m[|m| - 64..])
  }

  const COMPRESSION: Compressor := (h: Hash, b: seq<Octet>) => if |b| == 64 then Compress(h, b) else h

  /** The hash value after all blocks of m. */
  function HashBlocks(m: seq<Octet>): Hash
    requires |m| % 64 == 0
  {
    Fold(COMPRESSION, m)
  }

  /** A function that agrees with `Compress`. Proofs about blocks and buffering need no more of
      it than its name. */
  ghost predicate IsCompress(f: Compressor) {
    forall h: Hash, b: seq<Octet> {:trigger Compress(h, b)} :: |b| == 64 ==> f(h, b) == Compress(h, b)
  }

  ghost predicate Agree(f: Compressor, g: Compressor) {
    forall h: Hash, b: seq<Octet> {:trigger f(h, b)} :: |b| == 64 ==> f(h, b) == g(h, b)
  }

  lemma {:induction false} FoldAgrees(f: Compressor, g: Compressor, m: seq<Octet>)
    requires |m| % 64 == 0 && Agree(f, g)
    ensures Fold(f, m) == Fold(g, m)
    decreases |m|
  {
    if |m| > 0 {
      FoldAgrees(f, g, m[..|m| - 64]);
    }
  }

  lemma CompressAgrees(f: Compressor)
    requires IsCompress(f)
    ensures Agree(f, COMPRESSION)
  {
    forall h: Hash, b: seq<Octet> | |b| == 64 ensures f(h, b) == COMPRESSION(h, b) {
      assert f(h, b) == Compress(h, b);
    }
  }

  lemma FoldIsHashBlocks(f: Compressor, m: seq<Octet>)
    requires |m| % 64 == 0 && IsCompress(f)
    ensures Fold(f, m) == HashBlocks(m)
  {
    CompressAgrees(f);
    FoldAgrees(f, COMPRESSION, m);
  }

  /** The 64-bit big-endian length field: its high word, then its low word. */
  function LengthField(bits: nat): (b: seq<Octet>)
    ensures |b| == 8
  {
    BytesOf(ToWord(HighPart(bits))) + BytesOf(ToWord(LowPart(bits)))
  }

  function HighPart(bits: nat): (w: nat)
    ensures w < 0x1_0000_0000
  {
    (bits / 0x1_0000_0000) % 0x1_0000_0000
  }

  function LowPart(bits: nat): (w: nat)
    ensures w < 0x1_0000_0000
  {
    bits % 0x1_0000_0000
  }

  /** The two words are the length. */
  lemma LengthParts(bits: nat)
    requires bits < 0x1_0000_0000_0000_0000
    ensures HighPart(bits) * 0x1_0000_0000 + LowPart(bits) == bits
  {
  }

  function ToWord(n: nat): bv32
    requires n < 0x1_0000_0000
  {
    n as bv32
  }

  /** The number of zero bytes after the 0x80 byte: the least that leaves eight bytes of the last
      block for the length. */
  function ZeroCount(len: nat): nat {
    (119 - len % 64) % 64
  }

  function Zeros(n: nat): (z: seq<Octet>)
    ensures |z| == n
  {
    seq(n, _ => 0)
  }

  /** The padding for a message of len bytes, with the given number of bits as its length. */
  function Padding(len: nat, bits: nat): (p: seq<Octet>)
    ensures |p| == 1 + ZeroCount(len) + 8
  {
    [0x80] + Zeros(ZeroCount(len)) + LengthField(bits)
  }

  predicate WholeBlocks(n: nat) {
    n % 64 == 0
  }

  /** With k zeros: the message, one byte, the zeros, eight bytes. */
  function PaddedLength(len: nat, k: nat): nat {
    len + 1 + k + 8
  }

  /** Padding fills the last block, with the least number of zeros that does. */
  lemma PaddingFits(len: nat)
    ensures WholeBlocks(PaddedLength(len, ZeroCount(len)))
    ensures forall k :: 0 <= k < ZeroCount(len) ==> !WholeBlocks(PaddedLength(len, k))
  {
    var r := len % 64;
    assert len == 64 * (len / 64) + r;
    forall k | 0 <= k < ZeroCount(len) ensures !WholeBlocks(PaddedLength(len, k)) {
      assert (len + 9 + k) % 64 == (r + 9 + k) % 64;
    }
  }

  function DigestOf(h: Hash): (b: seq<Octet>)
    ensures |b| == 20
  {
    BytesOf(h.a) + BytesOf(h.b) + BytesOf(h.c) + BytesOf(h.d) + BytesOf(h.e)
  }

  /** The digest of a message whose length is encoded as the given number of bits. */
  function DigestWith(m: seq<Octet>, bits: nat): (b: seq<Octet>)
    ensures |b| == 20
  {
    PaddingFits(|m|);
    assert WholeBlocks(|m + Padding(|m|, bits)|);
    DigestOf(HashBlocks(m + Padding(|m|, bits)))
  }

  function BitLength(n: nat): nat {
    8 * n
  }

  /** SHA-1 of a message of less than 2^61 bytes. */
  function Sha1(m: seq<Octet>): seq<Octet> {
    DigestWith(m, BitLength(|m|))
  }
}
