/** The buffered hash object. The ghost field `message` is everything it has been given. */
module Sha1Hash {
  import opened Sha1Spec

  const TWO_32: nat := 0x1_0000_0000

  /** Circular left rotation by shifts. */
  function Lrot1(x: bv32): bv32 { (x << 1) | (x >> 31) }

  function Lrot5(x: bv32): bv32 { (x << 5) | (x >> 27) }

  function Lrot30(x: bv32): bv32 { (x << 30) | (x >> 2) }

  lemma LrotIsRotl(x: bv32)
    ensures Lrot1(x) == Rotl1(x) && Lrot5(x) == Rotl5(x) && Lrot30(x) == Rotl30(x)
  {
  }

  function Choose(b: bv32, c: bv32, d: bv32): bv32 { (b & c) | ((b ^ 0xFFFFFFFF) & d) }

  function Majority(b: bv32, c: bv32, d: bv32): bv32 { (b & c) | (b & d) | (c & d) }

  lemma OrIsXor(p: bv32, q: bv32)
    requires p & q == 0
    ensures p | q == p ^ q
  {
  }

  lemma NotIsXor(b: bv32)
    ensures b ^ 0xFFFFFFFF == !b
  {
  }

  lemma ChoiceApart(b: bv32, c: bv32, d: bv32)
    ensures (b & c) & (!b & d) == 0
  {
  }

  /** The code's form of the choice function is the standard's. */
  lemma ChooseIsCh(b: bv32, c: bv32, d: bv32)
    ensures Choose(b, c, d) == Ch(b, c, d)
  {
    NotIsXor(b);
    ChoiceApart(b, c, d);
    OrIsXor(b & c, !b & d);
  }

  lemma MajoritySplit(b: bv32, c: bv32, d: bv32)
    ensures (b & (c ^ d)) | (c & d) == Majority(b, c, d)
  {
  }

  lemma XorDistributes(b: bv32, c: bv32, d: bv32)
    ensures (b & c) ^ (b & d) == b & (c ^ d)
  {
  }

  lemma MajorityApart(b: bv32, c: bv32, d: bv32)
    ensures (b & (c ^ d)) & (c & d) == 0
  {
  }

  /** The code's form of the majority function is the standard's. */
  lemma MajorityIsMaj(b: bv32, c: bv32, d: bv32)
    ensures Majority(b, c, d) == Maj(b, c, d)
  {
    calc {
      Majority(b, c, d);
      { MajoritySplit(b, c, d); }
      (b & (c ^ d)) | (c & d);
      { MajorityApart(b, c, d); OrIsXor(b & (c ^ d), c & d); }
      (b & (c ^ d)) ^ (c & d);
      { XorDistributes(b, c, d); }
      ((b & c) ^ (b & d)) ^ (c & d);
    }
  }

  /** The round function selected in round t. */
  method SelectF(t: nat, b: bv32, c: bv32, d: bv32) returns (f: bv32)
    ensures f == F(t, b, c, d)
  {
    if t < 20 {
      ChooseIsCh(b, c, d);
      f := Choose(b, c, d);
    } else if t < 40 {
      f := (b ^ c) ^ d;
    } else if t < 60 {
      MajorityIsMaj(b, c, d);
      f := Majority(b, c, d);
    } else {
      f := (b ^ c) ^ d;
    }
  }

  /** The sum of a round; the code adds the schedule word before the constant. */
  method Sum(p: bv32, f: bv32, e: bv32, w: bv32, k: bv32) returns (r: bv32)
    ensures r == Sum5(p, f, e, k, w)
  {
    r := p + f + e + w + k;
  }

  method RotateBy5(x: bv32) returns (r: bv32)
    ensures r == Rotl5(x)
  {
    LrotIsRotl(x);
    r := Lrot5(x);
  }

  method RotateBy30(x: bv32) returns (r: bv32)
    ensures r == Rotl30(x)
  {
    LrotIsRotl(x);
    r := Lrot30(x);
  }

  method Mixed(x: bv32, y: bv32, z: bv32, u: bv32) returns (r: bv32)
    ensures r == Mix(x, y, z, u)
  {
    LrotIsRotl(((x ^ y) ^ z) ^ u);
    r := Lrot1(((x ^ y) ^ z) ^ u);
  }

  /** The body of the main loop. */
  method RoundStep(a: bv32, b: bv32, c: bv32, d: bv32, e: bv32, t: nat, w: bv32)
    returns (a': bv32, b': bv32, c': bv32, d': bv32, e': bv32)
    ensures Hash(a', b', c', d', e') == Round(Hash(a, b, c, d, e), t, w)
  {
    var f := SelectF(t, b, c, d);
    var p := RotateBy5(a);
    var temp := Sum(p, f, e, w, K(t));
    e' := d;
    d' := c;
    c' := RotateBy30(b);
    b' := a;
    a' := temp;
  }

  /** The 80 rounds, from the starting values. */
  method MainLoop(start: Hash, w: array<bv32>) returns (r: Hash)
    requires w.Length == 80
    ensures r == AllRounds(start, w[..])
  {
    ghost var ws := w[..];
    var a, b, c, d, e := start.a, start.b, start.c, start.d, start.e;
    var t := 0;
    while t < 80
      invariant 0 <= t <= 80 && w[..] == ws
      invariant Hash(a, b, c, d, e) == Rounds(start, ws, t)
    {
      a, b, c, d, e := RoundStep(a, b, c, d, e, t, w[t]);
      t := t + 1;
    }
    r := Hash(a, b, c, d, e);
  }

  class SHA1 {
    var h: Hash  // the words H0 to H4
    const bytes: array<Octet>
    var unprocessedBytes: nat
    var size: nat
    ghost const compress: Compressor
    ghost var message: seq<Octet>

    /** The words are the hash value after the full blocks of the message; the buffer holds the
        rest; the size is the message length modulo 2^32. */
    ghost predicate Valid()
      reads this, bytes
    {
      Held() && size == Wrapped(|message|) && IsCompress(compress)
    }

    ghost predicate Held()
      reads this, bytes
    {
      && bytes.Length == 64 && unprocessedBytes == Tail(|message|)
      && h == Fold(compress, FullBlocks(message))
      && bytes[..unprocessedBytes] == Rest(message)
    }

    constructor ()
      ensures Valid() && message == [] && fresh(bytes)
    {
      h := Hash(0x67452301, 0xefcdab89, 0x98badcfe, 0x10325476, 0xc3d2e1f0);
      bytes := new Octet[64](_ => 0);
      unprocessedBytes, size := 0, 0;
      compress := (g: Hash, b: seq<Octet>) => if |b| == 64 then Compress(g, b) else g;
      message := [];
    }

    /** Expands the buffered block into 80 words. */
    method Expand() returns (w: array<bv32>)
      requires bytes.Length == 64
      ensures fresh(w) && w[..] == Schedule(bytes[..])
    {
      w := new bv32[80](_ => 0);
      ghost var block := bytes[..];
      var t := 0;
      while t < 16
        invariant 0 <= t <= 16 && bytes[..] == block
        invariant forall k :: 0 <= k < t ==> w[k] == W(block, k)
      {
        w[t] := WordOf(bytes[t * 4], bytes[t * 4 + 1], bytes[t * 4 + 2], bytes[t * 4 + 3]);
        t := t + 1;
      }
      while t < 80
        invariant 16 <= t <= 80 && bytes[..] == block
        invariant forall k :: 0 <= k < t ==> w[k] == W(block, k)
      {
        var x := Mixed(w[t - 3], w[t - 8], w[t - 14], w[t - 16]);
        w[t] := x;
        t := t + 1;
      }
    }

    /** Compresses the full buffer into the hash words. */
    method Process()
      requires bytes.Length == 64 && unprocessedBytes == 64 && IsCompress(compress)
      modifies this`h, this`unprocessedBytes
      ensures h == compress(old(h), bytes[..]) && unprocessedBytes == 0
    {
      var w := Expand();
      var r := MainLoop(h, w);
      assert AddHash(h, r) == Compress(h, bytes[..]);
      h := AddHash(h, r);
      unprocessedBytes := 0;
    }

    /** Feeds a non-empty chunk, block by block. */
    method AddBytes(data: seq<Octet>)
      requires Valid() && 0 < |data| < 0x8000_0000
      modifies this, bytes
      ensures Valid() && message == old(message) + data
    {
      ghost var before, whole := message, message + data;
      SizeAdds(message, data);
      size := AddSize(size, |data|);
      var done := 0;
      while done < |data|
        invariant 0 <= done <= |data| && message == before + data[..done] && Held()
        invariant size == Wrapped(|whole|)
      {
        var needed := 64 - unprocessedBytes;
        var toCopy := if |data| - done < needed then |data| - done else needed;
        Fill(data, done, toCopy);
        NextSlice(before, data, done, toCopy);
        done := done + toCopy;
      }
      assert data[..done] == data;
      assert message == whole;
    }

    /** Adds n bytes that fit the buffer, and processes it if that fills it. */
    method Fill(data: seq<Octet>, from: nat, n: nat)
      requires Held() && IsCompress(compress) && unprocessedBytes + n <= 64 && from + n <= |data|
      modifies this`h, this`unprocessedBytes, this`message, bytes
      ensures Held() && message == old(message) + data[from..from + n]
    {
      ghost var chunk := data[from..from + n];
      Append(compress, message, chunk);
      Copy(data, from, n);
      unprocessedBytes := unprocessedBytes + n;
      message := message + chunk;
      if unprocessedBytes == 64 {
        assert bytes[..64] == bytes[..];
        Process();
      }
    }

    /** Copies n bytes of data into the buffer after the unprocessed ones. */
    method Copy(data: seq<Octet>, from: nat, n: nat)
      requires bytes.Length == 64 && unprocessedBytes + n <= 64 && from + n <= |data|
      modifies bytes
      ensures bytes[..unprocessedBytes + n] == old(bytes[..unprocessedBytes]) + data[from..from + n]
    {
      var i := 0;
      while i < n
        invariant 0 <= i <= n
        invariant bytes[..unprocessedBytes + i] == old(bytes[..unprocessedBytes]) + data[from..from + i]
      {
        bytes[unprocessedBytes + i] := data[from + i];
        assert bytes[..unprocessedBytes + i + 1] == bytes[..unprocessedBytes + i] + [data[from + i]];
        assert data[from..from + i + 1] == data[from..from + i] + [data[from + i]];
        i := i + 1;
      }
    }

    /** Fills the block with zeros if it has no room for the length. */
    method FinishBlock()
      requires Valid()
      modifies this, bytes
      ensures Valid() && unprocessedBytes <= 56
      ensures message == old(message) + Zeros(FillerZeros(Tail(|old(message)|)))
      ensures Tail(|message|) == if Tail(|old(message)|) > 56 then 0 else Tail(|old(message)|)
    {
      if unprocessedBytes > 56 {
        var n := 64 - unprocessedBytes;
        TailAdds(|message|, n);
        var footer := Zeros(64);
        assert footer[..n] == Zeros(n);
        AddBytes(footer[..n]);
      } else {
        assert message == message + Zeros(0);
      }
    }

    /** Adds as many zeros as leave room for just the length, and the length. */
    method AddLength(high: bv32, low: bv32)
      requires Valid() && unprocessedBytes <= 56
      modifies this, bytes
      ensures Valid() && Tail(|message|) == 0
      ensures message == old(message) + (Zeros(56 - Tail(|old(message)|)) + (BytesOf(high) + BytesOf(low)))
    {
      var neededZeros := 56 - unprocessedBytes;
      TailAdds(|message|, neededZeros + 8);
      var footer := Footer(neededZeros, high, low);
      AddBytes(footer[..neededZeros + 8]);
    }

    /** The digest of everything the object has been given. */
    method GetDigest() returns (digest: array<Octet>)
      requires Valid()
      modifies this, bytes
      ensures fresh(digest) && digest[..] == DigestWith(old(message), 8 * (|old(message)| % 0x1_0000_0000))
      ensures |old(message)| < TWO_32 ==> digest[..] == Sha1(old(message))
    {
      ghost var m := message;
      var totalBitsL := LowBits(size);
      var totalBitsH := HighBits(size);
      LengthWords(size);
      AddBytes([0x80]);
      FinishBlock();
      AddLength(totalBitsH, totalBitsL);
      PaddedMessage(m, Wrapped(|m|), BitLength(Wrapped(|m|)), message);
      FoldIsHashBlocks(compress, message);
      digest := WriteDigest(h);
      DigestIsSha1(m, message);
    }
  }

  /** However the bytes were cut into chunks, the same message leaves the same hash words, the
      same size and the same bytes waiting in the buffer. */
  lemma ChunksDoNotMatter(x: SHA1, y: SHA1)
    requires x.Valid() && y.Valid() && x.message == y.message
    ensures x.h == y.h == HashBlocks(FullBlocks(x.message))
    ensures x.size == y.size && x.unprocessedBytes == y.unprocessedBytes
    ensures x.bytes[..x.unprocessedBytes] == y.bytes[..y.unprocessedBytes] == Rest(x.message)
  {
    FoldIsHashBlocks(x.compress, FullBlocks(x.message));
    FoldIsHashBlocks(y.compress, FullBlocks(x.message));
  }

  /** A block of zeros with a 64-bit number after the first n. */
  method Footer(n: nat, high: bv32, low: bv32) returns (f: array<Octet>)
    requires n <= 56
    ensures fresh(f) && f.Length == 64 && f[..n + 8] == Zeros(n) + (BytesOf(high) + BytesOf(low))
  {
    f := new Octet[64](_ => 0);
    assert f[..n] == Zeros(n);
    StoreBigEndian(f, n, high);
    StoreBigEndian(f, n + 4, low);
  }

  method WriteDigest(h: Hash) returns (digest: array<Octet>)
    ensures fresh(digest) && digest[..] == DigestOf(h)
  {
    digest := new Octet[20](_ => 0);
    StoreBigEndian(digest, 0, h.a);
    StoreBigEndian(digest, 4, h.b);
    StoreBigEndian(digest, 8, h.c);
    StoreBigEndian(digest, 12, h.d);
    StoreBigEndian(digest, 16, h.e);
    assert digest[..] == digest[..20];
  }

  /** Stores a word in an array, most significant byte first. */
  method StoreBigEndian(a: array<Octet>, at: nat, num: bv32)
    requires at + 4 <= a.Length
    modifies a
    ensures a[..at + 4] == old(a[..at]) + BytesOf(num)
    ensures a[at + 4..] == old(a[at + 4..])
  {
    a[at] := ((num >> 24) & 0xFF) as bv8;
    a[at + 1] := ((num >> 16) & 0xFF) as bv8;
    a[at + 2] := ((num >> 8) & 0xFF) as bv8;
    a[at + 3] := (num & 0xFF) as bv8;
  }

  /** The zeros that finish a block of u bytes with no room for the length. */
  function FillerZeros(u: nat): nat
    requires u < 64
  {
    if u > 56 then 64 - u else 0
  }

  /** The size in bits, low word. */
  function LowBits(size: nat): bv32 {
    ToWord((size * 8) % TWO_32)
  }

  /** The size in bits, high word. */
  function HighBits(size: nat): bv32
    requires size < TWO_32
  {
    ToWord(size / 0x2000_0000)
  }

  /** Shifting the size by three bits, over two words, gives the length in bits. */
  lemma LengthWords(size: nat)
    requires size < TWO_32
    ensures LengthField(BitLength(size)) == BytesOf(HighBits(size)) + BytesOf(LowBits(size))
  {
    WordsOfLength(size);
  }

  lemma WordsOfLength(size: nat)
    requires size < TWO_32
    ensures HighPart(BitLength(size)) == size / 0x2000_0000
    ensures LowPart(BitLength(size)) == (size * 8) % TWO_32
  {
    var q, r := size / 0x2000_0000, size % 0x2000_0000;
    assert size == 0x2000_0000 * q + r;
    assert 8 * size == 0x1_0000_0000 * q + 8 * r;
  }

  lemma ZerosConcat(a: nat, b: nat)
    ensures Zeros(a) + Zeros(b) == Zeros(a + b)
  {
  }

  lemma ZerosMatch(len: nat)
    ensures var u := Tail(len + 1);
      FillerZeros(u) + (56 - if u > 56 then 0 else u) == ZeroCount(len)
  {
    var r := len % 64;
    TailAfterOne(len, r);
    var k := 119 - r;
    assert k % 64 == if r < 56 then k - 64 else k;
  }

  lemma TailAfterOne(len: nat, r: nat)
    requires r == len % 64
    ensures Tail(len + 1) == if r == 63 then 0 else r + 1
  {
    assert len == 64 * (len / 64) + r;
  }

  /** What the object adds to a message is its padding. */
  lemma PaddedMessage(m: seq<Octet>, size: nat, bits: nat, padded: seq<Octet>)
    requires size < TWO_32 && bits == BitLength(size)
    requires var u := Tail(|m + [0x80]|);
      padded == m + [0x80] + Zeros(FillerZeros(u))
                + (Zeros(56 - if u > 56 then 0 else u) + (BytesOf(HighBits(size)) + BytesOf(LowBits(size))))
    ensures padded == m + Padding(|m|, bits) && FullBlocks(padded) == padded && |padded| % 64 == 0
  {
    var u := Tail(|m + [0x80]|);
    var z1, z2 := FillerZeros(u), 56 - if u > 56 then 0 else u;
    var tail := BytesOf(HighBits(size)) + BytesOf(LowBits(size));
    LengthWords(size);
    ZerosMatch(|m|);
    PaddingForm(m, z1, z2, tail, bits);
    PaddedWhole(m, bits, padded);
  }

  lemma PaddingForm(m: seq<Octet>, z1: nat, z2: nat, tail: seq<Octet>, bits: nat)
    requires z1 + z2 == ZeroCount(|m|) && tail == LengthField(bits)
    ensures m + [0x80] + Zeros(z1) + (Zeros(z2) + tail) == m + Padding(|m|, bits)
  {
    ZerosConcat(z1, z2);
    Regroup(m, [0x80], Zeros(z1), Zeros(z2), tail);
  }

  lemma PaddedWhole(m: seq<Octet>, bits: nat, padded: seq<Octet>)
    requires padded == m + Padding(|m|, bits)
    ensures FullBlocks(padded) == padded && |padded| % 64 == 0
  {
    PaddingFits(|m|);
    assert WholeBlocks(|padded|);
  }

  lemma Regroup(a: seq<Octet>, b: seq<Octet>, c: seq<Octet>, d: seq<Octet>, e: seq<Octet>)
    ensures a + b + c + (d + e) == a + (b + (c + d) + e)
  {
  }

  lemma DigestIsSha1(m: seq<Octet>, padded: seq<Octet>)
    requires |padded| % 64 == 0 && padded == m + Padding(|m|, BitLength(Wrapped(|m|)))
    ensures DigestOf(HashBlocks(padded)) == DigestWith(m, BitLength(Wrapped(|m|)))
    ensures |m| < TWO_32 ==> DigestWith(m, BitLength(Wrapped(|m|))) == Sha1(m)
  {
    DigestOfPadded(m, BitLength(Wrapped(|m|)), padded);
    ShortLength(|m|);
  }

  lemma DigestOfPadded(m: seq<Octet>, bits: nat, padded: seq<Octet>)
    requires |padded| % 64 == 0 && padded == m + Padding(|m|, bits)
    ensures DigestOf(HashBlocks(padded)) == DigestWith(m, bits)
  {
  }

  lemma ShortLength(n: nat)
    ensures n < TWO_32 ==> Wrapped(n) == n
  {
  }

  /** How much of a message of n bytes is left after its whole blocks. */
  function Tail(n: nat): (r: nat)
    ensures r < 64 && r <= n && (n - r) % 64 == 0
  {
    n % 64
  }

  /** The whole blocks at the front of a message. */
  function FullBlocks(m: seq<Octet>): (b: seq<Octet>)
    ensures |b| % 64 == 0
  {
    m[..|m| - Tail(|m|)]
  }

  /** What is left after the whole blocks. */
  function Rest(m: seq<Octet>): (r: seq<Octet>)
    ensures |r| == Tail(|m|)
  {
    m[|m| - Tail(|m|)..]
  }

  /** A number kept in 32 bits. */
  function Wrapped(n: nat): nat {
    n % TWO_32
  }

  function AddSize(size: nat, n: nat): nat {
    (size + n) % TWO_32
  }

  lemma SizeAdds(m: seq<Octet>, data: seq<Octet>)
    ensures AddSize(Wrapped(|m|), |data|) == Wrapped(|m + data|)
  {
  }

  lemma NextSlice(before: seq<Octet>, data: seq<Octet>, i: nat, n: nat)
    requires i + n <= |data|
    ensures (before + data[..i]) + data[i..i + n] == before + data[..i + n]
  {
  }

  lemma TailAdds(n: nat, k: nat)
    requires Tail(n) + k <= 64
    ensures Tail(n + k) == if Tail(n) + k < 64 then Tail(n) + k else 0
  {
  }

  /** Appending at most what completes the current block. */
  lemma Append(f: Compressor, m: seq<Octet>, chunk: seq<Octet>)
    requires Tail(|m|) + |chunk| <= 64
    ensures var n := m + chunk;
      if Tail(|m|) + |chunk| < 64
      then FullBlocks(n) == FullBlocks(m) && Rest(n) == Rest(m) + chunk && Tail(|n|) == Tail(|m|) + |chunk|
      else Tail(|n|) == 0 && Rest(n) == []
           && Fold(f, FullBlocks(n)) == f(Fold(f, FullBlocks(m)), Rest(m) + chunk)
  {
    var n := m + chunk;
    TailAdds(|m|, |chunk|);
    assert m == FullBlocks(m) + Rest(m);
    if Tail(|m|) + |chunk| == 64 {
      var b := FullBlocks(m) + (Rest(m) + chunk);
      assert n == b;
      assert FullBlocks(n) == b;
      assert b[..|b| - 64] == FullBlocks(m) && b[|b| - 64..] == Rest(m) + chunk;
    }
  }
}
