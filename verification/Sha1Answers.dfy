/** Known answers of SHA-1: the digests of the example messages of one and of two blocks, by the values
    of all schedule words and of the first working variable after every round, sixteen at a time. */
module Sha1Answers {
  import opened Sha1Spec

  datatype Sixteen = Sixteen(
    x0: bv32, x1: bv32, x2: bv32, x3: bv32, x4: bv32, x5: bv32, x6: bv32, x7: bv32, x8: bv32, x9: bv32, x10: bv32, x11: bv32, x12: bv32, x13: bv32, x14: bv32, x15: bv32)

  /** Words t to t + 15 are those of g. */
  predicate Words(ws: seq<bv32>, t: nat, g: Sixteen) {
    t + 16 <= |ws|
    && ws[t] == g.x0 && ws[t + 1] == g.x1 && ws[t + 2] == g.x2 && ws[t + 3] == g.x3
    && ws[t + 4] == g.x4 && ws[t + 5] == g.x5 && ws[t + 6] == g.x6 && ws[t + 7] == g.x7
    && ws[t + 8] == g.x8 && ws[t + 9] == g.x9 && ws[t + 10] == g.x10 && ws[t + 11] == g.x11
    && ws[t + 12] == g.x12 && ws[t + 13] == g.x13 && ws[t + 14] == g.x14 && ws[t + 15] == g.x15
  }

  /** The first eight of n follow the schedule words p. */
  predicate FollowEarlier(p: Sixteen, n: Sixteen) {
    && n.x0 == Mix(p.x13, p.x8, p.x2, p.x0)
    && n.x1 == Mix(p.x14, p.x9, p.x3, p.x1)
    && n.x2 == Mix(p.x15, p.x10, p.x4, p.x2)
    && n.x3 == Mix(n.x0, p.x11, p.x5, p.x3)
    && n.x4 == Mix(n.x1, p.x12, p.x6, p.x4)
    && n.x5 == Mix(n.x2, p.x13, p.x7, p.x5)
    && n.x6 == Mix(n.x3, p.x14, p.x8, p.x6)
    && n.x7 == Mix(n.x4, p.x15, p.x9, p.x7)
  }

  /** The last eight of n follow them. */
  predicate FollowLater(p: Sixteen, n: Sixteen) {
    && n.x8 == Mix(n.x5, n.x0, p.x10, p.x8)
    && n.x9 == Mix(n.x6, n.x1, p.x11, p.x9)
    && n.x10 == Mix(n.x7, n.x2, p.x12, p.x10)
    && n.x11 == Mix(n.x8, n.x3, p.x13, p.x11)
    && n.x12 == Mix(n.x9, n.x4, p.x14, p.x12)
    && n.x13 == Mix(n.x10, n.x5, p.x15, p.x13)
    && n.x14 == Mix(n.x11, n.x6, n.x0, p.x14)
    && n.x15 == Mix(n.x12, n.x7, n.x1, p.x15)
  }

  /** Words t to t + 7 are the first eight of g. */
  predicate Half(ws: seq<bv32>, t: nat, g: Sixteen) {
    t + 8 <= |ws|
    && ws[t] == g.x0 && ws[t + 1] == g.x1 && ws[t + 2] == g.x2 && ws[t + 3] == g.x3
    && ws[t + 4] == g.x4 && ws[t + 5] == g.x5 && ws[t + 6] == g.x6 && ws[t + 7] == g.x7
  }

  lemma EarlierWords(block: seq<Octet>, t: nat, p: Sixteen, n: Sixteen)
    requires |block| == 64 && t + 32 <= 80 && Words(Schedule(block), t, p) && FollowEarlier(p, n)
    ensures Half(Schedule(block), t + 16, n)
  {
    OneWord(block, t + 16, p.x13, p.x8, p.x2, p.x0);
    OneWord(block, t + 17, p.x14, p.x9, p.x3, p.x1);
    OneWord(block, t + 18, p.x15, p.x10, p.x4, p.x2);
    OneWord(block, t + 19, n.x0, p.x11, p.x5, p.x3);
    OneWord(block, t + 20, n.x1, p.x12, p.x6, p.x4);
    OneWord(block, t + 21, n.x2, p.x13, p.x7, p.x5);
    OneWord(block, t + 22, n.x3, p.x14, p.x8, p.x6);
    OneWord(block, t + 23, n.x4, p.x15, p.x9, p.x7);
  }

  lemma LaterWords(block: seq<Octet>, t: nat, p: Sixteen, n: Sixteen)
    requires |block| == 64 && t + 32 <= 80 && Words(Schedule(block), t, p) && FollowLater(p, n)
    requires Half(Schedule(block), t + 16, n)
    ensures Words(Schedule(block), t + 16, n)
  {
    OneWord(block, t + 24, n.x5, n.x0, p.x10, p.x8);
    OneWord(block, t + 25, n.x6, n.x1, p.x11, p.x9);
    OneWord(block, t + 26, n.x7, n.x2, p.x12, p.x10);
    OneWord(block, t + 27, n.x8, n.x3, p.x13, p.x11);
    OneWord(block, t + 28, n.x9, n.x4, p.x14, p.x12);
    OneWord(block, t + 29, n.x10, n.x5, p.x15, p.x13);
    OneWord(block, t + 30, n.x11, n.x6, n.x0, p.x14);
    OneWord(block, t + 31, n.x12, n.x7, n.x1, p.x15);
  }

  lemma OneWord(block: seq<Octet>, t: nat, u: bv32, v: bv32, x: bv32, y: bv32)
    requires |block| == 64 && 16 <= t < 80
    requires var ws := Schedule(block); ws[t - 3] == u && ws[t - 8] == v && ws[t - 14] == x && ws[t - 16] == y
    ensures Schedule(block)[t] == Mix(u, v, x, y)
  {
  }

  /** The working variables, from five successive values of the first one. */
  function Vars(a0: bv32, a1: bv32, a2: bv32, a3: bv32, a4: bv32): Hash {
    Hash(a4, a3, Rotl30(a2), Rotl30(a1), Rotl30(a0))
  }

  /** One round, told by the first working variable alone. */
  predicate RoundOk(t: nat, a0: bv32, a1: bv32, a2: bv32, a3: bv32, a4: bv32, w: bv32, a5: bv32) {
    a5 == Sum5(Rotl5(a4), F(t, a3, Rotl30(a2), Rotl30(a1)), Rotl30(a0), K(t), w)
  }

  /** Values n of the first working variable in rounds t to t + 7, after the values p. */
  predicate EarlierOk(t: nat, p: Sixteen, w: Sixteen, n: Sixteen) {
    && RoundOk(t, p.x11, p.x12, p.x13, p.x14, p.x15, w.x0, n.x0)
    && RoundOk(t + 1, p.x12, p.x13, p.x14, p.x15, n.x0, w.x1, n.x1)
    && RoundOk(t + 2, p.x13, p.x14, p.x15, n.x0, n.x1, w.x2, n.x2)
    && RoundOk(t + 3, p.x14, p.x15, n.x0, n.x1, n.x2, w.x3, n.x3)
    && RoundOk(t + 4, p.x15, n.x0, n.x1, n.x2, n.x3, w.x4, n.x4)
    && RoundOk(t + 5, n.x0, n.x1, n.x2, n.x3, n.x4, w.x5, n.x5)
    && RoundOk(t + 6, n.x1, n.x2, n.x3, n.x4, n.x5, w.x6, n.x6)
    && RoundOk(t + 7, n.x2, n.x3, n.x4, n.x5, n.x6, w.x7, n.x7)
  }

  /** The values in the next eight rounds. */
  predicate LaterOk(t: nat, w: Sixteen, n: Sixteen) {
    && RoundOk(t + 8, n.x3, n.x4, n.x5, n.x6, n.x7, w.x8, n.x8)
    && RoundOk(t + 9, n.x4, n.x5, n.x6, n.x7, n.x8, w.x9, n.x9)
    && RoundOk(t + 10, n.x5, n.x6, n.x7, n.x8, n.x9, w.x10, n.x10)
    && RoundOk(t + 11, n.x6, n.x7, n.x8, n.x9, n.x10, w.x11, n.x11)
    && RoundOk(t + 12, n.x7, n.x8, n.x9, n.x10, n.x11, w.x12, n.x12)
    && RoundOk(t + 13, n.x8, n.x9, n.x10, n.x11, n.x12, w.x13, n.x13)
    && RoundOk(t + 14, n.x9, n.x10, n.x11, n.x12, n.x13, w.x14, n.x14)
    && RoundOk(t + 15, n.x10, n.x11, n.x12, n.x13, n.x14, w.x15, n.x15)
  }

  lemma OneRound(h: Hash, ws: seq<bv32>, t: nat, a0: bv32, a1: bv32, a2: bv32, a3: bv32, a4: bv32, w: bv32, a5: bv32)
    requires t < |ws| && Rounds(h, ws, t) == Vars(a0, a1, a2, a3, a4) && ws[t] == w && RoundOk(t, a0, a1, a2, a3, a4, w, a5)
    ensures Rounds(h, ws, t + 1) == Vars(a1, a2, a3, a4, a5)
  {
  }

  /** The working variables before round t. */
  predicate Reached(h: Hash, ws: seq<bv32>, t: nat, n: Sixteen) {
    t <= |ws| && Rounds(h, ws, t) == Vars(n.x11, n.x12, n.x13, n.x14, n.x15)
  }

  predicate HalfReached(h: Hash, ws: seq<bv32>, t: nat, n: Sixteen) {
    t <= |ws| && Rounds(h, ws, t) == Vars(n.x3, n.x4, n.x5, n.x6, n.x7)
  }

  lemma LastRound(h: Hash, ws: seq<bv32>, t: nat, n: Sixteen)
    requires t == |ws| && Reached(h, ws, t, n)
    ensures AllRounds(h, ws) == Vars(n.x11, n.x12, n.x13, n.x14, n.x15)
  {
  }

  lemma EarlierRounds(h: Hash, ws: seq<bv32>, t: nat, p: Sixteen, w: Sixteen, n: Sixteen)
    requires Words(ws, t, w) && EarlierOk(t, p, w, n) && Reached(h, ws, t, p)
    ensures HalfReached(h, ws, t + 8, n)
  {
    OneRound(h, ws, t, p.x11, p.x12, p.x13, p.x14, p.x15, w.x0, n.x0);
    OneRound(h, ws, t + 1, p.x12, p.x13, p.x14, p.x15, n.x0, w.x1, n.x1);
    OneRound(h, ws, t + 2, p.x13, p.x14, p.x15, n.x0, n.x1, w.x2, n.x2);
    OneRound(h, ws, t + 3, p.x14, p.x15, n.x0, n.x1, n.x2, w.x3, n.x3);
    OneRound(h, ws, t + 4, p.x15, n.x0, n.x1, n.x2, n.x3, w.x4, n.x4);
    OneRound(h, ws, t + 5, n.x0, n.x1, n.x2, n.x3, n.x4, w.x5, n.x5);
    OneRound(h, ws, t + 6, n.x1, n.x2, n.x3, n.x4, n.x5, w.x6, n.x6);
    OneRound(h, ws, t + 7, n.x2, n.x3, n.x4, n.x5, n.x6, w.x7, n.x7);
  }

  lemma LaterRounds(h: Hash, ws: seq<bv32>, t: nat, w: Sixteen, n: Sixteen)
    requires Words(ws, t, w) && LaterOk(t, w, n) && HalfReached(h, ws, t + 8, n)
    ensures Reached(h, ws, t + 16, n)
  {
    OneRound(h, ws, t + 8, n.x3, n.x4, n.x5, n.x6, n.x7, w.x8, n.x8);
    OneRound(h, ws, t + 9, n.x4, n.x5, n.x6, n.x7, n.x8, w.x9, n.x9);
    OneRound(h, ws, t + 10, n.x5, n.x6, n.x7, n.x8, n.x9, w.x10, n.x10);
    OneRound(h, ws, t + 11, n.x6, n.x7, n.x8, n.x9, n.x10, w.x11, n.x11);
    OneRound(h, ws, t + 12, n.x7, n.x8, n.x9, n.x10, n.x11, w.x12, n.x12);
    OneRound(h, ws, t + 13, n.x8, n.x9, n.x10, n.x11, n.x12, w.x13, n.x13);
    OneRound(h, ws, t + 14, n.x9, n.x10, n.x11, n.x12, n.x13, w.x14, n.x14);
    OneRound(h, ws, t + 15, n.x10, n.x11, n.x12, n.x13, n.x14, w.x15, n.x15);
  }

  // ----- "abc"

  const ABC_W0 := Sixteen(
    0x61626380, 0x00000000, 0x00000000, 0x00000000, 0x00000000, 0x00000000, 0x00000000, 0x00000000,
    0x00000000, 0x00000000, 0x00000000, 0x00000000, 0x00000000, 0x00000000, 0x00000000, 0x00000018)
  const ABC_W1 := Sixteen(
    0xc2c4c700, 0x00000000, 0x00000030, 0x85898e01, 0x00000000, 0x00000060, 0x0b131c03, 0x00000030,
    0x85898ec1, 0x16263806, 0x00000000, 0x00000180, 0x2c4c700c, 0x000000f0, 0x93afb507, 0x5898e048)
  const ABC_W2 := Sixteen(
    0x8e9a9202, 0x00000600, 0xb131c0f0, 0x16263bc6, 0x4ebed41e, 0x626380a1, 0x16263806, 0x000018c0,
    0xd2e138c4, 0x00000f00, 0x3afb5079, 0x898e04e5, 0xe2ba3c2b, 0x000060c0, 0x053a37cd, 0x74458547)
  const ABC_W3 := Sixteen(
    0xda9415ed, 0x26380a16, 0x626383a1, 0x4ebf54de, 0x3835b44b, 0x0000f600, 0x1e84c7a3, 0x98e04d98,
    0x651d16a0, 0x62658ca1, 0x458544d6, 0x44584cb7, 0x7ba06619, 0x6380aea2, 0x0ae55269, 0x627b49a1)
  const ABC_W4 := Sixteen(
    0x7cd45c9d, 0x000f0000, 0xfb50753a, 0xec6765e8, 0xba3c2be2, 0x0060c000, 0x3a37cd05, 0x458546f4,
    0xb8599dd6, 0x380a1a26, 0x01e02203, 0xe7cc3456, 0xe6e60b69, 0x00f60a00, 0x5795ef4f, 0x822e0879)

  const ABC_A0 := Sixteen(
    0x00000000, 0x00000000, 0x00000000, 0x00000000, 0x00000000, 0x00000000, 0x00000000, 0x00000000,
    0x00000000, 0x00000000, 0x00000000, 0x0f4b87c3, 0x40c951d8, 0x62eb73fa, 0xefcdab89, 0x67452301)
  const ABC_A1 := Sixteen(
    0x0116fc33, 0x8990536d, 0xa1390f08, 0xcdd8e11b, 0xcfd499de, 0x3fc7ca40, 0x993e30c1, 0x9e8c07d4,
    0x4b6ae328, 0x8351f929, 0xfbda9e89, 0x63188fe4, 0x4607b664, 0x9128f695, 0x196bee77, 0x20bdd62f)
  const ABC_A2 := Sixteen(
    0x4e925823, 0x82aa6728, 0xdc64901d, 0xfd9e1d7d, 0x1a37b0ca, 0x33a23bfc, 0x21283486, 0xd541f12d,
    0xc7567dc6, 0x48413ba4, 0xbe35fbd5, 0x4aa84d97, 0x8370b52e, 0xc5fbaf5d, 0x1267b407, 0x3b845d33)
  const ABC_A3 := Sixteen(
    0x046faa0a, 0x2c0ebc11, 0x21796ad4, 0xdcbbb0cb, 0x0f511fd8, 0xdc63973f, 0x4c986405, 0x32de1cba,
    0xfc87dedf, 0x970a0d5c, 0x7f193dc5, 0xee1b1aaf, 0x40f28e09, 0x1c51e1f2, 0xa01b846c, 0xbead02ca)
  const ABC_A4 := Sixteen(
    0xbaf39337, 0x120731c5, 0x641db2ce, 0x3847ad66, 0xe490436d, 0x27e9f1d8, 0x7b71f76d, 0x5e6456af,
    0xc846093f, 0xd262ff50, 0x09d785fd, 0x3f52de5a, 0xd756c147, 0x548c9cb2, 0xb66c020b, 0x6b61c9e1)
  const ABC_A5 := Sixteen(
    0x19dfa7ac, 0x101655f9, 0x0c3df2b4, 0x78dd4d2b, 0x497093c0, 0x3f2588c2, 0xc199f8c7, 0x39859de7,
    0xedb42de4, 0x11793f6f, 0x5ee76897, 0x63f7dab7, 0xa079b7d9, 0x860d21cc, 0x5738d5e1, 0x42541b35)

  lemma AbcWords48(block: seq<Octet>, t: nat)
    requires |block| == 64 && t == 0 && Words(Schedule(block), t, ABC_W0)
    ensures Words(Schedule(block), t + 16, ABC_W1) && Words(Schedule(block), t + 32, ABC_W2)
  {
    assert Words(Schedule(block), t + 16, ABC_W1) by {
      EarlierWords(block, t, ABC_W0, ABC_W1);
      LaterWords(block, t, ABC_W0, ABC_W1);
    }
    assert Words(Schedule(block), t + 32, ABC_W2) by {
      EarlierWords(block, t + 16, ABC_W1, ABC_W2);
      LaterWords(block, t + 16, ABC_W1, ABC_W2);
    }
  }

  lemma AbcWords80(block: seq<Octet>, t: nat)
    requires |block| == 64 && t == 0 && Words(Schedule(block), t + 32, ABC_W2)
    ensures Words(Schedule(block), t + 48, ABC_W3) && Words(Schedule(block), t + 64, ABC_W4)
  {
    assert Words(Schedule(block), t + 48, ABC_W3) by {
      EarlierWords(block, t + 32, ABC_W2, ABC_W3);
      LaterWords(block, t + 32, ABC_W2, ABC_W3);
    }
    assert Words(Schedule(block), t + 64, ABC_W4) by {
      EarlierWords(block, t + 48, ABC_W3, ABC_W4);
      LaterWords(block, t + 48, ABC_W3, ABC_W4);
    }
  }

  lemma AbcRounds32(ws: seq<bv32>, t: nat)
    requires t == 0 && Words(ws, t, ABC_W0) && Words(ws, t + 16, ABC_W1) && Reached(H_INIT, ws, t, ABC_A0)
    ensures Reached(H_INIT, ws, t + 32, ABC_A2)
  {
    assert Reached(H_INIT, ws, t + 16, ABC_A1) by {
      EarlierRounds(H_INIT, ws, t, ABC_A0, ABC_W0, ABC_A1);
      LaterRounds(H_INIT, ws, t, ABC_W0, ABC_A1);
    }
    assert Reached(H_INIT, ws, t + 32, ABC_A2) by {
      EarlierRounds(H_INIT, ws, t + 16, ABC_A1, ABC_W1, ABC_A2);
      LaterRounds(H_INIT, ws, t + 16, ABC_W1, ABC_A2);
    }
  }

  lemma AbcRounds64(ws: seq<bv32>, t: nat)
    requires t == 0 && Words(ws, t + 32, ABC_W2) && Words(ws, t + 48, ABC_W3) && Reached(H_INIT, ws, t + 32, ABC_A2)
    ensures Reached(H_INIT, ws, t + 64, ABC_A4)
  {
    assert Reached(H_INIT, ws, t + 48, ABC_A3) by {
      EarlierRounds(H_INIT, ws, t + 32, ABC_A2, ABC_W2, ABC_A3);
      LaterRounds(H_INIT, ws, t + 32, ABC_W2, ABC_A3);
    }
    assert Reached(H_INIT, ws, t + 64, ABC_A4) by {
      EarlierRounds(H_INIT, ws, t + 48, ABC_A3, ABC_W3, ABC_A4);
      LaterRounds(H_INIT, ws, t + 48, ABC_W3, ABC_A4);
    }
  }

  lemma AbcRounds80(ws: seq<bv32>, t: nat)
    requires t == 0 && Words(ws, t + 64, ABC_W4) && Reached(H_INIT, ws, t + 64, ABC_A4)
    ensures Reached(H_INIT, ws, t + 80, ABC_A5)
  {
    assert Reached(H_INIT, ws, t + 80, ABC_A5) by {
      EarlierRounds(H_INIT, ws, t + 64, ABC_A4, ABC_W4, ABC_A5);
      LaterRounds(H_INIT, ws, t + 64, ABC_W4, ABC_A5);
    }
  }

  lemma AbcCompress(block: seq<Octet>, t: nat)
    requires |block| == 64 && t == 0 && Words(Schedule(block), t, ABC_W0)
    ensures Compress(H_INIT, block) == Hash(0xa9993e36, 0x4706816a, 0xba3e2571, 0x7850c26c, 0x9cd0d89d)
  {
    AbcWords48(block, t);
    AbcWords80(block, t);
    AbcRounds32(Schedule(block), t);
    AbcRounds64(Schedule(block), t);
    AbcRounds80(Schedule(block), t);
    LastRound(H_INIT, Schedule(block), t + 80, ABC_A5);
  }

  // ----- the message of two blocks

  const FIRST_W0 := Sixteen(
    0x61626364, 0x62636465, 0x63646566, 0x64656667, 0x65666768, 0x66676869, 0x6768696a, 0x68696a6b,
    0x696a6b6c, 0x6a6b6c6d, 0x6b6c6d6e, 0x6c6d6e6f, 0x6d6e6f70, 0x6e6f7071, 0x80000000, 0x00000000)
  const FIRST_W1 := Sixteen(
    0x0a063a3e, 0xd8dadcdf, 0xdadcdec0, 0xc8d2b4be, 0x6f757b5b, 0x757b5967, 0x8da16d70, 0xdaeefaba,
    0xfaf6cab6, 0xa6fb675a, 0x0c604cc8, 0x604cc02c, 0x49c0e6e2, 0x2ee8cbbc, 0xcfd72ec4, 0x97e9810e)
  const FIRST_W2 := Sixteen(
    0x0989cbe8, 0xf24843fe, 0x5c40d0ba, 0xa8d9cc3b, 0xb2b9666e, 0xba7b71b7, 0x20b28a72, 0xb28af500,
    0x8ac87842, 0x289addf4, 0x56d51f21, 0xd96b7fd2, 0x3868e778, 0xab5e4848, 0x7f0e2118, 0xde87a111)
  const FIRST_W3 := Sixteen(
    0xe8be56b0, 0x1a0ae652, 0xcd5611c8, 0x46ef29dc, 0x60d3da6d, 0xddf3ba6e, 0x2737f5e9, 0x4888a710,
    0xd2a1177b, 0x9999633b, 0xd6c69d03, 0xccf6127b, 0x7c58fe6d, 0xfdd99c68, 0xf8e32074, 0xe0ba3c7d)
  const FIRST_W4 := Sixteen(
    0x152198d6, 0x7b3f1982, 0x37f2d5b7, 0x8596323e, 0x810790d6, 0xbea0a942, 0x11c7e1b1, 0x6158d101,
    0x5fcd77d9, 0x7f2f12e6, 0xf868cfb1, 0xd6e997e9, 0xf526b852, 0xb7578dcc, 0x55d99df4, 0x1ff69958)

  const FIRST_A0 := Sixteen(
    0x00000000, 0x00000000, 0x00000000, 0x00000000, 0x00000000, 0x00000000, 0x00000000, 0x00000000,
    0x00000000, 0x00000000, 0x00000000, 0x0f4b87c3, 0x40c951d8, 0x62eb73fa, 0xefcdab89, 0x67452301)
  const FIRST_A1 := Sixteen(
    0x0116fc17, 0xebf3b452, 0x5109913a, 0x2c4f6eac, 0x33f4ae5b, 0x96b85189, 0xdb04cb58, 0x45833f0f,
    0xc565c35e, 0x6350afda, 0x8993ea77, 0xe19ecaa2, 0x8603481e, 0x32f94a85, 0xb2e7a8be, 0x42637e39)
  const FIRST_A2 := Sixteen(
    0x6b068048, 0x426b9c35, 0x944b1bd1, 0x6c445652, 0x95836da5, 0x09511177, 0xe2b92dc4, 0xfd224575,
    0xeeb82d9a, 0x5a142c1a, 0x2972f7c7, 0xd526a644, 0xe1122421, 0x05b457b2, 0xa9c84bec, 0x52e31f60)
  const FIRST_A3 := Sixteen(
    0x5af3242c, 0x31c756a9, 0xe9ac987c, 0xab7c32ee, 0x5933fc99, 0x43f87ae9, 0x24957f22, 0xadeb7478,
    0xd70e5010, 0x79bcfb08, 0xf9bcb8de, 0x633e9561, 0x98c1ea64, 0xc6ea241e, 0xa2ad4f02, 0xc8a69090)
  const FIRST_A4 := Sixteen(
    0x88341600, 0x7e846f58, 0x86e358ba, 0x8d2e76c8, 0xce892e10, 0xedea95b1, 0x36d1230a, 0x776c3910,
    0xa681b723, 0xac0a794f, 0xf03d3782, 0x9ef775c3, 0x36254b13, 0x4080d4dc, 0x2bfaf7a8, 0x513f9ca0)
  const FIRST_A5 := Sixteen(
    0xe5895c81, 0x1037d2d5, 0x14a82da9, 0x6d17c9fd, 0x2c7b07bd, 0xfdf6efff, 0x112b96e3, 0x84065712,
    0xab89fb71, 0xc5210e35, 0x352d9f4b, 0x1a0e0e0a, 0xd0d47349, 0xad38620d, 0xd3ad7c25, 0x8ce34517)

  lemma FirstWords48(block: seq<Octet>, t: nat)
    requires |block| == 64 && t == 0 && Words(Schedule(block), t, FIRST_W0)
    ensures Words(Schedule(block), t + 16, FIRST_W1) && Words(Schedule(block), t + 32, FIRST_W2)
  {
    assert Words(Schedule(block), t + 16, FIRST_W1) by {
      EarlierWords(block, t, FIRST_W0, FIRST_W1);
      LaterWords(block, t, FIRST_W0, FIRST_W1);
    }
    assert Words(Schedule(block), t + 32, FIRST_W2) by {
      EarlierWords(block, t + 16, FIRST_W1, FIRST_W2);
      LaterWords(block, t + 16, FIRST_W1, FIRST_W2);
    }
  }

  lemma FirstWords80(block: seq<Octet>, t: nat)
    requires |block| == 64 && t == 0 && Words(Schedule(block), t + 32, FIRST_W2)
    ensures Words(Schedule(block), t + 48, FIRST_W3) && Words(Schedule(block), t + 64, FIRST_W4)
  {
    assert Words(Schedule(block), t + 48, FIRST_W3) by {
      EarlierWords(block, t + 32, FIRST_W2, FIRST_W3);
      LaterWords(block, t + 32, FIRST_W2, FIRST_W3);
    }
    assert Words(Schedule(block), t + 64, FIRST_W4) by {
      EarlierWords(block, t + 48, FIRST_W3, FIRST_W4);
      LaterWords(block, t + 48, FIRST_W3, FIRST_W4);
    }
  }

  lemma FirstRounds32(ws: seq<bv32>, t: nat)
    requires t == 0 && Words(ws, t, FIRST_W0) && Words(ws, t + 16, FIRST_W1) && Reached(H_INIT, ws, t, FIRST_A0)
    ensures Reached(H_INIT, ws, t + 32, FIRST_A2)
  {
    assert Reached(H_INIT, ws, t + 16, FIRST_A1) by {
      EarlierRounds(H_INIT, ws, t, FIRST_A0, FIRST_W0, FIRST_A1);
      LaterRounds(H_INIT, ws, t, FIRST_W0, FIRST_A1);
    }
    assert Reached(H_INIT, ws, t + 32, FIRST_A2) by {
      EarlierRounds(H_INIT, ws, t + 16, FIRST_A1, FIRST_W1, FIRST_A2);
      LaterRounds(H_INIT, ws, t + 16, FIRST_W1, FIRST_A2);
    }
  }

  lemma FirstRounds64(ws: seq<bv32>, t: nat)
    requires t == 0 && Words(ws, t + 32, FIRST_W2) && Words(ws, t + 48, FIRST_W3) && Reached(H_INIT, ws, t + 32, FIRST_A2)
    ensures Reached(H_INIT, ws, t + 64, FIRST_A4)
  {
    assert Reached(H_INIT, ws, t + 48, FIRST_A3) by {
      EarlierRounds(H_INIT, ws, t + 32, FIRST_A2, FIRST_W2, FIRST_A3);
      LaterRounds(H_INIT, ws, t + 32, FIRST_W2, FIRST_A3);
    }
    assert Reached(H_INIT, ws, t + 64, FIRST_A4) by {
      EarlierRounds(H_INIT, ws, t + 48, FIRST_A3, FIRST_W3, FIRST_A4);
      LaterRounds(H_INIT, ws, t + 48, FIRST_W3, FIRST_A4);
    }
  }

  lemma FirstRounds80(ws: seq<bv32>, t: nat)
    requires t == 0 && Words(ws, t + 64, FIRST_W4) && Reached(H_INIT, ws, t + 64, FIRST_A4)
    ensures Reached(H_INIT, ws, t + 80, FIRST_A5)
  {
    assert Reached(H_INIT, ws, t + 80, FIRST_A5) by {
      EarlierRounds(H_INIT, ws, t + 64, FIRST_A4, FIRST_W4, FIRST_A5);
      LaterRounds(H_INIT, ws, t + 64, FIRST_W4, FIRST_A5);
    }
  }

  lemma FirstCompress(block: seq<Octet>, t: nat)
    requires |block| == 64 && t == 0 && Words(Schedule(block), t, FIRST_W0)
    ensures Compress(H_INIT, block) == Hash(0xf4286818, 0xc37b27ae, 0x0408f581, 0x84677148, 0x4a566572)
  {
    FirstWords48(block, t);
    FirstWords80(block, t);
    FirstRounds32(Schedule(block), t);
    FirstRounds64(Schedule(block), t);
    FirstRounds80(Schedule(block), t);
    LastRound(H_INIT, Schedule(block), t + 80, FIRST_A5);
  }

  const H_FIRST := Hash(0xf4286818, 0xc37b27ae, 0x0408f581, 0x84677148, 0x4a566572)

  // ----- its second block

  const SECOND_W0 := Sixteen(
    0x00000000, 0x00000000, 0x00000000, 0x00000000, 0x00000000, 0x00000000, 0x00000000, 0x00000000,
    0x00000000, 0x00000000, 0x00000000, 0x00000000, 0x00000000, 0x00000000, 0x00000000, 0x000001c0)
  const SECOND_W1 := Sixteen(
    0x00000000, 0x00000000, 0x00000380, 0x00000000, 0x00000000, 0x00000700, 0x00000000, 0x00000380,
    0x00000e00, 0x00000000, 0x00000000, 0x00001c00, 0x00000000, 0x00000d80, 0x00003800, 0x00000480)
  const SECOND_W2 := Sixteen(
    0x00000000, 0x00007000, 0x00000e00, 0x00003600, 0x0000e000, 0x00000e00, 0x00000000, 0x0001ce00,
    0x00000000, 0x0000d800, 0x00038000, 0x00004f00, 0x00000000, 0x00070e00, 0x0000ee00, 0x00037500)
  const SECOND_W3 := Sixteen(
    0x000e0000, 0x0000e000, 0x00003600, 0x001cee00, 0x00000000, 0x000df000, 0x00380000, 0x0004c600,
    0x0000e000, 0x0070ee00, 0x000ee000, 0x00369e00, 0x00e00000, 0x000ed600, 0x0000e000, 0x01cea600)
  const SECOND_W4 := Sixteen(
    0x00000000, 0x00d80000, 0x0380e000, 0x004f0000, 0x00000000, 0x070e0000, 0x00ee0000, 0x03751c00,
    0x0e000000, 0x00e0e000, 0x00363800, 0x1cee9000, 0x00000000, 0x0df09000, 0x3800e000, 0x04c77400)

  const SECOND_A0 := Sixteen(
    0x00000000, 0x00000000, 0x00000000, 0x00000000, 0x00000000, 0x00000000, 0x00000000, 0x00000000,
    0x00000000, 0x00000000, 0x00000000, 0x295995c9, 0x119dc522, 0x1023d604, 0xc37b27ae, 0xf4286818)
  const SECOND_A1 := Sixteen(
    0x2df257e9, 0x4d3dc58f, 0xc352bb05, 0xeef743c6, 0x41e34277, 0x5443915c, 0xe7fa0377, 0xc6946813,
    0xfdde1de1, 0xb8538aca, 0x6ba94f63, 0x43a2792f, 0xfecd7bbf, 0xa2604ca8, 0x258b0baa, 0xd9772360)
  const SECOND_A2 := Sixteen(
    0x5507db6e, 0xa51b58bc, 0xc2eb709f, 0xd8992153, 0x37482f5f, 0xee8700bd, 0x9ad594b9, 0x8fbaa5b9,
    0x88fb5867, 0xeec50521, 0x50bce434, 0x5c416daf, 0x2429be5f, 0x0a2fb108, 0x17986223, 0x8a4af384)
  const SECOND_A3 := Sixteen(
    0x6b629993, 0xf15f04f3, 0x295cc25b, 0x696da404, 0xcef5ae12, 0x87d5b80c, 0x84e2a5f2, 0x03bb6310,
    0xc2d8f75f, 0xbfb25768, 0x28589152, 0xec1d3d61, 0x3caed7af, 0xc3d033ea, 0x7316056a, 0x46f93b68)
  const SECOND_A4 := Sixteen(
    0xdc8e7f26, 0x850d411c, 0x7e4672c0, 0x89fbd41d, 0x1797e228, 0x431d65bc, 0x2bdbb8cb, 0x6da72e7f,
    0xa8495a9b, 0xe785655a, 0x5b086c42, 0xa65818f7, 0x7aab101b, 0x93614c9c, 0xf66d9bf4, 0xd504902b)
  const SECOND_A5 := Sixteen(
    0x60a9da62, 0x8b687819, 0x083e90c3, 0xf6226bbf, 0x76c0563b, 0x989dd165, 0x8b2c7573, 0xae1b8e7b,
    0xca1840de, 0x16f3babb, 0xd28d83ad, 0x6bc02dfe, 0xd3a6e275, 0xda955482, 0x58c0aac0, 0x906fd62c)

  lemma SecondWords48(block: seq<Octet>, t: nat)
    requires |block| == 64 && t == 0 && Words(Schedule(block), t, SECOND_W0)
    ensures Words(Schedule(block), t + 16, SECOND_W1) && Words(Schedule(block), t + 32, SECOND_W2)
  {
    assert Words(Schedule(block), t + 16, SECOND_W1) by {
      EarlierWords(block, t, SECOND_W0, SECOND_W1);
      LaterWords(block, t, SECOND_W0, SECOND_W1);
    }
    assert Words(Schedule(block), t + 32, SECOND_W2) by {
      EarlierWords(block, t + 16, SECOND_W1, SECOND_W2);
      LaterWords(block, t + 16, SECOND_W1, SECOND_W2);
    }
  }

  lemma SecondWords80(block: seq<Octet>, t: nat)
    requires |block| == 64 && t == 0 && Words(Schedule(block), t + 32, SECOND_W2)
    ensures Words(Schedule(block), t + 48, SECOND_W3) && Words(Schedule(block), t + 64, SECOND_W4)
  {
    assert Words(Schedule(block), t + 48, SECOND_W3) by {
      EarlierWords(block, t + 32, SECOND_W2, SECOND_W3);
      LaterWords(block, t + 32, SECOND_W2, SECOND_W3);
    }
    assert Words(Schedule(block), t + 64, SECOND_W4) by {
      EarlierWords(block, t + 48, SECOND_W3, SECOND_W4);
      LaterWords(block, t + 48, SECOND_W3, SECOND_W4);
    }
  }

  lemma SecondRounds32(ws: seq<bv32>, t: nat)
    requires t == 0 && Words(ws, t, SECOND_W0) && Words(ws, t + 16, SECOND_W1) && Reached(H_FIRST, ws, t, SECOND_A0)
    ensures Reached(H_FIRST, ws, t + 32, SECOND_A2)
  {
    assert Reached(H_FIRST, ws, t + 16, SECOND_A1) by {
      EarlierRounds(H_FIRST, ws, t, SECOND_A0, SECOND_W0, SECOND_A1);
      LaterRounds(H_FIRST, ws, t, SECOND_W0, SECOND_A1);
    }
    assert Reached(H_FIRST, ws, t + 32, SECOND_A2) by {
      EarlierRounds(H_FIRST, ws, t + 16, SECOND_A1, SECOND_W1, SECOND_A2);
      LaterRounds(H_FIRST, ws, t + 16, SECOND_W1, SECOND_A2);
    }
  }

  lemma SecondRounds64(ws: seq<bv32>, t: nat)
    requires t == 0 && Words(ws, t + 32, SECOND_W2) && Words(ws, t + 48, SECOND_W3) && Reached(H_FIRST, ws, t + 32, SECOND_A2)
    ensures Reached(H_FIRST, ws, t + 64, SECOND_A4)
  {
    assert Reached(H_FIRST, ws, t + 48, SECOND_A3) by {
      EarlierRounds(H_FIRST, ws, t + 32, SECOND_A2, SECOND_W2, SECOND_A3);
      LaterRounds(H_FIRST, ws, t + 32, SECOND_W2, SECOND_A3);
    }
    assert Reached(H_FIRST, ws, t + 64, SECOND_A4) by {
      EarlierRounds(H_FIRST, ws, t + 48, SECOND_A3, SECOND_W3, SECOND_A4);
      LaterRounds(H_FIRST, ws, t + 48, SECOND_W3, SECOND_A4);
    }
  }

  lemma SecondRounds80(ws: seq<bv32>, t: nat)
    requires t == 0 && Words(ws, t + 64, SECOND_W4) && Reached(H_FIRST, ws, t + 64, SECOND_A4)
    ensures Reached(H_FIRST, ws, t + 80, SECOND_A5)
  {
    assert Reached(H_FIRST, ws, t + 80, SECOND_A5) by {
      EarlierRounds(H_FIRST, ws, t + 64, SECOND_A4, SECOND_W4, SECOND_A5);
      LaterRounds(H_FIRST, ws, t + 64, SECOND_W4, SECOND_A5);
    }
  }

  lemma SecondCompress(block: seq<Octet>, t: nat)
    requires |block| == 64 && t == 0 && Words(Schedule(block), t, SECOND_W0)
    ensures Compress(H_FIRST, block) == Hash(0x84983e44, 0x1c3bd26e, 0xbaae4aa1, 0xf95129e5, 0xe54670f1)
  {
    SecondWords48(block, t);
    SecondWords80(block, t);
    SecondRounds32(Schedule(block), t);
    SecondRounds64(Schedule(block), t);
    SecondRounds80(Schedule(block), t);
    LastRound(H_FIRST, Schedule(block), t + 80, SECOND_A5);
  }

  // ----- the messages

  function WordAt(b: seq<Octet>, i: nat): bv32
    requires 4 * i + 4 <= |b|
  {
    WordOf(b[4 * i], b[4 * i + 1], b[4 * i + 2], b[4 * i + 3])
  }

  /** The words of a block are those of g. */
  predicate BlockIs(b: seq<Octet>, g: Sixteen)
    requires |b| == 64
  {
    && WordAt(b, 0) == g.x0 && WordAt(b, 1) == g.x1 && WordAt(b, 2) == g.x2 && WordAt(b, 3) == g.x3
    && WordAt(b, 4) == g.x4 && WordAt(b, 5) == g.x5 && WordAt(b, 6) == g.x6 && WordAt(b, 7) == g.x7
    && WordAt(b, 8) == g.x8 && WordAt(b, 9) == g.x9 && WordAt(b, 10) == g.x10 && WordAt(b, 11) == g.x11
    && WordAt(b, 12) == g.x12 && WordAt(b, 13) == g.x13 && WordAt(b, 14) == g.x14 && WordAt(b, 15) == g.x15
  }

  lemma BlockWords(b: seq<Octet>, g: Sixteen, t: nat)
    requires |b| == 64 && t == 0 && BlockIs(b, g)
    ensures Words(Schedule(b), t, g)
  {
  }

  lemma HashOfOne(b: seq<Octet>)
    requires |b| == 64
    ensures HashBlocks(b) == Compress(H_INIT, b)
  {
    var none: seq<Octet> := b[..|b| - 64];
    assert b[|b| - 64..] == b;
    assert Fold(COMPRESSION, none) == H_INIT;
  }

  lemma HashOfTwo(b: seq<Octet>, c: seq<Octet>)
    requires |b| == 64 && |c| == 64
    ensures HashBlocks(b + c) == Compress(Compress(H_INIT, b), c)
  {
    var m := b + c;
    assert m[..|m| - 64] == b && m[|m| - 64..] == c;
    HashOfOne(b);
  }

  /** The digest of "abc". */
  lemma DigestOfAbc(m: seq<Octet>)
    requires m == [0x61, 0x62, 0x63]
    ensures Sha1(m) == [0xa9, 0x99, 0x3e, 0x36, 0x47, 0x06, 0x81, 0x6a, 0xba, 0x3e,
                        0x25, 0x71, 0x78, 0x50, 0xc2, 0x6c, 0x9c, 0xd0, 0xd8, 0x9d]
  {
    var bits := BitLength(|m|);
    var f := ShortField(3, bits, 52, 24);
    AbcPlain(m, f, m + ([0x80] + Zeros(52) + f));
    AbcBytes();
  }

  lemma AbcHash(b: seq<Octet>)
    requires |b| == 64 && BlockIs(b, ABC_W0)
    ensures HashBlocks(b) == Hash(0xa9993e36, 0x4706816a, 0xba3e2571, 0x7850c26c, 0x9cd0d89d)
  {
    BlockWords(b, ABC_W0, 0);
    AbcCompress(b, 0);
    HashOfOne(b);
  }

  lemma ShortField(len: nat, bits: nat, z: nat, w: bv32) returns (f: seq<Octet>)
    requires z == ZeroCount(len) && ((bits == 24 && w == 24) || (bits == 448 && w == 448))
    ensures Padding(len, bits) == [0x80] + Zeros(z) + f
    ensures f == [0, 0, 0, 0] + (if bits == 24 then [0, 0, 0, 24] else [0, 0, 1, 0xc0])
  {
    f := LengthField(bits);
    ShortLength(bits, w);
    PaddingIs(len, bits, z, f);
  }

  lemma AbcPlain(m: seq<Octet>, f: seq<Octet>, padded: seq<Octet>)
    requires m == [0x61, 0x62, 0x63] && f == [0, 0, 0, 0, 0, 0, 0, 24] && padded == m + ([0x80] + Zeros(52) + f)
    ensures |padded| == 64 && HashBlocks(padded) == Hash(0xa9993e36, 0x4706816a, 0xba3e2571, 0x7850c26c, 0x9cd0d89d)
  {
    AbcPadded(m, f, padded);
    AbcBlock(padded);
    AbcHash(padded);
  }

  lemma PaddingIs(len: nat, bits: nat, z: nat, f: seq<Octet>)
    requires z == ZeroCount(len) && f == LengthField(bits)
    ensures Padding(len, bits) == [0x80] + Zeros(z) + f
  {
  }

  lemma AbcBytes()
    ensures DigestOf(Hash(0xa9993e36, 0x4706816a, 0xba3e2571, 0x7850c26c, 0x9cd0d89d)) ==
      [0xa9, 0x99, 0x3e, 0x36, 0x47, 0x06, 0x81, 0x6a, 0xba, 0x3e, 0x25, 0x71, 0x78, 0x50, 0xc2, 0x6c, 0x9c, 0xd0, 0xd8, 0x9d]
  {
  }

  lemma AbcPadded(m: seq<Octet>, f: seq<Octet>, padded: seq<Octet>)
    requires m == [0x61, 0x62, 0x63] && f == [0, 0, 0, 0, 0, 0, 0, 24] && padded == m + ([0x80] + Zeros(52) + f)
    ensures |padded| == 64 && padded[0] == 0x61 && padded[1] == 0x62 && padded[2] == 0x63 && padded[3] == 0x80
    ensures padded[63] == 24 && forall i :: 4 <= i < 63 ==> padded[i] == 0
  {
    PaddedBytes(m, 52, f, padded);
    assert m[0] == 0x61 && m[1] == 0x62 && m[2] == 0x63;
  }

  /** Where the bytes of a padded message are. */
  lemma PaddedBytes(m: seq<Octet>, z: nat, f: seq<Octet>, padded: seq<Octet>)
    requires |f| == 8 && padded == m + ([0x80] + Zeros(z) + f)
    ensures |padded| == |m| + z + 9 && padded[|m|] == 0x80
    ensures forall i :: 0 <= i < |m| ==> padded[i] == m[i]
    ensures forall i :: |m| < i <= |m| + z ==> padded[i] == 0
    ensures forall i :: |m| + z < i < |padded| ==> padded[i] == f[i - (|m| + z + 1)]
  {
  }

  /** The length field of a short message. */
  lemma ShortLength(bits: nat, w: bv32)
    requires (bits == 24 && w == 24) || (bits == 448 && w == 448)
    ensures LengthField(bits) == [0, 0, 0, 0] + BytesOf(w)
    ensures BytesOf(24) == [0, 0, 0, 24] && BytesOf(448) == [0, 0, 1, 0xc0]
  {
    ShortParts(bits);
    ShortWords();
    ZeroBytes();
  }

  lemma ShortParts(bits: nat)
    requires bits < 0x1_0000_0000
    ensures HighPart(bits) == 0 && LowPart(bits) == bits
  {
  }

  lemma ShortWords()
    ensures ToWord(0) == 0 && ToWord(24) == 24 && ToWord(448) == 448
  {
  }

  lemma ZeroBytes()
    ensures BytesOf(0) == [0, 0, 0, 0] && BytesOf(24) == [0, 0, 0, 24] && BytesOf(448) == [0, 0, 1, 0xc0]
  {
  }

  lemma ZeroWord(b: seq<Octet>, i: nat)
    requires 4 * i + 4 <= |b| && b[4 * i] == 0 && b[4 * i + 1] == 0 && b[4 * i + 2] == 0 && b[4 * i + 3] == 0
    ensures WordAt(b, i) == 0
  {
  }

  lemma AbcBlock(b: seq<Octet>)
    requires |b| == 64 && b[0] == 0x61 && b[1] == 0x62 && b[2] == 0x63 && b[3] == 0x80 && b[63] == 24
    requires forall i :: 4 <= i < 63 ==> b[i] == 0
    ensures BlockIs(b, ABC_W0)
  {
    assert WordAt(b, 0) == 0x61626380;
    assert WordAt(b, 15) == 24;
    forall i: nat | 1 <= i < 15 ensures WordAt(b, i) == 0 {
      ZeroWord(b, i);
    }
  }

  /** The example message of 56 bytes, "abcdbcdecdef" and so on up to "nopq". */
  function Longer(): (m: seq<Octet>)
    ensures |m| == 56
  {
    seq(56, k requires 0 <= k < 56 => Alpha(k / 4 + k % 4))
  }

  /** Letter number t of the alphabet. */
  function Alpha(t: nat): Octet {
    if t == 0 then 0x61 else if t == 1 then 0x62 else if t == 2 then 0x63 else if t == 3 then 0x64
    else if t == 4 then 0x65 else if t == 5 then 0x66 else if t == 6 then 0x67 else if t == 7 then 0x68
    else if t == 8 then 0x69 else if t == 9 then 0x6a else if t == 10 then 0x6b else if t == 11 then 0x6c
    else if t == 12 then 0x6d else if t == 13 then 0x6e else if t == 14 then 0x6f else if t == 15 then 0x70 else 0x71
  }

  lemma LongerWord(b: seq<Octet>, i: nat, w: bv32)
    requires i < 14 && WordOf(Alpha(i), Alpha(i + 1), Alpha(i + 2), Alpha(i + 3)) == w
    requires |b| >= 56 && forall j :: 0 <= j < 56 ==> b[j] == Longer()[j]
    ensures WordAt(b, i) == w
  {
    LongerByte(i, 0);
    LongerByte(i, 1);
    LongerByte(i, 2);
    LongerByte(i, 3);
    SameWord(b, i, Alpha(i), Alpha(i + 1), Alpha(i + 2), Alpha(i + 3));
  }

  lemma LongerByte(i: nat, j: nat)
    requires i < 14 && j < 4
    ensures Longer()[4 * i + j] == Alpha(i + j)
  {
    assert (4 * i + j) / 4 == i && (4 * i + j) % 4 == j;
  }

  lemma SameWord(b: seq<Octet>, i: nat, b0: Octet, b1: Octet, b2: Octet, b3: Octet)
    requires 4 * i + 4 <= |b| && b[4 * i] == b0 && b[4 * i + 1] == b1 && b[4 * i + 2] == b2 && b[4 * i + 3] == b3
    ensures WordAt(b, i) == WordOf(b0, b1, b2, b3)
  {
  }

  /** Its digest takes two blocks. */
  lemma DigestOfLonger()
    ensures Sha1(Longer()) == [0x84, 0x98, 0x3e, 0x44, 0x1c, 0x3b, 0xd2, 0x6e, 0xba, 0xae,
                             0x4a, 0xa1, 0xf9, 0x51, 0x29, 0xe5, 0xe5, 0x46, 0x70, 0xf1]
  {
    var m := Longer();
    var bits := BitLength(|m|);
    var f := ShortField(56, bits, 63, 448);
    LongerPlain(f, m + ([0x80] + Zeros(63) + f));
    LongerBytes();
  }

  lemma LongerHash(b: seq<Octet>, c: seq<Octet>)
    requires |b| == 64 && BlockIs(b, FIRST_W0) && |c| == 64 && BlockIs(c, SECOND_W0)
    ensures HashBlocks(b + c) == Hash(0x84983e44, 0x1c3bd26e, 0xbaae4aa1, 0xf95129e5, 0xe54670f1)
  {
    BlockWords(b, FIRST_W0, 0);
    BlockWords(c, SECOND_W0, 0);
    FirstCompress(b, 0);
    SecondCompress(c, 0);
    HashOfTwo(b, c);
  }

  lemma LongerPlain(f: seq<Octet>, padded: seq<Octet>)
    requires f == [0, 0, 0, 0, 0, 0, 1, 0xc0] && padded == Longer() + ([0x80] + Zeros(63) + f)
    ensures |padded| == 128 && HashBlocks(padded) == Hash(0x84983e44, 0x1c3bd26e, 0xbaae4aa1, 0xf95129e5, 0xe54670f1)
  {
    LongerPadded(Longer(), f, padded);
    var b, c := padded[..64], padded[64..];
    assert padded == b + c;
    LongerBlocks(b, c);
    LongerHash(b, c);
  }

  lemma LongerBlocks(b: seq<Octet>, c: seq<Octet>)
    requires |b| == 64 && b[56] == 0x80 && forall i :: 57 <= i < 64 ==> b[i] == 0
    requires forall i :: 0 <= i < 56 ==> b[i] == Longer()[i]
    requires |c| == 64 && c[62] == 0x01 && c[63] == 0xc0 && forall i :: 0 <= i < 62 ==> c[i] == 0
    ensures BlockIs(b, FIRST_W0) && BlockIs(c, SECOND_W0)
  {
    LongerFirst(b);
    LongerSecond(c);
  }

  lemma LongerBytes()
    ensures DigestOf(Hash(0x84983e44, 0x1c3bd26e, 0xbaae4aa1, 0xf95129e5, 0xe54670f1)) ==
      [0x84, 0x98, 0x3e, 0x44, 0x1c, 0x3b, 0xd2, 0x6e, 0xba, 0xae, 0x4a, 0xa1, 0xf9, 0x51, 0x29, 0xe5, 0xe5, 0x46, 0x70, 0xf1]
  {
  }

  lemma LongerPadded(m: seq<Octet>, f: seq<Octet>, padded: seq<Octet>)
    requires |m| == 56 && f == [0, 0, 0, 0, 0, 0, 1, 0xc0] && padded == m + ([0x80] + Zeros(63) + f)
    ensures |padded| == 128 && padded[56] == 0x80 && padded[126] == 0x01 && padded[127] == 0xc0
    ensures forall i :: 0 <= i < 56 ==> padded[i] == m[i]
    ensures forall i :: 57 <= i < 126 ==> padded[i] == 0
  {
    PaddedBytes(m, 63, f, padded);
  }

  lemma LongerFirst(b: seq<Octet>)
    requires |b| == 64 && b[56] == 0x80 && forall i :: 57 <= i < 64 ==> b[i] == 0
    requires forall i :: 0 <= i < 56 ==> b[i] == Longer()[i]
    ensures BlockIs(b, FIRST_W0)
  {
    LongerWord(b, 0, 0x61626364);
    LongerWord(b, 1, 0x62636465);
    LongerWord(b, 2, 0x63646566);
    LongerWord(b, 3, 0x64656667);
    LongerWord(b, 4, 0x65666768);
    LongerWord(b, 5, 0x66676869);
    LongerWord(b, 6, 0x6768696a);
    LongerWord(b, 7, 0x68696a6b);
    LongerWord(b, 8, 0x696a6b6c);
    LongerWord(b, 9, 0x6a6b6c6d);
    LongerWord(b, 10, 0x6b6c6d6e);
    LongerWord(b, 11, 0x6c6d6e6f);
    LongerWord(b, 12, 0x6d6e6f70);
    LongerWord(b, 13, 0x6e6f7071);
    WordAfter(b);
    ZeroWord(b, 15);
  }

  lemma WordAfter(b: seq<Octet>)
    requires |b| == 64 && b[56] == 0x80 && forall i :: 57 <= i < 64 ==> b[i] == 0
    ensures WordAt(b, 14) == 0x80000000
  {
  }

  lemma LongerSecond(b: seq<Octet>)
    requires |b| == 64 && b[62] == 0x01 && b[63] == 0xc0 && forall i :: 0 <= i < 62 ==> b[i] == 0
    ensures BlockIs(b, SECOND_W0)
  {
    assert WordAt(b, 15) == 0x1c0;
    forall i: nat | i < 15 ensures WordAt(b, i) == 0 {
      ZeroWord(b, i);
    }
  }

  // ----- the constants

  /** The root that round constant t is made of: 2, 3, 5 and 10. */
  function Radicand(t: nat): nat {
    if t < 20 then 2 else if t < 40 then 3 else if t < 60 then 5 else 10
  }

  /** The constant of a round is 2^30 times the square root of 2, 3, 5 or 10, rounded down. */
  lemma ConstantsAreRoots(t: nat)
    ensures var k := K(t) as nat;
      k * k <= Radicand(t) * 0x1000_0000_0000_0000 < (k + 1) * (k + 1)
  {
    if t < 20 {
      assert K(t) as nat == 0x5a827999;
    } else if t < 40 {
      assert K(t) as nat == 0x6ed9eba1;
    } else if t < 60 {
      assert K(t) as nat == 0x8f1bbcdc;
    } else {
      assert K(t) as nat == 0xca62c1d6;
    }
  }
}
