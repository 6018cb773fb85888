/** Positions on the identifier circle, read as numbers below 2^160.
    `Dist` is the clockwise distance. `InInterval` keeps the branches of the interval test,
    including the case of equal bounds, which accepts every identifier. */
module Ring {

  const RING: nat := 0x1_0000000000_0000000000_0000000000_0000000000

  type Id = x: nat | x < RING

  function Dist(a: Id, b: Id): Id {
    if a <= b then b - a else b + RING - a
  }

  predicate InInterval(x: Id, lower: Id, upper: Id) {
    if lower < upper then lower < x < upper
    else if lower > upper then x > lower || x < upper
    else true
  }

  /** x lies strictly inside the clockwise arc from a to b; from a to a the arc is the whole
      circle without a. */
  predicate Strictly(x: Id, a: Id, b: Id) {
    x != a && x != b && InInterval(x, a, b)
  }

  function Pow2(k: nat): (p: nat)
    ensures p >= 1
  {
    if k == 0 then 1 else 2 * Pow2(k - 1)
  }

  lemma {:induction false} Pow2Sum(a: nat, b: nat)
    ensures Pow2(a + b) == Pow2(a) * Pow2(b)
  {
    if a == 0 {
    } else {
      Pow2Sum(a - 1, b);
      calc {
        Pow2(a + b);
        2 * Pow2(a - 1 + b);
        2 * (Pow2(a - 1) * Pow2(b));
        (2 * Pow2(a - 1)) * Pow2(b);
      }
    }
  }

  lemma {:induction false} Pow2Mono(a: nat, b: nat)
    requires a <= b
    ensures Pow2(a) <= Pow2(b)
    decreases b
  {
    if a < b {
      Pow2Mono(a, b - 1);
    }
  }

  /** The position 2^k after n. */
  function StartOf(n: Id, k: nat): Id {
    (n + Pow2(k)) % RING
  }

  /** Eight doublings multiply by 256. */
  lemma Pow2Byte(k: nat)
    ensures Pow2(k + 8) == 256 * Pow2(k)
  {
    assert Pow2(k + 2) == 4 * Pow2(k);
    assert Pow2(k + 4) == 4 * Pow2(k + 2);
    assert Pow2(k + 6) == 4 * Pow2(k + 4);
  }

  function Pow256(n: nat): (p: nat)
    ensures p >= 1
  {
    if n == 0 then 1 else 256 * Pow256(n - 1)
  }

  lemma {:induction false} Pow256IsPow2(n: nat)
    ensures Pow256(n) == Pow2(8 * n)
  {
    if n > 0 {
      Pow256IsPow2(n - 1);
      Pow2Byte(8 * (n - 1));
    }
  }

  /** The circle has 2^160 positions: 20 bytes. */
  lemma RingSize()
    ensures Pow256(20) == RING
  {
    assert Pow256(5) == 0x1_0000000000;
    assert Pow256(10) == 0x1_0000000000_0000000000;
    assert Pow256(15) == 0x1_0000000000_0000000000_0000000000;
  }

  lemma Pow2Top(m: nat)
    requires m == 160
    ensures Pow2(m) == RING
  {
    RingSize();
    Pow256IsPow2(20);
  }

  lemma Pow2Small(k: nat)
    requires k < 160
    ensures 0 < Pow2(k) < RING
  {
    var m: nat := 160;
    Pow2Top(m);
    Pow2Mono(k + 1, m);
  }
}
