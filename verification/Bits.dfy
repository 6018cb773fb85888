/** Bitwise and on unbounded numbers, as used to test for powers of two and to find cells. */
module Bits {
  import opened Ring

  function And(a: nat, b: nat): nat {
    if a == 0 || b == 0 then 0
    else 2 * And(a / 2, b / 2) + (if a % 2 == 1 && b % 2 == 1 then 1 else 0)
  }

  lemma {:induction false} AndSelf(a: nat)
    ensures And(a, a) == a
  {
    if a > 0 {
      AndSelf(a / 2);
    }
  }

  lemma SplitMod(p: nat, m: nat)
    requires m > 0
    ensures p % (2 * m) == 2 * ((p / 2) % m) + p % 2
  {
    var h := p / 2;
    var q, r := h / m, h % m;
    assert p == (2 * m) * q + (2 * r + p % 2) by {
      assert h == m * q + r;
      assert (2 * m) * q == 2 * (m * q);
    }
    ModUnique(2 * m, q, 2 * r + p % 2);
  }

  lemma ModUnique(m: nat, q: nat, r: nat)
    requires r < m
    ensures (m * q + r) % m == r
  {
    var x := m * q + r;
    var d := x / m - q;
    assert x % m - r == -(m * d) by {
      assert x == m * (x / m) + x % m;
      assert m * d == m * (x / m) - m * q;
    }
    TimesAtLeastOnce(m, d);
  }

  /** A multiple that is not zero is at least one time the number away from it. */
  lemma TimesAtLeastOnce(m: nat, d: int)
    ensures d >= 1 ==> m * d >= m
    ensures d <= -1 ==> m * d + m <= 0
  {
    if d >= 1 {
      assert m * d == m + m * (d - 1);
    } else if d <= -1 {
      assert m * d + m + m * (-d - 1) == 0;
    }
  }

  lemma AndStep(p: nat, m: nat)
    requires m > 0
    ensures And(p, 2 * m - 1) == 2 * And(p / 2, m - 1) + p % 2
  {
    assert (2 * m - 1) / 2 == m - 1 && (2 * m - 1) % 2 == 1;
  }

  /** Masking with 2^k - 1 is the remainder modulo 2^k. */
  lemma {:induction false} MaskIsMod(p: nat, k: nat)
    ensures And(p, Pow2(k) - 1) == p % Pow2(k)
    decreases k
  {
    if k > 0 {
      MaskIsMod(p / 2, k - 1);
      AndStep(p, Pow2(k - 1));
      SplitMod(p, Pow2(k - 1));
    }
  }

  ghost predicate IsPow2(n: nat) {
    exists k: nat :: n == Pow2(k)
  }

  lemma OddIsNotPow2(n: nat)
    requires n > 1 && n % 2 == 1
    ensures !IsPow2(n)
  {
    forall k: nat ensures n != Pow2(k) {
      if k > 0 { assert Pow2(k) == 2 * Pow2(k - 1); }
    }
  }

  /** A positive number shares no bit with its predecessor exactly when it is a power of two. */
  lemma {:induction false} PowerOfTwoTest(n: nat)
    requires n > 0
    ensures And(n, n - 1) == 0 <==> IsPow2(n)
    decreases n
  {
    if n == 1 {
      var k: nat := 0;
      assert n == Pow2(k);
    } else if n % 2 == 0 {
      PowerOfTwoTest(n / 2);
      assert (n - 1) / 2 == n / 2 - 1;
      if IsPow2(n) {
        var k: nat :| n == Pow2(k);
        assert n / 2 == Pow2(k - 1);
      }
      if IsPow2(n / 2) {
        var k: nat :| n / 2 == Pow2(k);
        assert n == Pow2(k + 1);
      }
    } else {
      assert (n - 1) / 2 == n / 2;
      AndSelf(n / 2);
      OddIsNotPow2(n);
    }
  }
}
