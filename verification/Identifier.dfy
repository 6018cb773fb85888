/** The 20-byte identifier, most significant byte first, and its arithmetic in place.
    Bytes are unsigned. */
module Identifier {
  import opened Ring

  type Byte = x: int | 0 <= x < 256

  const ID_LEN: nat := 20

  /** The number a byte string stands for, most significant byte first. */
  function Value(b: seq<Byte>): nat {
    if |b| == 0 then 0 else b[0] * Pow256(|b| - 1) + Value(b[1..])
  }

  lemma {:induction false} ValueBound(b: seq<Byte>)
    ensures Value(b) < Pow256(|b|)
  {
    if |b| > 0 {
      ValueBound(b[1..]);
      ScaleMono(b[0], 255, Pow256(|b| - 1));
      assert Pow256(|b|) == 256 * Pow256(|b| - 1);
    }
  }

  lemma ScaleMono(a: nat, b: nat, p: nat)
    requires a <= b
    ensures a * p <= b * p
  {
  }

  /** Twenty bytes name a position on the circle. */
  function IdOf(b: seq<Byte>): (v: Id)
    requires |b| == ID_LEN
    ensures v == Value(b)
  {
    ValueBound(b);
    RingSize();
    Value(b)
  }

  /** The first differing byte decides the numeric order. */
  lemma {:induction false} FirstDifference(a: seq<Byte>, b: seq<Byte>, i: nat)
    requires |a| == |b| && i < |a| && a[..i] == b[..i] && a[i] < b[i]
    ensures Value(a) < Value(b)
  {
    if i == 0 {
      ValueBound(a[1..]);
      var p := Pow256(|a| - 1);
      ScaleMono(a[0] + 1, b[0], p);
      assert (a[0] + 1) * p == a[0] * p + p;
    } else {
      assert a[0] == a[..i][0] == b[..i][0] == b[0];
      assert a[1..][..i - 1] == a[..i][1..] == b[..i][1..] == b[1..][..i - 1];
      FirstDifference(a[1..], b[1..], i - 1);
    }
  }

  /** Adding the next byte column to sums that already agree below it. */
  lemma ColumnSum(p: nat, x: Byte, y: Byte, carry: nat, z: Byte, carry': nat, X: nat, Y: nat, Z: nat)
    requires x + y + carry == z + 256 * carry'
    requires X + Y == Z + carry * p
    ensures (x * p + X) + (y * p + Y) == (z * p + Z) + carry' * (256 * p)
  {
    assert (x + y + carry) * p == (z + 256 * carry') * p;
    assert (x + y + carry) * p == x * p + y * p + carry * p;
    assert (z + 256 * carry') * p == z * p + carry' * (256 * p);
  }

  /** The low byte of a column sum. */
  function LowByte(val: nat): Byte {
    val % 256
  }

  /** Bit 8 of a column sum. */
  function CarryBit(val: nat): (c: nat)
    ensures c <= 1
  {
    (val / 256) % 2
  }

  /** The carry into column i - 1 when x and y are added from the last column on. */
  function Carry(x: seq<Byte>, y: seq<Byte>, i: nat): (c: nat)
    requires |x| == |y| && i <= |x|
    ensures c <= 1
    decreases |x| - i
  {
    if i == |x| then 0 else CarryBit(x[i] + y[i] + Carry(x, y, i + 1))
  }

  function Column(x: seq<Byte>, y: seq<Byte>, k: nat): Byte
    requires |x| == |y| && k < |x|
  {
    LowByte(x[k] + y[k] + Carry(x, y, k + 1))
  }

  /** Columns i onwards of z hold the sum of x and y. */
  ghost predicate Added(x: seq<Byte>, y: seq<Byte>, z: seq<Byte>, i: nat)
    requires |x| == |y| == |z| && i <= |x|
  {
    forall k {:trigger z[k]} :: i <= k < |x| ==> z[k] == Column(x, y, k)
  }

  lemma FirstColumn(x: seq<Byte>, i: nat)
    requires i < |x|
    ensures Value(x[i..]) == x[i] * Pow256(|x| - (i + 1)) + Value(x[i + 1..])
  {
    assert x[i..][1..] == x[i + 1..];
  }

  /** Column sums add up to the sum of the numbers, up to the last carry. */
  lemma {:induction false} ColumnsAddUp(x: seq<Byte>, y: seq<Byte>, z: seq<Byte>, i: nat)
    requires |x| == |y| == |z| && i <= |x| && Added(x, y, z, i)
    ensures Value(x[i..]) + Value(y[i..]) == Value(z[i..]) + Carry(x, y, i) * Pow256(|x| - i)
    decreases |x| - i
  {
    if i < |x| {
      var j := i + 1;
      ColumnsAddUp(x, y, z, j);
      FirstColumn(x, i);
      FirstColumn(y, i);
      FirstColumn(z, i);
      CarryStep(x, y, z, i);
      OneColumnUp(Pow256(|x| - j), Pow256(|x| - i), x[i], y[i], Carry(x, y, j), z[i], Carry(x, y, i),
                  Value(x[j..]), Value(y[j..]), Value(z[j..]), Value(x[i..]), Value(y[i..]), Value(z[i..]));
    }
  }

  lemma CarryStep(x: seq<Byte>, y: seq<Byte>, z: seq<Byte>, i: nat)
    requires |x| == |y| == |z| && i < |x| && Added(x, y, z, i)
    ensures x[i] + y[i] + Carry(x, y, i + 1) == z[i] + 256 * Carry(x, y, i)
    ensures Pow256(|x| - i) == 256 * Pow256(|x| - (i + 1))
  {
  }

  /** The same with the sums named. */
  lemma OneColumnUp(p: nat, q: nat, x: Byte, y: Byte, carry: nat, z: Byte, carry': nat,
      X: nat, Y: nat, Z: nat, X': nat, Y': nat, Z': nat)
    requires x + y + carry == z + 256 * carry' && q == 256 * p
    requires X + Y == Z + carry * p
    requires X' == x * p + X && Y' == y * p + Y && Z' == z * p + Z
    ensures X' + Y' == Z' + carry' * q
  {
    ColumnSum(p, x, y, carry, z, carry', X, Y, Z);
  }

  class ID {
    const bytes: array<Byte>

    ghost predicate Valid()
    {
      bytes.Length == ID_LEN
    }

    /** Copies the given bytes. */
    constructor (b: seq<Byte>)
      requires |b| == ID_LEN
      ensures Valid() && bytes[..] == b && fresh(bytes)
    {
      var a := new Byte[ID_LEN];
      bytes := a;
      new;
      var i := 0;
      while i < ID_LEN
        invariant 0 <= i <= ID_LEN && bytes == a && a.Length == ID_LEN && fresh(a)
        invariant a[..i] == b[..i]
      {
        a[i] := b[i];
        i := i + 1;
      }
      assert a[..] == a[..ID_LEN] && b == b[..ID_LEN];
    }

    /** Adds other to this identifier, from the last byte to the first; other may be this very
        identifier. */
    method AddAssign(other: ID)
      requires Valid() && other.Valid()
      modifies bytes
      ensures IdOf(bytes[..]) == (old(IdOf(bytes[..])) + old(IdOf(other.bytes[..]))) % RING
      ensures other.bytes != bytes ==> other.bytes[..] == old(other.bytes[..])
    {
      ghost var x, y := bytes[..], other.bytes[..];
      var overflow: nat := 0;
      var i: nat := ID_LEN;
      while i > 0
        invariant i <= ID_LEN && overflow <= 1
        invariant forall k :: 0 <= k < i ==> bytes[k] == x[k] && other.bytes[k] == y[k]
        invariant other.bytes != bytes ==> other.bytes[..] == y
        invariant overflow == Carry(x, y, i) && Added(x, y, bytes[..], i)
      {
        i := i - 1;
        var val := bytes[i] + other.bytes[i] + overflow;
        ghost var z := bytes[..];
        assert LowByte(val) == Column(x, y, i);
        bytes[i] := LowByte(val);
        overflow := CarryBit(val);
        assert bytes[..] == z[i := bytes[i]];
      }
      SumModulo(x, y, bytes[..], i);
    }

    /** A sum that leaves this identifier alone. */
    method Plus(rhs: ID) returns (r: ID)
      requires Valid() && rhs.Valid()
      ensures r.Valid() && fresh(r) && fresh(r.bytes)
      ensures IdOf(r.bytes[..]) == (IdOf(bytes[..]) + IdOf(rhs.bytes[..])) % RING
      ensures bytes[..] == old(bytes[..]) && rhs.bytes[..] == old(rhs.bytes[..])
    {
      r := new ID(bytes[..]);
      r.AddAssign(rhs);
    }

    /** Byte by byte equality. */
    method Equals(rhs: ID) returns (r: bool)
      requires Valid() && rhs.Valid()
      ensures r <==> IdOf(bytes[..]) == IdOf(rhs.bytes[..])
    {
      var i := 0;
      while i < ID_LEN
        invariant 0 <= i <= ID_LEN && bytes[..i] == rhs.bytes[..i]
      {
        if bytes[i] != rhs.bytes[i] {
          if bytes[i] < rhs.bytes[i] {
            FirstDifference(bytes[..], rhs.bytes[..], i);
          } else {
            FirstDifference(rhs.bytes[..], bytes[..], i);
          }
          return false;
        }
        i := i + 1;
      }
      assert bytes[..] == bytes[..ID_LEN] && rhs.bytes[..] == rhs.bytes[..ID_LEN];
      return true;
    }

    /** Byte by byte comparison is the numeric order. */
    method Less(rhs: ID) returns (r: bool)
      requires Valid() && rhs.Valid()
      ensures r <==> IdOf(bytes[..]) < IdOf(rhs.bytes[..])
    {
      var i := 0;
      while i < ID_LEN
        invariant 0 <= i <= ID_LEN && bytes[..i] == rhs.bytes[..i]
      {
        if bytes[i] < rhs.bytes[i] {
          FirstDifference(bytes[..], rhs.bytes[..], i);
          return true;
        }
        if bytes[i] > rhs.bytes[i] {
          FirstDifference(rhs.bytes[..], bytes[..], i);
          return false;
        }
        i := i + 1;
      }
      assert bytes[..] == bytes[..ID_LEN] && rhs.bytes[..] == rhs.bytes[..ID_LEN];
      return false;
    }

    /** Between distinct bounds the test is that this identifier is met strictly before upper on
        the way clockwise from lower; between equal bounds it accepts everything. */
    method IsInInterval(lower: ID, upper: ID) returns (r: bool)
      requires Valid() && lower.Valid() && upper.Valid()
      ensures var x, a, b := IdOf(bytes[..]), IdOf(lower.bytes[..]), IdOf(upper.bytes[..]);
        r <==> a == b || 0 < Dist(a, x) < Dist(a, b)
      ensures r <==> InInterval(IdOf(bytes[..]), IdOf(lower.bytes[..]), IdOf(upper.bytes[..]))
    {
      var below := lower.Less(upper);
      if below {
        var above := lower.Less(this);
        if !above { return false; }
        r := this.Less(upper);
        return;
      }
      below := upper.Less(lower);
      if below {
        r := lower.Less(this);
        if r { return true; }
        r := this.Less(upper);
        return;
      }
      return true;
    }
  }

  /** A full sum, with its carry out of 20 bytes dropped. */
  lemma SumModulo(x: seq<Byte>, y: seq<Byte>, z: seq<Byte>, i: nat)
    requires |x| == |y| == |z| == ID_LEN && i == 0 && Added(x, y, z, i)
    ensures IdOf(z) == (IdOf(x) + IdOf(y)) % RING
  {
    var carry, n := AllColumns(x, y, z, i);
    RingSize();
    CarriedSum(x, y, z, carry, Pow256(n));
  }

  lemma CarriedSum(x: seq<Byte>, y: seq<Byte>, z: seq<Byte>, carry: nat, p: nat)
    requires |x| == |y| == |z| == ID_LEN && carry <= 1 && p == RING
    requires Value(x) + Value(y) == Value(z) + carry * p
    ensures IdOf(z) == (IdOf(x) + IdOf(y)) % RING
  {
    DropCarry(IdOf(x), IdOf(y), IdOf(z), carry, p);
  }

  lemma AllColumns(x: seq<Byte>, y: seq<Byte>, z: seq<Byte>, i: nat) returns (carry: nat, n: nat)
    requires |x| == |y| == |z| && i == 0 && Added(x, y, z, i)
    ensures carry <= 1 && n == |x| && Value(x) + Value(y) == Value(z) + carry * Pow256(n)
  {
    ColumnsAddUp(x, y, z, i);
    assert x[i..] == x && y[i..] == y && z[i..] == z;
    carry, n := Carry(x, y, i), |x| - i;
  }

  lemma DropCarry(x: Id, y: Id, z: Id, carry: nat, p: nat)
    requires carry <= 1 && p == RING && x + y == z + carry * p
    ensures z == (x + y) % RING
  {
    assert carry * p == if carry == 0 then 0 else p;
  }
}
