/** The finger table of one node. Its slots hold node handles: two handles may stand for the
    same peer, and removal compares handles. */
module FingerTables {
  import opened Wrappers
  import opened Ring
  import opened Identifier
  import opened Routing

  /** A handle for a peer. */
  class Node {
    const id: Id

    constructor (id: Id)
      ensures this.id == id
    {
      this.id := id;
    }
  }

  datatype Error = IndexOutOfBounds(index: nat)

  /** The identifiers in a row of slots. */
  function IdsOf(e: seq<Node?>): (t: Slots)
    ensures |t| == |e|
    ensures forall i :: 0 <= i < |e| ==> t[i] == if e[i] == null then None else Some(e[i].id)
  {
    seq(|e|, i requires 0 <= i < |e| => if e[i] == null then None else Some(e[i].id))
  }

  /** The handle in the first filled slot at or after i. */
  function FirstNode(e: seq<Node?>, i: nat): (n: Node?)
    requires i <= |e|
    ensures n != null ==> exists j :: i <= j < |e| && e[j] == n && forall k :: i <= k < j ==> e[k] == null
    ensures n == null ==> forall k :: i <= k < |e| ==> e[k] == null
    decreases |e| - i
  {
    if i == |e| then null else if e[i] != null then e[i] else FirstNode(e, i + 1)
  }

  lemma {:induction false} FirstNodeIds(e: seq<Node?>, i: nat)
    requires i <= |e|
    ensures FirstFrom(IdsOf(e), i) == if FirstNode(e, i) == null then None else Some(FirstNode(e, i).id)
    decreases |e| - i
  {
    if i < |e| && e[i] == null {
      FirstNodeIds(e, i + 1);
    }
  }

  lemma {:induction false} FirstNodeSkips(e: seq<Node?>, i: nat, j: nat)
    requires i <= j <= |e| && forall k :: i <= k < j ==> e[k] == null
    ensures FirstNode(e, i) == FirstNode(e, j)
    decreases j - i
  {
    if i < j {
      FirstNodeSkips(e, i + 1, j);
    }
  }

  /** The slots with every occurrence of the handle n emptied. */
  function Without(e: seq<Node?>, n: Node): (r: seq<Node?>)
    ensures |r| == |e|
    ensures forall i :: 0 <= i < |e| ==> r[i] == if e[i] == n then null else e[i]
  {
    seq(|e|, i requires 0 <= i < |e| => if e[i] == n then null else e[i])
  }

  class FingerTable {
    const id: seq<Byte>
    const entries: array<Node?>

    ghost predicate Valid()
    {
      |id| == ID_LEN && entries.Length == M
    }

    constructor (id: seq<Byte>)
      requires |id| == ID_LEN
      ensures Valid() && this.id == id && fresh(entries)
      ensures forall i :: 0 <= i < M ==> entries[i] == null
    {
      this.id := id;
      this.entries := new Node?[M](_ => null);
    }

    /** The node in the first filled slot at or after index. */
    method GetNode(index: nat) returns (r: Result<Node?, Error>)
      requires Valid()
      ensures index >= M ==> r == Failure(IndexOutOfBounds(index))
      ensures index < M ==> r == Success(FirstNode(entries[..], index))
    {
      if index >= M {
        return Failure(IndexOutOfBounds(index));
      }
      var i := index;
      while i < M && entries[i] == null
        invariant index <= i <= M
        invariant forall k :: index <= k < i ==> entries[k] == null
      {
        i := i + 1;
      }
      FirstNodeSkips(entries[..], index, i);
      if i == M {
        return Success(null);
      }
      return Success(entries[i]);
    }

    method SetNode(index: nat, n: Node?) returns (r: Result<(), Error>)
      requires Valid()
      modifies entries
      ensures index >= M ==> r == Failure(IndexOutOfBounds(index)) && entries[..] == old(entries[..])
      ensures index < M ==> r == Success(()) && entries[..] == old(entries[..])[index := n]
    {
      if index >= M {
        return Failure(IndexOutOfBounds(index));
      }
      entries[index] := n;
      return Success(());
    }

    /** Empties every slot that holds this very handle. */
    method RemoveNode(n: Node?)
      requires Valid()
      modifies entries
      ensures n == null ==> entries[..] == old(entries[..])
      ensures n != null ==> entries[..] == Without(old(entries[..]), n)
    {
      if n != null {
        var i := 0;
        while i < M
          invariant 0 <= i <= M
          invariant forall k :: 0 <= k < i ==> entries[k] == if old(entries[k]) == n then null else old(entries[k])
          invariant forall k :: i <= k < M ==> entries[k] == old(entries[k])
        {
          if entries[i] == n {
            entries[i] := null;
          }
          i := i + 1;
        }
        assert entries[..] == Without(old(entries[..]), n);
      }
    }

    /** The position 2^k after this table's identifier, wrapping round the circle. */
    method Start(k: nat) returns (r: Result<ID, Error>)
      requires Valid()
      ensures k >= M ==> r == Failure(IndexOutOfBounds(k))
      ensures k < M ==> r.Success? && r.value.Valid() &&
                        IdOf(r.value.bytes[..]) == (IdOf(id) + Pow2(k)) % RING
    {
      if k >= M {
        return Failure(IndexOutOfBounds(k));
      }
      var b := new Byte[ID_LEN](_ => 0);
      var column := ID_LEN - k / 8 - 1;
      Pow2Bits(k % 8);
      b[column] := Pow2(k % 8);
      OneBit(b[..], column);
      BitPosition(k);
      var bID := new ID(b[..]);
      var own := new ID(id);
      var s := own.Plus(bID);
      return Success(s);
    }
  }

  /** A single bit of a byte fits a byte. */
  lemma Pow2Bits(j: nat)
    requires j < 8
    ensures Pow2(j) < 256
  {
    Pow2Mono(j, 7);
    assert Pow2(7) == 128;
  }

  lemma {:induction false} ZeroValue(b: seq<Byte>)
    requires forall i :: 0 <= i < |b| ==> b[i] == 0
    ensures Value(b) == 0
  {
    if |b| > 0 {
      ZeroValue(b[1..]);
    }
  }

  /** A byte string that is zero outside one column. */
  lemma {:induction false} OneBit(b: seq<Byte>, column: nat)
    requires column < |b| && forall i :: 0 <= i < |b| && i != column ==> b[i] == 0
    ensures Value(b) == b[column] * Pow256(|b| - 1 - column)
  {
    if column == 0 {
      ZeroValue(b[1..]);
    } else {
      OneBit(b[1..], column - 1);
    }
  }

  /** Bit k % 8 of byte k / 8, counted from the last byte, weighs 2^k. */
  lemma BitPosition(k: nat)
    ensures Pow2(k % 8) * Pow256(k / 8) == Pow2(k)
  {
    Pow256IsPow2(k / 8);
    Pow2Sum(k % 8, 8 * (k / 8));
    assert k % 8 + 8 * (k / 8) == k;
  }
}
