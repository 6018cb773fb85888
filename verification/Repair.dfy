/** Dropping dead successors: what the ping loop at the start of a stabilization does to the
    finger slots, for any sequence of ping answers. */
module Repair {
  import opened Wrappers
  import opened Sets
  import opened Routing
  import opened FingerTables

  /** Reading the successor puts the node itself in slot 0 when every slot is empty. */
  function Filled(e: seq<Node?>, self: Node): (r: seq<Node?>)
    requires |e| == M
    ensures |r| == M && FirstNode(r, 0) != null
  {
    if FirstNode(e, 0) == null then
      var r := e[0 := self];
      assert r[0] != null;
      r
    else e
  }

  function SuccessorIn(e: seq<Node?>, self: Node): Node
    requires |e| == M
  {
    FirstNode(Filled(e, self), 0)
  }

  /** The slots that hold somebody else. */
  ghost function Others(e: seq<Node?>, self: Node): set<nat> {
    set i: nat | i < |e| && e[i] != null && e[i] != self
  }

  lemma FilledSame(e: seq<Node?>, self: Node)
    requires |e| == M && SuccessorIn(e, self) != self
    ensures Filled(e, self) == e
  {
  }

  lemma OthersFall(e: seq<Node?>, self: Node)
    requires |e| == M && SuccessorIn(e, self) != self
    ensures |Others(Without(Filled(e, self), SuccessorIn(e, self)), self)| < |Others(e, self)|
  {
    var s := SuccessorIn(e, self);
    FilledSame(e, self);
    var after := Others(Without(e, s), self);
    var j: nat :| j < |e| && e[j] == s;
    assert after <= Others(e, self) - {j};
    assert |Others(e, self) - {j}| == |Others(e, self)| - 1;
    SubsetSize(after, Others(e, self) - {j});
  }

  /** The slots after the ping loop; ping(k) is the answer to ping number k. A node asked to
      ping itself always answers. */
  ghost function Repaired(e: seq<Node?>, self: Node, ping: nat -> bool, k: nat): (r: seq<Node?>)
    requires |e| == M
    ensures |r| == M
    decreases |Others(e, self)|
  {
    var s := SuccessorIn(e, self);
    if s == self || ping(k) then Filled(e, self)
    else
      OthersFall(e, self);
      Repaired(Without(Filled(e, self), s), self, ping, k + 1)
  }

  /** The handles that failed their ping, in the order they were pinged. */
  ghost function Failed(e: seq<Node?>, self: Node, ping: nat -> bool, k: nat): (r: seq<Node>)
    requires |e| == M
    decreases |Others(e, self)|
  {
    var s := SuccessorIn(e, self);
    if s == self || ping(k) then []
    else
      OthersFall(e, self);
      [s] + Failed(Without(Filled(e, self), s), self, ping, k + 1)
  }

  /** The slots with every handle in ns emptied. */
  ghost function WithoutAll(e: seq<Node?>, ns: seq<Node>): (r: seq<Node?>)
    ensures |r| == |e|
    ensures forall i :: 0 <= i < |e| ==> r[i] == if e[i] != null && e[i] in ns then null else e[i]
  {
    seq(|e|, i requires 0 <= i < |e| => if e[i] != null && e[i] in ns then null else e[i])
  }

  lemma WithoutStep(e: seq<Node?>, s: Node, later: seq<Node>)
    ensures WithoutAll(Without(e, s), later) == WithoutAll(e, [s] + later)
  {
    forall i | 0 <= i < |e|
      ensures WithoutAll(Without(e, s), later)[i] == WithoutAll(e, [s] + later)[i]
    {
    }
  }

  lemma FilledTwice(e: seq<Node?>, self: Node)
    requires |e| == M
    ensures SuccessorIn(Filled(e, self), self) == SuccessorIn(e, self)
  {
    assert Filled(Filled(e, self), self) == Filled(e, self);
  }

  /** The loop empties exactly the handles that failed. */
  lemma {:induction false} RepairedSlots(e: seq<Node?>, self: Node, ping: nat -> bool, k: nat)
    requires |e| == M
    ensures Repaired(e, self, ping, k) == Filled(WithoutAll(e, Failed(e, self, ping, k)), self)
    decreases |Others(e, self)|
  {
    var s := SuccessorIn(e, self);
    if s == self || ping(k) {
      assert WithoutAll(e, []) == e;
    } else {
      FilledSame(e, self);
      OthersFall(e, self);
      RepairedSlots(Without(e, s), self, ping, k + 1);
      WithoutStep(e, s, Failed(Without(e, s), self, ping, k + 1));
    }
  }

  /** The loop stops at the node itself, or at a handle that answers the ping after the last
      failed one. */
  lemma {:induction false} RepairStops(e: seq<Node?>, self: Node, ping: nat -> bool, k: nat)
    requires |e| == M
    ensures SuccessorIn(Repaired(e, self, ping, k), self) == self || ping(k + |Failed(e, self, ping, k)|)
    decreases |Others(e, self)|
  {
    var s := SuccessorIn(e, self);
    if s == self || ping(k) {
      FilledTwice(e, self);
    } else {
      FilledSame(e, self);
      OthersFall(e, self);
      var rest := Without(e, s);
      RepairStops(rest, self, ping, k + 1);
      assert k + 1 + |Failed(rest, self, ping, k + 1)| == k + |Failed(e, self, ping, k)|;
    }
  }

  /** What is known of the handles that failed, counting pings from k. */
  ghost predicate PingedOnce(e: seq<Node?>, self: Node, ping: nat -> bool, k: nat, failed: seq<Node>) {
    && self !in failed
    && (forall j: nat {:trigger failed[j]} :: j < |failed| ==> !ping(k + j) && failed[j] in e)
    && (forall i, j :: 0 <= i < j < |failed| ==> failed[i] != failed[j])
  }

  lemma PingedOnceStep(e: seq<Node?>, self: Node, ping: nat -> bool, k: nat, s: Node, later: seq<Node>)
    requires s in e && s != self && !ping(k)
    requires PingedOnce(Without(e, s), self, ping, k + 1, later)
    ensures PingedOnce(e, self, ping, k, [s] + later)
  {
    var failed := [s] + later;
    forall j: nat | j < |failed|
      ensures !ping(k + j) && failed[j] in e && (j > 0 ==> failed[j] != s)
    {
      if j > 0 {
        assert failed[j] == later[j - 1];
        assert k + 1 + (j - 1) == k + j;
        assert later[j - 1] in Without(e, s);
      }
    }
  }

  /** Every failed handle was in the table, was pinged once, and did not answer. */
  lemma {:induction false} FailedPingedOnce(e: seq<Node?>, self: Node, ping: nat -> bool, k: nat)
    requires |e| == M
    ensures PingedOnce(e, self, ping, k, Failed(e, self, ping, k))
    decreases |Others(e, self)|
  {
    var s := SuccessorIn(e, self);
    if s != self && !ping(k) {
      FilledSame(e, self);
      OthersFall(e, self);
      FailedPingedOnce(Without(e, s), self, ping, k + 1);
      PingedOnceStep(e, self, ping, k, s, Failed(Without(e, s), self, ping, k + 1));
    }
  }

  /** Each handle that was pinged is the successor left by the ones that failed before it. */
  ghost predicate PingedInTurn(e: seq<Node?>, self: Node, failed: seq<Node>)
    requires |e| == M
  {
    forall j {:trigger failed[j]} :: 0 <= j < |failed| ==> failed[j] == SuccessorIn(WithoutAll(e, failed[..j]), self)
  }

  lemma {:induction false} FailedInTurn(e: seq<Node?>, self: Node, ping: nat -> bool, k: nat)
    requires |e| == M
    ensures PingedInTurn(e, self, Failed(e, self, ping, k))
    decreases |Others(e, self)|
  {
    var s := SuccessorIn(e, self);
    if s != self && !ping(k) {
      FilledSame(e, self);
      OthersFall(e, self);
      var later := Failed(Without(e, s), self, ping, k + 1);
      FailedInTurn(Without(e, s), self, ping, k + 1);
      InTurnStep(e, self, s, later);
    }
  }

  lemma InTurnStep(e: seq<Node?>, self: Node, s: Node, later: seq<Node>)
    requires |e| == M && s == SuccessorIn(e, self) && PingedInTurn(Without(e, s), self, later)
    ensures PingedInTurn(e, self, [s] + later)
  {
    var failed := [s] + later;
    forall j | 0 <= j < |failed| ensures failed[j] == SuccessorIn(WithoutAll(e, failed[..j]), self) {
      if j == 0 {
        assert WithoutAll(e, []) == e;
      } else {
        assert failed[..j] == [s] + later[..j - 1];
        WithoutStep(e, s, later[..j - 1]);
        assert later[j - 1] == SuccessorIn(WithoutAll(Without(e, s), later[..j - 1]), self);
      }
    }
  }

  /** For any ping answers the loop empties out of the table exactly the handles that failed a
      ping, each of which was pinged once, and keeps every other slot. The successor it leaves is
      the handle in the lowest slot that survives, which has just answered, or the node itself
      when no slot survives. */
  lemma RepairOutcome(e: seq<Node?>, self: Node, ping: nat -> bool)
    requires |e| == M
    ensures var failed, r := Failed(e, self, ping, 0), Repaired(e, self, ping, 0);
      && PingedOnce(e, self, ping, 0, failed) && PingedInTurn(e, self, failed)
      && r == Filled(WithoutAll(e, failed), self)
      && SuccessorIn(r, self) == SuccessorIn(WithoutAll(e, failed), self)
      && (SuccessorIn(r, self) == self || ping(|failed|))
  {
    var k: nat := 0;
    var failed := Failed(e, self, ping, k);
    RepairedSlots(e, self, ping, k);
    RepairStops(e, self, ping, k);
    FailedPingedOnce(e, self, ping, k);
    FailedInTurn(e, self, ping, k);
    FilledTwice(WithoutAll(e, failed), self);
    assert k + |failed| == |failed|;
  }
}
