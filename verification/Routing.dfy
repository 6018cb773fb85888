/** Lookups over finger tables.

    A table has 160 slots; the successor is the first filled slot, and a node whose slots are
    all empty is its own successor. */
module Routing {
  import opened Wrappers
  import opened Ring

  const M: nat := 160

  type Slots = seq<Option<Id>>

  type Tables = map<Id, Slots>

  /** The first filled slot at or after index i. */
  function FirstFrom(t: Slots, i: nat): (r: Option<Id>)
    requires i <= |t|
    ensures r.Some? ==> exists j :: i <= j < |t| && t[j] == r && forall k :: i <= k < j ==> t[k].None?
    ensures r.None? ==> forall k :: i <= k < |t| ==> t[k].None?
    decreases |t| - i
  {
    if i == |t| then None
    else if t[i].Some? then t[i]
    else FirstFrom(t, i + 1)
  }

  function Succ(t: Slots, n: Id): Id {
    match FirstFrom(t, 0)
    case Some(s) => s
    case None => n
  }

  /** Scans slots i-1 down to 0 for a finger strictly between n and id. */
  function Closest(t: Slots, n: Id, id: Id, i: nat): Id
    requires i <= |t|
  {
    if i == 0 then n
    else
      var f := FirstFrom(t, i - 1);
      if f.Some? && InInterval(f.value, n, id) then f.value else Closest(t, n, id, i - 1)
  }

  /** The scan over slots i - 1 down to 0 finds what slot k - 1 offers, where no higher slot offers
      anything; k is 0, and the node itself is found, if no slot does. */
  lemma {:induction false} ClosestIsHighest(t: Slots, n: Id, id: Id, i: nat) returns (k: nat)
    requires i <= |t|
    ensures k <= i && forall j :: k <= j < i ==> !Offers(t, n, id, j)
    ensures k == 0 ==> Closest(t, n, id, i) == n
    ensures k > 0 ==> Offers(t, n, id, k - 1) && FirstFrom(t, k - 1) == Some(Closest(t, n, id, i))
  {
    if i == 0 || Offers(t, n, id, i - 1) {
      k := i;
    } else {
      k := ClosestIsHighest(t, n, id, i - 1);
    }
  }

  /** The first filled slot from k on is a finger between n and id. */
  predicate Offers(t: Slots, n: Id, id: Id, k: nat)
    requires k <= |t|
  {
    FirstFrom(t, k).Some? && InInterval(FirstFrom(t, k).value, n, id)
  }

  /** The table of n is full length and names members only. */
  ghost predicate MemberTable(T: Tables, n: Id) {
    n in T && |T[n]| == M && forall i :: 0 <= i < M && T[n][i].Some? ==> T[n][i].value in T
  }

  ghost predicate WellFormed(T: Tables) {
    forall n {:trigger MemberTable(T, n)} :: n in T ==> MemberTable(T, n)
  }

  ghost function SuccOf(T: Tables, n: Id): (s: Id)
    requires WellFormed(T) && n in T
    ensures s in T
  {
    assert MemberTable(T, n);
    Succ(T[n], n)
  }

  ghost function ClosestOf(T: Tables, n: Id, id: Id): (f: Id)
    requires WellFormed(T) && n in T
    ensures f in T
  {
    assert MemberTable(T, n);
    ClosestIsMember(T, n, id, M);
    Closest(T[n], n, id, M)
  }

  lemma {:induction false} ClosestIsMember(T: Tables, n: Id, id: Id, i: nat)
    requires WellFormed(T) && n in T && i <= |T[n]|
    ensures Closest(T[n], n, id, i) in T
  {
    assert MemberTable(T, n);
    if i > 0 {
      ClosestIsMember(T, n, id, i - 1);
    }
  }

  /** id is in the half-open arc from n to its successor, so n's successor answers for id. */
  ghost predicate Answers(T: Tables, n: Id, id: Id)
    requires WellFormed(T) && n in T
  {
    InInterval(id, n, SuccOf(T, n)) || id == SuccOf(T, n)
  }

  /** The scan ends with a finger strictly inside, or with n when no slot offers one. */
  lemma {:induction false} ClosestFound(t: Slots, n: Id, id: Id, i: nat)
    requires 0 < i <= |t|
    requires FirstFrom(t, 0).Some? && InInterval(FirstFrom(t, 0).value, n, id)
    ensures InInterval(Closest(t, n, id, i), n, id)
  {
    if i > 1 {
      ClosestFound(t, n, id, i - 1);
    }
  }

  /** On the forwarding branch the next node is a member strictly between n and id; it is
      neither n nor id, whatever the slots hold. */
  lemma ForwardProgress(T: Tables, n: Id, id: Id)
    requires WellFormed(T) && n in T && n != id && !Answers(T, n, id)
    ensures var f := ClosestOf(T, n, id);
      Strictly(f, n, id) && 0 < Dist(n, f) < Dist(n, id) && Dist(f, id) < Dist(n, id)
  {
    assert MemberTable(T, n);
    ClosestFound(T[n], n, id, M);
  }

  /** The answer of a lookup for id that starts from n. */
  ghost function Lookup(T: Tables, n: Id, id: Id): (r: Id)
    requires WellFormed(T) && n in T
    ensures r in T
    decreases Dist(n, id)
  {
    if n == id then n
    else if Answers(T, n, id) then SuccOf(T, n)
    else
      ForwardProgress(T, n, id);
      Lookup(T, ClosestOf(T, n, id), id)
  }

  /** The nodes the recursive lookup runs on. */
  ghost function Visits(T: Tables, n: Id, id: Id): (v: seq<Id>)
    requires WellFormed(T) && n in T
    ensures |v| > 0
    decreases Dist(n, id)
  {
    if n == id || Answers(T, n, id) then [n]
    else
      ForwardProgress(T, n, id);
      [n] + Visits(T, ClosestOf(T, n, id), id)
  }

  /** How often a lookup is forwarded. */
  ghost function Forwards(T: Tables, n: Id, id: Id): nat
    requires WellFormed(T) && n in T
  {
    |Visits(T, n, id)| - 1
  }

  /** The node at which the predecessor loop stops. */
  ghost function PredLookup(T: Tables, n: Id, id: Id): (p: Id)
    requires WellFormed(T) && n in T && n != id
    ensures p in T && p != id && Answers(T, p, id)
    decreases Dist(n, id)
  {
    if Answers(T, n, id) then n
    else
      ForwardProgress(T, n, id);
      PredLookup(T, ClosestOf(T, n, id), id)
  }

  /** The nodes the predecessor loop goes through. */
  ghost function PredVisits(T: Tables, n: Id, id: Id): (v: seq<Id>)
    requires WellFormed(T) && n in T && n != id
    ensures |v| > 0
    decreases Dist(n, id)
  {
    if Answers(T, n, id) then [n]
    else
      ForwardProgress(T, n, id);
      [n] + PredVisits(T, ClosestOf(T, n, id), id)
  }

  /** For any id but the starting node's own, the recursive lookup and the predecessor loop go
      through the same nodes; the loop stops at the last of them and the lookup answers with
      that node's successor. */
  lemma {:induction false} LookupIsSuccessorOfPredecessor(T: Tables, n: Id, id: Id)
    requires WellFormed(T) && n in T && n != id
    ensures Visits(T, n, id) == PredVisits(T, n, id)
    ensures var v, p := Visits(T, n, id), PredLookup(T, n, id);
      v[|v| - 1] == p && Lookup(T, n, id) == SuccOf(T, p)
    decreases Dist(n, id)
  {
    if !Answers(T, n, id) {
      ForwardProgress(T, n, id);
      LookupIsSuccessorOfPredecessor(T, ClosestOf(T, n, id), id);
    }
  }

  /** The node the predecessor loop is at after k turns, if it gets that far. */
  ghost function LoopNode(T: Tables, n: Id, id: Id, k: nat): (r: Id)
    requires WellFormed(T) && n in T
    ensures r in T
    decreases k
  {
    if k == 0 then n else LoopNode(T, ClosestOf(T, n, id), id, k - 1)
  }

  /** The first turn of the predecessor loop stops, or moves on to another node than id's own. */
  ghost predicate LoopEnds(T: Tables, n: Id, id: Id)
    requires WellFormed(T) && n in T
  {
    n != id || SuccOf(T, n) == n || ClosestOf(T, n, id) != n
  }

  /** The node where the predecessor loop ends. */
  ghost function LoopEnd(T: Tables, n: Id, id: Id): Id
    requires WellFormed(T) && n in T && LoopEnds(T, n, id)
  {
    if Answers(T, n, id) then n
    else
      FirstTurn(T, n, id);
      PredLookup(T, ClosestOf(T, n, id), id)
  }

  lemma FirstTurn(T: Tables, n: Id, id: Id)
    requires WellFormed(T) && n in T && LoopEnds(T, n, id) && !Answers(T, n, id)
    ensures ClosestOf(T, n, id) != id
  {
    if n != id {
      ForwardProgress(T, n, id);
    }
  }

  lemma {:induction false} LoopReaches(T: Tables, n: Id, id: Id) returns (k: nat)
    requires WellFormed(T) && n in T && n != id
    ensures LoopNode(T, n, id, k) == PredLookup(T, n, id)
    ensures forall j: nat :: j < k ==> !Answers(T, LoopNode(T, n, id, j), id)
    decreases Dist(n, id)
  {
    if Answers(T, n, id) {
      k := 0;
    } else {
      ForwardProgress(T, n, id);
      var f := ClosestOf(T, n, id);
      var k' := LoopReaches(T, f, id);
      k := k' + 1;
      forall j: nat | j < k ensures !Answers(T, LoopNode(T, n, id, j), id) {
        if j > 0 { assert LoopNode(T, n, id, j) == LoopNode(T, f, id, j - 1); }
      }
    }
  }

  /** The predecessor loop from n stops at p: p is the first node it comes to whose successor answers
      for id. */
  ghost predicate StopsAt(T: Tables, n: Id, id: Id, p: Id)
    requires WellFormed(T) && n in T
  {
    exists k: nat :: p == LoopNode(T, n, id, k) && Answers(T, p, id)
                     && forall j: nat :: j < k ==> !Answers(T, LoopNode(T, n, id, j), id)
  }

  /** The node named as the end of the loop is where it stops; for any identifier but the starting
      node's own that is the predecessor of lookups. */
  lemma LoopStopsAtEnd(T: Tables, n: Id, id: Id)
    requires WellFormed(T) && n in T && LoopEnds(T, n, id)
    ensures StopsAt(T, n, id, LoopEnd(T, n, id))
    ensures n != id ==> LoopEnd(T, n, id) == PredLookup(T, n, id)
  {
    if Answers(T, n, id) {
      var k: nat := 0;
      assert LoopNode(T, n, id, k) == n;
    } else {
      FirstTurn(T, n, id);
      var f := ClosestOf(T, n, id);
      var k' := LoopReaches(T, f, id);
      var k := k' + 1;
      assert LoopNode(T, n, id, k) == PredLookup(T, f, id);
      forall j: nat | j < k ensures !Answers(T, LoopNode(T, n, id, j), id) {
        if j > 0 { assert LoopNode(T, n, id, j) == LoopNode(T, f, id, j - 1); }
      }
    }
  }

  lemma {:induction false} LoopStuck(T: Tables, n: Id, id: Id, k: nat)
    requires WellFormed(T) && n in T && !LoopEnds(T, n, id)
    ensures LoopNode(T, n, id, k) == n && !Answers(T, n, id)
    decreases k
  {
    if k > 0 {
      LoopStuck(T, n, id, k - 1);
    }
  }

  /** The predecessor loop ends for every identifier but the starting node's own. For that one it
      ends exactly when the node is its own successor or its highest finger is another node;
      otherwise it stays at the starting node for ever. */
  lemma LoopEndsIff(T: Tables, n: Id, id: Id)
    requires WellFormed(T) && n in T
    ensures (exists k: nat :: Answers(T, LoopNode(T, n, id, k), id)) <==> LoopEnds(T, n, id)
  {
    if LoopEnds(T, n, id) {
      if Answers(T, n, id) {
        var k: nat := 0;
        assert LoopNode(T, n, id, k) == n;
      } else {
        FirstTurn(T, n, id);
        var f := ClosestOf(T, n, id);
        var k := LoopReaches(T, f, id);
        var turns := k + 1;
        assert LoopNode(T, n, id, turns) == PredLookup(T, f, id);
      }
    } else {
      forall k: nat ensures !Answers(T, LoopNode(T, n, id, k), id) {
        LoopStuck(T, n, id, k);
      }
    }
  }

  /** Of two members 0 and m, let 0 have m as successor and itself in slot 158. Its loop for its
      own identifier never ends. */
  lemma LoopCanStick(m: Id) returns (T: Tables, n: Id)
    requires m != 0
    ensures WellFormed(T) && n in T && SuccOf(T, n) == m && !LoopEnds(T, n, n)
    ensures forall k: nat :: !Answers(T, LoopNode(T, n, n, k), n)
  {
    n := 0;
    T := map[n := Sparse(m, Some(n)), m := Sparse(n, None)];
    forall i | i in T ensures MemberTable(T, i) {
    }
    HighestOf(m, n, n);
    LoopEndsIff(T, n, n);
  }

  /** A table with only its first slot and perhaps slot 158 filled. */
  function Sparse(first: Id, last: Option<Id>): (t: Slots)
    ensures |t| == M && FirstFrom(t, 0) == Some(first)
  {
    seq(M, i => if i == 0 then Some(first) else if i == M - 2 then last else None)
  }

  lemma HighestOf(m: Id, last: Id, n: Id)
    ensures Closest(Sparse(m, Some(last)), n, n, M) == last
  {
    var t, i := Sparse(m, Some(last)), M - 1;
    assert Closest(t, n, n, M) == Closest(t, n, n, i);
  }

  /** The nodes a lookup visits are those the predecessor loop comes to, up to the first that answers;
      a lookup for the starting node's own identifier visits that node alone and answers with it. */
  lemma {:induction false} VisitsAreLoopNodes(T: Tables, n: Id, id: Id)
    requires WellFormed(T) && n in T
    ensures var v := Visits(T, n, id);
      && (forall k: nat {:trigger v[k]} :: k < |v| ==> v[k] == LoopNode(T, n, id, k))
      && (n != id ==> Answers(T, v[|v| - 1], id) && forall k: nat {:trigger v[k]} :: k < |v| - 1 ==> !Answers(T, v[k], id))
      && (n == id ==> v == [n] && Lookup(T, n, id) == n)
    decreases Dist(n, id)
  {
    if n != id && !Answers(T, n, id) {
      ForwardProgress(T, n, id);
      var f := ClosestOf(T, n, id);
      VisitsAreLoopNodes(T, f, id);
      var v, w := Visits(T, n, id), Visits(T, f, id);
      forall k: nat | k < |v| ensures v[k] == LoopNode(T, n, id, k) && (k < |v| - 1 ==> !Answers(T, v[k], id)) {
        if k > 0 { assert v[k] == w[k - 1] == LoopNode(T, f, id, k - 1); }
      }
    }
  }

  /** r is the first member at or clockwise after id. */
  ghost predicate Owner(T: Tables, id: Id, r: Id) {
    r in T && forall m {:trigger Dist(id, m)} :: m in T ==> Dist(id, r) <= Dist(id, m)
  }

  /** n's successor is the next member clockwise. */
  ghost predicate TightAt(T: Tables, n: Id)
    requires WellFormed(T) && n in T
  {
    forall m {:trigger Strictly(m, n, SuccOf(T, n))} :: m in T ==> !Strictly(m, n, SuccOf(T, n))
  }

  ghost predicate IdealSuccessors(T: Tables)
    requires WellFormed(T)
  {
    forall n {:trigger TightAt(T, n)} :: n in T ==> TightAt(T, n)
  }

  /** With ideal successors a lookup from any node finds the owner of the identifier, whatever
      members the other fingers name. */
  lemma LookupFindsOwner(T: Tables, n: Id, id: Id)
    requires WellFormed(T) && IdealSuccessors(T) && n in T
    ensures Owner(T, id, Lookup(T, n, id))
  {
    if n != id {
      LookupIsSuccessorOfPredecessor(T, n, id);
      var p := PredLookup(T, n, id);
      var s := SuccOf(T, p);
      assert TightAt(T, p);
      forall m | m in T ensures Dist(id, s) <= Dist(id, m) {
        assert !Strictly(m, p, s);
      }
    }
  }

  ghost predicate AllLookupsRight(T: Tables)
    requires WellFormed(T)
  {
    forall n, id {:trigger Lookup(T, n, id)} :: n in T ==> Owner(T, id, Lookup(T, n, id))
  }

  /** Lookups are right from every node for every identifier exactly when every successor is
      the next member clockwise. */
  lemma LookupsRightIffIdeal(T: Tables)
    requires WellFormed(T)
    ensures AllLookupsRight(T) <==> IdealSuccessors(T)
  {
    if IdealSuccessors(T) {
      forall n, id: Id | n in T ensures Owner(T, id, Lookup(T, n, id)) {
        LookupFindsOwner(T, n, id);
      }
    }
    if AllLookupsRight(T) {
      forall n | n in T ensures TightAt(T, n) {
        NextIdAnswer(T, n);
      }
    }
  }

  /** The owner of the position after n is the next member clockwise. */
  lemma NextIdAnswer(T: Tables, n: Id)
    requires WellFormed(T) && AllLookupsRight(T) && n in T
    ensures TightAt(T, n)
  {
    var id: Id := if n + 1 == RING then 0 else n + 1;
    var s := SuccOf(T, n);
    assert Owner(T, id, Lookup(T, n, id));
    assert Lookup(T, n, id) == s;
    forall m | m in T ensures !Strictly(m, n, s) {
      assert Dist(id, s) <= Dist(id, m);
    }
  }

  /** The successor pointer of p passes over both id and r. */
  ghost predicate JumpsOver(T: Tables, p: Id, id: Id, r: Id)
    requires WellFormed(T) && p in T
  {
    p != id && Answers(T, p, id) && Strictly(r, p, SuccOf(T, p))
  }

  /** No successor pointer jumps over the identifier and its owner. */
  ghost predicate NoneJumps(T: Tables, id: Id, r: Id)
    requires WellFormed(T)
  {
    forall p {:trigger JumpsOver(T, p, id, r)} :: p in T ==> !JumpsOver(T, p, id, r)
  }

  /** The lookup from every member answers r. */
  ghost predicate FoundByAll(T: Tables, id: Id, r: Id)
    requires WellFormed(T)
  {
    forall n {:trigger Lookup(T, n, id)} :: n in T ==> Lookup(T, n, id) == r
  }

  /** Lookups from everywhere for one identifier find its owner exactly when no successor pointer
      jumps over both. */
  lemma FoundByAllIff(T: Tables, id: Id, r: Id)
    requires WellFormed(T) && Owner(T, id, r)
    ensures FoundByAll(T, id, r) <==> NoneJumps(T, id, r)
  {
    if NoneJumps(T, id, r) {
      forall n | n in T ensures Lookup(T, n, id) == r {
        FindsUnlessJumped(T, n, id, r);
      }
    }
    if FoundByAll(T, id, r) {
      forall p | p in T ensures !JumpsOver(T, p, id, r) {
        assert Lookup(T, p, id) == r;
      }
    }
  }

  lemma FindsUnlessJumped(T: Tables, n: Id, id: Id, r: Id)
    requires WellFormed(T) && Owner(T, id, r) && n in T
    requires NoneJumps(T, id, r)
    ensures Lookup(T, n, id) == r
  {
    if n == id {
      assert Dist(id, r) <= Dist(id, n);
    } else {
      LookupIsSuccessorOfPredecessor(T, n, id);
      var p := PredLookup(T, n, id);
      var s := SuccOf(T, p);
      assert !JumpsOver(T, p, id, r);
      assert Dist(id, r) <= Dist(id, s) && Dist(id, r) <= Dist(id, p);
    }
  }

  /** No successor pointer jumps over m. */
  ghost predicate NotPassed(T: Tables, m: Id)
    requires WellFormed(T)
  {
    forall p {:trigger SuccOf(T, p)} :: p in T ==> !Strictly(m, p, SuccOf(T, p))
  }

  /** A member is found from everywhere exactly when no successor pointer jumps over it. */
  lemma MemberFoundIff(T: Tables, m: Id)
    requires WellFormed(T) && m in T
    ensures FoundByAll(T, m, m) <==> NotPassed(T, m)
  {
    assert Owner(T, m, m);
    FoundByAllIff(T, m, m);
    forall p | p in T ensures JumpsOver(T, p, m, m) <==> Strictly(m, p, SuccOf(T, p)) {
    }
  }

  /** With members 0, 1 and 2, let the successor of 0 be 2. A lookup from 0 for 1 answers 2. */
  lemma LookupCanMiss() returns (T: Tables, n: Id, id: Id)
    ensures WellFormed(T) && n in T && id in T && !IdealSuccessors(T) && !NotPassed(T, id)
    ensures Lookup(T, n, id) != id && !Owner(T, id, Lookup(T, n, id))
  {
    n, id := 0, 1;
    var s: Id := 2;
    T := map[n := Sparse(s, None), id := Sparse(s, None), s := Sparse(n, None)];
    forall i | i in T ensures MemberTable(T, i) {
    }
    assert SuccOf(T, n) == s;
    assert Dist(id, id) == 0;
    assert Strictly(id, n, SuccOf(T, n));
    assert !TightAt(T, n);
  }
}
