/** How many forwards a lookup needs once the ring has settled. */
module Hops {
  import opened Wrappers
  import opened Ring
  import opened Routing

  /** Slot k of n names the owner of the position 2^k after n. */
  ghost predicate ExactSlot(T: Tables, n: Id, k: nat)
    requires WellFormed(T) && n in T && k < M
  {
    MemberTable(T, n) && T[n][k].Some? && Owner(T, StartOf(n, k), T[n][k].value)
  }

  /** The slots below top are exact; those from top on are empty. Slot 159 is never refreshed, so
      in the code top is 159 at best. */
  ghost predicate ExactAt(T: Tables, n: Id, top: nat)
    requires WellFormed(T) && n in T && top <= M
  {
    && MemberTable(T, n) && (forall k :: top <= k < M ==> T[n][k].None?)
    && (forall k {:trigger ExactSlot(T, n, k)} :: 0 <= k < top ==> ExactSlot(T, n, k))
  }

  ghost predicate ExactFingers(T: Tables, top: nat)
    requires WellFormed(T) && top <= M
  {
    forall n {:trigger ExactAt(T, n, top)} :: n in T ==> ExactAt(T, n, top)
  }

  /** p is the last member before id, seen from n. */
  ghost predicate LastBefore(T: Tables, n: Id, id: Id, p: Id) {
    && p in T && n != id && Dist(n, p) < Dist(n, id)
    && forall m {:trigger Strictly(m, n, id)} :: m in T && Strictly(m, n, id) ==> Dist(n, m) <= Dist(n, p)
  }

  /** In an ideal ring the node where the predecessor loop stops is the last member before id. */
  lemma StopIsLastBefore(T: Tables, n: Id, id: Id)
    requires WellFormed(T) && IdealSuccessors(T) && n in T && n != id
    ensures LastBefore(T, n, id, PredLookup(T, n, id))
  {
    var p := PredLookup(T, n, id);
    assert TightAt(T, p);
    assert !Strictly(n, p, SuccOf(T, p));
    forall m | m in T && Strictly(m, n, id) ensures Dist(n, m) <= Dist(n, p) {
      assert !Strictly(m, p, SuccOf(T, p));
    }
  }

  lemma WrapDist(n: Id, d: nat)
    requires d < RING
    ensures Dist(n, (n + d) % RING) == d
  {
    if n + d < RING {
      assert (n + d) % RING == n + d;
    } else {
      assert (n + d) % RING == n + d - RING;
    }
  }

  /** The position 2^k after n is at clockwise distance 2^k. */
  lemma StartDist(n: Id, k: nat)
    requires k < M
    ensures 0 < Pow2(k) < RING && Dist(n, StartOf(n, k)) == Pow2(k)
  {
    Pow2Small(k);
    WrapDist(n, Pow2(k));
  }

  /** An exact finger that lies strictly between n and id is at distance at least 2^k. */
  lemma ExactIsFar(T: Tables, n: Id, id: Id, k: nat)
    requires WellFormed(T) && n in T && k < M && ExactSlot(T, n, k)
    requires Strictly(T[n][k].value, n, id)
    ensures Dist(n, T[n][k].value) >= Pow2(k)
  {
    StartDist(n, k);
    assert Dist(StartOf(n, k), T[n][k].value) <= Dist(StartOf(n, k), n);
  }

  /** An exact finger whose position is not past the last member before id lies between. */
  lemma ExactIsInside(T: Tables, n: Id, id: Id, p: Id, k: nat)
    requires WellFormed(T) && n in T && k < M && ExactSlot(T, n, k)
    requires LastBefore(T, n, id, p) && Pow2(k) <= Dist(n, p)
    ensures Strictly(T[n][k].value, n, id)
  {
    StartDist(n, k);
    assert Dist(StartOf(n, k), T[n][k].value) <= Dist(StartOf(n, k), p);
  }

  /** The scan from slot i down finds a finger at least 2^k away. */
  lemma {:induction false} ScanIsFar(T: Tables, n: Id, id: Id, p: Id, k: nat, i: nat, top: nat)
    requires WellFormed(T) && n in T && top <= M && ExactAt(T, n, top)
    requires LastBefore(T, n, id, p) && k < i <= M && k < top && Pow2(k) <= Dist(n, p)
    ensures var f := Closest(T[n], n, id, i); f in T && Strictly(f, n, id) && Dist(n, f) >= Pow2(k)
    decreases i
  {
    if i > top {
      EmptyFrom(T[n], i - 1);
      ScanIsFar(T, n, id, p, k, i - 1, top);
    } else {
      assert ExactSlot(T, n, i - 1);
      if InInterval(T[n][i - 1].value, n, id) {
        ScanHit(T, n, id, k, i);
      } else if i - 1 == k {
        ExactIsInside(T, n, id, p, k);
      } else {
        ScanIsFar(T, n, id, p, k, i - 1, top);
      }
    }
  }

  lemma EmptyFrom(t: Slots, i: nat)
    requires i <= |t| && forall k :: i <= k < |t| ==> t[k].None?
    ensures FirstFrom(t, i).None?
  {
  }

  lemma ScanHit(T: Tables, n: Id, id: Id, k: nat, i: nat)
    requires WellFormed(T) && n in T && k < i <= M && ExactSlot(T, n, i - 1)
    requires n != id && InInterval(T[n][i - 1].value, n, id)
    ensures var f := Closest(T[n], n, id, i); f in T && Strictly(f, n, id) && Dist(n, f) >= Pow2(k)
  {
    ExactIsFar(T, n, id, i - 1);
    Pow2Mono(k, i - 1);
  }

  /** What is asked of a settled ring: ideal successors, and exact fingers below slot top. */
  ghost predicate Settled(T: Tables, top: nat) {
    WellFormed(T) && IdealSuccessors(T) && top <= M && ExactFingers(T, top)
  }

  /** One forward with 2^k within reach moves at least 2^k closer to the last member before id. */
  lemma Forward(T: Tables, n: Id, id: Id, k: nat, top: nat)
    requires Settled(T, top) && n in T && n != id && !Answers(T, n, id)
    requires k < top && Pow2(k) <= Dist(n, PredLookup(T, n, id))
    ensures var f, p := ClosestOf(T, n, id), PredLookup(T, n, id);
      && f != id && PredLookup(T, f, id) == p && Dist(f, p) <= Dist(n, p) - Pow2(k)
      && Forwards(T, n, id) == 1 + Forwards(T, f, id)
  {
    var p := PredLookup(T, n, id);
    StopIsLastBefore(T, n, id);
    assert ExactAt(T, n, top);
    ScanIsFar(T, n, id, p, k, M, top);
    ForwardProgress(T, n, id);
    assert Strictly(ClosestOf(T, n, id), n, id);
  }

  /** Below distance 2^k each forward clears the top bit of the distance still to go. */
  lemma {:induction false} HopsBelow(T: Tables, n: Id, id: Id, k: nat, top: nat)
    requires Settled(T, top) && n in T && n != id
    requires k <= top && Dist(n, PredLookup(T, n, id)) < Pow2(k)
    ensures Forwards(T, n, id) <= k
    decreases k
  {
    if Answers(T, n, id) {
    } else if k == 0 {
      ForwardProgress(T, n, id);
    } else if Dist(n, PredLookup(T, n, id)) < Pow2(k - 1) {
      HopsBelow(T, n, id, k - 1, top);
    } else {
      Forward(T, n, id, k - 1, top);
      HopsBelow(T, ClosestOf(T, n, id), id, k - 1, top);
    }
  }

  /** One forward less, except at the very end of the range. */
  lemma {:induction false} HopsWellBelow(T: Tables, n: Id, id: Id, k: nat, top: nat)
    requires Settled(T, top) && n in T && n != id
    requires 0 < k <= top && Dist(n, PredLookup(T, n, id)) + 2 <= Pow2(k)
    ensures Forwards(T, n, id) <= k - 1
    decreases k
  {
    var d := Dist(n, PredLookup(T, n, id));
    if Answers(T, n, id) {
    } else if d < Pow2(k - 1) {
      HopsBelow(T, n, id, k - 1, top);
    } else {
      Forward(T, n, id, k - 1, top);
      HopsWellBelow(T, ClosestOf(T, n, id), id, k - 1, top);
    }
  }

  /** The last member before id is at most 2^160 - 2 away. */
  lemma FarthestStop(T: Tables, n: Id, id: Id)
    requires WellFormed(T) && IdealSuccessors(T) && n in T && n != id
    ensures Dist(n, PredLookup(T, n, id)) + 2 <= RING
  {
    StopIsLastBefore(T, n, id);
  }

  /** In a settled ring, with slots 0 to 158 exact and slot 159 empty as the code leaves them, a
      lookup from any node for any identifier is forwarded at most 160 times. */
  lemma AtMost160Forwards(T: Tables, n: Id, id: Id)
    requires Settled(T, M - 1) && n in T
    ensures Forwards(T, n, id) <= 160
  {
    var last, top := M - 2, M - 1;
    HalfAndQuarter(last);
    if n != id && !Answers(T, n, id) {
      FarthestStop(T, n, id);
      if Dist(n, PredLookup(T, n, id)) < Pow2(top) {
        HopsBelow(T, n, id, top, top);
      } else {
        Forward(T, n, id, last, top);
        LessThanAQuarterGone(T, ClosestOf(T, n, id), id);
      }
    }
  }

  lemma HalfAndQuarter(last: nat)
    requires last == M - 2
    ensures 4 * Pow2(last) == RING && 2 * Pow2(last) == Pow2(last + 1)
  {
    var m: nat := M;
    Pow2Top(m);
    assert Pow2(m) == 2 * Pow2(last + 1);
  }

  lemma LessThanAQuarterGone(T: Tables, n: Id, id: Id)
    requires Settled(T, M - 1) && n in T && n != id
    requires Dist(n, PredLookup(T, n, id)) + 2 <= RING - Pow2(M - 2)
    ensures Forwards(T, n, id) <= 159
  {
    var last, top := M - 2, M - 1;
    HalfAndQuarter(last);
    if !Answers(T, n, id) {
      if Dist(n, PredLookup(T, n, id)) < Pow2(top) {
        HopsBelow(T, n, id, top, top);
      } else {
        Forward(T, n, id, last, top);
        HopsWellBelow(T, ClosestOf(T, n, id), id, top, top);
      }
    }
  }

  /** Were slot 159 refreshed like the others, 159 forwards would do. */
  lemma AtMost159WithAllSlots(T: Tables, n: Id, id: Id)
    requires Settled(T, M) && n in T
    ensures Forwards(T, n, id) <= 159
  {
    if n != id {
      var m: nat := M;
      Pow2Top(m);
      FarthestStop(T, n, id);
      HopsWellBelow(T, n, id, m, m);
    }
  }

  // ----- a ring that needs as many

  /** Slot k of n names the position 2^k after n, for k below top. */
  function FullTable(n: Id, top: nat): (t: Slots)
    ensures |t| == M
  {
    seq(M, k requires 0 <= k < M => if k < top then Some(StartOf(n, k)) else None)
  }

  /** The ring in which every identifier belongs to a member. */
  ghost function FullRing(top: nat): Tables {
    map n: Id | 0 <= n < RING :: FullTable(n, top)
  }

  lemma FullRingSettled(top: nat)
    requires 0 < top <= M
    ensures Settled(FullRing(top), top)
  {
    var T := FullRing(top);
    forall n | n in T ensures MemberTable(T, n) {
    }
    forall n | n in T ensures TightAt(T, n) {
      FullSucc(n, top);
      forall m | m in T ensures !Strictly(m, n, SuccOf(T, n)) {
      }
    }
    forall n | n in T ensures ExactAt(T, n, top) {
      forall k | 0 <= k < top ensures ExactSlot(T, n, k) {
        assert Dist(StartOf(n, k), StartOf(n, k)) == 0;
      }
    }
  }

  lemma FullSucc(n: Id, top: nat)
    requires 0 < top <= M
    ensures WellFormed(FullRing(top)) && SuccOf(FullRing(top), n) == if n + 1 == RING then 0 else n + 1
  {
    var T := FullRing(top);
    forall i | i in T ensures MemberTable(T, i) {
    }
    var k: nat := 0;
    assert Pow2(k) == 1;
    WrapSmall(n, 1);
    assert FullTable(n, top)[0] == Some(StartOf(n, k));
  }

  lemma WrapSmall(n: Id, d: nat)
    requires d < RING
    ensures (n + d) % RING == if n + d < RING then n + d else n + d - RING
  {
  }

  lemma FullFirst(n: Id, k: nat, top: nat)
    requires k < top <= M
    ensures FirstFrom(FullTable(n, top), k) == Some(StartOf(n, k))
  {
  }

  /** Where a position d after n lies, for d that is not all the way round. */
  lemma AheadOf(n: Id, d: nat, x: Id)
    requires 0 < d < RING && n < RING - 1 && x == (if n + d < RING then n + d else n + d - RING)
    ensures InInterval(x, n, RING - 1) <==> n + d < RING - 1
  {
  }

  /** Slot k lies before the last identifier if the position does not go round to or past it. */
  lemma FullSlot(n: Id, k: nat)
    requires k < M && n < RING - 1
    ensures n + Pow2(k) < RING - 1 ==> StartOf(n, k) == n + Pow2(k)
    ensures InInterval(StartOf(n, k), n, RING - 1) <==> n + Pow2(k) < RING - 1
  {
    Pow2Small(k);
    WrapSmall(n, Pow2(k));
    AheadOf(n, Pow2(k), StartOf(n, k));
  }

  lemma ScanStep(t: Slots, n: Id, id: Id, i: nat, x: Id)
    requires 0 < i <= |t| && FirstFrom(t, i - 1) == Some(x)
    ensures Closest(t, n, id, i) == if InInterval(x, n, id) then x else Closest(t, n, id, i - 1)
  {
  }

  /** One step of the scan from slot i down. */
  lemma FullScanStep(n: Id, i: nat, top: nat)
    requires 0 < i <= top <= M && n < RING - 1
    ensures var t := FullTable(n, top);
      Closest(t, n, RING - 1, i) == if n + Pow2(i - 1) < RING - 1 then n + Pow2(i - 1) else Closest(t, n, RING - 1, i - 1)
  {
    FullFirst(n, i - 1, top);
    FullSlot(n, i - 1);
    ScanStep(FullTable(n, top), n, RING - 1, i, StartOf(n, i - 1));
  }

  /** The scan stops at the longest finger that stays short of the last identifier. */
  lemma {:induction false} FullScan(n: Id, k: nat, i: nat, top: nat)
    requires k < i <= top <= M && n + Pow2(k) < RING - 1
    requires i == k + 1 || n + Pow2(k + 1) >= RING - 1
    ensures Closest(FullTable(n, top), n, RING - 1, i) == n + Pow2(k)
    decreases i
  {
    FullScanStep(n, i, top);
    if i > k + 1 {
      Pow2Mono(k + 1, i - 1);
      FullScan(n, k, i - 1, top);
    }
  }

  /** Empty slots at the top are passed over. */
  lemma {:induction false} ScanDown(t: Slots, n: Id, id: Id, i: nat, top: nat)
    requires top <= i <= |t| && forall k :: top <= k < |t| ==> t[k].None?
    ensures Closest(t, n, id, i) == Closest(t, n, id, top)
    decreases i
  {
    if i > top {
      EmptyFrom(t, i - 1);
      ScanDown(t, n, id, i - 1, top);
    }
  }

  lemma FullForward(n: Id, k: nat, top: nat)
    requires k < top <= M && n + Pow2(k) < RING - 1 && n + 2 < RING
    requires k == top - 1 || n + Pow2(k + 1) >= RING - 1
    ensures var T, id := FullRing(top), RING - 1;
      WellFormed(T) && Forwards(T, n, id) == 1 + Forwards(T, n + Pow2(k), id)
  {
    var T, id := FullRing(top), RING - 1;
    FullSucc(n, top);
    FullScan(n, k, top, top);
    ScanDown(FullTable(n, top), n, id, M, top);
    assert ClosestOf(T, n, id) == n + Pow2(k);
  }

  /** From 2^j before the top of the circle to the last identifier: j - 1 forwards. */
  lemma {:induction false} FullHops(j: nat, top: nat)
    requires 0 < j <= top <= M && j < M
    ensures Pow2(j) <= RING && WellFormed(FullRing(top))
    ensures Forwards(FullRing(top), RING - Pow2(j), RING - 1) == j - 1
    decreases j
  {
    Pow2Small(j);
    var n: Id := RING - Pow2(j);
    FullSucc(n, top);
    if j == 1 {
      assert Pow2(j) == 2;
    } else {
      Pow2Mono(1, j - 1);
      FullForward(n, j - 1, top);
      FullHops(j - 1, top);
    }
  }

  /** The bound is attained: from 0 to the last identifier the ring of all identifiers forwards 160
      times. */
  lemma All160Needed()
    ensures Settled(FullRing(M - 1), M - 1) && Forwards(FullRing(M - 1), 0, RING - 1) == 160
  {
    var last, top := M - 2, M - 1;
    FullRingSettled(top);
    HalfAndQuarter(last);
    FullForward(0, last, top);
    FullForward(Pow2(last), last, top);
    FullHops(top, top);
  }

  /** So is the bound for rings with all slots exact: there the same lookup is forwarded 159 times. */
  lemma All159NeededWithAllSlots()
    ensures Settled(FullRing(M), M) && Forwards(FullRing(M), 0, RING - 1) == 159
  {
    var last, top := M - 2, M - 1;
    var m := top + 1;
    FullRingSettled(m);
    HalfAndQuarter(last);
    FullForward(0, top, m);
    FullHops(top, m);
  }
}
