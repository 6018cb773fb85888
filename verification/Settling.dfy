/** From the methods of single nodes to the theorems about whole rings. */
module Settling {
  import opened Wrappers
  import opened Ring
  import opened Walk
  import opened Protocol
  import opened Runs
  import opened Quiescence
  import opened Convergence
  import opened Routing
  import opened Hops
  import opened Maintenance

  /** A stabilization in one go is the protocol's three steps in a row. */
  lemma StabilizeIsThreeSteps(st: State, n: Id)
    requires Inv(st) && n in st.peers
    ensures Enabled(st, Ask(n))
    ensures var st1 := Apply(st, Ask(n)); Enabled(st1, Judge(n))
    ensures var st1 := Apply(st, Ask(n));
      var st2 := Apply(st1, Judge(n));
      var notice := Deliver(n, Next(st2.peers, n));
      Enabled(st2, notice) && Apply(st2, notice).peers == Stabilized(st.peers, n)
  {
    StepKeepsAsk(st, n);
    var st1 := Apply(st, Ask(n));
    StepKeeps(st1, Judge(n));
    var st2 := Apply(st1, Judge(n));
    assert Next(st2.peers, n) in st2.peers;
  }

  lemma StepKeepsAsk(st: State, n: Id)
    requires Inv(st) && n in st.peers
    ensures Enabled(st, Ask(n)) && Inv(Apply(st, Ask(n)))
  {
    assert Next(st.peers, n) in st.peers;
    StepKeeps(st, Ask(n));
  }

  /** The successor a lookup finds for an identifier that belongs to no member is one that the
      protocol's lookup step allows. */
  lemma LookupIsLocate(T: Tables, P: Preds, st: State, n: Id, id: Id) returns (p: Id)
    requires WellFormed(T) && P.Keys == T.Keys && st.peers == PeersOf(T, P)
    requires n in T && id !in T
    ensures Enabled(st, Locate(id, p)) && Apply(st, Locate(id, p)).joining[id] == Lookup(T, n, id)
  {
    LookupIsSuccessorOfPredecessor(T, n, id);
    p := PredLookup(T, n, id);
    PeersClosed(T, P);
    assert Next(st.peers, p) == SuccOf(T, p);
  }

  /** A node that joins is the protocol's lookup step followed by its join step. */
  lemma JoinIsTwoSteps(T: Tables, P: Preds, st: State, n: Id, id: Id, g: map<Id, Peer>) returns (p: Id)
    requires WellFormed(T) && P.Keys == T.Keys && st.peers == PeersOf(T, P)
    requires n in T && id !in T && g == PeersOf(T, P)[id := Peer(Lookup(T, n, id), None, None)]
    ensures Enabled(st, Locate(id, p))
    ensures var st1 := Apply(st, Locate(id, p));
      Enabled(st1, Join(id, None, false)) && Apply(st1, Join(id, None, false)).peers == g
  {
    p := LookupIsLocate(T, P, st, n, id);
    PeersClosed(T, P);
  }

  /** A ring at rest has ideal successors, as lookups see them. */
  lemma IdealMeansIdeal(T: Tables, P: Preds)
    requires WellFormed(T) && P.Keys == T.Keys && Ideal(PeersOf(T, P))
    ensures IdealSuccessors(T)
  {
    PeersClosed(T, P);
    var f := PeersOf(T, P);
    forall n | n in T ensures TightAt(T, n) {
      assert IdealAt(f, n) && Next(f, n) == SuccOf(T, n);
      forall m | m in T ensures !Strictly(m, n, SuccOf(T, n)) {
        assert !Strictly(m, n, Next(f, n));
      }
    }
  }

  /** In every reachable state, settled or not, every lookup for the founder finds it. */
  lemma FounderIsAlwaysFound(sts: seq<State>, evs: seq<Event>, seed: Id, i: nat, T: Tables, P: Preds)
    requires IsRun(sts, evs) && sts[0] == Start(seed) && i < |sts|
    requires WellFormed(T) && P.Keys == T.Keys && SamePointers(sts[i].peers, PeersOf(T, P))
    ensures seed in T && FoundByAll(T, seed, seed)
  {
    StartInv(seed);
    RunKeepsInv(sts, evs, i);
    FounderNotPassed(sts[i].peers, seed);
    FounderFound(sts[i].peers, T, P, seed);
  }

  lemma FounderFound(f: map<Id, Peer>, T: Tables, P: Preds, seed: Id)
    requires WellFormed(T) && P.Keys == T.Keys && SamePointers(f, PeersOf(T, P)) && seed in f
    requires forall n {:trigger Next(f, n)} :: n in f ==> !Strictly(seed, n, Next(f, n))
    ensures seed in T && FoundByAll(T, seed, seed)
  {
    PeersClosed(T, P);
    forall p | p in T ensures !Strictly(seed, p, SuccOf(T, p)) {
      assert Next(PeersOf(T, P), p) == SuccOf(T, p);
      assert Next(PeersOf(T, P), p) == Next(f, p);
    }
    MemberFoundIff(T, seed);
  }

  /** Once 2 n^2 + 1 rounds of stabilization have gone by in a ring of n members, every lookup
      from every node finds the owner, whatever members the fingers beyond the successors name. */
  lemma LookupsSettle(sts: seq<State>, evs: seq<Event>, cuts: seq<nat>, j: nat, T: Tables, P: Preds)
    requires FixedRun(sts, evs) && Rounds(sts, evs, cuts)
    requires |cuts| > 2 * |sts[0].peers| * |sts[0].peers| + 1
    requires cuts[|cuts| - 1] <= j < |sts|
    requires WellFormed(T) && P.Keys == T.Keys && SamePointers(sts[j].peers, PeersOf(T, P))
    ensures AllLookupsRight(T)
  {
    StabilizationConverges(sts, evs, cuts, j);
    RunKeepsInv(sts, evs, j);
    SameIdeal(sts[j].peers, PeersOf(T, P));
    IdealMeansIdeal(T, P);
    LookupsRightIffIdeal(T);
  }

  lemma {:induction false} FirstFromUpdate(t: Slots, i: nat, x: Option<Id>)
    requires 0 < i < |t| && t[0].Some?
    ensures FirstFrom(t[i := x], 0) == FirstFrom(t, 0)
  {
  }

  /** In an ideal ring the first slot, once filled, is exact. */
  lemma FirstSlotIsExact(T: Tables, n: Id)
    requires WellFormed(T) && IdealSuccessors(T) && n in T && MemberTable(T, n) && T[n][0].Some?
    ensures ExactSlot(T, n, 0)
  {
    var s := T[n][0].value;
    assert SuccOf(T, n) == s && TightAt(T, n);
    StartDist(n, 0);
    assert Pow2(0) == 1;
    forall m | m in T ensures Dist(StartOf(n, 0), s) <= Dist(StartOf(n, 0), m) {
      assert !Strictly(m, n, SuccOf(T, n));
    }
  }

  /** In an ideal ring a refresh makes its slot exact, spoils no other slot of any node, and
      keeps the ring ideal. */
  lemma RefreshMakesExact(T: Tables, n: Id, i: nat)
    requires WellFormed(T) && IdealSuccessors(T) && n in T && 0 < i < M
    requires MemberTable(T, n) && T[n][0].Some?
    ensures var T' := Refreshed(T, n, i);
      && WellFormed(T') && IdealSuccessors(T') && ExactSlot(T', n, i)
      && (forall m, k :: m in T && 0 <= k < M && ExactSlot(T, m, k) ==> ExactSlot(T', m, k))
  {
    var T' := Refreshed(T, n, i);
    var r := Lookup(T, n, StartOf(n, i));
    forall m | m in T' ensures MemberTable(T', m) {
      assert MemberTable(T, m);
    }
    FirstFromUpdate(T[n], i, Some(r));
    forall m | m in T' ensures TightAt(T', m) {
      assert TightAt(T, m) && SuccOf(T', m) == SuccOf(T, m);
      forall o | o in T' ensures !Strictly(o, m, SuccOf(T', m)) {
        assert !Strictly(o, m, SuccOf(T, m));
      }
    }
    LookupFindsOwner(T, n, StartOf(n, i));
    OwnerKept(T, T', StartOf(n, i), r);
    forall m, k | m in T && 0 <= k < M && ExactSlot(T, m, k) ensures ExactSlot(T', m, k) {
      OwnerKept(T, T', StartOf(m, k), T[m][k].value);
    }
  }

  lemma OwnerKept(T: Tables, T': Tables, id: Id, r: Id)
    requires T'.Keys == T.Keys && Owner(T, id, r)
    ensures Owner(T', id, r)
  {
  }

  /** Every member's slot 0 is filled and its slot 159 empty, and the successors are ideal. */
  ghost predicate Ready(T: Tables) {
    && WellFormed(T) && IdealSuccessors(T)
    && (forall n {:trigger MemberTable(T, n)} :: n in T ==> MemberTable(T, n) && T[n][0].Some? && T[n][M - 1].None?)
  }

  ghost predicate RefreshAt(ts: seq<Tables>, who: seq<(Id, nat)>, k: nat)
    requires |ts| == |who| + 1 && k < |who|
  {
    var (n, i) := who[k];
    WellFormed(ts[k]) && n in ts[k] && 0 < i < M - 1 && ts[k + 1] == Refreshed(ts[k], n, i)
  }

  /** From a ready ring on, who[k] names the member and the slot refreshed in step k. */
  ghost predicate Refreshes(ts: seq<Tables>, who: seq<(Id, nat)>) {
    && |ts| == |who| + 1 && Ready(ts[0])
    && (forall k {:trigger RefreshAt(ts, who, k)} :: 0 <= k < |who| ==> RefreshAt(ts, who, k))
  }

  lemma RefreshKeepsReady(T: Tables, n: Id, i: nat)
    requires Ready(T) && n in T && 0 < i < M - 1
    ensures Ready(Refreshed(T, n, i)) && Refreshed(T, n, i).Keys == T.Keys
  {
    assert MemberTable(T, n);
    RefreshMakesExact(T, n, i);
    var T' := Refreshed(T, n, i);
    forall m | m in T' ensures MemberTable(T', m) && T'[m][0].Some? && T'[m][M - 1].None? {
      assert MemberTable(T, m);
    }
  }

  lemma {:induction false} RefreshesKeep(ts: seq<Tables>, who: seq<(Id, nat)>, k: nat)
    requires Refreshes(ts, who) && k < |ts|
    ensures Ready(ts[k]) && ts[k].Keys == ts[0].Keys
    decreases k
  {
    if k > 0 {
      RefreshesKeep(ts, who, k - 1);
      assert RefreshAt(ts, who, k - 1);
      RefreshKeepsReady(ts[k - 1], who[k - 1].0, who[k - 1].1);
    }
  }

  /** A slot is exact after its refresh, and stays exact. */
  lemma {:induction false} ExactStays(ts: seq<Tables>, who: seq<(Id, nat)>, n: Id, i: nat, from: nat, k: nat)
    requires Refreshes(ts, who) && from < k < |ts| && i < M && n in ts[0]
    requires who[from] == (n, i) || (Ready(ts[from]) && n in ts[from] && ExactSlot(ts[from], n, i))
    ensures Ready(ts[k]) && n in ts[k] && ExactSlot(ts[k], n, i)
    decreases k
  {
    RefreshesKeep(ts, who, k - 1);
    RefreshesKeep(ts, who, k);
    assert RefreshAt(ts, who, k - 1);
    assert MemberTable(ts[k - 1], who[k - 1].0);
    RefreshMakesExact(ts[k - 1], who[k - 1].0, who[k - 1].1);
    if from < k - 1 {
      ExactStays(ts, who, n, i, from, k - 1);
    }
  }

  /** Slots 1 to 158 of every member have been refreshed. */
  ghost predicate Covers(who: seq<(Id, nat)>, members: set<Id>) {
    forall n, i {:trigger (n, i) in who} :: n in members && 0 < i < M - 1 ==> (n, i) in who
  }

  /** In an ideal ring refreshes in any order, once they have covered slots 1 to 158 of every
      member, leave the fingers exact; from then on no lookup is forwarded more than 160 times. */
  lemma RefreshesSettle(ts: seq<Tables>, who: seq<(Id, nat)>)
    requires Refreshes(ts, who) && Covers(who, ts[0].Keys)
    ensures Settled(ts[|who|], M - 1)
    ensures forall n, id {:trigger Forwards(ts[|who|], n, id)} :: n in ts[|who|] ==> Forwards(ts[|who|], n, id) <= 160
  {
    var T := ts[|who|];
    RefreshesKeep(ts, who, |who|);
    forall n | n in T ensures ExactAt(T, n, M - 1) {
      assert MemberTable(T, n);
      forall i | 0 <= i < M - 1 ensures ExactSlot(T, n, i) {
        if i == 0 {
          FirstSlotIsExact(T, n);
        } else {
          assert (n, i) in who;
          var from :| 0 <= from < |who| && who[from] == (n, i);
          ExactStays(ts, who, n, i, from, |who|);
        }
      }
    }
    forall n, id: Id | n in T ensures Forwards(T, n, id) <= 160 {
      AtMost160Forwards(T, n, id);
    }
  }
}
