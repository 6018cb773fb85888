/** Stabilization converges: while membership is fixed every pointer change shrinks a finite
    measure, so fair stabilization reaches an ideal ring and stays there. */
module Convergence {
  import opened Wrappers
  import opened Sets
  import opened Ring
  import opened Walk
  import opened Protocol
  import opened Runs
  import opened Quiescence

  /** m lies between n and n's successor. */
  ghost predicate Skipped(f: map<Id, Peer>, n: Id, m: Id) {
    n in f && m in f && Strictly(m, n, Next(f, n))
  }

  /** m would be a better predecessor of s, or s knows none. */
  ghost predicate Behind(f: map<Id, Peer>, s: Id, m: Id) {
    s in f && m in f && (f[s].pred.Some? ==> Strictly(m, f[s].pred.value, s))
  }

  ghost function Product(a: set<Id>, b: set<Id>): set<(Id, Id)> {
    set x, y | x in a && y in b :: (x, y)
  }

  ghost function Pairs(f: map<Id, Peer>): set<(Id, Id)> {
    Product(f.Keys, f.Keys)
  }

  ghost function SuccGap(f: map<Id, Peer>): set<(Id, Id)> {
    set p | p in Pairs(f) && Skipped(f, p.0, p.1)
  }

  ghost function PredGap(f: map<Id, Peer>): set<(Id, Id)> {
    set p | p in Pairs(f) && Behind(f, p.0, p.1)
  }

  /** How many members lie between nodes and their pointers, in all. */
  ghost function Potential(f: map<Id, Peer>): nat {
    |SuccGap(f)| + |PredGap(f)|
  }

  ghost predicate SamePointers(f: map<Id, Peer>, g: map<Id, Peer>) {
    && f.Keys == g.Keys
    && (forall n {:trigger Next(g, n)} :: n in f ==> Next(g, n) == Next(f, n))
    && (forall n {:trigger g[n].pred} :: n in f ==> g[n].pred == f[n].pred)
  }

  lemma SameGaps(f: map<Id, Peer>, g: map<Id, Peer>)
    requires SamePointers(f, g)
    ensures SuccGap(f) == SuccGap(g) && PredGap(f) == PredGap(g)
  {
    assert Pairs(f) == Pairs(g);
    forall p | p in Pairs(f)
      ensures Skipped(f, p.0, p.1) == Skipped(g, p.0, p.1) && Behind(f, p.0, p.1) == Behind(g, p.0, p.1)
    {
      assert Next(g, p.0) == Next(f, p.0);
    }
  }

  /** Adopting a new successor removes it from those skipped, and adds nobody. */
  lemma JudgeShrinks(f: map<Id, Peer>, seed: Id, n: Id)
    requires PeersInv(f, seed) && n in f && f[n].reply.Some?
    ensures SamePointers(f, Judged(f, n)) || Potential(Judged(f, n)) < Potential(f)
  {
    var g := Judged(f, n);
    var x := g[n].succ;
    if x != f[n].succ {
      assert ReplyOk(f, n);
      assert Pairs(f) == Pairs(g);
      forall p | p in SuccGap(g) ensures p in SuccGap(f) {
        assert Skipped(g, p.0, p.1);
      }
      assert (n, x) in SuccGap(f) - SuccGap(g);
      SubsetSize(SuccGap(g), SuccGap(f));
      assert PredGap(g) == PredGap(f);
    }
  }

  /** Adopting a new predecessor removes a pair from those behind, and adds none. */
  lemma DeliverShrinks(f: map<Id, Peer>, n: Id, s: Id)
    requires Closed(f) && n in f && s in f
    ensures SamePointers(f, Delivered(f, n, s)) || Potential(Delivered(f, n, s)) < Potential(f)
  {
    var g := Delivered(f, n, s);
    if g[s].pred != f[s].pred {
      assert Pairs(f) == Pairs(g);
      forall p | p in PredGap(g) ensures p in PredGap(f) {
        assert Behind(g, p.0, p.1);
      }
      assert (s, n) in PredGap(f) - PredGap(g);
      SubsetSize(PredGap(g), PredGap(f));
      assert SuccGap(g) == SuccGap(f);
    }
  }

  /** While nobody joins, each step leaves every pointer alone or lowers the potential. */
  lemma StepShrinks(st: State, ev: Event)
    requires Inv(st) && Enabled(st, ev) && !ev.Join?
    ensures var g := Apply(st, ev).peers;
      g.Keys == st.peers.Keys && (SamePointers(st.peers, g) || Potential(g) < Potential(st.peers))
  {
    match ev
    case Locate(n, p) =>
    case Ask(n) =>
    case Judge(n) => JudgeShrinks(st.peers, st.seed, n);
    case Deliver(n, s) =>
      assert Claim(st.peers, (n, s).0, (n, s).1);
      DeliverShrinks(st.peers, n, s);
  }

  ghost function Row(x: Id, b: set<Id>): set<(Id, Id)> {
    set y | y in b :: (x, y)
  }

  lemma {:induction false} RowSize(x: Id, b: set<Id>)
    ensures |Row(x, b)| == |b|
    decreases |b|
  {
    if b == {} {
      assert Row(x, b) == {};
    } else {
      var y :| y in b;
      RowSize(x, b - {y});
      assert Row(x, b) == {(x, y)} + Row(x, b - {y});
    }
  }

  lemma {:induction false} ProductSize(a: set<Id>, b: set<Id>)
    ensures |Product(a, b)| == |a| * |b|
    decreases |a|
  {
    if a == {} {
      assert Product(a, b) == {};
    } else {
      var x :| x in a;
      ProductSize(a - {x}, b);
      OneMoreRow(a, b, x);
    }
  }

  lemma OneMoreRow(a: set<Id>, b: set<Id>, x: Id)
    requires x in a
    ensures |Product(a, b)| == |b| + |Product(a - {x}, b)|
  {
    assert Product(a, b) == Row(x, b) + Product(a - {x}, b);
    RowSize(x, b);
  }

  lemma PotentialBound(f: map<Id, Peer>)
    ensures Potential(f) <= 2 * |f| * |f|
  {
    ProductSize(f.Keys, f.Keys);
    SubsetSize(SuccGap(f), Pairs(f));
    SubsetSize(PredGap(f), Pairs(f));
    assert |f| == |f.Keys|;
    assert 2 * |f| * |f| == |f.Keys| * |f.Keys| + |f.Keys| * |f.Keys|;
  }

  /** A run during which nobody joins. */
  ghost predicate FixedRun(sts: seq<State>, evs: seq<Event>) {
    && IsRun(sts, evs) && Inv(sts[0])
    && (forall i :: 0 <= i < |evs| ==> !evs[i].Join?)
  }

  /** The number of steps among the first k that change a pointer. */
  ghost function Changes(sts: seq<State>, k: nat): nat
    requires k < |sts|
  {
    if k == 0 then 0
    else Changes(sts, k - 1) + if SamePointers(sts[k - 1].peers, sts[k].peers) then 0 else 1
  }

  lemma FixedStep(sts: seq<State>, evs: seq<Event>, i: nat)
    requires FixedRun(sts, evs) && i < |evs|
    ensures Inv(sts[i]) && Enabled(sts[i], evs[i]) && sts[i + 1] == Apply(sts[i], evs[i])
    ensures sts[i + 1].peers.Keys == sts[i].peers.Keys
    ensures || SamePointers(sts[i].peers, sts[i + 1].peers)
            || Potential(sts[i + 1].peers) < Potential(sts[i].peers)
  {
    RunKeepsInv(sts, evs, i);
    assert StepAt(sts, evs, i);
    StepShrinks(sts[i], evs[i]);
  }

  /** With fixed membership a run of any length changes pointers at most 2 n^2 times. */
  lemma {:induction false} FinitelyManyChanges(sts: seq<State>, evs: seq<Event>, k: nat)
    requires FixedRun(sts, evs) && k < |sts|
    ensures Changes(sts, k) + Potential(sts[k].peers) <= Potential(sts[0].peers)
    ensures Changes(sts, k) <= 2 * |sts[0].peers| * |sts[0].peers|
    decreases k
  {
    PotentialBound(sts[0].peers);
    if k > 0 {
      FinitelyManyChanges(sts, evs, k - 1);
      FixedStep(sts, evs, k - 1);
      if SamePointers(sts[k - 1].peers, sts[k].peers) {
        SameGaps(sts[k - 1].peers, sts[k].peers);
      }
    }
  }

  /** From f to g the potential has not grown, and has fallen if any pointer moved. */
  ghost predicate Shrinks(f: map<Id, Peer>, g: map<Id, Peer>) {
    && Potential(g) <= Potential(f)
    && (Potential(g) == Potential(f) ==> SamePointers(f, g))
  }

  lemma ShrinksStep(f: map<Id, Peer>, g: map<Id, Peer>, h: map<Id, Peer>)
    requires Shrinks(f, g) && (SamePointers(g, h) || Potential(h) < Potential(g))
    ensures Shrinks(f, h)
  {
    if SamePointers(g, h) {
      SameGaps(g, h);
      if SamePointers(f, g) {
        forall n | n in f ensures Next(h, n) == Next(f, n) && h[n].pred == f[n].pred {
          assert Next(g, n) == Next(f, n);
        }
      }
    }
  }

  /** Where the potential stays put, so do the pointers. */
  lemma {:induction false} NoShrinkNoChange(sts: seq<State>, evs: seq<Event>, i: nat, j: nat)
    requires FixedRun(sts, evs) && i <= j < |sts|
    ensures Shrinks(sts[i].peers, sts[j].peers)
    decreases j
  {
    if i < j {
      NoShrinkNoChange(sts, evs, i, j - 1);
      FixedStep(sts, evs, j - 1);
      ShrinksStep(sts[i].peers, sts[j - 1].peers, sts[j].peers);
    }
  }

  /** Steps i to j leave every pointer where it was. */
  ghost predicate Still(sts: seq<State>, i: nat, j: nat)
    requires i <= j < |sts|
  {
    forall t {:trigger sts[t]} :: i <= t <= j ==> SamePointers(sts[i].peers, sts[t].peers)
  }

  /** At a, b and c, node n asks, judges the reply and has its notification delivered. */
  ghost predicate TurnAt(sts: seq<State>, evs: seq<Event>, n: Id, a: nat, b: nat, c: nat)
    requires |sts| == |evs| + 1 && a < b < c < |evs|
  {
    && evs[a] == Ask(n) && evs[b] == Judge(n)
    && n in sts[b + 1].peers && evs[c] == Deliver(n, sts[b + 1].peers[n].succ)
  }

  /** Node n completes a stabilization within steps i to j. */
  ghost predicate TurnIn(sts: seq<State>, evs: seq<Event>, n: Id, i: nat, j: nat)
    requires |sts| == |evs| + 1 && i <= j < |sts|
  {
    exists a: nat, b: nat, c: nat :: i <= a < b < c < j && TurnAt(sts, evs, n, a, b, c)
  }

  /** Every member completes a stabilization within steps i to j. */
  ghost predicate Round(sts: seq<State>, evs: seq<Event>, i: nat, j: nat)
    requires |sts| == |evs| + 1 && i <= j < |sts|
  {
    forall n {:trigger TurnIn(sts, evs, n, i, j)} :: n in sts[i].peers ==> TurnIn(sts, evs, n, i, j)
  }

  /** While no pointer moves, a reply not yet judged names the successor's predecessor. */
  lemma {:induction false} ReplyIsCurrent(sts: seq<State>, evs: seq<Event>, i: nat, j: nat, n: Id, a: nat, t: nat)
    requires FixedRun(sts, evs) && i <= j < |sts| && Still(sts, i, j)
    requires i <= a < t <= j && evs[a] == Ask(n)
    ensures var f, g := sts[i].peers, sts[t].peers;
      && n in f && Next(f, n) in f && n in g
      && (g[n].reply.Some? ==> g[n].reply.value == f[Next(f, n)].pred)
    decreases t
  {
    FixedStep(sts, evs, t - 1);
    var f, g, h := sts[i].peers, sts[t - 1].peers, sts[t].peers;
    assert SamePointers(f, g);
    if t == a + 1 {
      assert Next(g, n) == Next(f, n);
      assert g[Next(f, n)].pred == f[Next(f, n)].pred;
    } else {
      ReplyIsCurrent(sts, evs, i, j, n, a, t - 1);
      assert Next(g, n) == Next(f, n);
      assert g[Next(f, n)].pred == f[Next(f, n)].pred;
    }
  }

  /** A stabilization completed while no pointer moved would change nothing. */
  lemma TurnIsQuiet(sts: seq<State>, evs: seq<Event>, i: nat, j: nat, n: Id, a: nat, b: nat, c: nat)
    requires FixedRun(sts, evs) && i <= j < |sts| && Still(sts, i, j)
    requires i <= a < b < c < j && TurnAt(sts, evs, n, a, b, c)
    ensures Closed(sts[i].peers) && n in sts[i].peers && QuietAt(sts[i].peers, n)
  {
    var f := sts[i].peers;
    RunKeepsInv(sts, evs, i);
    ReplyIsCurrent(sts, evs, i, j, n, a, b);
    FixedStep(sts, evs, b);
    var s := Next(f, n);
    assert SamePointers(f, sts[b].peers) && SamePointers(f, sts[b + 1].peers);
    assert Next(sts[b].peers, n) == s && Next(sts[b + 1].peers, n) == s;
    FixedStep(sts, evs, c);
    assert SamePointers(f, sts[c].peers) && SamePointers(f, sts[c + 1].peers);
    assert sts[c].peers[s].pred == f[s].pred && sts[c + 1].peers[s].pred == f[s].pred;
  }

  /** A round in which the potential does not fall finds the ring ideal. */
  lemma RoundProgress(sts: seq<State>, evs: seq<Event>, i: nat, j: nat)
    requires FixedRun(sts, evs) && i <= j < |sts| && Round(sts, evs, i, j)
    ensures Ideal(sts[i].peers) || Potential(sts[j].peers) < Potential(sts[i].peers)
  {
    NoShrinkNoChange(sts, evs, i, j);
    if Potential(sts[j].peers) == Potential(sts[i].peers) {
      forall t | i <= t <= j ensures SamePointers(sts[i].peers, sts[t].peers) {
        NoShrinkNoChange(sts, evs, i, t);
        NoShrinkNoChange(sts, evs, t, j);
      }
      RunKeepsInv(sts, evs, i);
      forall n | n in sts[i].peers ensures QuietAt(sts[i].peers, n) {
        assert TurnIn(sts, evs, n, i, j);
        var a: nat, b: nat, c: nat :| i <= a < b < c < j && TurnAt(sts, evs, n, a, b, c);
        TurnIsQuiet(sts, evs, i, j, n, a, b, c);
      }
      QuietIsIdeal(sts[i].peers, sts[i].seed);
    }
  }

  /** In an ideal ring every node is the successor of the member nearest before it. */
  lemma PredecessorExists(f: map<Id, Peer>, s: Id) returns (q: Id)
    requires Closed(f) && Ideal(f) && s in f
    ensures q in f && Next(f, q) == s
  {
    var others := f.Keys - {s};
    if others == {} {
      q := s;
      assert Next(f, s) in f;
      assert Next(f, s) !in others;
    } else {
      q := Nearest(others, s);
      assert IdealAt(f, q);
      var v := Next(f, q);
      assert v in f && !Strictly(s, q, v);
      assert v == s || v in others;
    }
  }

  lemma IdealJudge(f: map<Id, Peer>, n: Id)
    requires Closed(f) && Ideal(f) && n in f && f[n].reply.Some?
    requires f[n].reply.value.Some? ==> f[n].reply.value.value in f
    ensures SamePointers(f, Judged(f, n))
  {
    assert IdealAt(f, n);
    var x := f[n].reply.value;
    assert x.Some? ==> !Strictly(x.value, n, Next(f, n));
  }

  lemma IdealDeliver(f: map<Id, Peer>, n: Id, s: Id)
    requires Closed(f) && Ideal(f) && n in f && s in f
    ensures SamePointers(f, Delivered(f, n, s))
  {
    var q := PredecessorExists(f, s);
    assert IdealAt(f, q);
    assert !Strictly(n, q, Next(f, q));
  }

  /** While nobody joins, an ideal ring stays as it is, whatever messages are still under way. */
  lemma IdealStepChangesNothing(st: State, ev: Event)
    requires Inv(st) && Ideal(st.peers) && Enabled(st, ev) && !ev.Join?
    ensures SamePointers(st.peers, Apply(st, ev).peers)
  {
    match ev
    case Locate(n, p) =>
    case Ask(n) =>
    case Judge(n) =>
      assert ReplyOk(st.peers, n);
      IdealJudge(st.peers, n);
    case Deliver(n, s) =>
      assert Claim(st.peers, (n, s).0, (n, s).1);
      IdealDeliver(st.peers, n, s);
  }

  lemma SameIdeal(f: map<Id, Peer>, g: map<Id, Peer>)
    requires Closed(f) && Ideal(f) && SamePointers(f, g)
    ensures Ideal(g)
  {
    forall n | n in g ensures IdealAt(g, n) {
      assert IdealAt(f, n);
      assert Next(g, n) == Next(f, n);
    }
  }

  lemma {:induction false} IdealForEver(sts: seq<State>, evs: seq<Event>, i: nat, j: nat)
    requires FixedRun(sts, evs) && i <= j < |sts| && Ideal(sts[i].peers)
    ensures Ideal(sts[j].peers)
    decreases j
  {
    if i < j {
      IdealForEver(sts, evs, i, j - 1);
      FixedStep(sts, evs, j - 1);
      IdealStepChangesNothing(sts[j - 1], evs[j - 1]);
      SameIdeal(sts[j - 1].peers, sts[j].peers);
    }
  }

  /** A round keeps an ideal ring, and leaves any other ideal or with a lower potential. */
  lemma RoundStep(sts: seq<State>, evs: seq<Event>, i: nat, j: nat)
    requires FixedRun(sts, evs) && i <= j < |sts| && Round(sts, evs, i, j)
    ensures Ideal(sts[j].peers) || (!Ideal(sts[i].peers) && Potential(sts[j].peers) < Potential(sts[i].peers))
  {
    RoundProgress(sts, evs, i, j);
    if Ideal(sts[i].peers) {
      IdealForEver(sts, evs, i, j);
    }
  }

  ghost predicate CutAt(sts: seq<State>, evs: seq<Event>, cuts: seq<nat>, k: nat)
    requires |sts| == |evs| + 1 && 0 < k < |cuts|
  {
    && cuts[k - 1] <= cuts[k] < |sts|
    && Round(sts, evs, cuts[k - 1], cuts[k])
  }

  /** cuts divides a part of the run into rounds. */
  ghost predicate Rounds(sts: seq<State>, evs: seq<Event>, cuts: seq<nat>)
    requires |sts| == |evs| + 1
  {
    && (|cuts| > 0 ==> cuts[0] < |sts|)
    && (forall k {:trigger CutAt(sts, evs, cuts, k)} :: 0 < k < |cuts| ==> CutAt(sts, evs, cuts, k))
  }

  lemma {:induction false} RoundsShrink(sts: seq<State>, evs: seq<Event>, cuts: seq<nat>, k: nat)
    requires FixedRun(sts, evs) && Rounds(sts, evs, cuts) && k < |cuts|
    ensures cuts[k] < |sts|
    ensures Ideal(sts[cuts[k]].peers) || Potential(sts[cuts[k]].peers) + k <= Potential(sts[0].peers)
    decreases k
  {
    if k == 0 {
      NoShrinkNoChange(sts, evs, 0, cuts[0]);
    } else {
      RoundsShrink(sts, evs, cuts, k - 1);
      assert CutAt(sts, evs, cuts, k);
      RoundStep(sts, evs, cuts[k - 1], cuts[k]);
    }
  }

  /** From any reachable pointers, 2 n^2 + 1 rounds of stabilization by a fixed set of n members
      make the ring ideal, and it stays ideal for the rest of the run. */
  lemma StabilizationConverges(sts: seq<State>, evs: seq<Event>, cuts: seq<nat>, j: nat)
    requires FixedRun(sts, evs) && Rounds(sts, evs, cuts)
    requires |cuts| > 2 * |sts[0].peers| * |sts[0].peers| + 1
    requires cuts[|cuts| - 1] <= j < |sts|
    ensures Ideal(sts[j].peers)
  {
    var k := |cuts| - 1;
    RoundsShrink(sts, evs, cuts, k);
    PotentialBound(sts[0].peers);
    IdealForEver(sts, evs, cuts[k], j);
  }
}
