/** What holds over whole runs of the maintenance protocol. */
module Runs {
  import opened Ring
  import opened Walk
  import opened Protocol

  ghost predicate StepAt(sts: seq<State>, evs: seq<Event>, i: nat)
    requires |sts| == |evs| + 1 && i < |evs|
  {
    Enabled(sts[i], evs[i]) && sts[i + 1] == Apply(sts[i], evs[i])
  }

  ghost predicate IsRun(sts: seq<State>, evs: seq<Event>) {
    && |sts| == |evs| + 1
    && (forall i {:trigger StepAt(sts, evs, i)} :: 0 <= i < |evs| ==> StepAt(sts, evs, i))
  }

  lemma {:induction false} RunKeepsInv(sts: seq<State>, evs: seq<Event>, i: nat)
    requires IsRun(sts, evs) && i < |sts| && Inv(sts[0])
    ensures Inv(sts[i]) && sts[i].seed == sts[0].seed
    decreases i
  {
    if i > 0 {
      RunKeepsInv(sts, evs, i - 1);
      assert StepAt(sts, evs, i - 1);
      StepKeeps(sts[i - 1], evs[i - 1]);
    }
  }

  /** In a run from the founding node alone, once following successors from a reaches b without
      jumping over b, it always will. */
  lemma {:induction false} ReachabilityIsForEver(sts: seq<State>, evs: seq<Event>, seed: Id, i: nat, j: nat, a: Id, b: Id)
    requires IsRun(sts, evs) && sts[0] == Start(seed) && i <= j < |sts|
    requires Closed(sts[i].peers) && Claim(sts[i].peers, a, b)
    ensures Closed(sts[j].peers) && Claim(sts[j].peers, a, b)
    decreases j
  {
    if i < j {
      ReachabilityIsForEver(sts, evs, seed, i, j - 1, a, b);
      StartInv(seed);
      RunKeepsInv(sts, evs, j - 1);
      assert StepAt(sts, evs, j - 1);
      StepKeeps(sts[j - 1], evs[j - 1]);
    }
  }

  /** No successor pointer jumps over the founding node. */
  lemma FounderNotPassed(f: map<Id, Peer>, seed: Id)
    requires PeersInv(f, seed)
    ensures forall n {:trigger Next(f, n)} :: n in f ==> !Strictly(seed, n, Next(f, n))
  {
    forall n | n in f ensures !Strictly(seed, n, Next(f, n)) {
      assert Claim(f, n, seed);
    }
  }

  /** In every state of such a run no successor pointer jumps over the founding node. So every
      member comes to it, exactly the members met from it lie on cycles, and the cycle through
      it goes round the identifier circle exactly once. */
  lemma OneRing(sts: seq<State>, evs: seq<Event>, seed: Id, i: nat) returns (len: nat)
    requires IsRun(sts, evs) && sts[0] == Start(seed) && i < |sts|
    ensures var f := sts[i].peers;
      && Closed(f) && seed in f
      && len > 0 && Iter(f, seed, len) == seed && Travel(f, seed, len) == RING
      && (forall j :: 0 < j < len ==> Iter(f, seed, j) != seed)
      && (forall n :: n in f ==> !Strictly(seed, n, Next(f, n)))
      && (forall n :: n in f ==> Meets(f, n, seed))
      && (forall n :: n in f ==> (OnCycle(f, n) <==> Meets(f, seed, n)))
  {
    StartInv(seed);
    RunKeepsInv(sts, evs, i);
    var f := sts[i].peers;
    assert Next(f, seed) in f;
    assert Claim(f, Next(f, seed), seed);
    len := OnceRound(f, seed);
    assert OnCycle(f, seed);
    forall n | n in f
      ensures !Strictly(seed, n, Next(f, n))
      ensures Meets(f, n, seed) && (OnCycle(f, n) <==> Meets(f, seed, n))
    {
      assert Claim(f, n, seed);
      CycleIffMet(f, seed, n);
    }
  }
}
