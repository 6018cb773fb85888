/** From every state that satisfies the invariant some continuation without joins settles the ring. */
module SettleRun {
  import opened Ring
  import opened Walk
  import opened Protocol
  import opened Runs
  import opened Quiescence
  import opened Convergence

  /** (sts', evs') goes on from (sts, evs). */
  ghost predicate GoesOn(sts: seq<State>, evs: seq<Event>, sts': seq<State>, evs': seq<Event>) {
    sts <= sts' && evs <= evs'
  }

  lemma OneMore(sts: seq<State>, evs: seq<Event>, ev: Event) returns (sts': seq<State>, evs': seq<Event>)
    requires FixedRun(sts, evs) && Enabled(sts[|evs|], ev) && !ev.Join?
    ensures FixedRun(sts', evs') && GoesOn(sts, evs, sts', evs')
    ensures evs' == evs + [ev] && sts' == sts + [Apply(sts[|evs|], ev)]
  {
    sts', evs' := sts + [Apply(sts[|evs|], ev)], evs + [ev];
    forall i | 0 <= i < |evs'| ensures StepAt(sts', evs', i) {
      if i < |evs| {
        assert StepAt(sts, evs, i);
      }
    }
  }

  /** A member can always complete a stabilization. */
  lemma OneTurn(sts: seq<State>, evs: seq<Event>, n: Id) returns (sts': seq<State>, evs': seq<Event>)
    requires FixedRun(sts, evs) && n in sts[|evs|].peers
    ensures FixedRun(sts', evs') && GoesOn(sts, evs, sts', evs') && |evs'| == |evs| + 3
    ensures sts'[|evs'|].peers.Keys == sts[|evs|].peers.Keys
    ensures TurnAt(sts', evs', n, |evs|, |evs| + 1, |evs| + 2)
  {
    var st := sts[|evs|];
    RunKeepsInv(sts, evs, |evs|);
    assert Next(st.peers, n) in st.peers;
    sts', evs' := OneMore(sts, evs, Ask(n));
    sts', evs' := OneMore(sts', evs', Judge(n));
    var s := sts'[|evs'|].peers[n].succ;
    RunKeepsInv(sts', evs', |evs'|);
    assert Next(sts'[|evs'|].peers, n) in sts'[|evs'|].peers;
    sts', evs' := OneMore(sts', evs', Deliver(n, s));
  }

  lemma TurnKept(sts: seq<State>, evs: seq<Event>, sts': seq<State>, evs': seq<Event>, n: Id, i: nat, j: nat, j': nat)
    requires |sts| == |evs| + 1 && |sts'| == |evs'| + 1 && GoesOn(sts, evs, sts', evs')
    requires i <= j < |sts| && j <= j' < |sts'| && TurnIn(sts, evs, n, i, j)
    ensures TurnIn(sts', evs', n, i, j')
  {
    var a: nat, b: nat, c: nat :| i <= a < b < c < j && TurnAt(sts, evs, n, a, b, c);
    assert TurnAt(sts', evs', n, a, b, c);
  }

  /** The members of a set take their turns one after the other. */
  lemma {:induction false} Turns(sts: seq<State>, evs: seq<Event>, todo: set<Id>)
    returns (sts': seq<State>, evs': seq<Event>)
    requires FixedRun(sts, evs) && todo <= sts[|evs|].peers.Keys
    ensures FixedRun(sts', evs') && GoesOn(sts, evs, sts', evs')
    ensures sts'[|evs'|].peers.Keys == sts[|evs|].peers.Keys
    ensures forall n {:trigger TurnIn(sts', evs', n, |evs|, |evs'|)} :: n in todo ==> TurnIn(sts', evs', n, |evs|, |evs'|)
    decreases todo
  {
    if todo == {} {
      sts', evs' := sts, evs;
    } else {
      var n :| n in todo;
      var sts1, evs1 := Turns(sts, evs, todo - {n});
      sts', evs' := OneTurn(sts1, evs1, n);
      forall m | m in todo ensures TurnIn(sts', evs', m, |evs|, |evs'|) {
        if m != n {
          assert TurnIn(sts1, evs1, m, |evs|, |evs1|);
          TurnKept(sts1, evs1, sts', evs', m, |evs|, |evs1|, |evs'|);
        }
      }
    }
  }

  lemma RoundKept(sts: seq<State>, evs: seq<Event>, sts': seq<State>, evs': seq<Event>, i: nat, j: nat)
    requires |sts| == |evs| + 1 && |sts'| == |evs'| + 1 && GoesOn(sts, evs, sts', evs')
    requires i <= j < |sts| && Convergence.Round(sts, evs, i, j)
    ensures Convergence.Round(sts', evs', i, j)
  {
    forall n | n in sts'[i].peers ensures TurnIn(sts', evs', n, i, j) {
      assert TurnIn(sts, evs, n, i, j);
      TurnKept(sts, evs, sts', evs', n, i, j, j);
    }
  }

  /** Any number of rounds can follow. */
  lemma {:induction false} MoreRounds(st: State, count: nat)
    returns (sts: seq<State>, evs: seq<Event>, cuts: seq<nat>)
    requires Inv(st)
    ensures FixedRun(sts, evs) && sts[0] == st && sts[|evs|].peers.Keys == st.peers.Keys
    ensures |cuts| == count + 1 && cuts[count] == |evs| && Rounds(sts, evs, cuts)
    decreases count
  {
    if count == 0 {
      sts, evs, cuts := [st], [], [0];
    } else {
      var sts0, evs0, cuts0 := MoreRounds(st, count - 1);
      sts, evs := Turns(sts0, evs0, sts0[|evs0|].peers.Keys);
      cuts := cuts0 + [|evs|];
      assert Convergence.Round(sts, evs, |evs0|, |evs|);
      forall k | 0 < k < |cuts| ensures CutAt(sts, evs, cuts, k) {
        if k < count {
          assert CutAt(sts0, evs0, cuts0, k);
          RoundKept(sts0, evs0, sts, evs, cuts0[k - 1], cuts0[k]);
        }
      }
    }
  }

  /** From every state that satisfies the invariant, and so from every reachable one, stabilization
      alone can make the ring ideal. */
  lemma CanSettle(st: State) returns (sts: seq<State>, evs: seq<Event>)
    requires Inv(st)
    ensures FixedRun(sts, evs) && sts[0] == st && Ideal(sts[|evs|].peers)
  {
    var cuts;
    sts, evs, cuts := MoreRounds(st, 2 * |st.peers| * |st.peers| + 1);
    StabilizationConverges(sts, evs, cuts, |evs|);
  }
}
