/** When the maintenance protocol comes to rest. */
module Quiescence {
  import opened Wrappers
  import opened Ring
  import opened Walk
  import opened Protocol

  /** A whole stabilization of n, including its notification, would change no pointer. */
  ghost predicate QuietAt(f: map<Id, Peer>, n: Id)
    requires Closed(f) && n in f
  {
    var s := Next(f, n);
    && s in f
    && NextSucc(n, s, f[s].pred) == s
    && NextPred(s, f[s].pred, n) == f[s].pred
  }

  ghost predicate Quiet(f: map<Id, Peer>)
    requires Closed(f)
  {
    forall n {:trigger QuietAt(f, n)} :: n in f ==> QuietAt(f, n)
  }

  /** No member lies between n and its successor. */
  ghost predicate Tight(f: map<Id, Peer>, n: Id)
    requires n in f
  {
    forall m {:trigger Strictly(m, n, Next(f, n))} :: m in f ==> !Strictly(m, n, Next(f, n))
  }

  ghost predicate IdealAt(f: map<Id, Peer>, n: Id)
    requires n in f
  {
    Tight(f, n) && Next(f, n) in f && f[Next(f, n)].pred == Some(n)
  }

  /** Every successor is the next member clockwise, and names that node as its predecessor. */
  ghost predicate Ideal(f: map<Id, Peer>) {
    forall n {:trigger IdealAt(f, n)} :: n in f ==> IdealAt(f, n)
  }

  lemma QuietPred(f: map<Id, Peer>, n: Id)
    requires Closed(f) && n in f && QuietAt(f, n)
    ensures f[Next(f, n)].pred == Some(n)
  {
  }

  /** The member of a non-empty set that is nearest before w. */
  lemma {:induction false} Nearest(s: set<Id>, w: Id) returns (q: Id)
    requires s != {}
    ensures q in s && forall m :: m in s ==> Dist(q, w) <= Dist(m, w)
    decreases s
  {
    q :| q in s;
    if s != {q} {
      var r := Nearest(s - {q}, w);
      if Dist(r, w) < Dist(q, w) {
        q := r;
      }
    }
  }

  /** In a quiet ring nothing lies between a node and its successor: the nearest member before
      the successor would share that successor, but predecessors make successors distinct. */
  lemma {:induction false} QuietIsTight(f: map<Id, Peer>, seed: Id, n: Id)
    requires PeersInv(f, seed) && Quiet(f) && n in f
    ensures Tight(f, n)
    decreases if n == seed then RING else Dist(n, seed)
  {
    var w := Next(f, n);
    assert w in f;
    var between := set m | m in f && Strictly(m, n, w);
    if between != {} {
      var q := Nearest(between, w);
      assert Claim(f, n, seed) && Claim(f, q, seed);
      QuietIsTight(f, seed, q);
      var v := Next(f, q);
      assert v in f && v == w by {
        assert !Strictly(w, q, v);
        assert Next(f, q) in f;
        assert v == w || v in between;
      }
      assert QuietAt(f, n) && QuietAt(f, q);
      QuietPred(f, n);
      QuietPred(f, q);
    }
    forall m | m in f ensures !Strictly(m, n, w) {
      assert m !in between;
    }
  }

  lemma IdealIsQuietAt(f: map<Id, Peer>, n: Id)
    requires Closed(f) && n in f && IdealAt(f, n)
    ensures QuietAt(f, n)
  {
  }

  lemma QuietIsIdeal(f: map<Id, Peer>, seed: Id)
    requires PeersInv(f, seed) && Quiet(f)
    ensures Ideal(f)
  {
    forall n | n in f ensures IdealAt(f, n) {
      assert QuietAt(f, n);
      QuietPred(f, n);
      QuietIsTight(f, seed, n);
    }
  }

  lemma IdealIsQuiet(f: map<Id, Peer>)
    requires Closed(f) && Ideal(f)
    ensures Quiet(f)
  {
    forall n | n in f ensures QuietAt(f, n) {
      assert IdealAt(f, n);
      IdealIsQuietAt(f, n);
    }
  }

  /** A ring of reachable pointers is at rest exactly when it is ideal. */
  lemma QuietIffIdeal(f: map<Id, Peer>, seed: Id)
    requires PeersInv(f, seed)
    ensures Quiet(f) <==> Ideal(f)
  {
    if Quiet(f) {
      QuietIsIdeal(f, seed);
    }
    if Ideal(f) {
      IdealIsQuiet(f);
    }
  }
}
