/** What the maintenance methods do to finger tables and predecessors, as functions, and how
    that relates to the steps of the protocol. */
module Maintenance {
  import opened Wrappers
  import opened Ring
  import opened Bits
  import opened Routing
  import opened FingerTables
  import opened Repair
  import opened Walk
  import opened Protocol

  type Preds = map<Id, Option<Id>>

  function IdOfNode(n: Node?): Option<Id> {
    if n == null then None else Some(n.id)
  }

  /** The pointers the protocol speaks of. */
  ghost function PeersOf(T: Tables, P: Preds): map<Id, Peer> {
    map i | i in T && i in P :: Peer(Succ(T[i], i), P[i], None)
  }

  /** Slots t of n after the successor reported x. */
  function Adopted(t: Slots, n: Id, x: Option<Id>): Slots
    requires |t| == M
  {
    if x.Some? && InInterval(x.value, n, Succ(t, n)) then t[0 := x] else t
  }

  lemma AdoptedSucc(t: Slots, n: Id, x: Option<Id>)
    requires |t| == M
    ensures Succ(Adopted(t, n, x), n) == NextSucc(n, Succ(t, n), x)
  {
  }

  /** A whole stabilization of n without other steps in between. */
  ghost function Stabilized(f: map<Id, Peer>, n: Id): map<Id, Peer>
    requires Closed(f) && n in f
  {
    assert Next(f, n) in f;
    var g := Judged(Asked(f, n), n);
    if Next(g, n) in g then Delivered(g, n, Next(g, n)) else g
  }

  /** From T and P, a stabilization of n leads to T' and P': the pointers of the ring have gone
      through the protocol's three steps, and no slot but the first of n has changed. */
  ghost predicate StabilizedTables(T: Tables, P: Preds, n: Id, T': Tables, P': Preds) {
    && Closed(PeersOf(T, P)) && n in PeersOf(T, P)
    && PeersOf(T', P') == Stabilized(PeersOf(T, P), n)
    && n in T && n in T' && |T[n]| == |T'[n]| == M && T'[n][1..] == T[n][1..]
    && T' == T[n := T'[n]]
  }

  lemma PeersClosed(T: Tables, P: Preds)
    requires WellFormed(T) && P.Keys == T.Keys
    ensures var f := PeersOf(T, P);
      f.Keys == T.Keys && Closed(f) && (forall i {:trigger Next(f, i)} :: i in f ==> Next(f, i) == SuccOf(T, i))
  {
    var f := PeersOf(T, P);
    forall i | i in f ensures Next(f, i) == SuccOf(T, i) && Next(f, i) in f {
      assert MemberTable(T, i);
    }
  }

  /** The three steps on the pointers, from their effect on tables and predecessors. */
  lemma StepsOnPeers(T: Tables, P: Preds, n: Id, s: Id, T': Tables, s': Id, P': Preds)
    requires WellFormed(T) && P.Keys == T.Keys && n in T && s == SuccOf(T, n) && |T[n]| == M
    requires T' == T[n := Adopted(T[n], n, P[s])] && WellFormed(T') && s' == SuccOf(T', n)
    requires P' == P[s' := NextPred(s', P[s'], n)]
    ensures StabilizedTables(T, P, n, T', P')
  {
    var f, f' := PeersOf(T, P), PeersOf(T', P');
    PeersClosed(T, P);
    PeersClosed(T', P');
    AdoptedSucc(T[n], n, P[s]);
    assert MemberTable(T', n);
    assert Next(f, n) == s && f[s].pred == P[s];
    var g := Judged(Asked(f, n), n);
    assert g == f[n := Peer(NextSucc(n, s, P[s]), P[n], None)];
    assert Next(g, n) == s';
    var h := Delivered(g, n, s');
    assert f'.Keys == h.Keys;
    forall i | i in f' ensures f'[i] == h[i] {
      if i != n {
        assert T'[i] == T[i];
      }
    }
    assert Adopted(T[n], n, P[s])[1..] == T[n][1..];
  }

  /** The pointers once a node with slots t has joined. */
  lemma JoinedPeers(T: Tables, P: Preds, n: Id, t: Slots)
    ensures PeersOf(T[n := t], P[n := None]) == PeersOf(T, P)[n := Peer(Succ(t, n), None, None)]
  {
  }

  /** The pointers with the replies that have not been judged yet. */
  ghost function PeersWith(T: Tables, P: Preds, R: Preds): map<Id, Peer> {
    map i | i in T && i in P :: Peer(Succ(T[i], i), P[i], if i in R then Some(R[i]) else None)
  }

  lemma PeersWithClosed(T: Tables, P: Preds, R: Preds)
    requires WellFormed(T) && P.Keys == T.Keys
    ensures var f := PeersWith(T, P, R);
      f.Keys == T.Keys && Closed(f) && (forall i {:trigger Next(f, i)} :: i in f ==> Next(f, i) == SuccOf(T, i))
  {
    var f := PeersWith(T, P, R);
    forall i | i in f ensures Next(f, i) == SuccOf(T, i) && Next(f, i) in f {
      assert MemberTable(T, i);
    }
  }

  /** Keeping the reply of n's successor is the protocol's question. */
  lemma AskOnPeers(T: Tables, P: Preds, R: Preds, n: Id)
    requires WellFormed(T) && P.Keys == T.Keys && n in T
    ensures var f, s := PeersWith(T, P, R), SuccOf(T, n);
      && n in f && Next(f, n) in f && s in P && Asked(f, n) == PeersWith(T, P, R[n := P[s]])
  {
    PeersWithClosed(T, P, R);
  }

  /** Adopting what a kept reply names is the protocol's judgement. */
  lemma JudgeOnPeers(T: Tables, P: Preds, R: Preds, n: Id)
    requires n in T && n in P && n in R && |T[n]| == M
    ensures var f := PeersWith(T, P, R);
      && n in f && f[n].reply.Some?
      && Judged(f, n) == PeersWith(T[n := Adopted(T[n], n, R[n])], P, R - {n})
  {
    AdoptedSucc(T[n], n, R[n]);
  }

  /** A notified node's new predecessor is the protocol's delivery. */
  lemma DeliverOnPeers(T: Tables, P: Preds, R: Preds, n: Id, s: Id)
    requires s in T && s in P
    ensures var f := PeersWith(T, P, R);
      s in f && Delivered(f, n, s) == PeersWith(T, P[s := NextPred(s, P[s], n)], R)
  {
  }

  /** A new member with slots t, and perhaps a reply left over from before. */
  lemma JoinOnPeers(T: Tables, P: Preds, R: Preds, n: Id, t: Slots, leftover: Option<Option<Id>>)
    requires n !in R
    ensures PeersWith(T[n := t], P[n := None], if leftover.Some? then R[n := leftover.value] else R)
         == PeersWith(T, P, R)[n := Peer(Succ(t, n), None, leftover)]
  {
  }

  /** The repaired slots hold old handles and the node's own. */
  lemma RepairedFrom(e: seq<Node?>, self: Node, ping: nat -> bool, k: nat)
    requires |e| == M
    ensures forall m :: m in Repaired(e, self, ping, k) ==> m == null || m in e || m == self
    ensures Filled(Repaired(e, self, ping, k), self) == Repaired(e, self, ping, k)
  {
    RepairedSlots(e, self, ping, k);
    var w := WithoutAll(e, Failed(e, self, ping, k));
    forall m | m in Filled(w, self) ensures m == null || m in e || m == self {
      var i :| 0 <= i < M && Filled(w, self)[i] == m;
      assert m == self || m == w[i];
    }
  }

  lemma AnsweredAtOnce(e: seq<Node?>, self: Node, ping: nat -> bool)
    requires |e| == M && ping(0)
    ensures Repaired(e, self, ping, 0) == Filled(e, self)
  {
  }

  /** The slot refreshed for a random number: one of slots 1 to 158. */
  function FingerIndex(rand: nat): (i: nat)
    ensures 1 <= i <= M - 2
  {
    rand % (M - 2) + 1
  }

  /** Of 158 successive numbers each slot from 1 to 158 is chosen by exactly one. */
  lemma EverySlotOnce(i: nat, from: nat)
    requires 1 <= i <= M - 2
    ensures exists rand :: from <= rand < from + (M - 2) && FingerIndex(rand) == i
    ensures forall a, b :: from <= a < b < from + (M - 2) ==> FingerIndex(a) != FingerIndex(b)
  {
    var n := M - 2;
    var q, r := from / n, from % n;
    assert from == n * q + r;
    if i - 1 >= r {
      ModUnique(n, q, i - 1);
      assert FingerIndex(n * q + (i - 1)) == i;
    } else {
      ModUnique(n, q + 1, i - 1);
      assert FingerIndex(n * (q + 1) + (i - 1)) == i;
    }
    forall a, b | from <= a < b < from + n ensures FingerIndex(a) != FingerIndex(b) {
      DifferentRemainders(a, b, n);
    }
  }

  lemma DifferentRemainders(a: nat, b: nat, n: nat)
    requires n > 0 && a < b < a + n
    ensures a % n != b % n
  {
    var d := b / n - a / n;
    assert b - a == n * d + (b % n - a % n) by {
      assert a == n * (a / n) + a % n && b == n * (b / n) + b % n;
    }
    TimesAtLeastOnce(n, d);
  }

  /** Successive numbers choose successive slots, from slot 1 on and round again. */
  lemma SlotsInTurn(rand: nat)
    ensures FingerIndex(0) == 1
    ensures FingerIndex(rand + 1) == if FingerIndex(rand) == 158 then 1 else FingerIndex(rand) + 1
  {
    var n := M - 2;
    var q, r := rand / n, rand % n;
    assert rand == n * q + r;
    if r == n - 1 {
      ModUnique(n, q + 1, 0);
    } else {
      ModUnique(n, q, r + 1);
    }
  }

  /** The tables after slot i of n has been looked up afresh. */
  ghost function Refreshed(T: Tables, n: Id, i: nat): Tables
    requires WellFormed(T) && n in T && i < M
  {
    assert MemberTable(T, n);
    T[n := T[n][i := Some(Lookup(T, n, StartOf(n, i)))]]
  }

  lemma StartIsElsewhere(n: Id, i: nat)
    requires i < M
    ensures StartOf(n, i) != n
  {
    Pow2Small(i);
    WrapsElsewhere(n, Pow2(i));
  }

  lemma WrapsElsewhere(n: Id, d: nat)
    requires 0 < d < RING
    ensures (n + d) % RING != n
  {
    if n + d >= RING {
      assert (n + d) % RING == n + d - RING;
    }
  }

  /** Filling a slot beyond the first of a table that has been read. */
  lemma SlotSet(e: seq<Node?>, self: Node, i: nat, x: Node)
    requires |e| == M && 0 < i < M
    ensures IdsOf(Filled(Filled(e, self)[i := x], self)) == IdsOf(Filled(e, self))[i := Some(x.id)]
  {
    var f := Filled(e, self);
    var j :| 0 <= j < M && f[j] != null;
    assert f[i := x][if j == i then i else j] != null;
    assert Filled(f[i := x], self) == f[i := x];
  }
}
