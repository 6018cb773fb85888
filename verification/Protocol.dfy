/** The ring maintenance protocol as a step system over a growing set of members.

    A run starts with the founding node alone. A stabilization is three separate steps: reading
    the successor's predecessor (`Ask`), judging the reply (`Judge`, which also sends the
    notification) and the delivery of the notification (`Deliver`). Replies and notifications
    may be overtaken by any other steps; notifications may be delivered late, repeatedly, in
    any order, or never. A lookup for a joining node answers with the successor pointer some
    member held at that moment, and the join itself happens at some later time. */
module Protocol {
  import opened Wrappers
  import opened Ring
  import opened Walk

  /** The successor a node n keeps when its successor s reports the predecessor x. */
  function NextSucc(n: Id, s: Id, x: Option<Id>): Id {
    if x.Some? && InInterval(x.value, n, s) then x.value else s
  }

  /** The predecessor a node s keeps when n claims to precede it. */
  function NextPred(s: Id, p: Option<Id>, n: Id): Option<Id> {
    if p.None? || InInterval(n, p.value, s) then Some(n) else p
  }

  datatype State = State(
    seed: Id,
    peers: map<Id, Peer>,
    joining: map<Id, Id>,    // lookup answers held by nodes that have not joined yet
    notices: set<(Id, Id)>)  // notifications sent: (claiming node, node notified)

  /** `Join` carries what the joining node's own stabilization, which has been running since
      the node was created, may leave behind from the time when the node was alone: a reply
      that names nobody or the node itself, and a notification from the node to itself. */
  datatype Event =
    | Locate(n: Id, p: Id)
    | Join(n: Id, leftover: Option<Option<Id>>, echo: bool)
    | Ask(n: Id)
    | Judge(n: Id)
    | Deliver(n: Id, s: Id)

  ghost predicate Enabled(st: State, ev: Event) {
    match ev
    case Locate(n, p) =>
      n !in st.peers && p in st.peers
      && (InInterval(n, p, Next(st.peers, p)) || n == Next(st.peers, p))
    case Join(n, leftover, echo) =>
      n !in st.peers && n in st.joining
      && (leftover.Some? ==> leftover.value.None? || leftover.value == Some(n))
    case Ask(n) => n in st.peers && Next(st.peers, n) in st.peers
    case Judge(n) => n in st.peers && st.peers[n].reply.Some?
    case Deliver(n, s) => s in st.peers && (n, s) in st.notices
  }

  ghost function Apply(st: State, ev: Event): State
    requires Enabled(st, ev)
  {
    match ev
    case Locate(n, p) => st.(joining := st.joining[n := Next(st.peers, p)])
    case Join(n, leftover, echo) =>
      st.(peers := st.peers[n := Peer(st.joining[n], None, leftover)],
          notices := if echo then st.notices + {(n, n)} else st.notices)
    case Ask(n) => st.(peers := Asked(st.peers, n))
    case Judge(n) =>
      var g := Judged(st.peers, n);
      st.(peers := g, notices := st.notices + {(n, g[n].succ)})
    case Deliver(n, s) => st.(peers := Delivered(st.peers, n, s))
  }

  ghost function Asked(f: map<Id, Peer>, n: Id): map<Id, Peer>
    requires n in f && Next(f, n) in f
  {
    f[n := f[n].(reply := Some(f[Next(f, n)].pred))]
  }

  ghost function Judged(f: map<Id, Peer>, n: Id): map<Id, Peer>
    requires n in f && f[n].reply.Some?
  {
    f[n := f[n].(succ := NextSucc(n, f[n].succ, f[n].reply.value), reply := None)]
  }

  ghost function Delivered(f: map<Id, Peer>, n: Id, s: Id): map<Id, Peer>
    requires s in f
  {
    f[s := f[s].(pred := NextPred(s, f[s].pred, n))]
  }

  function Start(seed: Id): State {
    State(seed, map[seed := Peer(seed, None, None)], map[], {})
  }

  /** a and b are members, and a reaches b without jumping over it. */
  ghost predicate Claim(f: map<Id, Peer>, a: Id, b: Id)
    requires Closed(f)
  {
    a in f && b in f && Reaches(f, a, b)
  }

  ghost predicate PredOk(f: map<Id, Peer>, n: Id)
    requires Closed(f) && n in f
  {
    f[n].pred.Some? ==> Claim(f, f[n].pred.value, n)
  }

  ghost predicate ReplyOk(f: map<Id, Peer>, n: Id)
    requires Closed(f) && n in f
  {
    f[n].reply.Some? && f[n].reply.value.Some? ==> Claim(f, f[n].reply.value.value, Next(f, n))
  }

  ghost predicate JoinerOk(f: map<Id, Peer>, seed: Id, n: Id, s: Id) {
    s in f && (n !in f ==> Dist(s, seed) < Dist(n, seed))
  }

  ghost predicate PeersInv(f: map<Id, Peer>, seed: Id) {
    && Closed(f) && seed in f
    && (forall n {:trigger Claim(f, n, seed)} :: n in f ==> Claim(f, n, seed))
    && (forall n {:trigger PredOk(f, n)} :: n in f ==> PredOk(f, n))
    && (forall n {:trigger ReplyOk(f, n)} :: n in f ==> ReplyOk(f, n))
  }

  /** What every reachable state satisfies. Every predecessor a node stores, has been told, or
      is about to be told reaches that node without jumping over it; every member reaches the
      seed that way, and so will every node that holds a lookup answer. */
  ghost predicate Inv(st: State) {
    && PeersInv(st.peers, st.seed)
    && (forall m {:trigger Claim(st.peers, m.0, m.1)} :: m in st.notices ==>
          Claim(st.peers, m.0, m.1))
    && (forall n {:trigger st.joining[n]} :: n in st.joining ==>
          JoinerOk(st.peers, st.seed, n, st.joining[n]))
  }

  lemma StartInv(seed: Id)
    ensures Inv(Start(seed))
  {
  }

  /** g keeps every node of f, every walk of f that jumps over nothing, and in g every node
      still reaches its successor. */
  ghost predicate Keeps(f: map<Id, Peer>, g: map<Id, Peer>) {
    && Closed(f) && Closed(g)
    && (forall a, b {:trigger Claim(g, a, b)} :: Claim(f, a, b) ==> Claim(g, a, b))
  }

  lemma ClosedUpdate(f: map<Id, Peer>, n: Id, p: Peer)
    requires Closed(f) && (p.succ in f || p.succ == n)
    ensures Closed(f[n := p])
  {
    var g := f[n := p];
    forall m | m in g ensures Next(g, m) in g {
      if m != n {
        assert Next(f, m) in f;
      }
    }
  }

  lemma SameSuccKeeps(f: map<Id, Peer>, g: map<Id, Peer>)
    requires Closed(f) && Closed(g) && Extends(f, g)
    ensures Keeps(f, g)
  {
    forall a, b | Claim(f, a, b) ensures Claim(g, a, b) {
      ExtensionKeeps(f, g, a, b);
    }
  }

  lemma ShortcutKeepsAll(f: map<Id, Peer>, g: map<Id, Peer>, n: Id, x: Id)
    requires Shortcut(f, g, n, x)
    ensures Keeps(f, g)
  {
    forall a, b | Claim(f, a, b) ensures Claim(g, a, b) {
      ShortcutKeeps(f, g, n, x, a, b);
    }
  }

  /** Adding the node n with a successor s that is nearer to the seed. */
  lemma JoinKeeps(f: map<Id, Peer>, seed: Id, n: Id, s: Id, leftover: Option<Option<Id>>)
    requires PeersInv(f, seed) && n !in f && JoinerOk(f, seed, n, s)
    requires leftover.Some? ==> leftover.value.None? || leftover.value == Some(n)
    ensures var g := f[n := Peer(s, None, leftover)]; Keeps(f, g) && PeersInv(g, seed)
  {
    var g := f[n := Peer(s, None, leftover)];
    ClosedUpdate(f, n, Peer(s, None, leftover));
    SameSuccKeeps(f, g);
    assert Claim(f, s, seed);
    assert Claim(g, s, seed);
    forall m | m in g ensures Claim(g, m, seed) && PredOk(g, m) && ReplyOk(g, m) {
      if m != n {
        assert Claim(f, m, seed) && PredOk(f, m) && ReplyOk(f, m);
      }
    }
  }

  lemma AskKeeps(f: map<Id, Peer>, seed: Id, n: Id)
    requires PeersInv(f, seed) && n in f
    ensures Next(f, n) in f && Keeps(f, Asked(f, n)) && PeersInv(Asked(f, n), seed)
  {
    var g := Asked(f, n);
    assert Next(f, n) in f;
    ClosedUpdate(f, n, g[n]);
    SameSuccKeeps(f, g);
    forall m | m in g ensures Claim(g, m, seed) && PredOk(g, m) && ReplyOk(g, m) {
      assert Claim(f, m, seed) && PredOk(f, m) && ReplyOk(f, m);
      if m == n {
        assert PredOk(f, Next(f, n));
      }
    }
  }

  lemma JudgeKeeps(f: map<Id, Peer>, seed: Id, n: Id)
    requires PeersInv(f, seed) && n in f && f[n].reply.Some?
    ensures Keeps(f, Judged(f, n)) && PeersInv(Judged(f, n), seed)
  {
    var g := Judged(f, n);
    var x := f[n].reply.value;
    assert ReplyOk(f, n) && Next(f, n) in f;
    ClosedUpdate(f, n, g[n]);
    if x.Some? && InInterval(x.value, n, Next(f, n)) {
      ShortcutKeepsAll(f, g, n, x.value);
    } else {
      SameSuccKeeps(f, g);
    }
    forall m | m in g ensures Claim(g, m, seed) && PredOk(g, m) && ReplyOk(g, m) {
      assert Claim(f, m, seed) && PredOk(f, m) && ReplyOk(f, m);
    }
  }

  lemma DeliverKeeps(f: map<Id, Peer>, seed: Id, n: Id, s: Id)
    requires PeersInv(f, seed) && Claim(f, n, s)
    ensures Keeps(f, Delivered(f, n, s)) && PeersInv(Delivered(f, n, s), seed)
  {
    var g := Delivered(f, n, s);
    assert Next(f, s) in f;
    ClosedUpdate(f, s, g[s]);
    SameSuccKeeps(f, g);
    forall m | m in g ensures Claim(g, m, seed) && PredOk(g, m) && ReplyOk(g, m) {
      assert Claim(f, m, seed) && PredOk(f, m) && ReplyOk(f, m);
    }
  }

  /** A hop reaches its end. */
  lemma HopClaim(f: map<Id, Peer>, n: Id)
    requires Closed(f) && n in f
    ensures Claim(f, n, Next(f, n)) && Claim(f, n, n)
  {
  }

  /** A lookup answer lies between the joining node and the seed. */
  lemma LookupShort(f: map<Id, Peer>, seed: Id, n: Id, p: Id)
    requires PeersInv(f, seed) && n !in f && p in f && InInterval(n, p, Next(f, p))
    ensures JoinerOk(f, seed, n, Next(f, p))
  {
    assert Claim(f, p, seed);
  }

  /** Every step keeps the invariant, and every walk that jumps over nothing. */
  lemma StepKeeps(st: State, ev: Event)
    requires Inv(st) && Enabled(st, ev)
    ensures Inv(Apply(st, ev)) && Keeps(st.peers, Apply(st, ev).peers)
  {
    var f, seed, g, st' := st.peers, st.seed, Apply(st, ev).peers, Apply(st, ev);
    match ev
    case Locate(n, p) => LookupShort(f, seed, n, p); SameSuccKeeps(f, f);
    case Join(n, leftover, echo) => JoinKeeps(f, seed, n, st.joining[n], leftover); HopClaim(g, n);
    case Ask(n) => AskKeeps(f, seed, n);
    case Judge(n) => JudgeKeeps(f, seed, n); HopClaim(g, n);
    case Deliver(n, s) => assert Claim(f, (n, s).0, (n, s).1); DeliverKeeps(f, seed, n, s);
  }
}
