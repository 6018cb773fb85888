/** Following successor pointers round the identifier circle. */
module Walk {
  import opened Ring
  import opened Wrappers

  /** What the ring protocol changes in one node: its successor, its predecessor if it knows one,
      and the reply to its latest question about its successor's predecessor, if not judged yet. */
  datatype Peer = Peer(succ: Id, pred: Option<Id>, reply: Option<Option<Id>>)

  function Next(f: map<Id, Peer>, n: Id): Id
    requires n in f
  {
    f[n].succ
  }

  ghost predicate Closed(f: map<Id, Peer>) {
    forall n {:trigger Next(f, n)} :: n in f ==> Next(f, n) in f
  }

  /** Following successors from a reaches b, and no hop jumps over b. */
  ghost predicate Reaches(f: map<Id, Peer>, a: Id, b: Id)
    requires Closed(f) && a in f
    decreases Dist(a, b)
  {
    a == b || (Dist(Next(f, a), b) < Dist(a, b) && Reaches(f, Next(f, a), b))
  }

  /** Walks compose when the middle stop lies on the arc. */
  lemma {:induction false} Compose(f: map<Id, Peer>, a: Id, b: Id, c: Id)
    requires Closed(f) && a in f && b in f
    requires Reaches(f, a, b) && Reaches(f, b, c)
    requires Dist(a, b) + Dist(b, c) == Dist(a, c)
    ensures Reaches(f, a, c)
    decreases Dist(a, b)
  {
    if a != b {
      Compose(f, Next(f, a), b, c);
    }
  }

  /** g has the nodes of f, and the same successors except that the successor of n moved to x,
      which lies strictly before the old one and from which the old one was reached. */
  ghost predicate Shortcut(f: map<Id, Peer>, g: map<Id, Peer>, n: Id, x: Id) {
    && Closed(f) && Closed(g) && n in f && x in f && f.Keys == g.Keys
    && (forall m {:trigger Next(g, m)} :: m in f && m != n ==> Next(g, m) == Next(f, m))
    && Next(g, n) == x
    && InInterval(x, n, Next(f, n))
    && Reaches(f, x, Next(f, n))
  }

  /** Inserting a closer pointer keeps every walk. */
  lemma {:induction false} ShortcutKeeps(f: map<Id, Peer>, g: map<Id, Peer>, n: Id, x: Id, a: Id, b: Id)
    requires Shortcut(f, g, n, x)
    requires a in f && Reaches(f, a, b)
    ensures Reaches(g, a, b)
    decreases Dist(a, b)
  {
    if a != b {
      if a != n {
        ShortcutKeeps(f, g, n, x, Next(f, a), b);
      } else {
        Compose(f, x, Next(f, n), b);
        ShortcutKeeps(f, g, n, x, x, b);
      }
    }
  }

  /** g has at least the nodes of f, with the same successors. */
  ghost predicate Extends(f: map<Id, Peer>, g: map<Id, Peer>) {
    && f.Keys <= g.Keys
    && (forall n {:trigger Next(g, n)} :: n in f ==> Next(g, n) == Next(f, n))
  }

  /** Adding nodes keeps every walk. */
  lemma {:induction false} ExtensionKeeps(f: map<Id, Peer>, g: map<Id, Peer>, a: Id, b: Id)
    requires Closed(f) && Closed(g) && Extends(f, g)
    requires a in f && Reaches(f, a, b)
    ensures Reaches(g, a, b)
    decreases Dist(a, b)
  {
    if a != b {
      ExtensionKeeps(f, g, Next(f, a), b);
    }
  }

  /** The node k hops after n. */
  ghost function Iter(f: map<Id, Peer>, n: Id, k: nat): (r: Id)
    requires Closed(f) && n in f
    ensures r in f
    decreases k
  {
    if k == 0 then n else Iter(f, Next(f, n), k - 1)
  }

  /** The length of a hop; a node that is its own successor goes all the way round. */
  ghost function Gap(a: Id, b: Id): nat {
    if a == b then RING else Dist(a, b)
  }

  /** The clockwise distance covered by k hops from n. */
  ghost function Travel(f: map<Id, Peer>, n: Id, k: nat): nat
    requires Closed(f) && n in f
    decreases k
  {
    if k == 0 then 0 else Gap(n, Next(f, n)) + Travel(f, Next(f, n), k - 1)
  }

  lemma {:induction false} IterAdd(f: map<Id, Peer>, n: Id, i: nat, j: nat)
    requires Closed(f) && n in f
    ensures Iter(f, n, i + j) == Iter(f, Iter(f, n, i), j)
    decreases i
  {
    if i > 0 {
      IterAdd(f, Next(f, n), i - 1, j);
    }
  }

  lemma {:induction false} IterPeriod(f: map<Id, Peer>, n: Id, k: nat, q: nat)
    requires Closed(f) && n in f && Iter(f, n, k) == n
    ensures Iter(f, n, q * k) == n
    decreases q
  {
    if q > 0 {
      IterPeriod(f, n, k, q - 1);
      IterAdd(f, n, k, (q - 1) * k);
      assert q * k == k + (q - 1) * k;
    }
  }

  /** A walk that never jumps over its target covers exactly the clockwise distance, and does
      not meet the target before its end. */
  lemma {:induction false} ReachSteps(f: map<Id, Peer>, a: Id, b: Id) returns (k: nat)
    requires Closed(f) && a in f && Reaches(f, a, b)
    ensures Iter(f, a, k) == b && Travel(f, a, k) == Dist(a, b)
    ensures forall j :: 0 <= j < k ==> Iter(f, a, j) != b
    decreases Dist(a, b)
  {
    if a == b {
      k := 0;
    } else {
      var k' := ReachSteps(f, Next(f, a), b);
      k := k' + 1;
      forall j | 0 <= j < k ensures Iter(f, a, j) != b {
        if j > 0 { assert Iter(f, a, j) == Iter(f, Next(f, a), j - 1); }
      }
    }
  }

  ghost predicate OnCycle(f: map<Id, Peer>, n: Id)
    requires Closed(f) && n in f
  {
    exists k: nat :: k > 0 && Iter(f, n, k) == n
  }

  /** A node on some cycle is met from the seed it reaches. */
  lemma CycleIsMet(f: map<Id, Peer>, seed: Id, n: Id) returns (m: nat)
    requires Closed(f) && seed in f && n in f
    requires Reaches(f, n, seed) && OnCycle(f, n)
    ensures Iter(f, seed, m) == n
  {
    var j := ReachSteps(f, n, seed);
    var c: nat :| c > 0 && Iter(f, n, c) == n;
    IterPeriod(f, n, c, j);
    m := j * (c - 1);
    assert j * c == j + m;
    IterAdd(f, n, j, m);
  }

  /** A node met from the seed it reaches is on a cycle. */
  lemma MetIsCycle(f: map<Id, Peer>, seed: Id, n: Id, m: nat)
    requires Closed(f) && seed in f && n in f
    requires Reaches(f, n, seed) && OnCycle(f, seed) && Iter(f, seed, m) == n
    ensures OnCycle(f, n)
  {
    var j := ReachSteps(f, n, seed);
    IterAdd(f, n, j, m);
    if j + m > 0 {
      assert Iter(f, n, j + m) == n;
    }
  }

  /** b is met when hopping from a. */
  ghost predicate Meets(f: map<Id, Peer>, a: Id, b: Id)
    requires Closed(f) && a in f
  {
    exists m: nat :: Iter(f, a, m) == b
  }

  lemma CycleIffMet(f: map<Id, Peer>, seed: Id, n: Id)
    requires Closed(f) && seed in f && n in f
    requires Reaches(f, n, seed) && OnCycle(f, seed)
    ensures OnCycle(f, n) <==> Meets(f, seed, n)
    ensures Meets(f, n, seed)
  {
    var j := ReachSteps(f, n, seed);
    if OnCycle(f, n) {
      var m := CycleIsMet(f, seed, n);
    }
    if Meets(f, seed, n) {
      var m: nat :| Iter(f, seed, m) == n;
      MetIsCycle(f, seed, n, m);
    }
  }

  /** The first return to the seed goes round the circle exactly once. */
  lemma OnceRound(f: map<Id, Peer>, seed: Id) returns (len: nat)
    requires Closed(f) && seed in f && Reaches(f, Next(f, seed), seed)
    ensures len > 0 && Iter(f, seed, len) == seed && Travel(f, seed, len) == RING
    ensures forall j :: 0 < j < len ==> Iter(f, seed, j) != seed
  {
    var k := ReachSteps(f, Next(f, seed), seed);
    len := k + 1;
    forall j | 0 < j < len ensures Iter(f, seed, j) != seed {
      assert Iter(f, seed, j) == Iter(f, Next(f, seed), j - 1);
    }
  }
}
