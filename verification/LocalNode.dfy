/** The ring node and the fabric through which nodes call one another. */
module Nodes {
  import opened Wrappers
  import opened Ring
  import opened Identifier
  import opened Routing
  import opened FingerTables
  import opened Repair
  import opened Walk
  import opened Protocol
  import opened Maintenance

  /** The first filled slot's identifier, once an empty table has been filled. */
  lemma SuccessorId(e: seq<Node?>, self: Node)
    requires |e| == M
    ensures Succ(IdsOf(Filled(e, self)), self.id) == SuccessorIn(e, self).id
  {
    FirstNodeIds(Filled(e, self), 0);
  }

  lemma {:induction false} ClosestAmongSelf(t: Slots, n: Id, id: Id, i: nat)
    requires i <= |t| && forall k :: 0 <= k < |t| && t[k].Some? ==> t[k].value == n
    ensures Closest(t, n, id, i) == n
  {
    if i > 0 {
      ClosestAmongSelf(t, n, id, i - 1);
    }
  }

  /** Filling an empty table does not change what a scan for the closest finger finds. */
  lemma ClosestFilled(e: seq<Node?>, self: Node, id: Id)
    requires |e| == M
    ensures Closest(IdsOf(e), self.id, id, M) == Closest(IdsOf(Filled(e, self)), self.id, id, M)
  {
    if FirstNode(e, 0) == null {
      ClosestAmongSelf(IdsOf(e), self.id, id, M);
      ClosestAmongSelf(IdsOf(Filled(e, self)), self.id, id, M);
    }
  }

  class LocalNode {
    const self: Node
    const finger: FingerTable
    var predecessor: Node?
    var inbox: seq<seq<Byte>>

    /** Stored handles with the node's own identifier are its own handle; slot 159 is never
        filled. */
    ghost predicate Valid()
      reads this, finger.entries
    {
      && finger.Valid() && IdOf(finger.id) == self.id
      && finger.entries[M - 1] == null
      && (forall i :: 0 <= i < M && finger.entries[i] != null && finger.entries[i].id == self.id ==>
            finger.entries[i] == self)
      && (predecessor != null && predecessor.id == self.id ==> predecessor == self)
    }

    /** The finger slots as lookups see them. */
    ghost function Table(): Slots
      requires finger.Valid()
      reads finger.entries
    {
      IdsOf(Filled(finger.entries[..], self))
    }

    ghost function SuccId(): Id
      requires finger.Valid()
      reads finger.entries
    {
      Succ(Table(), self.id)
    }

    ghost function PredId(): Option<Id>
      reads this
    {
      if predecessor == null then None else Some(predecessor.id)
    }

    constructor (key: seq<Byte>)
      requires |key| == ID_LEN
      ensures Valid() && self.id == IdOf(key) && fresh(finger.entries)
      ensures SuccId() == self.id && PredId() == None && inbox == []
      ensures predecessor == null && forall k :: 0 <= k < M ==> finger.entries[k] == null
    {
      var s := new Node(IdOf(key));
      var f := new FingerTable(key);
      self := s;
      finger := f;
      predecessor := null;
      inbox := [];
      new;
      SuccessorId(finger.entries[..], self);
    }

    /** Handles for the node's own identifier are replaced by its own handle. */
    function Own(n: Node?): (r: Node?)
      ensures n != null ==> r != null && r.id == n.id
      ensures n == null ==> r == null
    {
      if n != null && n.id == self.id then self else n
    }

    method GetPredecessor() returns (p: Node?)
      ensures p == predecessor
    {
      p := predecessor;
    }

    method SetPredecessor(n: Node?)
      requires Valid()
      modifies this`predecessor
      ensures Valid() && predecessor == Own(n)
    {
      predecessor := Own(n);
    }

    /** Puts the node itself in slot 0 when the whole table is empty. */
    method GetSuccessor() returns (s: Node)
      requires Valid()
      modifies finger.entries
      ensures Valid() && finger.entries[..] == Filled(old(finger.entries[..]), self)
      ensures s == SuccessorIn(old(finger.entries[..]), self) && s.id == SuccId() == old(SuccId())
      ensures if forall k :: 0 <= k < M ==> old(finger.entries[k]) == null
              then s == self && finger.entries[..] == old(finger.entries[..])[0 := self]
              else finger.entries[..] == old(finger.entries[..])
      ensures Table() == old(Table())
    {
      SuccessorId(finger.entries[..], self);
      var r := finger.GetNode(0);
      if r.value == null {
        var _ := finger.SetNode(0, self);
      }
      r := finger.GetNode(0);
      s := r.value;
    }

    method SetSuccessor(n: Node?)
      requires Valid()
      modifies finger.entries
      ensures Valid() && finger.entries[..] == old(finger.entries[..])[0 := Own(n)]
      ensures n != null ==> SuccId() == n.id && Table() == old(Table())[0 := Some(n.id)]
    {
      ghost var e := finger.entries[..];
      var _ := finger.SetNode(0, Own(n));
      SuccessorId(finger.entries[..], self);
      assert Filled(e, self)[1..] == e[1..];
    }

    /** The closest finger before id, from the highest slot down; the node itself if none. */
    method ClosestPrecedingFinger(id: Id) returns (f: Node)
      requires Valid()
      ensures f.id == Closest(Table(), self.id, id, M)
      ensures f == self || f in finger.entries[..]
    {
      ClosestFilled(finger.entries[..], self, id);
      ghost var t := IdsOf(finger.entries[..]);
      var i := M;
      while i > 0
        invariant 0 <= i <= M
        invariant Closest(t, self.id, id, M) == Closest(t, self.id, id, i)
      {
        i := i - 1;
        var r := finger.GetNode(i);
        FirstNodeIds(finger.entries[..], i);
        var n := r.value;
        if n != null && InInterval(n.id, self.id, id) {
          return n;
        }
      }
      return self;
    }

    /** Adopts n when no predecessor is known or n lies after the one known. */
    method Notify(n: Node)
      requires Valid()
      modifies this`predecessor
      ensures Valid() && PredId() == NextPred(self.id, old(PredId()), n.id)
      ensures predecessor == old(predecessor) || predecessor == Own(n)
    {
      if predecessor == null || InInterval(n.id, predecessor.id, self.id) {
        SetPredecessor(n);
      }
    }

    /** Drops a predecessor that does not answer a ping; the node itself is never pinged. */
    method CheckPredecessor(answers: bool)
      requires Valid()
      modifies this`predecessor
      ensures Valid()
      ensures predecessor == if old(predecessor) == self || answers then old(predecessor) else null
    {
      var n := GetPredecessor();
      if n != null && n != self && !answers {
        SetPredecessor(null);
      }
    }

    /** The ping loop of a stabilization; ping(k) is the answer to ping number k. */
    method RepairSuccessor(ping: nat -> bool)
      requires Valid()
      modifies finger.entries
      ensures Valid() && finger.entries[..] == Repaired(old(finger.entries[..]), self, ping, 0)
    {
      ghost var e0 := finger.entries[..];
      ghost var e := e0;
      var k := 0;
      var s := GetSuccessor();
      while s != self && !ping(k)
        invariant |e| == M && Valid() && finger.entries[..] == Filled(e, self) && s == SuccessorIn(e, self)
        invariant Repaired(e0, self, ping, 0) == Repaired(e, self, ping, k)
        decreases |Others(e, self)|
      {
        OthersFall(e, self);
        finger.RemoveNode(s);
        e := finger.entries[..];
        s := GetSuccessor();
        k := k + 1;
      }
    }

    /** Reading the successor, seen from the whole network. */
    method ReadSuccessor(net: Network) returns (s: Node)
      requires net.Valid() && net.Has(this) && finger.Valid()
      modifies finger.entries
      ensures net.Valid() && WellFormed(net.tables)
      ensures s.id == SuccOf(net.tables, self.id)
      ensures finger.entries[..] == Filled(old(finger.entries[..]), self)
    {
      net.MemberFacts(self.id);
      net.SlotsKnown(this);
      s := GetSuccessor();
      net.TableMoved(this);
    }

    /** Reading the closest finger, seen from the whole network. */
    method ReadClosest(net: Network, id: Id) returns (f: Node)
      requires net.Valid() && net.Has(this)
      ensures net.Valid() && WellFormed(net.tables)
      ensures f.id == ClosestOf(net.tables, self.id, id)
    {
      net.MemberFacts(self.id);
      f := ClosestPrecedingFinger(id);
    }

    /** The node that answers for id, asked for through the network if need be. Only the slots
        of nodes no farther from id are touched. */
    method FindSuccessor(net: Network, id: Id) returns (r: Node)
      requires net.Valid() && net.Has(this) && finger.Valid()
      modifies net.NearArrays(self.id, id)
      ensures net.Valid() && WellFormed(net.tables)
      ensures r.id == Lookup(net.tables, self.id, id)
      ensures id != self.id ==> finger.entries[..] == Filled(old(finger.entries[..]), self)
      ensures id == self.id ==> finger.entries[..] == old(finger.entries[..])
      decreases Dist(self.id, id), 0
    {
      net.MemberFacts(self.id);
      if self.id == id {
        return self;
      }
      var s := ReadSuccessor(net);
      if InInterval(id, self.id, s.id) || id == s.id {
        return s;
      }
      var n := ReadClosest(net, id);
      ForwardProgress(net.tables, self.id, id);
      net.NearShrinks(self.id, n.id, id);
      r := net.CallFindSuccessor(n, id);
    }

    /** The predecessor loop. It gives nothing where the code stays at this node for ever. */
    method FindPredecessor(net: Network, id: Id) returns (r: Option<Node>)
      requires net.Valid() && net.Has(this) && finger.Valid()
      modifies net.Arrays()
      ensures net.Valid() && WellFormed(net.tables)
      ensures r.None? <==> !LoopEnds(net.tables, self.id, id)
      ensures r.Some? ==> r.value.id == LoopEnd(net.tables, self.id, id)
      ensures self.id in net.tables
      ensures r.Some? ==> StopsAt(net.tables, self.id, id, r.value.id)
      ensures r.None? ==> forall k: nat :: !Answers(net.tables, LoopNode(net.tables, self.id, id, k), id)
    {
      ghost var T := net.tables;
      net.MemberFacts(self.id);
      var n := self;
      ghost var first := true;
      while true
        invariant net.Valid() && n.id in net.nodes
        invariant first ==> n == self
        invariant !first ==> n.id != id && LoopEnds(T, self.id, id) && PredLookup(T, n.id, id) == LoopEnd(T, self.id, id)
        decreases first, Dist(n.id, id)
      {
        net.MemberFacts(n.id);
        var s := net.nodes[n.id].ReadSuccessor(net);
        if InInterval(id, n.id, s.id) || id == s.id {
          LoopStopsAtEnd(T, self.id, id);
          return Some(n);
        }
        var f := net.nodes[n.id].ReadClosest(net, id);
        if n.id != id { ForwardProgress(T, n.id, id); }
        if f.id == n.id {
          LoopEndsIff(T, self.id, id);
          return None;
        }
        if first { FirstTurn(T, n.id, id); }
        n := f;
        first := false;
      }
    }

    /** Dropping dead successors, seen from the whole network. */
    method RepairIn(net: Network, ping: nat -> bool)
      requires net.Valid() && net.Has(this) && finger.Valid()
      modifies net`tables, finger.entries
      ensures net.Valid()
      ensures net.tables == old(net.tables)[self.id := IdsOf(Repaired(old(finger.entries[..]), self, ping, 0))]
    {
      net.SlotsKnown(this);
      RepairedFrom(finger.entries[..], self, ping, 0);
      RepairSuccessor(ping);
      net.tables := net.tables[self.id := Table()];
      net.TableMoved(this);
    }

    /** Adopting what the successor reported as its predecessor, if that node lies between. */
    method JudgeIn(net: Network, x: Node?)
      requires net.Valid() && net.Has(this) && net.Known(x)
      requires self.id in net.tables && |net.tables[self.id]| == M
      modifies net`tables, finger.entries
      ensures net.Valid()
      ensures net.tables == old(net.tables)[self.id := Adopted(old(net.tables)[self.id], self.id, IdOfNode(x))]
    {
      net.MemberFacts(self.id);
      net.SlotsKnown(this);
      var s := GetSuccessor();
      if x != null && InInterval(x.id, self.id, s.id) {
        SetSuccessor(x);
      }
      net.tables := net.tables[self.id := Table()];
      net.TableMoved(this);
    }

    /** Judging a reply, and reading the successor that is then to be notified. */
    method JudgeAndRead(net: Network, x: Node?) returns (s: Node)
      requires net.Valid() && net.Has(this) && net.Known(x) && finger.Valid()
      requires self.id in net.tables && |net.tables[self.id]| == M
      modifies net`tables, finger.entries
      ensures net.Valid() && WellFormed(net.tables) && self.id in net.tables && s.id == SuccOf(net.tables, self.id)
      ensures s.id in net.nodes
      ensures net.tables == old(net.tables)[self.id := Adopted(old(net.tables)[self.id], self.id, IdOfNode(x))]
    {
      JudgeIn(net, x);
      s := ReadSuccessor(net);
    }

    /** Asking the successor for its predecessor. */
    method AskSuccessor(net: Network) returns (x: Node?)
      requires net.Valid() && net.Has(this) && finger.Valid()
      modifies finger.entries
      ensures net.Valid() && WellFormed(net.tables) && net.Known(x)
      ensures SuccOf(net.tables, self.id) in net.preds
      ensures IdOfNode(x) == net.preds[SuccOf(net.tables, self.id)]
    {
      var s := ReadSuccessor(net);
      x := net.CallGetPredecessor(s);
    }

    /** Asking the successor for its predecessor, judging the reply, and notifying the successor:
        on the pointers of the whole ring, the protocol's three steps in a row. */
    method AskAndNotify(net: Network)
      requires net.Valid() && net.Has(this) && finger.Valid()
      modifies net`tables, net`preds, net.Arrays(), net.Locals()`predecessor
      ensures net.Valid()
      ensures StabilizedTables(old(net.tables), old(net.preds), self.id, net.tables, net.preds)
    {
      net.MemberFacts(self.id);
      ghost var T, P := net.tables, net.preds;
      var x := AskSuccessor(net);
      JudgeIn(net, x);
      net.TablesWellFormed();
      var s := ReadSuccessor(net);
      net.CallNotify(s, self);
      StepsOnPeers(T, P, self.id, SuccOf(T, self.id), net.tables, s.id, net.preds);
    }

    /** One stabilization: drop dead successors, then ask, judge and notify. If the first ping is
        answered nothing is dropped. */
    method Stabilize(net: Network, ping: nat -> bool)
      requires net.Valid() && net.Has(this) && finger.Valid()
      modifies net`tables, net`preds, net.Arrays(), net.Locals()`predecessor
      ensures net.Valid()
      ensures var T := old(net.tables)[self.id := IdsOf(Repaired(old(finger.entries[..]), self, ping, 0))];
        StabilizedTables(T, old(net.preds), self.id, net.tables, net.preds)
      ensures ping(0) ==> StabilizedTables(old(net.tables), old(net.preds), self.id, net.tables, net.preds)
    {
      net.MemberFacts(self.id);
      ghost var e, T := finger.entries[..], net.tables;
      RepairIn(net, ping);
      if ping(0) {
        AnsweredAtOnce(e, self, ping);
        assert net.tables == T;
      }
      AskAndNotify(net);
    }

    /** Refreshes one finger slot, chosen by a random number among slots 1 to 158. */
    method FixFingers(net: Network, rand: nat)
      requires net.Valid() && net.Has(this) && finger.Valid()
      modifies net`tables, net.Arrays()
      ensures net.Valid() && WellFormed(old(net.tables))
      ensures self.id in old(net.tables) &&
              net.tables == Refreshed(old(net.tables), self.id, FingerIndex(rand))
    {
      net.MemberFacts(self.id);
      var i := FingerIndex(rand);
      ghost var e := finger.entries[..];
      var n := FindStart(net, i);
      SetFinger(net, i, n, e);
    }

    /** The lookup of the position that belongs to a slot. */
    method FindStart(net: Network, i: nat) returns (n: Node)
      requires net.Valid() && net.Has(this) && finger.Valid() && i < M
      modifies net.Arrays()
      ensures net.Valid() && WellFormed(net.tables) && self.id in net.tables && net.Known(n)
      ensures n.id == Lookup(net.tables, self.id, StartOf(self.id, i))
      ensures finger.entries[..] == Filled(old(finger.entries[..]), self)
    {
      net.MemberFacts(self.id);
      var id := StartId(i);
      net.NearAreArrays(self.id, id);
      n := FindSuccessor(net, id);
    }

    /** The position that belongs to a slot; it is never the node's own. */
    method StartId(i: nat) returns (id: Id)
      requires Valid() && i < M
      ensures id == StartOf(self.id, i) && id != self.id
    {
      var start := finger.Start(i);
      id := IdOf(start.value.bytes[..]);
      StartIsElsewhere(self.id, i);
    }

    /** Stores a looked-up node in a slot beyond the first of a table that has been read. */
    method SetFinger(net: Network, i: nat, n: Node, ghost e: seq<Node?>)
      requires net.Valid() && net.Has(this) && finger.Valid() && net.Known(n)
      requires 0 < i < M - 1 && |e| == M && finger.entries[..] == Filled(e, self)
      requires self.id in net.tables && |net.tables[self.id]| == M
      modifies net`tables, finger.entries
      ensures net.Valid()
      ensures net.tables == old(net.tables)[self.id := old(net.tables)[self.id][i := Some(n.id)]]
    {
      net.MemberFacts(self.id);
      net.SlotsKnown(this);
      FilledTwice(e, self);
      var _ := finger.SetNode(i, Own(n));
      SlotSet(e, self, i, Own(n));
      net.tables := net.tables[self.id := Table()];
      net.TableMoved(this);
    }

    /** A node that is not a member yet learns its successor through a member. */
    method Join(net: Network, n: Node)
      requires net.Valid() && n.id in net.nodes && Valid()
      requires self.id !in net.nodes && this !in net.Locals() && finger.entries !in net.Arrays()
      modifies this`predecessor, finger.entries, net.Arrays()
      ensures net.Valid() && Valid() && predecessor == null
      ensures WellFormed(net.tables) && SuccId() == Lookup(net.tables, n.id, self.id)
      ensures finger.entries[0] != null && finger.entries[0].id in net.nodes
      ensures finger.entries[..] == old(finger.entries[..])[0 := finger.entries[0]]
    {
      SetPredecessor(null);
      var s := net.FindFrom(n, self.id);
      TakeSuccessor(net, s);
    }

    /** Joining as the other nodes see it: with the node as a new member there is a new network,
        whose pointers are the old ones and those the protocol gives a node that joins. Apart
        from members the joining node's slots may hold itself. */
    method JoinRing(net: Network, n: Node) returns (joined: Network)
      requires net.Valid() && n.id in net.nodes && Valid()
      requires self.id !in net.nodes && this !in net.Locals() && finger.entries !in net.Arrays()
      requires forall m :: m in finger.entries[..] ==> net.Known(m) || m == self
      modifies this`predecessor, finger.entries, net.Arrays()
      ensures net.Valid() && WellFormed(net.tables)
      ensures joined.Valid() && joined.nodes == net.nodes[self.id := this]
      ensures PeersOf(joined.tables, joined.preds) ==
              PeersOf(net.tables, net.preds)[self.id := Peer(Lookup(net.tables, n.id, self.id), None, None)]
    {
      ghost var e := finger.entries[..];
      Join(net, n);
      SlotsStayKnown(net, e, finger.entries[0]);
      joined := net.Admit(this);
      JoinedPeers(net.tables, net.preds, self.id, Table());
    }

    /** Taking a successor found earlier, and a place among the members. */
    method Enter(net: Network, s: Node) returns (joined: Network)
      requires net.Valid() && net.Known(s) && Valid()
      requires self.id !in net.nodes && this !in net.Locals() && finger.entries !in net.Arrays()
      requires forall m :: m in finger.entries[..] ==> net.Known(m) || m == self
      modifies this`predecessor, finger.entries
      ensures net.Valid() && finger.Valid() && SuccId() == s.id
      ensures joined.Valid() && joined.nodes == net.nodes[self.id := this]
      ensures joined.tables == net.tables[self.id := Table()] && joined.preds == net.preds[self.id := None]
    {
      ghost var e := finger.entries[..];
      SetPredecessor(null);
      TakeSuccessor(net, s);
      SlotsStayKnown(net, e, finger.entries[0]);
      joined := net.Admit(this);
    }

    lemma SlotsStayKnown(net: Network, e: seq<Node?>, x: Node?)
      requires |e| == M && net.Known(x) && forall m :: m in e ==> net.Known(m) || m == self
      ensures forall m :: m in e[0 := x] ==> net.Known(m) || m == self
    {
    }

    /** Setting the successor of a node that is not a member touches no member. */
    method TakeSuccessor(net: Network, s: Node)
      requires net.Valid() && Valid() && finger.entries !in net.Arrays()
      modifies finger.entries
      ensures net.Valid() && Valid() && SuccId() == s.id
      ensures finger.entries[0] != null && finger.entries[0].id == s.id
      ensures finger.entries[..] == old(finger.entries[..])[0 := finger.entries[0]]
    {
      SetSuccessor(s);
    }

    /** Hands a message to the receive function. */
    method Receive(message: seq<Byte>)
      modifies this`inbox
      ensures inbox == old(inbox) + [message]
    {
      inbox := inbox + [message];
    }
  }

  /** Node i is valid, goes by that identifier, and knows only nodes among these. */
  ghost predicate Fits(nodes: map<Id, LocalNode>, i: Id)
    reads if i in nodes then {nodes[i], nodes[i].finger.entries} else {}
  {
    && i in nodes && nodes[i].Valid() && nodes[i].self.id == i
    && (nodes[i].predecessor != null ==> nodes[i].predecessor.id in nodes)
    && (forall k :: 0 <= k < M && nodes[i].finger.entries[k] != null ==> nodes[i].finger.entries[k].id in nodes)
  }

  ghost predicate Separate(nodes: map<Id, LocalNode>, i: Id, j: Id) {
    i in nodes && j in nodes && i != j ==> nodes[i].finger.entries != nodes[j].finger.entries
  }

  /** T and P say what node i's slots and predecessor are. */
  ghost predicate Described(nodes: map<Id, LocalNode>, T: Tables, P: Preds, i: Id)
    reads if i in nodes then {nodes[i], nodes[i].finger.entries} else {}
  {
    Fits(nodes, i) && i in T && T[i] == nodes[i].Table() && i in P && P[i] == nodes[i].PredId()
  }

  lemma Describe(nodes: map<Id, LocalNode>) returns (T: Tables, P: Preds)
    requires forall i {:trigger Fits(nodes, i)} :: i in nodes ==> Fits(nodes, i)
    ensures T.Keys == nodes.Keys && P.Keys == nodes.Keys
    ensures forall i {:trigger Described(nodes, T, P, i)} :: i in nodes ==> Described(nodes, T, P, i)
  {
    T := map i | i in nodes :: (assert Fits(nodes, i); nodes[i].Table());
    P := map i | i in nodes :: (assert Fits(nodes, i); nodes[i].PredId());
  }

  /** The members of a ring that can reach one another, by identifier. The ghost fields give
      the finger tables as lookups see them and the predecessors. */
  class Network {
    const nodes: map<Id, LocalNode>
    ghost var tables: Tables
    ghost var preds: Preds

    /** Any valid nodes that know one another make a network, if no two share their slots. */
    constructor (nodes: map<Id, LocalNode>)
      requires forall i {:trigger Fits(nodes, i)} :: i in nodes ==> Fits(nodes, i)
      requires forall i, j {:trigger Separate(nodes, i, j)} :: Separate(nodes, i, j)
      ensures Valid() && this.nodes == nodes
    {
      ghost var T, P := Describe(nodes);
      this.nodes := nodes;
      tables, preds := T, P;
      new;
      forall i | i in nodes ensures Described(nodes, T, P, i) {
        assert old(Described(nodes, T, P, i));
      }
      AllDescribed();
    }

    lemma AllDescribed()
      requires tables.Keys == nodes.Keys && preds.Keys == nodes.Keys
      requires forall i {:trigger Described(nodes, tables, preds, i)} :: i in nodes ==> Described(nodes, tables, preds, i)
      requires forall i, j {:trigger Separate(nodes, i, j)} :: Separate(nodes, i, j)
      ensures Valid()
    {
      forall i | i in nodes ensures NodeOk(i) {
        assert Described(nodes, tables, preds, i);
        DescribedIsOk(i);
      }
      forall i, j ensures Apart(i, j) {
        assert Separate(nodes, i, j);
      }
    }

    lemma DescribedIsOk(i: Id)
      requires Described(nodes, tables, preds, i)
      ensures NodeOk(i)
    {
    }

    lemma OkFits(all: map<Id, LocalNode>, i: Id)
      requires NodeOk(i) && i in all && all[i] == nodes[i]
      requires forall j {:trigger j in all} :: j in nodes ==> j in all
      ensures Fits(all, i)
    {
    }

    /** A node alone: the protocol's start. */
    static method Found(key: seq<Byte>) returns (net: Network, node: LocalNode)
      requires |key| == ID_LEN
      ensures fresh(net) && fresh(node) && net.Valid() && net.Has(node) && node.self.id == IdOf(key)
      ensures PeersOf(net.tables, net.preds) == Start(IdOf(key)).peers
    {
      node := new LocalNode(key);
      var nodes := map[node.self.id := node];
      assert Fits(nodes, node.self.id);
      net := new Network(nodes);
      net.Alone(node);
    }

    lemma Alone(node: LocalNode)
      requires Valid() && nodes == map[node.self.id := node] && node.finger.Valid()
      requires node.SuccId() == node.self.id && node.PredId() == None
      ensures PeersOf(tables, preds) == Start(node.self.id).peers
    {
      MemberFacts(node.self.id);
    }

    /** The network with one more member. */
    method Admit(n: LocalNode) returns (joined: Network)
      requires Valid() && n.Valid() && n.self.id !in nodes
      requires n.finger.entries !in Arrays()
      requires n.predecessor == null && forall m :: m in n.finger.entries[..] ==> Known(m) || m == n.self
      ensures Valid() && joined.Valid() && joined.nodes == nodes[n.self.id := n]
      ensures joined.tables == tables[n.self.id := n.Table()] && joined.preds == preds[n.self.id := None]
    {
      var all := nodes[n.self.id := n];
      forall i | i in all ensures Fits(all, i) {
        if i in nodes {
          assert NodeOk(i);
          OkFits(all, i);
        } else {
          NewcomerFits(all, n);
        }
      }
      forall i, j ensures Separate(all, i, j) {
        assert Apart(i, j);
      }
      joined := new Network(all);
      AdmittedFacts(joined, n);
    }

    lemma AdmittedFacts(joined: Network, n: LocalNode)
      requires Valid() && joined.Valid() && n.Valid() && n.predecessor == null
      requires n.self.id !in nodes && joined.nodes == nodes[n.self.id := n]
      ensures joined.tables == tables[n.self.id := n.Table()] && joined.preds == preds[n.self.id := None]
    {
      forall i | i in joined.nodes
        ensures joined.tables[i] == tables[n.self.id := n.Table()][i] && joined.preds[i] == preds[n.self.id := None][i]
      {
        joined.MemberFacts(i);
        if i in nodes { MemberFacts(i); }
      }
    }

    lemma NewcomerFits(all: map<Id, LocalNode>, n: LocalNode)
      requires n.Valid() && n.predecessor == null && all == nodes[n.self.id := n]
      requires forall m :: m in n.finger.entries[..] ==> Known(m) || m == n.self
      ensures Fits(all, n.self.id)
    {
      forall k | 0 <= k < M && n.finger.entries[k] != null ensures n.finger.entries[k].id in all {
        assert n.finger.entries[k] in n.finger.entries[..];
      }
    }

    ghost function Arrays(): set<array<Node?>> {
      set i | i in nodes :: nodes[i].finger.entries
    }

    ghost function Locals(): set<LocalNode> {
      set i | i in nodes :: nodes[i]
    }

    ghost function At(i: Id): LocalNode
      requires i in nodes
    {
      nodes[i]
    }

    ghost predicate Known(n: Node?) {
      n != null ==> n.id in nodes
    }

    ghost predicate NodeOk(i: Id)
      reads this, Locals(), Arrays()
    {
      && i in nodes && nodes[i] in Locals() && nodes[i].finger.entries in Arrays()
      && nodes[i].Valid() && nodes[i].self.id == i
      && Known(nodes[i].predecessor)
      && (forall k :: 0 <= k < M ==> Known(nodes[i].finger.entries[k]))
      && i in tables && tables[i] == nodes[i].Table()
      && i in preds && preds[i] == nodes[i].PredId()
    }

    ghost predicate Apart(i: Id, j: Id) {
      i in nodes && j in nodes && i != j ==> nodes[i].finger.entries != nodes[j].finger.entries
    }

    ghost predicate Valid()
      reads this, Locals(), Arrays()
    {
      && tables.Keys == nodes.Keys && preds.Keys == nodes.Keys
      && (forall i {:trigger NodeOk(i)} :: i in nodes ==> NodeOk(i))
      && (forall i, j {:trigger Apart(i, j)} :: Apart(i, j))
    }

    ghost predicate Has(n: LocalNode) {
      n.self.id in nodes && nodes[n.self.id] == n
    }

    lemma TablesWellFormed()
      requires Valid()
      ensures WellFormed(tables)
    {
      forall n | n in tables ensures MemberTable(tables, n) {
        assert NodeOk(n);
      }
    }

    /** A member's own view agrees with the tables. */
    lemma MemberFacts(i: Id)
      requires Valid() && i in nodes
      ensures var n := nodes[i];
        && n.Valid() && n.self.id == i && n.finger.entries in Arrays() && n in Locals()
        && WellFormed(tables) && i in tables && i in preds
        && tables[i] == n.Table() && preds[i] == n.PredId()
        && SuccOf(tables, i) == n.SuccId()
    {
      TablesWellFormed();
      assert NodeOk(i);
    }

    /** Asks the node behind a handle; the reply is a new handle. */
    method CallFindSuccessor(n: Node, id: Id) returns (r: Node)
      requires Valid() && n.id in nodes
      modifies NearArrays(n.id, id)
      ensures Valid() && WellFormed(tables)
      ensures r.id == Lookup(tables, n.id, id)
      decreases Dist(n.id, id), 1
    {
      MemberFacts(n.id);
      var reply := nodes[n.id].FindSuccessor(this, id);
      r := new Node(reply.id);
    }

    /** The same, where it does not matter which members' slots are filled in. */
    method FindFrom(n: Node, id: Id) returns (r: Node)
      requires Valid() && n.id in nodes
      modifies Arrays()
      ensures Valid() && WellFormed(tables) && r.id == Lookup(tables, n.id, id) && Known(r)
    {
      NearAreArrays(n.id, id);
      r := CallFindSuccessor(n, id);
    }

    /** Asks the node behind a handle for its predecessor; an empty reply means there is none. */
    method CallGetPredecessor(n: Node) returns (x: Node?)
      requires Valid() && n.id in nodes
      ensures Valid() && Known(x) && n.id in preds && IdOfNode(x) == preds[n.id]
    {
      MemberFacts(n.id);
      assert NodeOk(n.id);
      var p := nodes[n.id].GetPredecessor();
      if p == null {
        return null;
      }
      x := new Node(p.id);
    }

    /** Notifies the node behind a handle; it builds its own handle for the claiming node. */
    method CallNotify(n: Node, claim: Node)
      requires Valid() && n.id in nodes && Known(claim) && n.id in preds
      modifies this`preds, At(n.id)`predecessor
      ensures Valid()
      ensures preds == old(preds)[n.id := NextPred(n.id, old(preds)[n.id], claim.id)]
    {
      MemberFacts(n.id);
      assert NodeOk(n.id);
      var c := new Node(claim.id);
      nodes[n.id].Notify(c);
      preds := preds[n.id := nodes[n.id].PredId()];
      PredMoved(nodes[n.id]);
    }

    /** Delivers a notification by identifiers. */
    method DeliverNotice(n: Id, s: Id)
      requires Valid() && n in nodes && s in nodes
      modifies this`preds, Locals()`predecessor
      ensures Valid() && WellFormed(tables) && s in tables && s in old(preds)
      ensures preds == old(preds)[s := NextPred(s, old(preds)[s], n)]
    {
      MemberFacts(s);
      var to := new Node(s);
      var claim := new Node(n);
      CallNotify(to, claim);
    }

    /** The slots of n and of the members nearer to id. */
    ghost function NearArrays(n: Id, id: Id): set<array<Node?>> {
      set i | i in nodes && (i == n || Dist(i, id) < Dist(n, id)) :: nodes[i].finger.entries
    }

    lemma NearAreArrays(n: Id, id: Id)
      ensures NearArrays(n, id) <= Arrays()
    {
    }

    lemma NearShrinks(n: Id, f: Id, id: Id)
      requires Valid() && n in nodes && f in nodes && Dist(f, id) < Dist(n, id)
      ensures NearArrays(f, id) <= NearArrays(n, id) <= Arrays()
      ensures nodes[n].finger.entries in NearArrays(n, id) && nodes[n].finger.entries !in NearArrays(f, id)
    {
      forall i | i in nodes && i != n ensures nodes[i].finger.entries != nodes[n].finger.entries {
        assert Apart(i, n);
      }
    }

    lemma SlotsKnown(n: LocalNode)
      requires Valid() && Has(n)
      ensures n.Valid() && (forall m :: m in n.finger.entries[..] ==> Known(m))
    {
      assert NodeOk(n.self.id);
    }

    twostate lemma NodeStays(i: Id)
      requires old(NodeOk(i)) && nodes[i].predecessor == old(nodes[i].predecessor) && unchanged(nodes[i].finger.entries)
      requires i in tables && tables[i] == old(tables)[i] && i in preds && preds[i] == old(preds)[i]
      ensures NodeOk(i)
    {
    }

    lemma NodeMoved(i: Id)
      requires i in nodes && nodes[i] in Locals() && nodes[i].finger.entries in Arrays()
      requires nodes[i].Valid() && nodes[i].self.id == i && Known(nodes[i].predecessor)
      requires forall m :: m in nodes[i].finger.entries[..] ==> Known(m)
      requires i in tables && tables[i] == nodes[i].Table() && i in preds && preds[i] == nodes[i].PredId()
      ensures NodeOk(i)
    {
      forall k | 0 <= k < M ensures Known(nodes[i].finger.entries[k]) {
        assert nodes[i].finger.entries[k] in nodes[i].finger.entries[..];
      }
    }

    /** Only the slots of n have changed, and the ghost tables have followed. */
    twostate lemma TableMoved(n: LocalNode)
      requires old(Valid()) && Has(n) && n.Valid()
      requires forall l: LocalNode {:trigger l in Locals()} :: l in Locals() ==> unchanged(l`predecessor)
      requires forall a: array<Node?> {:trigger a in Arrays()} ::
        a in Arrays() && a != n.finger.entries ==> unchanged(a)
      requires forall m :: m in n.finger.entries[..] ==> Known(m)
      requires tables == old(tables)[n.self.id := n.Table()] && preds == old(preds)
      ensures Valid()
    {
      assert old(NodeOk(n.self.id));
      NodeMoved(n.self.id);
      OthersStay(n);
    }

    twostate lemma NodeRepred(i: Id)
      requires old(NodeOk(i)) && nodes[i].Valid() && Known(nodes[i].predecessor)
      requires unchanged(nodes[i].finger.entries)
      requires i in tables && tables[i] == old(tables)[i] && i in preds && preds[i] == nodes[i].PredId()
      ensures NodeOk(i)
    {
    }

    /** Only the predecessor of n has changed, and the ghost map has followed. */
    twostate lemma PredMoved(n: LocalNode)
      requires old(Valid()) && Has(n) && n.Valid() && Known(n.predecessor)
      requires forall l: LocalNode {:trigger l in Locals()} :: l in Locals() && l != n ==> unchanged(l`predecessor)
      requires forall a: array<Node?> {:trigger a in Arrays()} :: a in Arrays() ==> unchanged(a)
      requires tables == old(tables) && preds == old(preds)[n.self.id := n.PredId()]
      ensures Valid()
    {
      assert old(NodeOk(n.self.id));
      NodeRepred(n.self.id);
      OthersStay(n);
    }

    twostate lemma OthersStay(n: LocalNode)
      requires old(Valid()) && Has(n)
      requires forall l: LocalNode {:trigger l in Locals()} :: l in Locals() && l != n ==> unchanged(l`predecessor)
      requires forall a: array<Node?> {:trigger a in Arrays()} ::
        a in Arrays() && a != n.finger.entries ==> unchanged(a)
      requires n.self.id in tables && tables == old(tables)[n.self.id := tables[n.self.id]]
      requires n.self.id in preds && preds == old(preds)[n.self.id := preds[n.self.id]]
      ensures forall i {:trigger NodeOk(i)} :: i in nodes && i != n.self.id ==> NodeOk(i)
    {
      forall i | i in nodes && i != n.self.id ensures NodeOk(i) {
        assert old(NodeOk(i)) && Apart(i, n.self.id);
        NodeStays(i);
      }
    }
  }
}
