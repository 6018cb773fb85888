/** A ring of nodes with messages in flight. Every event of the protocol is a method that calls the
    nodes' own methods, and what it does is what the protocol says; so the theorems about runs are
    theorems about these methods called in any order. */
module RingRun {
  import opened Wrappers
  import opened Ring
  import opened Routing
  import opened FingerTables
  import opened Walk
  import opened Protocol
  import opened Runs
  import opened Maintenance
  import opened Nodes

  /** The states a schedule leads through, if every event is enabled in its turn. */
  ghost predicate AllEnabled(st: State, schedule: seq<Event>)
    decreases |schedule|
  {
    schedule == [] || (Enabled(st, schedule[0]) && AllEnabled(Apply(st, schedule[0]), schedule[1..]))
  }

  ghost function RunTo(st: State, schedule: seq<Event>): State
    requires AllEnabled(st, schedule)
    decreases |schedule|
  {
    if schedule == [] then st else RunTo(Apply(st, schedule[0]), schedule[1..])
  }

  lemma {:induction false} ScheduleIsRun(st: State, schedule: seq<Event>) returns (sts: seq<State>)
    requires AllEnabled(st, schedule)
    ensures IsRun(sts, schedule) && sts[0] == st && sts[|schedule|] == RunTo(st, schedule)
    decreases |schedule|
  {
    if schedule == [] {
      sts := [st];
    } else {
      var rest := ScheduleIsRun(Apply(st, schedule[0]), schedule[1..]);
      sts := [st] + rest;
      forall i | 0 <= i < |schedule| ensures StepAt(sts, schedule, i) {
        if i > 0 {
          assert StepAt(rest, schedule[1..], i - 1);
        }
      }
    }
  }

  /** So whatever holds of runs holds of schedules. */
  lemma ScheduleKeepsInv(st: State, schedule: seq<Event>)
    requires AllEnabled(st, schedule) && Inv(st)
    ensures Inv(RunTo(st, schedule))
  {
    var sts := ScheduleIsRun(st, schedule);
    RunKeepsInv(sts, schedule, |schedule|);
  }

  predicate InRing(ev: Event) {
    ev.Ask? || ev.Judge? || ev.Deliver?
  }

  ghost function Ids(replies: map<Id, Node?>): Preds {
    map i | i in replies :: IdOfNode(replies[i])
  }

  ghost function AnswerIds(answers: map<Id, Node>): map<Id, Id> {
    map i | i in answers :: answers[i].id
  }

  lemma ReplyKept(replies: map<Id, Node?>, n: Id, x: Node?)
    ensures Ids(replies[n := x]) == Ids(replies)[n := IdOfNode(x)]
  {
  }

  lemma ReplyDropped(replies: map<Id, Node?>, n: Id)
    ensures Ids(replies - {n}) == Ids(replies) - {n}
  {
  }

  lemma AnswerKept(answers: map<Id, Node>, n: Id, s: Node)
    ensures AnswerIds(answers[n := s]) == AnswerIds(answers)[n := s.id]
  {
  }

  ghost predicate ReplyKnown(net: Network, replies: map<Id, Node?>, i: Id) {
    i in replies ==> i in net.nodes && net.Known(replies[i])
  }

  ghost predicate RepliesKnown(net: Network, replies: map<Id, Node?>) {
    forall i {:trigger ReplyKnown(net, replies, i)} :: ReplyKnown(net, replies, i)
  }

  ghost predicate NoticesKnown(net: Network, notices: set<(Id, Id)>) {
    forall m {:trigger m in notices} :: m in notices ==> m.0 in net.nodes && m.1 in net.nodes
  }

  ghost predicate AnswerKnown(net: Network, answers: map<Id, Node>, i: Id) {
    i in answers ==> net.Known(answers[i])
  }

  ghost predicate AnswersKnown(net: Network, answers: map<Id, Node>) {
    forall i {:trigger AnswerKnown(net, answers, i)} :: AnswerKnown(net, answers, i)
  }

  lemma OneMoreReply(net: Network, replies: map<Id, Node?>, n: Id, x: Node?)
    requires RepliesKnown(net, replies) && n in net.nodes && net.Known(x)
    ensures RepliesKnown(net, replies[n := x])
  {
    var replies' := replies[n := x];
    forall i ensures ReplyKnown(net, replies', i) {
      assert ReplyKnown(net, replies, i);
    }
  }

  lemma OneReplyLess(net: Network, replies: map<Id, Node?>, n: Id)
    requires RepliesKnown(net, replies)
    ensures RepliesKnown(net, replies - {n})
  {
    var replies' := replies - {n};
    forall i ensures ReplyKnown(net, replies', i) {
      assert ReplyKnown(net, replies, i);
    }
  }

  lemma OneMoreNotice(net: Network, notices: set<(Id, Id)>, n: Id, s: Id)
    requires NoticesKnown(net, notices) && n in net.nodes && s in net.nodes
    ensures NoticesKnown(net, notices + {(n, s)})
  {
  }

  lemma OneMoreAnswer(net: Network, answers: map<Id, Node>, n: Id, s: Node)
    requires AnswersKnown(net, answers) && net.Known(s)
    ensures AnswersKnown(net, answers[n := s])
  {
    var answers' := answers[n := s];
    forall i ensures AnswerKnown(net, answers', i) {
      assert AnswerKnown(net, answers, i);
    }
  }

  /** What is known in a network is known in a larger one. */
  lemma KnownInLarger(net: Network, larger: Network, replies: map<Id, Node?>, notices: set<(Id, Id)>, answers: map<Id, Node>)
    requires RepliesKnown(net, replies) && NoticesKnown(net, notices) && AnswersKnown(net, answers)
    requires forall i {:trigger i in larger.nodes} :: i in net.nodes ==> i in larger.nodes
    ensures RepliesKnown(larger, replies) && NoticesKnown(larger, notices) && AnswersKnown(larger, answers)
  {
    forall i ensures ReplyKnown(larger, replies, i) && AnswerKnown(larger, answers, i) {
      assert ReplyKnown(net, replies, i) && AnswerKnown(net, answers, i);
    }
  }

  lemma AskedState(st: State, T: Tables, P: Preds, R: Preds, n: Id, st': State)
    requires WellFormed(T) && P.Keys == T.Keys && n in T && st.peers == PeersWith(T, P, R)
    requires SuccOf(T, n) in P && st' == st.(peers := PeersWith(T, P, R[n := P[SuccOf(T, n)]]))
    ensures Enabled(st, Event.Ask(n)) && st' == Apply(st, Event.Ask(n))
  {
    AskOnPeers(T, P, R, n);
  }

  lemma JudgedState(st: State, T: Tables, P: Preds, R: Preds, n: Id, T': Tables, st': State)
    requires P.Keys == T.Keys && n in T && n in R && |T[n]| == M && WellFormed(T') && st.peers == PeersWith(T, P, R)
    requires T' == T[n := Adopted(T[n], n, R[n])]
    requires st' == st.(peers := PeersWith(T', P, R - {n}), notices := st.notices + {(n, SuccOf(T', n))})
    ensures Enabled(st, Event.Judge(n)) && st' == Apply(st, Event.Judge(n))
  {
    JudgeOnPeers(T, P, R, n);
    PeersWithClosed(T', P, R - {n});
    assert Next(PeersWith(T', P, R - {n}), n) == SuccOf(T', n);
  }

  lemma DeliveredState(st: State, T: Tables, P: Preds, R: Preds, n: Id, s: Id, st': State)
    requires s in T && s in P && st.peers == PeersWith(T, P, R) && (n, s) in st.notices
    requires st' == st.(peers := PeersWith(T, P[s := NextPred(s, P[s], n)], R))
    ensures Enabled(st, Event.Deliver(n, s)) && st' == Apply(st, Event.Deliver(n, s))
  {
    DeliverOnPeers(T, P, R, n, s);
  }

  /** What is on its way between the nodes: replies received and not judged yet, notifications sent
      (claiming node, node notified), and lookup answers for nodes that have not joined. */
  datatype InFlight = InFlight(
    replies: map<Id, Node?>,
    notices: set<(Id, Id)>,
    answers: map<Id, Node>)

  ghost predicate FlightKnown(net: Network, flight: InFlight) {
    RepliesKnown(net, flight.replies) && NoticesKnown(net, flight.notices) && AnswersKnown(net, flight.answers)
  }

  /** The state of the protocol. */
  ghost function View(net: Network, seed: Id, flight: InFlight): State
    reads net
  {
    State(seed, PeersWith(net.tables, net.preds, Ids(flight.replies)), AnswerIds(flight.answers), flight.notices)
  }

  /** With nothing in flight the state is that of the pointers; a network of one node is the start. */
  lemma AtRest(net: Network, seed: Id)
    ensures FlightKnown(net, InFlight(map[], {}, map[]))
    ensures View(net, seed, InFlight(map[], {}, map[])) == State(seed, PeersOf(net.tables, net.preds), map[], {})
    ensures PeersOf(net.tables, net.preds) == Start(seed).peers ==>
      View(net, seed, InFlight(map[], {}, map[])) == Start(seed)
  {
    assert PeersWith(net.tables, net.preds, map[]) == PeersOf(net.tables, net.preds);
  }

  function AskedFlight(flight: InFlight, n: Id, x: Node?): InFlight {
    flight.(replies := flight.replies[n := x])
  }

  lemma AskedFlightKnown(net: Network, flight: InFlight, n: Id, x: Node?)
    requires FlightKnown(net, flight) && n in net.nodes && net.Known(x)
    ensures var f := AskedFlight(flight, n, x);
      && FlightKnown(net, f) && Ids(f.replies) == Ids(flight.replies)[n := IdOfNode(x)]
      && f.notices == flight.notices && f.answers == flight.answers
  {
    ReplyKept(flight.replies, n, x);
    OneMoreReply(net, flight.replies, n, x);
  }

  function JudgedFlight(flight: InFlight, n: Id, s: Id): InFlight {
    flight.(replies := flight.replies - {n}, notices := flight.notices + {(n, s)})
  }

  lemma JudgedFlightKnown(net: Network, flight: InFlight, n: Id, s: Id)
    requires FlightKnown(net, flight) && n in net.nodes && s in net.nodes
    ensures var f := JudgedFlight(flight, n, s);
      && FlightKnown(net, f) && Ids(f.replies) == Ids(flight.replies) - {n}
      && f.notices == flight.notices + {(n, s)} && f.answers == flight.answers
  {
    ReplyDropped(flight.replies, n);
    OneReplyLess(net, flight.replies, n);
    OneMoreNotice(net, flight.notices, n, s);
  }

  lemma ReplyFacts(net: Network, flight: InFlight, n: Id)
    requires FlightKnown(net, flight) && n in flight.replies
    ensures n in net.nodes && net.Known(flight.replies[n])
    ensures n in Ids(flight.replies) && Ids(flight.replies)[n] == IdOfNode(flight.replies[n])
  {
    assert ReplyKnown(net, flight.replies, n);
  }

  lemma NoticeFacts(net: Network, flight: InFlight, n: Id, s: Id)
    requires FlightKnown(net, flight) && (n, s) in flight.notices
    ensures n in net.nodes && s in net.nodes
  {
  }

  /** Node n asks its successor for its predecessor; the reply is kept. */
  method AskStep(net: Network, ghost seed: Id, flight: InFlight, n: Id) returns (f: InFlight)
    requires net.Valid() && FlightKnown(net, flight) && n in net.nodes
    modifies net.Arrays()
    ensures net.Valid() && FlightKnown(net, f) && Enabled(old(View(net, seed, flight)), Ask(n))
    ensures View(net, seed, f) == Apply(old(View(net, seed, flight)), Ask(n))
  {
    net.MemberFacts(n);
    var x := net.nodes[n].AskSuccessor(net);
    f := AskedFlight(flight, n, x);
    AskedFlightKnown(net, flight, n, x);
    AskedState(old(View(net, seed, flight)), net.tables, net.preds, Ids(flight.replies), n, View(net, seed, f));
  }

  /** Node n judges the reply it has kept and sends its notification. */
  method JudgeStep(net: Network, ghost seed: Id, flight: InFlight, n: Id) returns (f: InFlight)
    requires net.Valid() && FlightKnown(net, flight) && n in flight.replies
    modifies net`tables, net.Arrays()
    ensures net.Valid() && FlightKnown(net, f) && Enabled(old(View(net, seed, flight)), Judge(n))
    ensures View(net, seed, f) == Apply(old(View(net, seed, flight)), Judge(n))
  {
    ghost var T := net.tables;
    ReplyFacts(net, flight, n);
    net.MemberFacts(n);
    var s := net.nodes[n].JudgeAndRead(net, flight.replies[n]);
    f := JudgedFlight(flight, n, s.id);
    JudgedFlightKnown(net, flight, n, s.id);
    JudgedState(old(View(net, seed, flight)), T, net.preds, Ids(flight.replies), n, net.tables, View(net, seed, f));
  }

  /** A notification from n is delivered at s. */
  method DeliverStep(net: Network, ghost seed: Id, flight: InFlight, n: Id, s: Id)
    requires net.Valid() && FlightKnown(net, flight) && (n, s) in flight.notices
    modifies net`preds, net.Locals()`predecessor
    ensures net.Valid() && Enabled(old(View(net, seed, flight)), Deliver(n, s))
    ensures View(net, seed, flight) == Apply(old(View(net, seed, flight)), Deliver(n, s))
  {
    ghost var P := net.preds;
    NoticeFacts(net, flight, n, s);
    net.DeliverNotice(n, s);
    DeliveredState(old(View(net, seed, flight)), net.tables, P, Ids(flight.replies), n, s, View(net, seed, flight));
  }

  /** A node that is not a member looks its successor up, starting from the member `via`. */
  method LocateStep(net: Network, ghost seed: Id, flight: InFlight, id: Id, via: Id) returns (f: InFlight, ghost p: Id)
    requires net.Valid() && FlightKnown(net, flight) && id !in net.nodes && via in net.nodes
    modifies net.Arrays()
    ensures net.Valid() && FlightKnown(net, f) && Enabled(old(View(net, seed, flight)), Locate(id, p))
    ensures View(net, seed, f) == Apply(old(View(net, seed, flight)), Locate(id, p))
    ensures f.replies == flight.replies && id in f.answers
    ensures WellFormed(net.tables) && via in net.tables && f.answers[id].id == Lookup(net.tables, via, id)
  {
    var first := new Node(via);
    var s := net.FindFrom(first, id);
    f := flight.(answers := flight.answers[id := s]);
    AnswerKept(flight.answers, id, s);
    OneMoreAnswer(net, flight.answers, id, s);
    p := LocatedState(old(View(net, seed, flight)), net.tables, net.preds, Ids(flight.replies), id, via, View(net, seed, f));
  }

  lemma LocatedState(st: State, T: Tables, P: Preds, R: Preds, id: Id, via: Id, st': State) returns (p: Id)
    requires WellFormed(T) && P.Keys == T.Keys && via in T && id !in T && st.peers == PeersWith(T, P, R)
    requires st' == st.(joining := st.joining[id := Lookup(T, via, id)])
    ensures Enabled(st, Locate(id, p)) && st' == Apply(st, Locate(id, p))
  {
    LookupIsSuccessorOfPredecessor(T, via, id);
    p := PredLookup(T, via, id);
    PeersWithClosed(T, P, R);
    assert Next(st.peers, p) == SuccOf(T, p);
  }

  /** The node w joins with the answer it has; `leftover` and `echo` are what its own earlier
      stabilization may have left in flight. Apart from members its slots may hold itself. */
  method JoinStep(net: Network, ghost seed: Id, flight: InFlight, w: LocalNode, leftover: Option<Node?>, echo: bool)
    returns (joined: Network, f: InFlight)
    requires net.Valid() && FlightKnown(net, flight) && w.Valid() && w.self.id !in net.nodes
    requires w !in net.Locals() && w.finger.entries !in net.Arrays() && w.self.id in flight.answers
    requires forall m :: m in w.finger.entries[..] ==> net.Known(m) || m == w.self
    requires leftover.Some? ==> leftover.value == null || leftover.value.id == w.self.id
    modifies w`predecessor, w.finger.entries
    ensures joined.Valid() && joined.nodes == net.nodes[w.self.id := w] && FlightKnown(joined, f)
    ensures var ev := Join(w.self.id, LeftoverId(leftover), echo);
      Enabled(old(View(net, seed, flight)), ev) && View(joined, seed, f) == Apply(old(View(net, seed, flight)), ev)
  {
    var s := flight.answers[w.self.id];
    AnswerFacts(net, flight, w.self.id);
    joined := w.Enter(net, s);
    f := JoinedFlight(flight, w.self.id, leftover, echo);
    JoinedFlightKnown(net, joined, flight, w, leftover, echo);
    JoinedState(old(View(net, seed, flight)), net.tables, net.preds, Ids(flight.replies), w.self.id, w.Table(),
                LeftoverId(leftover), echo, View(joined, seed, f));
  }

  function JoinedFlight(flight: InFlight, n: Id, leftover: Option<Node?>, echo: bool): InFlight {
    flight.(replies := if leftover.Some? then flight.replies[n := leftover.value] else flight.replies,
            notices := if echo then flight.notices + {(n, n)} else flight.notices)
  }

  lemma AnswerFacts(net: Network, flight: InFlight, n: Id)
    requires FlightKnown(net, flight) && n in flight.answers
    ensures net.Known(flight.answers[n]) && AnswerIds(flight.answers)[n] == flight.answers[n].id
  {
    assert AnswerKnown(net, flight.answers, n);
  }

  function LeftoverId(leftover: Option<Node?>): Option<Option<Id>> {
    if leftover.Some? then Some(IdOfNode(leftover.value)) else None
  }

  ghost function WithLeftover(R: Preds, n: Id, leftover: Option<Option<Id>>): Preds {
    if leftover.Some? then R[n := leftover.value] else R
  }

  function WithEcho(notices: set<(Id, Id)>, n: Id, echo: bool): set<(Id, Id)> {
    if echo then notices + {(n, n)} else notices
  }

  lemma JoinedFlightKnown(net: Network, joined: Network, flight: InFlight, w: LocalNode, leftover: Option<Node?>, echo: bool)
    requires FlightKnown(net, flight) && w.self.id !in net.nodes && joined.nodes == net.nodes[w.self.id := w]
    requires leftover.Some? ==> leftover.value == null || leftover.value.id == w.self.id
    ensures var n := w.self.id;
      var f := JoinedFlight(flight, n, leftover, echo);
      && FlightKnown(joined, f) && f.answers == flight.answers && n !in Ids(flight.replies)
      && f.notices == WithEcho(flight.notices, n, echo)
      && Ids(f.replies) == WithLeftover(Ids(flight.replies), n, LeftoverId(leftover))
  {
    var n := w.self.id;
    KnownInLarger(net, joined, flight.replies, flight.notices, flight.answers);
    assert ReplyKnown(net, flight.replies, n);
    if leftover.Some? {
      ReplyKept(flight.replies, n, leftover.value);
      OneMoreReply(joined, flight.replies, n, leftover.value);
    }
    OneMoreNotice(joined, flight.notices, n, n);
  }

  lemma JoinedState(st: State, T: Tables, P: Preds, R: Preds, n: Id, t: Slots, leftover: Option<Option<Id>>, echo: bool, st': State)
    requires P.Keys == T.Keys && n !in T && n !in R && st.peers == PeersWith(T, P, R)
    requires n in st.joining && Succ(t, n) == st.joining[n]
    requires leftover.Some? ==> leftover.value.None? || leftover.value == Some(n)
    requires st' == st.(peers := PeersWith(T[n := t], P[n := None], WithLeftover(R, n, leftover)),
                        notices := WithEcho(st.notices, n, echo))
    ensures Enabled(st, Join(n, leftover, echo)) && st' == Apply(st, Join(n, leftover, echo))
  {
    JoinOnPeers(T, P, R, n, t, leftover);
  }

  /** Any schedule of questions, judgements and deliveries, as long as each is possible in its
      turn, leads where the protocol says. */
  method Execute(net: Network, ghost seed: Id, flight: InFlight, schedule: seq<Event>) returns (f: InFlight)
    requires net.Valid() && FlightKnown(net, flight) && forall ev :: ev in schedule ==> InRing(ev)
    requires AllEnabled(View(net, seed, flight), schedule)
    modifies net`tables, net`preds, net.Arrays(), net.Locals()`predecessor
    ensures net.Valid() && FlightKnown(net, f)
    ensures View(net, seed, f) == RunTo(old(View(net, seed, flight)), schedule)
  {
    f := flight;
    var i := 0;
    while i < |schedule|
      invariant 0 <= i <= |schedule| && net.Valid() && FlightKnown(net, f)
      invariant AllEnabled(View(net, seed, f), schedule[i..])
      invariant RunTo(View(net, seed, f), schedule[i..]) == RunTo(old(View(net, seed, flight)), schedule)
    {
      var ev := schedule[i];
      assert schedule[i..][0] == ev && schedule[i..][1..] == schedule[i + 1..];
      f := OneStep(net, seed, f, ev);
      i := i + 1;
    }
  }

  method OneStep(net: Network, ghost seed: Id, flight: InFlight, ev: Event) returns (f: InFlight)
    requires net.Valid() && FlightKnown(net, flight) && InRing(ev) && Enabled(View(net, seed, flight), ev)
    modifies net`tables, net`preds, net.Arrays(), net.Locals()`predecessor
    ensures net.Valid() && FlightKnown(net, f)
    ensures View(net, seed, f) == Apply(old(View(net, seed, flight)), ev)
  {
    EnabledFacts(net, seed, flight, ev);
    match ev
    case Ask(n) => f := AskStep(net, seed, flight, n);
    case Judge(n) => f := JudgeStep(net, seed, flight, n);
    case Deliver(n, s) => DeliverStep(net, seed, flight, n, s); f := flight;
  }

  lemma EnabledFacts(net: Network, seed: Id, flight: InFlight, ev: Event)
    requires net.Valid() && FlightKnown(net, flight) && InRing(ev) && Enabled(View(net, seed, flight), ev)
    ensures ev.Ask? ==> ev.n in net.nodes
    ensures ev.Judge? ==> ev.n in flight.replies
    ensures ev.Deliver? ==> (ev.n, ev.s) in flight.notices
  {
  }
}
