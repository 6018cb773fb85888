/** The worker on top of the queue: messages accepted before the terminate message reach the
    sinks, whatever the interleaving of the threads that log. */
module LogDelivery {
  import opened Wrappers
  import opened BoundedQueue
  import opened QueueTheorems
  import opened AsyncLog

  /** The messages returned by the worker's dequeue calls, in order. */
  ghost function Values(outs: seq<(nat, Option<Msg>)>): seq<Option<Msg>> {
    seq(|outs|, j requires 0 <= j < |outs| => outs[j].1)
  }

  ghost function Somes(msgs: seq<Msg>): seq<Option<Msg>> {
    seq(|msgs|, j requires 0 <= j < |msgs| => Some(msgs[j]))
  }

  lemma {:induction false} TextsOfPrefix(msgs: seq<Msg>, k: nat)
    requires k <= |msgs|
    ensures Texts(msgs[..k]) <= Texts(msgs)
  {
    TextsConcat(msgs[..k], msgs[k..]);
    assert msgs[..k] + msgs[k..] == msgs;
  }

  lemma {:induction false} PoppedPrefix(polls: seq<Poll>, n: nat)
    requires n <= |polls|
    ensures PoppedBy(polls[..n]) <= PoppedBy(polls)
    decreases n
  {
    if n > 0 {
      assert polls[..n][1..] == polls[1..][..n - 1];
      PoppedPrefix(polls[1..], n - 1);
    }
  }

  /** A run of the queue whose only consumer is the worker thread c, up to state i, and polls
      that have popped what the worker's dequeue calls returned. */
  ghost predicate Fed(sts: seq<State<Msg>>, evs: seq<Event<Msg>>, cap: nat, n: nat, c: nat, i: nat, polls: seq<Poll>) {
    && IsRun(sts, evs, cap, n) && i < |sts|
    && (forall k :: 0 <= k < |evs| && evs[k].BeginGet? ==> evs[k].a == c)
    && Somes(PoppedBy(polls)) == Values(sts[i].outs)
  }

  /** The messages popped are the first ones accepted. */
  lemma PoppedArePrefix(
      sts: seq<State<Msg>>, evs: seq<Event<Msg>>, cap: nat, n: nat, c: nat, i: nat, polls: seq<Poll>, used: nat)
    requires Fed(sts, evs, cap, n, c, i, polls) && used <= |polls|
    ensures PoppedBy(polls[..used]) <= sts[i].items
  {
    var items, popped := sts[i].items, PoppedBy(polls);
    OneConsumerInOrder(sts, evs, cap, n, c, i);
    assert |popped| == |Somes(popped)| == |sts[i].outs| <= |items|;
    forall j | 0 <= j < |popped| ensures popped[j] == items[j] {
      assert Somes(popped)[j] == Values(sts[i].outs)[j];
    }
    PoppedPrefix(polls, used);
  }

  /** Whatever the interleaving, what the sinks receive is, in ticket order and each once, the log
      messages of a prefix of all accepted messages. */
  lemma AcceptedMessagesAreDelivered(
      sts: seq<State<Msg>>, evs: seq<Event<Msg>>, cap: nat, n: nat, c: nat, i: nat,
      now: int, interval: nat, polls: seq<Poll>)
    requires Fed(sts, evs, cap, n, c, i, polls)
    ensures var (w, used, stopped) := Drain(Fresh(now), interval, polls);
      var items := sts[i].items;
      && used <= |polls| && PoppedBy(polls[..used]) <= items
      && LoggedTexts(w.events) == Texts(PoppedBy(polls[..used]))
      && (stopped ==> Terminate in PoppedBy(polls[..used]))
  {
    var (w, used, stopped) := Drain(Fresh(now), interval, polls);
    DrainDelivers(Fresh(now), interval, polls);
    PoppedArePrefix(sts, evs, cap, n, c, i, polls, used);
    if stopped {
      StoppedPoppedTerminate(Fresh(now), interval, polls);
    }
  }

  /** Once the worker has stopped, every log message accepted before the first terminate message
      has been delivered. */
  lemma NothingLostBeforeTerminate(
      sts: seq<State<Msg>>, evs: seq<Event<Msg>>, cap: nat, n: nat, c: nat, i: nat,
      now: int, interval: nat, polls: seq<Poll>, T: nat)
    requires Fed(sts, evs, cap, n, c, i, polls) && Drain(Fresh(now), interval, polls).2
    requires T <= |sts[i].items| && Terminate !in sts[i].items[..T]
    ensures Texts(sts[i].items[..T]) <= LoggedTexts(Drain(Fresh(now), interval, polls).0.events)
  {
    var used := Drain(Fresh(now), interval, polls).1;
    AcceptedMessagesAreDelivered(sts, evs, cap, n, c, i, now, interval, polls);
    var done, items := PoppedBy(polls[..used]), sts[i].items;
    var j :| 0 <= j < |done| && done[j] == Terminate;
    assert items[j] == Terminate;
    assert forall k :: 0 <= k < T ==> items[..T][k] == items[k];
    TextsOfPrefix(done, T);
    assert done[..T] == items[..T];
  }

  /** The worker stops exactly when one of its polls finds the queue empty after a terminate
      message was among the accepted messages it had taken; so it never stops if none was
      accepted. */
  lemma WorkerStopsIff(
      sts: seq<State<Msg>>, evs: seq<Event<Msg>>, cap: nat, n: nat, c: nat, i: nat,
      now: int, interval: nat, polls: seq<Poll>)
    requires Fed(sts, evs, cap, n, c, i, polls)
    ensures Drain(Fresh(now), interval, polls).2 <==>
      exists j :: 0 <= j < |polls| && polls[j].Empty? && TerminateAmong(sts[i].items, |PoppedBy(polls[..j])|)
    ensures Terminate !in sts[i].items ==> !Drain(Fresh(now), interval, polls).2
  {
    StopsIff(Fresh(now), interval, polls);
    forall j | 0 <= j < |polls|
      ensures Terminate in PoppedBy(polls[..j]) <==> TerminateAmong(sts[i].items, |PoppedBy(polls[..j])|)
    {
      PoppedArePrefix(sts, evs, cap, n, c, i, polls, j);
    }
  }

  /** A terminate message is among the first k. */
  ghost predicate TerminateAmong(items: seq<Msg>, k: nat) {
    k <= |items| && Terminate in items[..k]
  }

  // ----- a discarded terminate message

  /** What an enqueue call does that runs without interruption and finds its cell free. */
  lemma PutAlone<T>(sts: seq<State<T>>, evs: seq<Event<T>>, cap: nat, n: nat, a: nat, item: T)
    returns (sts': seq<State<T>>, evs': seq<Event<T>>)
    requires IsRun(sts, evs, cap, n) && Shaped(sts[|evs|])
    requires a < |sts[|evs|].threads| && sts[|evs|].threads[a] == Idle && SeqOf(sts[|evs|], sts[|evs|].enq) == sts[|evs|].enq
    ensures IsRun(sts', evs', cap, n) && evs <= evs' && |evs'| == |evs| + 5
    ensures forall k :: |evs| <= k < |evs'| ==> !evs'[k].BeginGet?
    ensures var st, st' := sts[|evs|], sts'[|evs'|];
      && st'.items == st.items + [item] && st'.enq == st.enq + 1 && st'.cap == st.cap && Shaped(st')
      && st'.seqs == st.seqs[Cell(st, st.enq) := st.enq + 1] && st'.threads == st.threads && st'.outs == st.outs
      && st'.deq == st.deq && st'.data == st.data[Cell(st, st.enq) := Some(item)]
  {
    var st := sts[|evs|];
    sts', evs' := OneMore(sts, evs, cap, n, BeginPut(a, item));
    assert sts'[|evs'|] == Goto(st, a, PutAt(item, st.enq));
    sts', evs' := OneMore(sts', evs', cap, n, Step(a));
    assert sts'[|evs'|] == Goto(st, a, PutSeen(item, st.enq, st.enq));
    sts', evs' := OneMore(sts', evs', cap, n, Step(a));
    assert sts'[|evs'|] == ClaimPut(st, a, item);
    sts', evs' := OneMore(sts', evs', cap, n, Step(a));
    sts', evs' := OneMore(sts', evs', cap, n, Step(a));
  }

  /** No terminate message has been accepted, and no thread is trying to put one. */
  ghost predicate NoTerminate(st: State<Msg>) {
    && Terminate !in st.items
    && (forall a {:trigger Offers(st, a)} :: 0 <= a < |st.threads| ==> !Offers(st, a))
  }

  /** Thread a is putting a terminate message. */
  ghost predicate Offers(st: State<Msg>, a: nat)
    requires a < |st.threads|
  {
    match st.threads[a]
    case PutAt(item, _) => item == Terminate
    case PutSeen(item, _, _) => item == Terminate
    case PutClaimed(item, _) => item == Terminate
    case PutWritten(item, _) => item == Terminate
    case _ => false
  }

  /** From step `from` on no thread starts to put a terminate message. */
  ghost predicate NonePushed(evs: seq<Event<Msg>>, from: nat) {
    forall k :: from <= k < |evs| && evs[k].BeginPut? ==> evs[k].item != Terminate
  }

  lemma NoTerminateStep(st: State<Msg>, ev: Event<Msg>)
    requires NoTerminate(st) && Enabled(st, ev) && (ev.BeginPut? ==> ev.item != Terminate)
    ensures NoTerminate(Apply(st, ev))
  {
    var st' := Apply(st, ev);
    if ev.Step? { assert !Offers(st, ev.a); }
    forall b | 0 <= b < |st'.threads| ensures !Offers(st', b) {
      if b != ev.a { assert !Offers(st, b) && st'.threads[b] == st.threads[b]; }
    }
  }

  lemma {:induction false} NoTerminateStays(sts: seq<State<Msg>>, evs: seq<Event<Msg>>, cap: nat, n: nat, from: nat, i: nat)
    requires IsRun(sts, evs, cap, n) && from <= i < |sts|
    requires NoTerminate(sts[from]) && NonePushed(evs, from)
    ensures NoTerminate(sts[i])
    decreases i
  {
    if from < i {
      NoTerminateStays(sts, evs, cap, n, from, i - 1);
      assert StepAt(sts, evs, i - 1);
      NoTerminateStep(sts[i - 1], evs[i - 1]);
    }
  }

  /** Where no terminate message was accepted and none is pushed any more, the worker never stops,
      whatever else is logged, popped and polled from then on. */
  lemma NeverStops(
      sts: seq<State<Msg>>, evs: seq<Event<Msg>>, cap: nat, n: nat, c: nat, from: nat, i: nat,
      now: int, interval: nat, polls: seq<Poll>)
    requires Fed(sts, evs, cap, n, c, i, polls) && from <= i
    requires NoTerminate(sts[from]) && NonePushed(evs, from)
    ensures !Drain(Fresh(now), interval, polls).2
  {
    NoTerminateStays(sts, evs, cap, n, from, i);
    WorkerStopsIff(sts, evs, cap, n, c, i, now, interval, polls);
  }

  /** The events of a run determine its states. */
  lemma {:induction false} SameStates<T>(sts: seq<State<T>>, evs: seq<Event<T>>, sts': seq<State<T>>, evs': seq<Event<T>>, cap: nat, n: nat, k: nat)
    requires IsRun(sts, evs, cap, n) && IsRun(sts', evs', cap, n) && evs <= evs' && k < |sts|
    ensures sts'[k] == sts[k]
    decreases k
  {
    if k > 0 {
      SameStates(sts, evs, sts', evs', cap, n, k - 1);
      assert StepAt(sts, evs, k - 1) && StepAt(sts', evs', k - 1);
    }
  }

  /** A longer run, in which no terminate message is pushed any more, with polls fed from it. */
  ghost predicate Continues(evs: seq<Event<Msg>>, sts': seq<State<Msg>>, evs': seq<Event<Msg>>, i: nat, polls: seq<Poll>) {
    && evs <= evs' && |evs| <= i && NonePushed(evs', |evs|)
    && Fed(sts', evs', 2, 2, 0, i, polls)
  }

  /** What a dequeue call does that runs without interruption and finds an item published. */
  lemma GetAlone<T>(sts: seq<State<T>>, evs: seq<Event<T>>, cap: nat, n: nat, a: nat)
    returns (sts': seq<State<T>>, evs': seq<Event<T>>)
    requires IsRun(sts, evs, cap, n) && Shaped(sts[|evs|])
    requires a < |sts[|evs|].threads| && sts[|evs|].threads[a] == Idle
    requires SeqOf(sts[|evs|], sts[|evs|].deq) == sts[|evs|].deq + 1
    ensures IsRun(sts', evs', cap, n) && |evs'| == |evs| + 5
    ensures evs' == evs + [BeginGet(a), Step(a), Step(a), Step(a), Step(a)]
    ensures var st, st' := sts[|evs|], sts'[|evs'|];
      && st'.outs == st.outs + [(st.deq, st.data[Cell(st, st.deq)])] && st'.deq == st.deq + 1
      && st'.cap == st.cap && Shaped(st') && st'.threads == st.threads
      && st'.seqs == st.seqs[Cell(st, st.deq) := st.deq + st.cap]
      && st'.data == st.data[Cell(st, st.deq) := None]
  {
    var st := sts[|evs|];
    sts', evs' := OneMore(sts, evs, cap, n, BeginGet(a));
    assert sts'[|evs'|] == Goto(st, a, GetAt(st.deq));
    sts', evs' := OneMore(sts', evs', cap, n, Step(a));
    assert sts'[|evs'|] == Goto(st, a, GetSeen(st.deq, st.deq + 1));
    sts', evs' := OneMore(sts', evs', cap, n, Step(a));
    assert sts'[|evs'|] == ClaimGet(st, a);
    sts', evs' := OneMore(sts', evs', cap, n, Step(a));
    sts', evs' := OneMore(sts', evs', cap, n, Step(a));
  }

  lemma TwoPolls(text: string, now: int) returns (polls: seq<Poll>)
    ensures PoppedBy(polls) == [Log(text), Log(text)] && |polls| == 3 && polls[2].Empty?
  {
    polls := [Popped(Log(text), now), Popped(Log(text), now), Empty(now, now)];
    assert PoppedBy(polls[2..]) == [];
    assert polls[1..][1..] == polls[2..];
    assert PoppedBy(polls[1..]) == [Log(text)];
  }

  /** One way it goes on: the worker takes and delivers both log messages, finds the queue empty,
      and has still not stopped. */
  lemma WorkerWaits(text: string, now: int, interval: nat)
    returns (evs: seq<Event<Msg>>, sts': seq<State<Msg>>, evs': seq<Event<Msg>>, polls: seq<Poll>)
    ensures BeginPut(1, Terminate) in evs && Continues(evs, sts', evs', |evs'|, polls)
    ensures PoppedBy(polls) == [Log(text), Log(text)] && polls[|polls| - 1].Empty?
    ensures !Drain(Fresh(now), interval, polls).2
  {
    var sts;
    sts, evs := RefusedTerminate(text);
    sts', evs' := GetAlone(sts, evs, 2, 2, 0);
    sts', evs' := GetAlone(sts', evs', 2, 2, 0);
    polls := TwoPolls(text, now);
    assert Somes(PoppedBy(polls)) == Values(sts'[|evs'|].outs);
    assert Continues(evs, sts', evs', |evs'|, polls);
    SameStates(sts, evs, sts', evs', 2, 2, |evs|);
    assert NoTerminate(sts[|evs|]);
    NeverStops(sts', evs', 2, 2, 0, |evs|, |evs'|, now, interval, polls);
  }

  /** Two log messages fill a queue of two cells. The terminate message pushed after them is
      discarded if the policy says so: the call has returned and the message was not accepted.
      However the run goes on, unless another terminate message is pushed, the worker, thread 0,
      never stops, even once it has taken everything and finds the queue empty again and again. */
  lemma DiscardedTerminate(text: string) returns (sts: seq<State<Msg>>, evs: seq<Event<Msg>>)
    ensures IsRun(sts, evs, 2, 2) && BeginPut(1, Terminate) in evs
    ensures forall a :: 0 <= a < |sts[|evs|].threads| ==> sts[|evs|].threads[a] == Idle
    ensures sts[|evs|].items == [Log(text), Log(text)] && sts[|evs|].outs == []
    ensures forall sts', evs', i, now, interval, polls
      {:trigger Continues(evs, sts', evs', i, polls), Drain(Fresh(now), interval, polls)} ::
      Continues(evs, sts', evs', i, polls) ==> !Drain(Fresh(now), interval, polls).2
  {
    sts, evs := RefusedTerminate(text);
    assert NoTerminate(sts[|evs|]);
    forall sts', evs', i, now, interval, polls | Continues(evs, sts', evs', i, polls)
      ensures !Drain(Fresh(now), interval, polls).2
    {
      SameStates(sts, evs, sts', evs', 2, 2, |evs|);
      NeverStops(sts', evs', 2, 2, 0, |evs|, i, now, interval, polls);
    }
  }

  lemma RefusedTerminate(text: string) returns (sts: seq<State<Msg>>, evs: seq<Event<Msg>>)
    ensures IsRun(sts, evs, 2, 2) && BeginPut(1, Terminate) in evs
    ensures forall a :: 0 <= a < |sts[|evs|].threads| ==> sts[|evs|].threads[a] == Idle
    ensures sts[|evs|].items == [Log(text), Log(text)] && sts[|evs|].outs == []
    ensures var st := sts[|evs|];
      && Shaped(st) && |st.threads| == 2 && st.cap == 2 && st.deq == 0
      && st.seqs == [1, 2] && st.data == [Some(Log(text)), Some(Log(text))]
    ensures forall k :: 0 <= k < |evs| ==> !evs[k].BeginGet?
  {
    var cap, n, a := 2, 2, 1;
    sts, evs := [Init(cap, n)], [];
    sts, evs := PutAlone(sts, evs, cap, n, a, Log(text));
    sts, evs := PutAlone(sts, evs, cap, n, a, Log(text));
    var full := sts[|evs|];
    sts, evs := OneMore(sts, evs, cap, n, BeginPut(a, Terminate));
    assert evs[|evs| - 1] == BeginPut(1, Terminate);
    sts, evs := OneMore(sts, evs, cap, n, Step(a));
    assert sts[|evs|] == Goto(full, a, PutSeen(Terminate, 2, 1));
    sts, evs := OneMore(sts, evs, cap, n, Step(a));
  }

  /** A worker that stopped had popped a terminate message among the polls it used. */
  lemma {:induction false} StoppedPoppedTerminate(w: Worker, interval: nat, polls: seq<Poll>)
    requires Drain(w, interval, polls).2
    ensures Drain(w, interval, polls).1 <= |polls|
    ensures w.terminateRequested || Terminate in PoppedBy(polls[..Drain(w, interval, polls).1])
    decreases |polls|
  {
    if !StopsAfter(w, polls[0]) {
      var v := Process(w, interval, polls[0]);
      StoppedPoppedTerminate(v, interval, polls[1..]);
      var n := Drain(v, interval, polls[1..]).1;
      assert polls[..n + 1][1..] == polls[1..][..n];
    }
  }
}
