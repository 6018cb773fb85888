/** The asynchronous logger's worker: it drains the queue, remembers flush and terminate
    requests, and acts on them only when it finds the queue empty. Clock readings and the
    outcomes of dequeue calls are inputs; sinks do not throw. */
module AsyncLog {
  import opened Wrappers

  datatype Msg = Log(text: string) | Flush | Terminate

  datatype SinkEvent = Logged(text: string) | Flushed

  /** One attempt to dequeue: a message and the time it was popped, or nothing, with the time
      before and after a possible flush. */
  datatype Poll = Popped(msg: Msg, now: int) | Empty(now: int, later: int)

  datatype Worker = Worker(
    flushRequested: bool,
    terminateRequested: bool,
    lastPop: int,
    lastFlush: int,
    events: seq<SinkEvent>)

  /** A worker that starts its loop. */
  function Fresh(now: int): Worker {
    Worker(false, false, now, now, [])
  }

  function ShouldFlush(w: Worker, interval: nat, now: int): bool {
    w.flushRequested || (interval != 0 && now - w.lastFlush >= interval)
  }

  function Process(w: Worker, interval: nat, poll: Poll): Worker {
    match poll
    case Popped(Flush, now) => w.(lastPop := now, flushRequested := true)
    case Popped(Terminate, now) => w.(lastPop := now, flushRequested := true, terminateRequested := true)
    case Popped(Log(text), now) => w.(lastPop := now, events := w.events + [Logged(text)])
    case Empty(now, later) =>
      if ShouldFlush(w, interval, now)
      then w.(events := w.events + [Flushed], lastFlush := later, flushRequested := false)
      else w
  }

  /** The worker stops after a poll that finds the queue empty once termination was requested. */
  function StopsAfter(w: Worker, poll: Poll): bool {
    poll.Empty? && w.terminateRequested
  }

  /** The worker after the polls, or after the one that stops it. */
  function Drain(w: Worker, interval: nat, polls: seq<Poll>): (Worker, nat, bool)
    decreases |polls|
  {
    if polls == [] then (w, 0, false)
    else
      var w' := Process(w, interval, polls[0]);
      if StopsAfter(w, polls[0]) then (w', 1, true)
      else
        var (w'', n, stopped) := Drain(w', interval, polls[1..]);
        (w'', n + 1, stopped)
  }

  /** The messages popped by a row of polls. */
  function PoppedBy(polls: seq<Poll>): seq<Msg> {
    if polls == [] then []
    else (if polls[0].Popped? then [polls[0].msg] else []) + PoppedBy(polls[1..])
  }

  /** The log texts among messages. */
  function Texts(msgs: seq<Msg>): seq<string> {
    if msgs == [] then []
    else (if msgs[0].Log? then [msgs[0].text] else []) + Texts(msgs[1..])
  }

  /** The log texts a sink received. */
  function LoggedTexts(events: seq<SinkEvent>): seq<string> {
    if events == [] then []
    else (if events[0].Logged? then [events[0].text] else []) + LoggedTexts(events[1..])
  }

  class AsyncLogHelper {
    const sinks: array<seq<SinkEvent>>
    const flushInterval: nat
    var flushRequested: bool
    var terminateRequested: bool
    var lastPop: int
    var lastFlush: int
    ghost var events: seq<SinkEvent>

    /** All sinks have received the same events. */
    ghost predicate Valid()
      reads this, sinks
    {
      forall i :: 0 <= i < sinks.Length ==> sinks[i] == events
    }

    ghost function View(): Worker
      reads this
    {
      Worker(flushRequested, terminateRequested, lastPop, lastFlush, events)
    }

    constructor (n: nat, flushInterval: nat, now: int)
      ensures Valid() && sinks.Length == n && this.flushInterval == flushInterval
      ensures View() == Fresh(now) && fresh(sinks)
    {
      sinks := new seq<SinkEvent>[n](_ => []);
      this.flushInterval := flushInterval;
      flushRequested, terminateRequested := false, false;
      lastPop, lastFlush := now, now;
      events := [];
    }

    /** Hands one event to every sink. */
    method Deliver(e: SinkEvent)
      requires Valid()
      modifies this`events, sinks
      ensures Valid() && events == old(events) + [e]
    {
      var i := 0;
      while i < sinks.Length
        invariant 0 <= i <= sinks.Length && events == old(events)
        invariant forall k :: 0 <= k < i ==> sinks[k] == events + [e]
        invariant forall k :: i <= k < sinks.Length ==> sinks[k] == events
      {
        sinks[i] := sinks[i] + [e];
        i := i + 1;
      }
      events := events + [e];
    }

    /** Flushes when asked to, or when the interval has passed. */
    method HandleFlushInterval(now: int, later: int)
      requires Valid()
      modifies this, sinks
      ensures Valid() && View() == Process(old(View()), flushInterval, Empty(now, later))
    {
      var shouldFlush := flushRequested || (flushInterval != 0 && now - lastFlush >= flushInterval);
      if shouldFlush {
        Deliver(Flushed);
        lastFlush := later;
        flushRequested := false;
      }
    }

    method ProcessNextMsg(poll: Poll) returns (more: bool)
      requires Valid()
      modifies this, sinks
      ensures Valid() && View() == Process(old(View()), flushInterval, poll)
      ensures more == !StopsAfter(old(View()), poll)
    {
      match poll
      case Popped(msg, now) =>
        lastPop := now;
        match msg {
          case Flush => flushRequested := true;
          case Terminate =>
            flushRequested := true;
            terminateRequested := true;
          case Log(text) => Deliver(Logged(text));
        }
        return true;
      case Empty(now, later) =>
        HandleFlushInterval(now, later);
        return !terminateRequested;
    }

    /** Runs over the outcomes of the worker's dequeue calls until one of them stops it. */
    method WorkerLoop(polls: seq<Poll>) returns (n: nat, stopped: bool)
      requires Valid()
      modifies this, sinks
      ensures Valid() && (View(), n, stopped) == Drain(old(View()), flushInterval, polls)
    {
      n, stopped := 0, false;
      while n < |polls| && !stopped
        invariant 0 <= n <= |polls| && Valid()
        invariant !stopped ==>
          var (w, k, s) := Drain(View(), flushInterval, polls[n..]);
          Drain(old(View()), flushInterval, polls) == (w, n + k, s)
        invariant stopped ==> Drain(old(View()), flushInterval, polls) == (View(), n, true)
      {
        assert polls[n..][0] == polls[n] && polls[n..][1..] == polls[n + 1..];
        var more := ProcessNextMsg(polls[n]);
        n := n + 1;
        stopped := !more;
      }
    }

    /** Pushing a message: one attempt if messages may be discarded, otherwise repeated until one
        succeeds. `outcomes` are the results of the enqueue attempts, for as long as they are
        watched; a call that has not returned by then is waiting. */
    method PushMsg(discard: bool, outcomes: seq<bool>) returns (accepted: bool, attempts: nat, waiting: bool)
      ensures attempts <= |outcomes| && (discard ==> attempts <= 1)
      ensures accepted <==> if discard then outcomes != [] && outcomes[0] else true in outcomes
      ensures accepted ==> attempts > 0 && outcomes[attempts - 1] && true !in outcomes[..attempts - 1]
      ensures waiting <==> if discard then outcomes == [] else true !in outcomes
    {
      if outcomes == [] {
        return false, 0, true;
      }
      accepted := outcomes[0];
      attempts := 1;
      if accepted || discard {
        return accepted, attempts, false;
      }
      while attempts < |outcomes| && !accepted
        invariant 0 < attempts <= |outcomes| && accepted == outcomes[attempts - 1]
        invariant true !in outcomes[..attempts - 1]
        decreases |outcomes| - attempts
      {
        assert outcomes[..attempts] == outcomes[..attempts - 1] + [false];
        accepted := outcomes[attempts];
        attempts := attempts + 1;
      }
      assert outcomes == outcomes[..attempts - 1] + [outcomes[attempts - 1]] + outcomes[attempts..];
      waiting := !accepted;
    }
  }

  // ----- what a drain does

  lemma {:induction false} TextsConcat(a: seq<Msg>, b: seq<Msg>)
    ensures Texts(a + b) == Texts(a) + Texts(b)
  {
    if a == [] {
      assert a + b == b;
    } else {
      TextsConcat(a[1..], b);
      assert (a + b)[1..] == a[1..] + b && (a + b)[0] == a[0];
    }
  }

  lemma {:induction false} LoggedConcat(a: seq<SinkEvent>, b: seq<SinkEvent>)
    ensures LoggedTexts(a + b) == LoggedTexts(a) + LoggedTexts(b)
  {
    if a == [] {
      assert a + b == b;
    } else {
      LoggedConcat(a[1..], b);
      assert (a + b)[1..] == a[1..] + b && (a + b)[0] == a[0];
    }
  }

  lemma ProcessDelivers(w: Worker, interval: nat, poll: Poll)
    ensures LoggedTexts(Process(w, interval, poll).events) == LoggedTexts(w.events) + Texts(PoppedBy([poll]))
  {
    LoggedConcat(w.events, [Flushed]);
    if poll.Popped? && poll.msg.Log? {
      LoggedConcat(w.events, [Logged(poll.msg.text)]);
    }
  }

  lemma PoppedFirst(polls: seq<Poll>)
    requires polls != []
    ensures PoppedBy(polls) == PoppedBy([polls[0]]) + PoppedBy(polls[1..])
  {
    assert [polls[0]][1..] == [];
  }

  /** The sinks receive exactly the log messages popped, each once and in the order popped. */
  lemma {:induction false} DrainDelivers(w: Worker, interval: nat, polls: seq<Poll>)
    ensures var (w', n, stopped) := Drain(w, interval, polls);
      n <= |polls| && LoggedTexts(w'.events) == LoggedTexts(w.events) + Texts(PoppedBy(polls[..n]))
    decreases |polls|
  {
    if polls != [] {
      var v := Process(w, interval, polls[0]);
      ProcessDelivers(w, interval, polls[0]);
      if StopsAfter(w, polls[0]) {
        assert polls[..1] == [polls[0]];
      } else {
        DrainDelivers(v, interval, polls[1..]);
        var n := Drain(v, interval, polls[1..]).1;
        assert polls[..n + 1][1..] == polls[1..][..n];
        PoppedFirst(polls[..n + 1]);
        TextsConcat(PoppedBy([polls[0]]), PoppedBy(polls[1..][..n]));
      }
    }
  }

  /** A poll makes the sinks flush only when it finds the queue empty, and then exactly if a flush
      is due; a request stays pending until then. */
  lemma FlushOnlyWhenEmpty(w: Worker, interval: nat, poll: Poll)
    ensures var w' := Process(w, interval, poll);
      && (w'.events == w.events + [Flushed] <==> poll.Empty? && ShouldFlush(w, interval, poll.now))
      && (w.flushRequested && !w'.flushRequested ==> w'.events == w.events + [Flushed])
  {
    if poll.Popped? && poll.msg.Log? {
      assert [Logged(poll.msg.text)][0] != [Flushed][0];
      assert (w.events + [Logged(poll.msg.text)])[|w.events|] != (w.events + [Flushed])[|w.events|];
    }
  }

  /** Events are only ever added. */
  lemma {:induction false} EventsGrow(w: Worker, interval: nat, polls: seq<Poll>)
    ensures w.events <= Drain(w, interval, polls).0.events
    decreases |polls|
  {
    if polls != [] && !StopsAfter(w, polls[0]) {
      EventsGrow(Process(w, interval, polls[0]), interval, polls[1..]);
    }
  }

  /** A flush that is due happens by the time of the next empty poll. */
  lemma {:induction false} PendingFlush(w: Worker, interval: nat, polls: seq<Poll>, j: nat) returns (e: nat)
    requires w.flushRequested && j < |polls| && j < Drain(w, interval, polls).1 && polls[j].Empty?
    ensures var events := Drain(w, interval, polls).0.events;
      |w.events| <= e < |events| && events[e] == Flushed && w.events <= events[..e]
    decreases |polls|
  {
    var v := Process(w, interval, polls[0]);
    if polls[0].Empty? {
      e := |w.events|;
      assert v.events[e] == Flushed;
      EventsGrow(w, interval, polls);
      if !StopsAfter(w, polls[0]) {
        EventsGrow(v, interval, polls[1..]);
      }
    } else {
      e := PendingFlush(v, interval, polls[1..], j - 1);
    }
  }

  /** A message that asks for a flush: a terminate message does so too. */
  predicate Asks(poll: Poll) {
    poll.Popped? && (poll.msg == Flush || poll.msg == Terminate)
  }

  /** Over a whole drain: a popped flush or terminate message is followed, once the worker finds the queue
      empty, by a flush before which every log message popped ahead of it has been delivered. */
  lemma {:induction false} FlushFollows(w: Worker, interval: nat, polls: seq<Poll>, i: nat, j: nat) returns (e: nat)
    requires i < j < |polls| && j < Drain(w, interval, polls).1
    requires Asks(polls[i]) && polls[j].Empty?
    ensures var events := Drain(w, interval, polls).0.events;
      && e < |events| && events[e] == Flushed
      && LoggedTexts(w.events) + Texts(PoppedBy(polls[..i])) <= LoggedTexts(events[..e])
    decreases |polls|
  {
    var v := Process(w, interval, polls[0]);
    if i == 0 {
      e := PendingFlush(v, interval, polls[1..], j - 1);
      LoggedPrefix(w.events, Drain(w, interval, polls).0.events[..e]);
    } else {
      e := FlushFollows(v, interval, polls[1..], i - 1, j - 1);
      FirstPollDelivers(w, interval, polls, i);
    }
  }

  lemma LoggedPrefix(a: seq<SinkEvent>, b: seq<SinkEvent>)
    requires a <= b
    ensures LoggedTexts(a) <= LoggedTexts(b)
  {
    LoggedConcat(a, b[|a|..]);
    assert a + b[|a|..] == b;
  }

  lemma FirstPollDelivers(w: Worker, interval: nat, polls: seq<Poll>, i: nat)
    requires 0 < i <= |polls|
    ensures LoggedTexts(Process(w, interval, polls[0]).events) + Texts(PoppedBy(polls[1..][..i - 1]))
         == LoggedTexts(w.events) + Texts(PoppedBy(polls[..i]))
  {
    ProcessDelivers(w, interval, polls[0]);
    PoppedFirst(polls[..i]);
    assert polls[..i][1..] == polls[1..][..i - 1];
    TextsConcat(PoppedBy([polls[0]]), PoppedBy(polls[1..][..i - 1]));
  }

  /** A worker that has not been asked to terminate stops exactly when some poll finds the queue
      empty after a terminate message was popped. */
  lemma {:induction false} StopsIff(w: Worker, interval: nat, polls: seq<Poll>)
    ensures Drain(w, interval, polls).2 <==>
      exists i :: 0 <= i < |polls| && polls[i].Empty? && (w.terminateRequested || Terminate in PoppedBy(polls[..i]))
    decreases |polls|
  {
    if polls != [] {
      var v := Process(w, interval, polls[0]);
      if StopsAfter(w, polls[0]) {
        assert polls[0].Empty?;
      } else {
        StopsIff(v, interval, polls[1..]);
        forall i | 0 < i <= |polls|
          ensures (w.terminateRequested || Terminate in PoppedBy(polls[..i]))
             <==> (v.terminateRequested || Terminate in PoppedBy(polls[1..][..i - 1]))
        {
          assert polls[..i][1..] == polls[1..][..i - 1];
        }
        if i :| 0 <= i < |polls[1..]| && polls[1..][i].Empty?
                && (v.terminateRequested || Terminate in PoppedBy(polls[1..][..i])) {
          assert polls[i + 1].Empty?;
        }
        if i :| 0 <= i < |polls| && polls[i].Empty?
                && (w.terminateRequested || Terminate in PoppedBy(polls[..i])) {
          assert i > 0;
          assert polls[1..][i - 1].Empty?;
        }
      }
    }
  }

  // ----- when flushes happen

  /** The worker after the first j polls. */
  function WorkerAt(w: Worker, interval: nat, polls: seq<Poll>, j: nat): Worker
    requires j <= |polls|
    decreases j
  {
    if j == 0 then w else Process(WorkerAt(w, interval, polls, j - 1), interval, polls[j - 1])
  }

  lemma {:induction false} WorkerAtShift(w: Worker, interval: nat, polls: seq<Poll>, j: nat)
    requires 0 < j <= |polls|
    ensures WorkerAt(w, interval, polls, j) == WorkerAt(Process(w, interval, polls[0]), interval, polls[1..], j - 1)
    decreases j
  {
    if j > 1 {
      WorkerAtShift(w, interval, polls, j - 1);
    }
  }

  /** A drain ends where its first polls lead, and stops with the first poll that stops it. */
  lemma {:induction false} DrainIsWorkerAt(w: Worker, interval: nat, polls: seq<Poll>)
    ensures var (w', n, stopped) := Drain(w, interval, polls);
      && n <= |polls| && w' == WorkerAt(w, interval, polls, n) && (!stopped ==> n == |polls|)
    decreases |polls|
  {
    if polls != [] {
      var v := Process(w, interval, polls[0]);
      if StopsAfter(w, polls[0]) {
        assert WorkerAt(w, interval, polls, 0) == w;
      } else {
        DrainIsWorkerAt(v, interval, polls[1..]);
        WorkerAtShift(w, interval, polls, Drain(v, interval, polls[1..]).1 + 1);
      }
    }
  }

  /** Poll j makes the sinks flush. */
  predicate Flushes(w: Worker, interval: nat, polls: seq<Poll>, j: nat)
    requires j < |polls|
  {
    WorkerAt(w, interval, polls, j + 1).events == WorkerAt(w, interval, polls, j).events + [Flushed]
  }

  /** Some poll from i on and before j asked for a flush. */
  ghost predicate AskedIn(polls: seq<Poll>, i: nat, j: nat)
    requires i <= j <= |polls|
  {
    exists k :: i <= k < j && Asks(polls[k])
  }

  ghost predicate NoFlushIn(w: Worker, interval: nat, polls: seq<Poll>, i: nat, j: nat)
    requires i <= j <= |polls|
  {
    forall k :: i <= k < j ==> !Flushes(w, interval, polls, k)
  }

  lemma NotLogged(events: seq<SinkEvent>, text: string)
    ensures events + [Logged(text)] != events + [Flushed]
  {
    assert (events + [Logged(text)])[|events|] != (events + [Flushed])[|events|];
  }

  /** What one poll does to the flags, told without its specification. */
  lemma FlushStep(w: Worker, interval: nat, polls: seq<Poll>, j: nat)
    requires j < |polls|
    ensures var v, v' := WorkerAt(w, interval, polls, j), WorkerAt(w, interval, polls, j + 1);
      var due := polls[j].Empty? && (v.flushRequested || (interval != 0 && polls[j].now - v.lastFlush >= interval));
      && (Flushes(w, interval, polls, j) <==> due)
      && (due ==> v'.lastFlush == polls[j].later && !v'.flushRequested)
      && (!due ==> v'.lastFlush == v.lastFlush && (v'.flushRequested <==> v.flushRequested || Asks(polls[j])))
  {
    var v := WorkerAt(w, interval, polls, j);
    if polls[j].Popped? && polls[j].msg.Log? {
      NotLogged(v.events, polls[j].msg.text);
    }
    assert |v.events + [Flushed]| != |v.events|;
  }

  lemma {:induction false} SinceThen(w: Worker, interval: nat, polls: seq<Poll>, i: nat, j: nat)
    requires i <= j <= |polls| && NoFlushIn(w, interval, polls, i, j)
    requires !WorkerAt(w, interval, polls, i).flushRequested
    ensures WorkerAt(w, interval, polls, j).lastFlush == WorkerAt(w, interval, polls, i).lastFlush
    ensures WorkerAt(w, interval, polls, j).flushRequested <==> AskedIn(polls, i, j)
    decreases j
  {
    if i < j {
      SinceThen(w, interval, polls, i, j - 1);
      FlushStep(w, interval, polls, j - 1);
      assert !Flushes(w, interval, polls, j - 1);
      assert AskedIn(polls, i, j) <==> AskedIn(polls, i, j - 1) || Asks(polls[j - 1]);
    }
  }

  /** Before the first flush, poll j flushes exactly if it finds the queue empty and a flush or
      terminate message was popped before, or the interval is not 0 and has passed since the start. */
  lemma FirstFlushIff(start: int, interval: nat, polls: seq<Poll>, j: nat)
    requires j < |polls| && NoFlushIn(Fresh(start), interval, polls, 0, j)
    ensures Flushes(Fresh(start), interval, polls, j) <==>
      polls[j].Empty? && (AskedIn(polls, 0, j) || (interval != 0 && polls[j].now - start >= interval))
  {
    SinceThen(Fresh(start), interval, polls, 0, j);
    FlushStep(Fresh(start), interval, polls, j);
  }

  /** After a flush by poll i, the next one is by the first poll that finds the queue empty after a
      flush or terminate message was popped since, or, if the interval is not 0, when it has passed
      since that flush. */
  lemma NextFlushIff(w: Worker, interval: nat, polls: seq<Poll>, i: nat, j: nat)
    requires i < j < |polls| && Flushes(w, interval, polls, i) && NoFlushIn(w, interval, polls, i + 1, j)
    ensures polls[i].Empty?
    ensures Flushes(w, interval, polls, j) <==>
      polls[j].Empty? && (AskedIn(polls, i + 1, j) || (interval != 0 && polls[j].now - polls[i].later >= interval))
  {
    FlushStep(w, interval, polls, i);
    SinceThen(w, interval, polls, i + 1, j);
    FlushStep(w, interval, polls, j);
  }

  /** With interval 0 and no message that asks for a flush the sinks are never flushed. */
  lemma {:induction false} NeverFlushed(start: int, polls: seq<Poll>, j: nat)
    requires j <= |polls| && !AskedIn(polls, 0, |polls|)
    ensures Flushed !in WorkerAt(Fresh(start), 0, polls, j).events && !WorkerAt(Fresh(start), 0, polls, j).flushRequested
    decreases j
  {
    if j > 0 {
      NeverFlushed(start, polls, j - 1);
      assert !Asks(polls[j - 1]);
      FlushStep(Fresh(start), 0, polls, j - 1);
    }
  }

  /** So a drain delivers log messages only. */
  lemma DrainNeverFlushes(start: int, polls: seq<Poll>)
    requires !AskedIn(polls, 0, |polls|)
    ensures Flushed !in Drain(Fresh(start), 0, polls).0.events
  {
    DrainIsWorkerAt(Fresh(start), 0, polls);
    NeverFlushed(start, polls, Drain(Fresh(start), 0, polls).1);
  }

  // ----- the texts

  /** What counts as a log text, one message at a time. */
  lemma TextsOfOne(m: Msg, e: SinkEvent)
    ensures Texts([]) == [] && Texts([m]) == if m.Log? then [m.text] else []
    ensures LoggedTexts([]) == [] && LoggedTexts([e]) == if e.Logged? then [e.text] else []
  {
    assert [m][1..] == [] && [e][1..] == [];
  }
}
