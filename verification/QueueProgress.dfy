/** Progress of the bounded queue: a thread only goes round its retry loop again because another
    thread has claimed a ticket in the meantime. */
module QueueProgress {
  import opened Wrappers
  import opened BoundedQueue
  import opened QueueTheorems

  /** A thread that goes back to the start of the loop of enqueue had an old position. */
  lemma PutRetryIsBehind<T>(st: State<T>, a: nat)
    requires Inv(st) && a < |st.threads| && st.threads[a].PutSeen?
    requires Apply(st, Step(a)).threads[a].PutAt?
    ensures st.threads[a].pos < Apply(st, Step(a)).threads[a].pos == st.enq
  {
    var pos := st.threads[a].pos;
    assert ThreadOk(st, a) && CellOk(st, Cell(st, pos));
    if pos == st.enq && SeqOf(st, pos) > pos {
      PutSlot(st);
    }
  }

  /** So had a thread that goes back to the start of the loop of dequeue. */
  lemma GetRetryIsBehind<T>(st: State<T>, a: nat)
    requires Inv(st) && a < |st.threads| && st.threads[a].GetSeen?
    requires Apply(st, Step(a)).threads[a].GetAt?
    ensures st.threads[a].pos < Apply(st, Step(a)).threads[a].pos == st.deq
  {
    var pos := st.threads[a].pos;
    assert ThreadOk(st, a) && CellOk(st, Cell(st, pos));
    if pos == st.deq && SeqOf(st, pos) > pos + 1 {
      GetSlot(st);
    }
  }

  predicate Loops<T>(st: State<T>, a: nat, put: bool) {
    a < |st.threads| &&
    if put then st.threads[a].PutAt? || st.threads[a].PutSeen? else st.threads[a].GetAt? || st.threads[a].GetSeen?
  }

  /** Step k starts a call of thread a, which is in its retry loop from then until state i. */
  ghost predicate InLoop<T>(sts: seq<State<T>>, evs: seq<Event<T>>, a: nat, put: bool, k: nat, i: nat) {
    && |sts| == |evs| + 1 && k < i < |sts| && evs[k].a == a
    && (if put then evs[k].BeginPut? else evs[k].BeginGet?)
    && (forall m {:trigger Loops(sts[m], a, put)} :: k < m <= i ==> Loops(sts[m], a, put))
  }

  /** Step j takes thread a back to the start of its loop. */
  ghost predicate IsRetry<T>(sts: seq<State<T>>, evs: seq<Event<T>>, a: nat, put: bool, j: nat)
    requires |sts| == |evs| + 1 && j < |evs| && Loops(sts[j], a, put) && Loops(sts[j + 1], a, put)
  {
    evs[j] == Step(a) &&
    if put then sts[j].threads[a].PutSeen? && sts[j + 1].threads[a].PutAt?
    else sts[j].threads[a].GetSeen? && sts[j + 1].threads[a].GetAt?
  }

  /** How often thread a went round in the call that step k started, up to state i. */
  ghost function Retries<T>(sts: seq<State<T>>, evs: seq<Event<T>>, a: nat, put: bool, k: nat, i: nat): nat
    requires InLoop(sts, evs, a, put, k, i)
    decreases i
  {
    if i == k + 1 then 0
    else
      assert Loops(sts[i - 1], a, put) && Loops(sts[i], a, put);
      Retries(sts, evs, a, put, k, i - 1) + if IsRetry(sts, evs, a, put, i - 1) then 1 else 0
  }

  /** Tickets `from` to `upto` were claimed by other threads than a. */
  ghost predicate ByOthers(claims: seq<nat>, a: nat, from: nat, upto: nat) {
    from <= upto <= |claims| && forall t :: from <= t < upto ==> claims[t] != a
  }

  /** An enqueue call goes round its loop at most once for each ticket that other threads have
      claimed for putting since it began. */
  lemma {:induction false} PutRetries<T>(sts: seq<State<T>>, evs: seq<Event<T>>, cap: nat, n: nat, a: nat, k: nat, i: nat)
    requires IsRun(sts, evs, cap, n) && InLoop(sts, evs, a, true, k, i)
    ensures Inv(sts[i]) && ByOthers(sts[i].putBy, a, sts[k].enq, sts[i].enq)
    ensures Loops(sts[i], a, true) && sts[i].threads[a].pos <= sts[i].enq
    ensures Retries(sts, evs, a, true, k, i) <= sts[i].threads[a].pos - sts[k].enq <= sts[i].enq - sts[k].enq
    decreases i
  {
    RunInv(sts, evs, cap, n, i);
    RunInv(sts, evs, cap, n, i - 1);
    assert StepAt(sts, evs, i - 1) && Loops(sts[i], a, true);
    assert ThreadOk(sts[i], a);
    if i > k + 1 {
      assert Loops(sts[i - 1], a, true);
      PutRetries(sts, evs, cap, n, a, k, i - 1);
      if IsRetry(sts, evs, a, true, i - 1) {
        PutRetryIsBehind(sts[i - 1], a);
      }
    }
  }

  /** A dequeue call goes round its loop at most once for each ticket that other threads have
      claimed for getting since it began. */
  lemma {:induction false} GetRetries<T>(sts: seq<State<T>>, evs: seq<Event<T>>, cap: nat, n: nat, a: nat, k: nat, i: nat)
    requires IsRun(sts, evs, cap, n) && InLoop(sts, evs, a, false, k, i)
    ensures Inv(sts[i]) && ByOthers(sts[i].gotBy, a, sts[k].deq, sts[i].deq)
    ensures Loops(sts[i], a, false) && sts[i].threads[a].pos <= sts[i].deq
    ensures Retries(sts, evs, a, false, k, i) <= sts[i].threads[a].pos - sts[k].deq <= sts[i].deq - sts[k].deq
    decreases i
  {
    RunInv(sts, evs, cap, n, i);
    RunInv(sts, evs, cap, n, i - 1);
    assert StepAt(sts, evs, i - 1) && Loops(sts[i], a, false);
    assert ThreadOk(sts[i], a);
    if i > k + 1 {
      assert Loops(sts[i - 1], a, false);
      GetRetries(sts, evs, cap, n, a, k, i - 1);
      if IsRetry(sts, evs, a, false, i - 1) {
        GetRetryIsBehind(sts[i - 1], a);
      }
    }
  }

  // ----- a claimed call

  /** Whatever other threads have claimed, a thread that holds a ticket for putting stores its item
      in the ticket's cell with its next step, and touches nothing else. */
  lemma PutterStores<T>(st: State<T>, a: nat)
    requires Inv(st) && a < |st.threads| && st.threads[a].PutClaimed?
    ensures var st', item, pos := Apply(st, Step(a)), st.threads[a].item, st.threads[a].pos;
      && st'.threads == st.threads[a := PutWritten(item, pos)]
      && st'.data == st.data[Cell(st, pos) := Some(item)] && st'.seqs == st.seqs
      && st'.enq == st.enq && st'.deq == st.deq && st'.outs == st.outs
  {
  }

  /** With the step after that it publishes the item that is there, and the call is over. */
  lemma PutterPublishes<T>(st: State<T>, a: nat)
    requires Inv(st) && a < |st.threads| && st.threads[a].PutWritten?
    ensures var st', item, pos := Apply(st, Step(a)), st.threads[a].item, st.threads[a].pos;
      && pos < |st.items| && st'.threads == st.threads[a := Idle]
      && st'.seqs == st.seqs[Cell(st, pos) := pos + 1] && st'.data == st.data
      && st.data[Cell(st, pos)] == Some(item) == Some(st.items[pos])
      && st'.enq == st.enq && st'.deq == st.deq && st'.outs == st.outs
  {
    assert ThreadOk(st, a);
  }

  /** A thread that holds a ticket for getting takes the ticket's item with its next step. */
  lemma GetterTakes<T>(st: State<T>, a: nat)
    requires Inv(st) && a < |st.threads| && st.threads[a].GetClaimed?
    ensures var st', pos := Apply(st, Step(a)), st.threads[a].pos;
      && pos < |st.items| && st'.threads == st.threads[a := GetRead(pos, Some(st.items[pos]))]
      && st'.data == st.data[Cell(st, pos) := None] && st'.seqs == st.seqs
      && st'.enq == st.enq && st'.deq == st.deq && st'.outs == st.outs
  {
    assert ThreadOk(st, a);
  }

  /** With the step after that it releases the cell for the next lap and returns the item. */
  lemma GetterReturns<T>(st: State<T>, a: nat)
    requires Inv(st) && a < |st.threads| && st.threads[a].GetRead?
    ensures var st', pos := Apply(st, Step(a)), st.threads[a].pos;
      && pos < |st.items| && st'.threads == st.threads[a := Idle]
      && st'.seqs == st.seqs[Cell(st, pos) := pos + st.cap] && st'.data == st.data
      && st'.enq == st.enq && st'.deq == st.deq && st'.outs == st.outs + [(pos, Some(st.items[pos]))]
  {
    assert ThreadOk(st, a);
  }

  /** Between its own steps a thread that is in a call stays where it is. */
  lemma {:induction false} Stays<T>(sts: seq<State<T>>, evs: seq<Event<T>>, cap: nat, n: nat, a: nat, i: nat, j: nat)
    requires IsRun(sts, evs, cap, n) && i <= j < |sts| && a < n && a < |sts[i].threads| && sts[i].threads[a] != Idle
    requires forall k :: i <= k < j ==> evs[k] != Step(a)
    ensures Inv(sts[j]) && a < |sts[j].threads| && sts[j].threads[a] == sts[i].threads[a]
    decreases j
  {
    RunInv(sts, evs, cap, n, j);
    if i < j {
      Stays(sts, evs, cap, n, a, i, j - 1);
      assert StepAt(sts, evs, j - 1);
    }
  }

  /** Step p is thread a's first one from i on, where it was in a call. */
  lemma FirstStep<T>(sts: seq<State<T>>, evs: seq<Event<T>>, cap: nat, n: nat, a: nat, i: nat, p: nat)
    requires IsRun(sts, evs, cap, n) && i <= p < |evs| && evs[p] == Step(a)
    requires forall k :: i <= k < p ==> evs[k] != Step(a)
    requires a < n && a < |sts[i].threads| && sts[i].threads[a] != Idle
    ensures Inv(sts[p]) && Inv(sts[p + 1]) && a < |sts[p].threads| && a < |sts[p + 1].threads|
    ensures sts[p].threads[a] == sts[i].threads[a]
    ensures Enabled(sts[p], Step(a)) && sts[p + 1] == Apply(sts[p], Step(a)) && sts[p].cap == cap
  {
    Stays(sts, evs, cap, n, a, i, p);
    RunInv(sts, evs, cap, n, p);
    RunInv(sts, evs, cap, n, p + 1);
    assert StepAt(sts, evs, p);
  }

  /** p and q are the first two steps of thread a from i on. */
  ghost predicate FirstTwo<T>(evs: seq<Event<T>>, a: nat, i: nat, p: nat, q: nat) {
    && i <= p < q < |evs| && evs[p] == Step(a) && evs[q] == Step(a)
    && (forall k :: i <= k < q && k != p ==> evs[k] != Step(a))
  }

  /** In every run a call that has claimed a ticket for putting is over after two further steps of its
      own, its item stored with the first and published with the second. */
  lemma ClaimedPutReturns<T>(sts: seq<State<T>>, evs: seq<Event<T>>, cap: nat, n: nat, a: nat, i: nat, p: nat, q: nat)
    requires IsRun(sts, evs, cap, n) && FirstTwo(evs, a, i, p, q)
    requires a < n && a < |sts[i].threads| && sts[i].threads[a].PutClaimed?
    ensures Inv(sts[p + 1]) && Inv(sts[q + 1]) && a < |sts[p + 1].threads| && a < |sts[q + 1].threads|
    ensures var item, pos := sts[i].threads[a].item, sts[i].threads[a].pos;
      && sts[p + 1].threads[a] == PutWritten(item, pos) && sts[p + 1].data[Cell(sts[p + 1], pos)] == Some(item)
      && sts[q + 1].threads[a] == Idle && SeqOf(sts[q + 1], pos) == pos + 1
      && sts[q + 1].data[Cell(sts[q + 1], pos)] == Some(item)
  {
    FirstStep(sts, evs, cap, n, a, i, p);
    PutterStores(sts[p], a);
    FirstStep(sts, evs, cap, n, a, p + 1, q);
    PutterPublishes(sts[q], a);
  }

  /** In every run a call that has claimed a ticket for getting is over after two further steps of its
      own, and returns the ticket's item. */
  lemma ClaimedGetReturns<T>(sts: seq<State<T>>, evs: seq<Event<T>>, cap: nat, n: nat, a: nat, i: nat, p: nat, q: nat)
    requires IsRun(sts, evs, cap, n) && FirstTwo(evs, a, i, p, q)
    requires a < n && a < |sts[i].threads| && sts[i].threads[a].GetClaimed?
    ensures Inv(sts[p + 1]) && Inv(sts[q + 1]) && a < |sts[p + 1].threads| && a < |sts[q + 1].threads|
    ensures var pos := sts[i].threads[a].pos;
      && pos < |sts[q].items| && sts[p + 1].threads[a] == GetRead(pos, Some(sts[q].items[pos]))
      && sts[q + 1].threads[a] == Idle && SeqOf(sts[q + 1], pos) == pos + cap
      && sts[q + 1].outs == sts[q].outs + [(pos, Some(sts[q].items[pos]))]
  {
    FirstStep(sts, evs, cap, n, a, i, p);
    GetterTakes(sts[p], a);
    FirstStep(sts, evs, cap, n, a, p + 1, q);
    assert ThreadOk(sts[q], a);
    GetterReturns(sts[q], a);
  }

  /** How many of the events from k to i are steps of thread a. */
  ghost function OwnSteps<T>(evs: seq<Event<T>>, a: nat, k: nat, i: nat): nat
    requires k <= i <= |evs|
    decreases i
  {
    if i == k then 0 else OwnSteps(evs, a, k, i - 1) + if evs[i - 1] == Step(a) then 1 else 0
  }

  /** Inside its loop a thread takes two steps for each time round, one to load the cell's sequence
      number and one to act on it; so with the bound on retries a call leaves its loop after at most
      twice the number of tickets that others claim in the meantime, and two more steps. */
  lemma {:induction false} LoopSteps<T>(sts: seq<State<T>>, evs: seq<Event<T>>, cap: nat, n: nat, a: nat, put: bool, k: nat, i: nat)
    requires IsRun(sts, evs, cap, n) && InLoop(sts, evs, a, put, k, i)
    ensures Loops(sts[i], a, put)
    ensures OwnSteps(evs, a, k + 1, i) == 2 * Retries(sts, evs, a, put, k, i)
            + if sts[i].threads[a].PutSeen? || sts[i].threads[a].GetSeen? then 1 else 0
    decreases i
  {
    assert StepAt(sts, evs, i - 1) && Loops(sts[i], a, put);
    if i > k + 1 {
      assert Loops(sts[i - 1], a, put);
      LoopSteps(sts, evs, cap, n, a, put, k, i - 1);
    }
  }
}
