/** What the bounded queue guarantees over every interleaving. */
module QueueTheorems {
  import opened Wrappers
  import opened BoundedQueue

  ghost predicate StepAt<T>(sts: seq<State<T>>, evs: seq<Event<T>>, i: nat)
    requires |sts| == |evs| + 1 && i < |evs|
  {
    Enabled(sts[i], evs[i]) && sts[i + 1] == Apply(sts[i], evs[i])
  }

  /** A run of n threads, in any interleaving, over a queue of cap cells. */
  ghost predicate IsRun<T>(sts: seq<State<T>>, evs: seq<Event<T>>, cap: nat, n: nat) {
    && cap >= 2 && |sts| == |evs| + 1 && sts[0] == Init(cap, n)
    && (forall i {:trigger StepAt(sts, evs, i)} :: 0 <= i < |evs| ==> StepAt(sts, evs, i))
  }

  lemma {:induction false} RunInv<T>(sts: seq<State<T>>, evs: seq<Event<T>>, cap: nat, n: nat, i: nat)
    requires IsRun(sts, evs, cap, n) && i < |sts|
    ensures Inv(sts[i]) && sts[i].cap == cap && |sts[i].threads| == n
    decreases i
  {
    if i == 0 {
      InitInv<T>(cap, n);
    } else {
      RunInv(sts, evs, cap, n, i - 1);
      assert StepAt(sts, evs, i - 1);
      StepKeeps(sts[i - 1], evs[i - 1]);
    }
  }

  /** Every schedule of atomic actions is a run. */
  lemma {:induction false} ScheduleIsRun<T>(cap: nat, n: nat, schedule: seq<Event<T>>)
    returns (sts: seq<State<T>>, evs: seq<Event<T>>)
    requires cap >= 2
    ensures IsRun(sts, evs, cap, n) && sts[|evs|] == After(Init(cap, n), schedule)
    decreases |schedule|
  {
    if schedule == [] {
      sts, evs := [Init(cap, n)], [];
    } else {
      var before, ev := schedule[..|schedule| - 1], schedule[|schedule| - 1];
      sts, evs := ScheduleIsRun(cap, n, before);
      if Enabled(sts[|evs|], ev) {
        sts, evs := OneMore(sts, evs, cap, n, ev);
      }
    }
  }

  lemma OneMore<T>(sts: seq<State<T>>, evs: seq<Event<T>>, cap: nat, n: nat, ev: Event<T>)
    returns (sts': seq<State<T>>, evs': seq<Event<T>>)
    requires IsRun(sts, evs, cap, n) && Enabled(sts[|evs|], ev)
    ensures sts' == sts + [Apply(sts[|evs|], ev)] && evs' == evs + [ev] && IsRun(sts', evs', cap, n)
  {
    sts', evs' := sts + [Apply(sts[|evs|], ev)], evs + [ev];
    forall i | 0 <= i < |evs'| ensures StepAt(sts', evs', i) {
      if i < |evs| {
        assert StepAt(sts, evs, i);
      }
    }
  }

  /** The events of a run, executed as a schedule, lead through its states; an event that is not
      possible in its turn changes nothing. */
  lemma {:induction false} RunIsSchedule<T>(sts: seq<State<T>>, evs: seq<Event<T>>, cap: nat, n: nat, i: nat, ev: Event<T>)
    requires IsRun(sts, evs, cap, n) && i < |sts|
    ensures After(Init(cap, n), evs[..i]) == sts[i]
    ensures !Enabled(sts[i], ev) ==> After(Init(cap, n), evs[..i] + [ev]) == sts[i]
    decreases i
  {
    if i > 0 {
      RunIsSchedule(sts, evs, cap, n, i - 1, ev);
      assert evs[..i][..i - 1] == evs[..i - 1] && StepAt(sts, evs, i - 1);
    }
    assert (evs[..i] + [ev])[..i] == evs[..i];
  }

  /** The queue's contents: the items put but not claimed for getting. */
  ghost function Contents<T>(st: State<T>): seq<T>
    requires Bounds(st)
  {
    st.items[st.deq..]
  }

  /** Each step leaves the contents alone, appends the stepping thread's item to fewer than cap
      items, or takes the first item for the stepping thread. */
  ghost predicate FifoStep<T>(st: State<T>, a: nat, st': State<T>)
    requires Bounds(st) && Bounds(st') && a < |st'.threads|
  {
    var c, c' := Contents(st), Contents(st');
    || c' == c
    || (|c| < st.cap && st'.threads[a].PutClaimed? && st'.threads[a].pos == st.enq
        && c' == c + [st'.threads[a].item])
    || (|c| > 0 && c' == c[1..] && st'.threads[a] == GetClaimed(st.deq)
        && st.deq < |st'.items| && st'.items[st.deq] == c[0])
  }

  /** The ring refines a bounded FIFO queue: claims are its operations, in ticket order. */
  lemma StepRefinesFifo<T>(st: State<T>, ev: Event<T>)
    requires Inv(st) && Enabled(st, ev)
    ensures Inv(Apply(st, ev)) && Apply(st, ev).cap == st.cap && FifoStep(st, ev.a, Apply(st, ev))
  {
    StepKeeps(st, ev);
    var st', a := Apply(st, ev), ev.a;
    if st'.enq == st.enq + 1 {
      var item := st.threads[a].item;
      assert st'.items[st'.deq..] == st.items[st.deq..] + [item];
      assert ThreadOk(st, a) && CellOk(st, Cell(st, st.enq));
      PutSlot(st);
    } else if st'.deq == st.deq + 1 {
      assert st'.items[st'.deq..] == st.items[st.deq..][1..];
    }
  }

  /** In every run each dequeue call returns the item that the producer with the same ticket put,
      and no ticket is returned twice. */
  lemma ReturnsAreRight<T>(sts: seq<State<T>>, evs: seq<Event<T>>, cap: nat, n: nat, i: nat)
    requires IsRun(sts, evs, cap, n) && i < |sts|
    ensures var st := sts[i];
      && |st.items| == st.enq && st.deq <= st.enq <= st.deq + cap
      && (forall j :: 0 <= j < |st.outs| ==> st.outs[j].0 < st.deq && st.outs[j].1 == Some(st.items[st.outs[j].0]))
      && (forall j, k :: 0 <= j < k < |st.outs| ==> st.outs[j].0 != st.outs[k].0)
  {
    RunInv(sts, evs, cap, n, i);
    forall j | 0 <= j < |sts[i].outs|
      ensures sts[i].outs[j].0 < sts[i].deq && sts[i].outs[j].1 == Some(sts[i].items[sts[i].outs[j].0])
    {
      assert ReturnOk(sts[i], j);
    }
  }

  /** A producer about to store its item overwrites nothing that is still wanted: every earlier
      ticket of its cell has been returned by a dequeue call. */
  lemma NothingOverwritten<T>(st: State<T>, a: nat, t: nat)
    requires Inv(st) && a < |st.threads| && st.threads[a].PutClaimed?
    requires t < st.threads[a].pos && Cell(st, t) == Cell(st, st.threads[a].pos)
    ensures t < st.deq && Returned(st, t)
  {
    var pos := st.threads[a].pos;
    assert ThreadOk(st, a) && CellOk(st, Cell(st, pos));
    SameCell(t, pos, st.cap);
    assert Free(st, Cell(st, pos), pos) by { if pos > 0 { Neighbours(pos - 1, st.cap); } }
    assert TicketOk(st, t);
    HeldForGet(st, t);
  }

  lemma HeldForGet<T>(st: State<T>, t: nat)
    requires Inv(st) && t < st.deq
    ensures Gets(st, st.gotBy[t], t) ==> SeqOf(st, t) == t + 1
  {
    if Gets(st, st.gotBy[t], t) {
      assert ThreadOk(st, st.gotBy[t]);
    }
  }

  /** Ticket t, one lap back, is still being put, waits to be got, or is being got. */
  ghost predicate Unreleased<T>(st: State<T>, t: nat)
    requires Shaped(st)
  {
    t < st.enq && (Puts(st, st.putBy[t], t) || t >= st.deq || Gets(st, st.gotBy[t], t))
  }

  /** The sequence number an enqueue call loads makes it give up exactly when its position is the
      next one and the ticket one lap back has not been released. */
  lemma PutGivesUpIff<T>(st: State<T>, pos: nat)
    requires Inv(st) && pos <= st.enq
    ensures SeqOf(st, pos) < pos <==> pos == st.enq && pos >= st.cap && Unreleased(st, pos - st.cap)
  {
    assert CellOk(st, Cell(st, pos));
    if SeqOf(st, pos) < pos {
      if pos < st.enq { ClaimedForPut(st, pos); }
      var s := SeqOf(st, pos);
      if Free(st, Cell(st, pos), s) {
        SameCell(s, pos, st.cap);
      } else {
        SameCell(s - 1, pos, st.cap);
      }
    }
    if pos == st.enq && pos >= st.cap && Unreleased(st, pos - st.cap) {
      LapBack(st, pos - st.cap);
    }
  }

  lemma LapBack<T>(st: State<T>, t: nat)
    requires Inv(st) && Unreleased(st, t) && st.enq == t + st.cap
    ensures SeqOf(st, t + st.cap) <= t + 1
  {
    NextLap(t, st.cap);
    assert Cell(st, t + st.cap) == Cell(st, t);
    assert CellOk(st, Cell(st, t));
    if Puts(st, st.putBy[t], t) {
      assert ThreadOk(st, st.putBy[t]);
    } else if t < st.deq {
      assert ThreadOk(st, st.gotBy[t]);
    } else {
      var s := SeqOf(st, t);
      if s > t + 1 {
        if Free(st, Cell(st, t), s) {
          SameCell(t, s, st.cap);
        } else {
          SameCell(t, s - 1, st.cap);
        }
      }
    }
  }

  /** The sequence number a dequeue call loads makes it give up exactly when its position is the
      next one and no published item is there: the queue is empty, or its first ticket is still
      being put. */
  lemma GetGivesUpIff<T>(st: State<T>, pos: nat)
    requires Inv(st) && pos <= st.deq
    ensures SeqOf(st, pos) < pos + 1 <==>
      pos == st.deq && (st.deq == st.enq || Puts(st, st.putBy[st.deq], st.deq))
  {
    assert CellOk(st, Cell(st, pos));
    var s := SeqOf(st, pos);
    if pos == st.deq < st.enq && Puts(st, st.putBy[pos], pos) {
      assert ThreadOk(st, st.putBy[pos]);
    }
    if pos < st.deq {
      ClaimedForGet(st, pos);
    } else if s >= pos + 1 {
      GetSlot(st);
    } else if st.deq < st.enq && !Free(st, Cell(st, pos), s) {
      SameCell(s - 1, pos, st.cap);
    }
  }

  /** A sequence number that a thread holds was loaded earlier in the same call. */
  lemma {:induction false} LoadedAt<T>(sts: seq<State<T>>, evs: seq<Event<T>>, cap: nat, n: nat, i: nat, a: nat)
    returns (k: nat)
    requires IsRun(sts, evs, cap, n) && i < |sts| && a < |sts[i].threads|
    requires sts[i].threads[a].PutSeen? || sts[i].threads[a].GetSeen?
    ensures k < i && evs[k] == Step(a) && Inv(sts[k]) && a < |sts[k].threads|
    ensures var l, before := sts[i].threads[a], sts[k].threads[a];
      && before == (if l.PutSeen? then PutAt(l.item, l.pos) else GetAt(l.pos))
      && l.seen == SeqOf(sts[k], l.pos)
    ensures forall m :: k < m <= i ==> a < |sts[m].threads| && sts[m].threads[a] == sts[i].threads[a]
    decreases i
  {
    RunInv(sts, evs, cap, n, i);
    assert i > 0;
    RunInv(sts, evs, cap, n, i - 1);
    assert StepAt(sts, evs, i - 1);
    if evs[i - 1].a == a && sts[i - 1].threads[a] != sts[i].threads[a] {
      k := i - 1;
    } else {
      k := LoadedAt(sts, evs, cap, n, i - 1, a);
    }
  }

  /** In every run an enqueue call that returns false had seen, while it ran, a state in which all
      positions were taken: its position was the next one and the ticket one lap back had not
      been released. */
  lemma PutGaveUp<T>(sts: seq<State<T>>, evs: seq<Event<T>>, cap: nat, n: nat, i: nat, a: nat) returns (k: nat)
    requires IsRun(sts, evs, cap, n) && i < |evs| && evs[i] == Step(a)
    requires a < |sts[i].threads| && sts[i].threads[a].PutSeen?
    requires a < |sts[i + 1].threads| && sts[i + 1].threads[a] == Idle
    ensures k < i && evs[k] == Step(a) && Inv(sts[k]) && a < |sts[k].threads|
    ensures var pos := sts[i].threads[a].pos;
      && sts[k].threads[a] == PutAt(sts[i].threads[a].item, pos)
      && pos == sts[k].enq && pos >= cap && Unreleased(sts[k], pos - cap)
    ensures forall m :: k < m <= i ==> a < |sts[m].threads| && sts[m].threads[a] == sts[i].threads[a]
  {
    k := LoadedAt(sts, evs, cap, n, i, a);
    RunInv(sts, evs, cap, n, k);
    assert StepAt(sts, evs, i) && ThreadOk(sts[k], a);
    PutGivesUpIff(sts[k], sts[i].threads[a].pos);
  }

  /** In every run a dequeue call that returns false had seen, while it ran, a state without a
      published item at the head: the queue was empty, or its first ticket was still being put. */
  lemma GetGaveUp<T>(sts: seq<State<T>>, evs: seq<Event<T>>, cap: nat, n: nat, i: nat, a: nat) returns (k: nat)
    requires IsRun(sts, evs, cap, n) && i < |evs| && evs[i] == Step(a)
    requires a < |sts[i].threads| && sts[i].threads[a].GetSeen?
    requires a < |sts[i + 1].threads| && sts[i + 1].threads[a] == Idle
    ensures k < i && evs[k] == Step(a) && Inv(sts[k]) && a < |sts[k].threads|
    ensures var st := sts[k];
      && st.threads[a] == GetAt(sts[i].threads[a].pos) && sts[i].threads[a].pos == st.deq
      && (st.deq == st.enq || Puts(st, st.putBy[st.deq], st.deq))
    ensures forall m :: k < m <= i ==> a < |sts[m].threads| && sts[m].threads[a] == sts[i].threads[a]
  {
    k := LoadedAt(sts, evs, cap, n, i, a);
    assert StepAt(sts, evs, i) && ThreadOk(sts[k], a);
    GetGivesUpIff(sts[k], sts[i].threads[a].pos);
  }

  /** When every thread is idle nothing is lost: each ticket got has been returned, and each item
      not yet got sits published in its cell. */
  lemma AtRest<T>(st: State<T>)
    requires Inv(st) && forall a :: 0 <= a < |st.threads| ==> st.threads[a] == Idle
    ensures forall t :: 0 <= t < st.deq ==> Returned(st, t)
    ensures forall t {:trigger Cell(st, t)} :: st.deq <= t < st.enq ==>
      SeqOf(st, t) == t + 1 && st.data[Cell(st, t)] == Some(st.items[t])
  {
    forall t | 0 <= t < st.deq ensures Returned(st, t) {
      assert TicketOk(st, t);
    }
    forall t | st.deq <= t < st.enq
      ensures SeqOf(st, t) == t + 1 && st.data[Cell(st, t)] == Some(st.items[t])
    {
      var i := Cell(st, t);
      assert CellOk(st, i);
      var s := SeqOf(st, t);
      ClaimedForPut(st, t);
      if Free(st, i, s) {
        assert s >= st.enq;
        SameCell(t, s, st.cap);
      } else {
        assert Full(st, i, s - 1);
        if s - 1 < t { SameCell(s - 1, t, st.cap); }
        if s - 1 > t { SameCell(t, s - 1, st.cap); }
      }
    }
  }

  // ----- one consumer

  ghost predicate IsGetting<T>(l: Local<T>) {
    l.GetAt? || l.GetSeen? || l.GetClaimed? || l.GetRead?
  }

  ghost predicate HoldsTicket<T>(st: State<T>, c: nat) {
    c < |st.threads| && (st.threads[c].GetClaimed? || st.threads[c].GetRead?)
  }

  /** Only thread c ever dequeues, and its returns are the tickets in order. */
  ghost predicate InOrder<T>(st: State<T>, c: nat)
    requires Shaped(st)
  {
    && (forall a :: 0 <= a < |st.threads| && a != c ==> !IsGetting(st.threads[a]))
    && (forall j :: 0 <= j < |st.outs| ==> st.outs[j].0 == j)
    && st.deq == |st.outs| + (if HoldsTicket(st, c) then 1 else 0)
    && (HoldsTicket(st, c) ==> st.threads[c].pos == |st.outs|)
  }

  lemma InOrderStep<T>(st: State<T>, ev: Event<T>, c: nat)
    requires Inv(st) && Enabled(st, ev) && InOrder(st, c) && (ev.BeginGet? ==> ev.a == c)
    ensures Shaped(Apply(st, ev)) && InOrder(Apply(st, ev), c)
  {
    StepKeeps(st, ev);
    assert ThreadOk(st, ev.a);
  }

  /** With a single consumer the dequeue calls return the items in exactly the order in which the
      enqueue calls claimed their tickets. */
  lemma {:induction false} OneConsumerInOrder<T>(sts: seq<State<T>>, evs: seq<Event<T>>, cap: nat, n: nat, c: nat, i: nat)
    requires IsRun(sts, evs, cap, n) && i < |sts|
    requires forall k :: 0 <= k < |evs| && evs[k].BeginGet? ==> evs[k].a == c
    ensures Inv(sts[i]) && InOrder(sts[i], c)
    ensures |sts[i].outs| <= |sts[i].items|
    ensures forall j :: 0 <= j < |sts[i].outs| ==> sts[i].outs[j] == (j, Some(sts[i].items[j]))
    decreases i
  {
    RunInv(sts, evs, cap, n, i);
    if i > 0 {
      OneConsumerInOrder(sts, evs, cap, n, c, i - 1);
      assert StepAt(sts, evs, i - 1);
      InOrderStep(sts[i - 1], evs[i - 1], c);
    }
    forall j | 0 <= j < |sts[i].outs| ensures sts[i].outs[j] == (j, Some(sts[i].items[j])) {
      assert ReturnOk(sts[i], j);
    }
  }
}
