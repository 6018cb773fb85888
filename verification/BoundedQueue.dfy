/** The bounded multi-producer multi-consumer queue as a state machine: each atomic load, each
    compare-and-swap and each store of each thread is one step, for any number of threads.

    Ticket t lives in cell t % cap. A cell whose sequence number is t is free for ticket t;
    sequence number t + 1 says that ticket t has been published. */
module BoundedQueue {
  import opened Wrappers
  import opened Bits

  /** Where a thread is inside enqueue or dequeue, with its local variables. */
  datatype Local<T> =
    | Idle
    | PutAt(item: T, pos: nat)               // position loaded
    | PutSeen(item: T, pos: nat, seen: nat)  // sequence number loaded
    | PutClaimed(item: T, pos: nat)          // compare-and-swap won
    | PutWritten(item: T, pos: nat)          // data stored, not yet published
    | GetAt(pos: nat)
    | GetSeen(pos: nat, seen: nat)
    | GetClaimed(pos: nat)
    | GetRead(pos: nat, value: Option<T>)    // data moved out, cell not yet released

  /** `items`, `putBy`, `gotBy` and `outs` record the history: the item of each ticket, who
      claimed it for putting and for getting, and what dequeue calls have returned. */
  datatype State<T> = State(
    cap: nat,
    seqs: seq<nat>,
    data: seq<Option<T>>,
    enq: nat,
    deq: nat,
    threads: seq<Local<T>>,
    items: seq<T>,
    putBy: seq<nat>,
    gotBy: seq<nat>,
    outs: seq<(nat, Option<T>)>)

  datatype Event<T> =
    | BeginPut(a: nat, item: T)
    | BeginGet(a: nat)
    | Step(a: nat)

  function Init<T>(cap: nat, n: nat): State<T> {
    State(cap, seq(cap, i => i), seq(cap, _ => None), 0, 0, seq(n, _ => Idle), [], [], [], [])
  }

  predicate Shaped<T>(st: State<T>) {
    && st.cap >= 2 && |st.seqs| == st.cap && |st.data| == st.cap
    && |st.items| == st.enq && |st.putBy| == st.enq && |st.gotBy| == st.deq
  }

  /** The cell of a ticket. */
  function Cell<T>(st: State<T>, t: nat): (i: nat)
    requires Shaped(st)
    ensures i < st.cap
  {
    t % st.cap
  }

  function SeqOf<T>(st: State<T>, t: nat): nat
    requires Shaped(st)
  {
    st.seqs[Cell(st, t)]
  }

  predicate Enabled<T>(st: State<T>, ev: Event<T>) {
    && Shaped(st) && ev.a < |st.threads|
    && (ev.Step? <==> st.threads[ev.a] != Idle)
  }

  function Goto<T>(st: State<T>, a: nat, l: Local<T>): State<T>
    requires a < |st.threads|
  {
    st.(threads := st.threads[a := l])
  }

  function Apply<T>(st: State<T>, ev: Event<T>): State<T>
    requires Enabled(st, ev)
  {
    match ev
    case BeginPut(a, item) => Goto(st, a, PutAt(item, st.enq))
    case BeginGet(a) => Goto(st, a, GetAt(st.deq))
    case Step(a) =>
      match st.threads[a]
      case PutAt(item, pos) => Goto(st, a, PutSeen(item, pos, SeqOf(st, pos)))
      case PutSeen(item, pos, seen) =>
        if seen == pos then
          if st.enq == pos then ClaimPut(st, a, item) else Goto(st, a, PutAt(item, st.enq))
        else if seen < pos then Goto(st, a, Idle)
        else Goto(st, a, PutAt(item, st.enq))
      case PutClaimed(item, pos) => Write(st, a, item, pos)
      case PutWritten(item, pos) => Publish(st, a, pos)
      case GetAt(pos) => Goto(st, a, GetSeen(pos, SeqOf(st, pos)))
      case GetSeen(pos, seen) =>
        if seen == pos + 1 then
          if st.deq == pos then ClaimGet(st, a) else Goto(st, a, GetAt(st.deq))
        else if seen < pos + 1 then Goto(st, a, Idle)
        else Goto(st, a, GetAt(st.deq))
      case GetClaimed(pos) => Read(st, a, pos)
      case GetRead(pos, value) => Release(st, a, pos, value)
  }

  /** A won compare-and-swap on the enqueue position. */
  function ClaimPut<T>(st: State<T>, a: nat, item: T): State<T>
    requires a < |st.threads|
  {
    st.(enq := st.enq + 1, items := st.items + [item], putBy := st.putBy + [a],
        threads := st.threads[a := PutClaimed(item, st.enq)])
  }

  function Write<T>(st: State<T>, a: nat, item: T, pos: nat): State<T>
    requires Shaped(st) && a < |st.threads|
  {
    st.(data := st.data[Cell(st, pos) := Some(item)], threads := st.threads[a := PutWritten(item, pos)])
  }

  function Publish<T>(st: State<T>, a: nat, pos: nat): State<T>
    requires Shaped(st) && a < |st.threads|
  {
    st.(seqs := st.seqs[Cell(st, pos) := pos + 1], threads := st.threads[a := Idle])
  }

  /** A won compare-and-swap on the dequeue position. */
  function ClaimGet<T>(st: State<T>, a: nat): State<T>
    requires a < |st.threads|
  {
    st.(deq := st.deq + 1, gotBy := st.gotBy + [a], threads := st.threads[a := GetClaimed(st.deq)])
  }

  /** Moves the data out of the cell. */
  function Read<T>(st: State<T>, a: nat, pos: nat): State<T>
    requires Shaped(st) && a < |st.threads|
  {
    st.(data := st.data[Cell(st, pos) := None],
        threads := st.threads[a := GetRead(pos, st.data[Cell(st, pos)])])
  }

  function Release<T>(st: State<T>, a: nat, pos: nat, value: Option<T>): State<T>
    requires Shaped(st) && a < |st.threads|
  {
    st.(seqs := st.seqs[Cell(st, pos) := pos + st.cap], threads := st.threads[a := Idle],
        outs := st.outs + [(pos, value)])
  }

  /** The states a schedule leads to; events that are not enabled are skipped. */
  function After<T>(st: State<T>, schedule: seq<Event<T>>): State<T> {
    if schedule == [] then st
    else
      var before := After(st, schedule[..|schedule| - 1]);
      var ev := schedule[|schedule| - 1];
      if Enabled(before, ev) then Apply(before, ev) else before
  }

  // ----- invariant

  /** Thread a holds ticket t for putting. */
  predicate Puts<T>(st: State<T>, a: nat, t: nat) {
    && a < |st.threads|
    && (st.threads[a].PutClaimed? || st.threads[a].PutWritten?)
    && st.threads[a].pos == t
  }

  /** Thread a holds ticket t for getting. */
  predicate Gets<T>(st: State<T>, a: nat, t: nat) {
    && a < |st.threads|
    && (st.threads[a].GetClaimed? || st.threads[a].GetRead?)
    && st.threads[a].pos == t
  }

  ghost predicate Bounds<T>(st: State<T>) {
    Shaped(st) && st.deq <= st.enq <= st.deq + st.cap
  }

  /** Cell i is free for ticket s: nobody holds it yet, or the thread that claimed it is still
      putting. */
  ghost predicate Free<T>(st: State<T>, i: nat, s: nat)
    requires Shaped(st)
  {
    && Cell(st, s) == i && st.deq <= s < st.deq + st.cap
    && (s < st.enq ==> Puts(st, st.putBy[s], s))
  }

  /** Cell i holds the published ticket t: not claimed yet, with its item in place, or the thread
      that claimed it is still getting. */
  ghost predicate Full<T>(st: State<T>, i: nat, t: nat)
    requires Shaped(st)
  {
    && Cell(st, t) == i && t < st.enq <= t + st.cap
    && (t >= st.deq ==> st.data[i] == Some(st.items[t]))
    && (t < st.deq ==> Gets(st, st.gotBy[t], t))
  }

  ghost predicate CellOk<T>(st: State<T>, i: nat)
    requires Shaped(st) && i < st.cap
  {
    var s := st.seqs[i];
    Free(st, i, s) || (s > 0 && Full(st, i, s - 1))
  }

  /** What a thread knows. */
  ghost predicate ThreadOk<T>(st: State<T>, a: nat)
    requires Shaped(st) && a < |st.threads|
  {
    match st.threads[a]
    case Idle => true
    case PutAt(item, pos) => pos <= st.enq
    case PutSeen(item, pos, seen) => pos <= st.enq && seen <= SeqOf(st, pos)
    case PutClaimed(item, pos) =>
      pos < st.enq && st.putBy[pos] == a && SeqOf(st, pos) == pos && st.items[pos] == item
    case PutWritten(item, pos) =>
      pos < st.enq && st.putBy[pos] == a && SeqOf(st, pos) == pos && st.items[pos] == item
      && st.data[Cell(st, pos)] == Some(item)
    case GetAt(pos) => pos <= st.deq
    case GetSeen(pos, seen) => pos <= st.deq && seen <= SeqOf(st, pos)
    case GetClaimed(pos) =>
      pos < st.deq <= st.enq && st.gotBy[pos] == a && SeqOf(st, pos) == pos + 1
      && st.data[Cell(st, pos)] == Some(st.items[pos])
    case GetRead(pos, value) =>
      pos < st.deq <= st.enq && st.gotBy[pos] == a && SeqOf(st, pos) == pos + 1
      && value == Some(st.items[pos])
  }

  ghost predicate Returned<T>(st: State<T>, t: nat) {
    exists j :: 0 <= j < |st.outs| && st.outs[j].0 == t
  }

  /** A claimed ticket is still held by its getter, or has been returned. */
  ghost predicate TicketOk<T>(st: State<T>, t: nat)
    requires Shaped(st) && t < st.deq
  {
    Gets(st, st.gotBy[t], t) || Returned(st, t)
  }

  /** The j-th return gave the item of its ticket, whose cell had been released by then. */
  ghost predicate ReturnOk<T>(st: State<T>, j: nat)
    requires Bounds(st) && j < |st.outs|
  {
    var t := st.outs[j].0;
    t < st.deq && st.outs[j].1 == Some(st.items[t]) && SeqOf(st, t) >= t + st.cap
  }

  ghost predicate Cells<T>(st: State<T>)
    requires Shaped(st)
  {
    forall i {:trigger CellOk(st, i)} :: 0 <= i < st.cap ==> CellOk(st, i)
  }

  ghost predicate Threads<T>(st: State<T>)
    requires Shaped(st)
  {
    forall a {:trigger ThreadOk(st, a)} :: 0 <= a < |st.threads| ==> ThreadOk(st, a)
  }

  /** Claimed tickets are held or returned; returns are right, and no ticket is returned twice. */
  ghost predicate History<T>(st: State<T>)
    requires Bounds(st)
  {
    && (forall t {:trigger TicketOk(st, t)} :: 0 <= t < st.deq ==> TicketOk(st, t))
    && (forall j {:trigger ReturnOk(st, j)} :: 0 <= j < |st.outs| ==> ReturnOk(st, j))
    && (forall i, j :: 0 <= i < j < |st.outs| ==> st.outs[i].0 != st.outs[j].0)
  }

  ghost predicate Inv<T>(st: State<T>) {
    Bounds(st) && Cells(st) && Threads(st) && History(st)
  }

  // ----- arithmetic of laps

  /** Tickets of one cell are a whole number of laps apart. */
  lemma SameCell(a: nat, b: nat, cap: nat)
    requires cap > 0 && a % cap == b % cap && a < b
    ensures a + cap <= b
  {
    var q := b / cap - a / cap;
    assert b - a == cap * q by {
      assert a == cap * (a / cap) + a % cap && b == cap * (b / cap) + b % cap;
    }
    TimesAtLeastOnce(cap, q);
  }

  lemma NextLap(t: nat, cap: nat)
    requires cap > 0
    ensures (t + cap) % cap == t % cap
  {
    var x := t + cap;
    var q := x / cap - t / cap - 1;
    assert x % cap - t % cap == -(cap * q) by {
      assert t == cap * (t / cap) + t % cap && x == cap * (x / cap) + x % cap;
    }
    TimesAtLeastOnce(cap, q);
  }

  /** Neighbouring tickets have different cells. */
  lemma Neighbours(t: nat, cap: nat)
    requires cap >= 2
    ensures t % cap != (t + 1) % cap
  {
    if t % cap == (t + 1) % cap {
      SameCell(t, t + 1, cap);
    }
  }

  // ----- what sequence numbers say

  /** A cell's sequence number is never behind a ticket that has been claimed for putting. */
  lemma ClaimedForPut<T>(st: State<T>, t: nat)
    requires Bounds(st) && t < st.enq && CellOk(st, Cell(st, t))
    ensures SeqOf(st, t) >= t
  {
    var s := SeqOf(st, t);
    if s < t {
      if Free(st, Cell(st, t), s) {
        SameCell(s, t, st.cap);
      } else {
        SameCell(s - 1, t, st.cap);
      }
    }
  }

  /** It has passed every ticket that has been claimed for getting. */
  lemma ClaimedForGet<T>(st: State<T>, t: nat)
    requires Bounds(st) && t < st.deq && CellOk(st, Cell(st, t))
    ensures SeqOf(st, t) >= t + 1
  {
    var s := SeqOf(st, t);
    if s <= t && !Free(st, Cell(st, t), s) {
      SameCell(s - 1, t, st.cap);
    }
  }

  /** The next ticket to put finds its cell free as soon as the sequence number has caught up. */
  lemma PutSlot<T>(st: State<T>)
    requires Bounds(st) && CellOk(st, Cell(st, st.enq)) && SeqOf(st, st.enq) >= st.enq
    ensures SeqOf(st, st.enq) == st.enq && st.enq < st.deq + st.cap
  {
    var s := SeqOf(st, st.enq);
    if Free(st, Cell(st, st.enq), s) {
      if s > st.enq { SameCell(st.enq, s, st.cap); }
    } else {
      SameCell(s - 1, st.enq, st.cap);
    }
  }

  /** The next ticket to get finds its item in place as soon as the sequence number says so. */
  lemma GetSlot<T>(st: State<T>)
    requires Bounds(st) && CellOk(st, Cell(st, st.deq)) && SeqOf(st, st.deq) >= st.deq + 1
    ensures SeqOf(st, st.deq) == st.deq + 1 && Full(st, Cell(st, st.deq), st.deq)
  {
    var s := SeqOf(st, st.deq);
    if Free(st, Cell(st, st.deq), s) {
      SameCell(st.deq, s, st.cap);
    } else if s - 1 > st.deq {
      SameCell(st.deq, s - 1, st.cap);
    }
  }

  // ----- every step keeps the invariant

  /** Sequence numbers grow, histories extend, and no other thread moves. */
  ghost predicate Moves<T>(st: State<T>, a: nat, st': State<T>)
    requires Shaped(st) && Shaped(st')
  {
    && st'.cap == st.cap && a < |st.threads| && |st'.threads| == |st.threads|
    && (forall b {:trigger st'.threads[b]} :: 0 <= b < |st.threads| && b != a ==> st'.threads[b] == st.threads[b])
    && (forall i {:trigger st'.seqs[i]} :: 0 <= i < st.cap ==> st'.seqs[i] >= st.seqs[i])
    && st.items <= st'.items && st.putBy <= st'.putBy && st.gotBy <= st'.gotBy
  }

  /** A step that neither returns nor takes a ticket keeps the history. */
  lemma HistoryKept<T>(st: State<T>, a: nat, st': State<T>)
    requires Bounds(st) && Bounds(st') && History(st) && Moves(st, a, st') && st'.outs == st.outs
    requires forall t :: Gets(st, a, t) ==> Gets(st', a, t)
    requires forall t :: st.deq <= t < st'.deq ==> Gets(st', st'.gotBy[t], t)
    ensures History(st')
  {
    forall t | 0 <= t < st'.deq ensures TicketOk(st', t) {
      if t < st.deq {
        assert TicketOk(st, t);
        assert Returned(st, t) ==> Returned(st', t);
      }
    }
    forall j | 0 <= j < |st'.outs| ensures ReturnOk(st', j) {
      assert ReturnOk(st, j);
    }
  }

  /** What other threads know survives a step, if the cells of the tickets they hold do. */
  lemma ThreadKept<T>(st: State<T>, a: nat, st': State<T>, b: nat)
    requires Bounds(st) && Bounds(st') && Moves(st, a, st') && b < |st.threads| && b != a && ThreadOk(st, b)
    requires forall t :: Puts(st, b, t) || Gets(st, b, t) ==>
      SeqOf(st', t) == SeqOf(st, t) && st'.data[Cell(st', t)] == st.data[Cell(st, t)]
    ensures ThreadOk(st', b)
  {
    var t := if st.threads[b].Idle? then 0 else st.threads[b].pos;
    assert Cell(st', t) == Cell(st, t);
  }

  // Steps that only move one thread between places where it holds no ticket.

  lemma GotoKeeps<T>(st: State<T>, a: nat, l: Local<T>)
    requires Inv(st) && a < |st.threads|
    requires !(exists t :: Puts(st, a, t)) && !(exists t :: Gets(st, a, t))
    requires !l.PutClaimed? && !l.PutWritten? && !l.GetClaimed? && !l.GetRead?
    requires ThreadOk(Goto(st, a, l), a)
    ensures Inv(Goto(st, a, l))
  {
    var st' := Goto(st, a, l);
    forall i | 0 <= i < st'.cap ensures CellOk(st', i) {
      assert CellOk(st, i);
      var s := st.seqs[i];
      assert Free(st, i, s) ==> Free(st', i, s);
      assert s > 0 && Full(st, i, s - 1) ==> Full(st', i, s - 1);
    }
    forall b | 0 <= b < |st'.threads| ensures ThreadOk(st', b) {
      if b != a {
        assert ThreadOk(st, b);
      }
    }
    HistoryKept(st, a, st');
  }

  // A won compare-and-swap on the enqueue position.

  lemma ClaimPutCell<T>(st: State<T>, a: nat, item: T, i: nat)
    requires Bounds(st) && a < |st.threads| && st.threads[a].PutSeen? && i < st.cap && CellOk(st, i)
    requires CellOk(st, Cell(st, st.enq)) && SeqOf(st, st.enq) >= st.enq
    ensures Shaped(ClaimPut(st, a, item)) && CellOk(ClaimPut(st, a, item), i)
  {
    var st' := ClaimPut(st, a, item);
    PutSlot(st);
    var s := st.seqs[i];
    if Free(st, i, s) {
      assert Free(st', i, s);
    } else {
      if s - 1 + st.cap == st.enq { NextLap(s - 1, st.cap); }
      assert Full(st', i, s - 1);
    }
  }

  lemma ClaimPutKeeps<T>(st: State<T>, a: nat, item: T)
    requires Inv(st) && a < |st.threads| && st.threads[a].PutSeen?
    requires SeqOf(st, st.enq) >= st.enq
    ensures Inv(ClaimPut(st, a, item))
  {
    var st' := ClaimPut(st, a, item);
    assert CellOk(st, Cell(st, st.enq));
    PutSlot(st);
    forall i | 0 <= i < st'.cap ensures CellOk(st', i) {
      assert CellOk(st, i);
      ClaimPutCell(st, a, item, i);
    }
    forall b | 0 <= b < |st'.threads| ensures ThreadOk(st', b) {
      assert ThreadOk(st, b);
      if b != a {
        ThreadKept(st, a, st', b);
      }
    }
    HistoryKept(st, a, st');
  }

  // Storing the data.

  lemma WriteCell<T>(st: State<T>, a: nat, item: T, pos: nat, i: nat)
    requires Bounds(st) && a < |st.threads| && st.threads[a] == PutClaimed(item, pos) && ThreadOk(st, a)
    requires i < st.cap && CellOk(st, i)
    ensures CellOk(Write(st, a, item, pos), i)
  {
    var st' := Write(st, a, item, pos);
    var s := st.seqs[i];
    if Free(st, i, s) {
      assert Free(st', i, s);
    } else {
      if i == Cell(st, pos) { Neighbours(s - 1, st.cap); }
      assert Full(st', i, s - 1);
    }
  }

  /** A cell belongs to at most one ticket holder at a time. */
  lemma HoldersApart<T>(st: State<T>, a: nat, b: nat, p: nat, q: nat)
    requires Bounds(st) && a < |st.threads| && b < |st.threads| && a != b
    requires ThreadOk(st, a) && ThreadOk(st, b)
    requires Puts(st, a, p) || Gets(st, a, p)
    requires Puts(st, b, q) || Gets(st, b, q)
    ensures Cell(st, p) != Cell(st, q)
  {
    Neighbours(p, st.cap);
    Neighbours(q, st.cap);
  }

  lemma WriteKeeps<T>(st: State<T>, a: nat, item: T, pos: nat)
    requires Inv(st) && a < |st.threads| && st.threads[a] == PutClaimed(item, pos)
    ensures Inv(Write(st, a, item, pos))
  {
    var st' := Write(st, a, item, pos);
    assert ThreadOk(st, a);
    forall i | 0 <= i < st'.cap ensures CellOk(st', i) {
      assert CellOk(st, i);
      WriteCell(st, a, item, pos, i);
    }
    forall b | 0 <= b < |st'.threads| ensures ThreadOk(st', b) {
      assert ThreadOk(st, b);
      if b != a {
        forall t | Puts(st, b, t) || Gets(st, b, t) ensures Cell(st, t) != Cell(st, pos) {
          HoldersApart(st, a, b, pos, t);
        }
        ThreadKept(st, a, st', b);
      }
    }
    HistoryKept(st, a, st');
  }

  // Publishing a ticket.

  lemma PublishCell<T>(st: State<T>, a: nat, item: T, pos: nat, i: nat)
    requires Bounds(st) && a < |st.threads| && st.threads[a] == PutWritten(item, pos) && ThreadOk(st, a)
    requires i < st.cap && CellOk(st, i)
    ensures CellOk(Publish(st, a, pos), i)
  {
    var st' := Publish(st, a, pos);
    var s := st.seqs[i];
    if i == Cell(st, pos) {
      assert Free(st, i, s) by { if s > 0 { Neighbours(s - 1, st.cap); } }
      assert Full(st', i, pos);
    } else {
      assert Free(st, i, s) ==> Free(st', i, s);
      assert s > 0 && Full(st, i, s - 1) ==> Full(st', i, s - 1);
    }
  }

  lemma PublishKeeps<T>(st: State<T>, a: nat, item: T, pos: nat)
    requires Inv(st) && a < |st.threads| && st.threads[a] == PutWritten(item, pos)
    ensures Inv(Publish(st, a, pos))
  {
    var st' := Publish(st, a, pos);
    assert ThreadOk(st, a);
    forall i | 0 <= i < st'.cap ensures CellOk(st', i) {
      assert CellOk(st, i);
      PublishCell(st, a, item, pos, i);
    }
    forall b | 0 <= b < |st'.threads| ensures ThreadOk(st', b) {
      assert ThreadOk(st, b);
      if b != a {
        forall t | Puts(st, b, t) || Gets(st, b, t) ensures Cell(st, t) != Cell(st, pos) {
          HoldersApart(st, a, b, pos, t);
        }
        ThreadKept(st, a, st', b);
      }
    }
    HistoryKept(st, a, st');
  }

  // A won compare-and-swap on the dequeue position.

  lemma ClaimGetCell<T>(st: State<T>, a: nat, i: nat)
    requires Bounds(st) && a < |st.threads| && st.threads[a].GetSeen? && i < st.cap && CellOk(st, i)
    requires CellOk(st, Cell(st, st.deq)) && SeqOf(st, st.deq) >= st.deq + 1
    ensures Shaped(ClaimGet(st, a)) && CellOk(ClaimGet(st, a), i)
  {
    var st' := ClaimGet(st, a);
    GetSlot(st);
    var s := st.seqs[i];
    if Free(st, i, s) {
      assert Free(st', i, s);
    } else {
      assert Full(st', i, s - 1);
    }
  }

  lemma ClaimGetKeeps<T>(st: State<T>, a: nat)
    requires Inv(st) && a < |st.threads| && st.threads[a].GetSeen?
    requires SeqOf(st, st.deq) >= st.deq + 1
    ensures Inv(ClaimGet(st, a))
  {
    var st' := ClaimGet(st, a);
    assert CellOk(st, Cell(st, st.deq));
    GetSlot(st);
    forall i | 0 <= i < st'.cap ensures CellOk(st', i) {
      assert CellOk(st, i);
      ClaimGetCell(st, a, i);
    }
    forall b | 0 <= b < |st'.threads| ensures ThreadOk(st', b) {
      assert ThreadOk(st, b);
      if b != a {
        ThreadKept(st, a, st', b);
      }
    }
    HistoryKept(st, a, st');
  }

  // Moving the data out.

  lemma ReadCell<T>(st: State<T>, a: nat, pos: nat, i: nat)
    requires Bounds(st) && a < |st.threads| && st.threads[a] == GetClaimed(pos) && ThreadOk(st, a)
    requires i < st.cap && CellOk(st, i)
    ensures CellOk(Read(st, a, pos), i)
  {
    var st' := Read(st, a, pos);
    var s := st.seqs[i];
    if Free(st, i, s) {
      assert Free(st', i, s);
    } else {
      assert Full(st', i, s - 1);
    }
  }

  lemma ReadKeeps<T>(st: State<T>, a: nat, pos: nat)
    requires Inv(st) && a < |st.threads| && st.threads[a] == GetClaimed(pos)
    ensures Inv(Read(st, a, pos))
  {
    var st' := Read(st, a, pos);
    assert ThreadOk(st, a);
    forall i | 0 <= i < st'.cap ensures CellOk(st', i) {
      assert CellOk(st, i);
      ReadCell(st, a, pos, i);
    }
    forall b | 0 <= b < |st'.threads| ensures ThreadOk(st', b) {
      assert ThreadOk(st, b);
      if b != a {
        forall t | Puts(st, b, t) || Gets(st, b, t) ensures Cell(st, t) != Cell(st, pos) {
          HoldersApart(st, a, b, pos, t);
        }
        ThreadKept(st, a, st', b);
      }
    }
    HistoryKept(st, a, st');
  }

  // Releasing the cell for the next lap.

  lemma ReleaseCell<T>(st: State<T>, a: nat, pos: nat, value: Option<T>, i: nat)
    requires Bounds(st) && a < |st.threads| && st.threads[a] == GetRead(pos, value) && ThreadOk(st, a)
    requires i < st.cap && CellOk(st, i)
    ensures CellOk(Release(st, a, pos, value), i)
  {
    var st' := Release(st, a, pos, value);
    var s := st.seqs[i];
    if i == Cell(st, pos) {
      assert Full(st, i, pos) by { Neighbours(pos, st.cap); }
      NextLap(pos, st.cap);
      assert Free(st', i, pos + st.cap);
    } else {
      assert Free(st, i, s) ==> Free(st', i, s);
      assert s > 0 && Full(st, i, s - 1) ==> Full(st', i, s - 1);
    }
  }

  lemma ReleaseHistory<T>(st: State<T>, a: nat, pos: nat, value: Option<T>)
    requires Bounds(st) && History(st) && a < |st.threads| && st.threads[a] == GetRead(pos, value) && ThreadOk(st, a)
    ensures History(Release(st, a, pos, value))
  {
    var st' := Release(st, a, pos, value);
    forall t | 0 <= t < st'.deq ensures TicketOk(st', t) {
      assert TicketOk(st, t);
      if t == pos {
        assert st'.outs[|st.outs|].0 == t;
      } else if Returned(st, t) {
        var j :| 0 <= j < |st.outs| && st.outs[j].0 == t;
        assert st'.outs[j].0 == t;
      }
    }
    forall j | 0 <= j < |st'.outs| ensures ReturnOk(st', j) && (j < |st.outs| ==> st.outs[j].0 != pos) {
      if j < |st.outs| {
        assert ReturnOk(st, j);
      }
    }
  }

  lemma ReleaseKeeps<T>(st: State<T>, a: nat, pos: nat, value: Option<T>)
    requires Inv(st) && a < |st.threads| && st.threads[a] == GetRead(pos, value)
    ensures Inv(Release(st, a, pos, value))
  {
    var st' := Release(st, a, pos, value);
    assert ThreadOk(st, a);
    forall i | 0 <= i < st'.cap ensures CellOk(st', i) {
      assert CellOk(st, i);
      ReleaseCell(st, a, pos, value, i);
    }
    forall b | 0 <= b < |st'.threads| ensures ThreadOk(st', b) {
      assert ThreadOk(st, b);
      if b != a {
        forall t | Puts(st, b, t) || Gets(st, b, t) ensures Cell(st, t) != Cell(st, pos) {
          HoldersApart(st, a, b, pos, t);
        }
        ThreadKept(st, a, st', b);
      }
    }
    ReleaseHistory(st, a, pos, value);
  }

  lemma InitInv<T>(cap: nat, n: nat)
    requires cap >= 2
    ensures Inv(Init<T>(cap, n))
  {
    var st := Init<T>(cap, n);
    forall i | 0 <= i < cap ensures CellOk(st, i) {
      SmallMod(i, cap);
      assert Free(st, i, i);
    }
  }

  lemma SmallMod(i: nat, cap: nat)
    requires i < cap
    ensures i % cap == i
  {
  }

  /** Every step of every thread keeps the invariant. */
  lemma StepKeeps<T>(st: State<T>, ev: Event<T>)
    requires Inv(st) && Enabled(st, ev)
    ensures Inv(Apply(st, ev))
  {
    var a := ev.a;
    assert ThreadOk(st, a);
    match ev
    case BeginPut(_, item) => GotoKeeps(st, a, PutAt(item, st.enq));
    case BeginGet(_) => GotoKeeps(st, a, GetAt(st.deq));
    case Step(_) =>
      match st.threads[a]
      case PutAt(item, pos) => GotoKeeps(st, a, PutSeen(item, pos, SeqOf(st, pos)));
      case PutSeen(item, pos, seen) =>
        if seen == pos && st.enq == pos { ClaimPutKeeps(st, a, item); }
        else if seen < pos { GotoKeeps(st, a, Idle); }
        else { GotoKeeps(st, a, PutAt(item, st.enq)); }
      case PutClaimed(item, pos) => WriteKeeps(st, a, item, pos);
      case PutWritten(item, pos) => PublishKeeps(st, a, item, pos);
      case GetAt(pos) => GotoKeeps(st, a, GetSeen(pos, SeqOf(st, pos)));
      case GetSeen(pos, seen) =>
        if seen == pos + 1 && st.deq == pos { ClaimGetKeeps(st, a); }
        else if seen < pos + 1 { GotoKeeps(st, a, Idle); }
        else { GotoKeeps(st, a, GetAt(st.deq)); }
      case GetClaimed(pos) => ReadKeeps(st, a, pos);
      case GetRead(pos, value) => ReleaseKeeps(st, a, pos, value);
  }
}
