/** The queue in place: arrays of sequence numbers and data, two positions, and the local state
    of each thread. Each atomic action of a thread is one call of `Do`; a schedule of them is any
    interleaving, and what it does is what the state machine says. */
module MpmcQueues {
  import opened Wrappers
  import opened Ring
  import opened Bits
  import opened BoundedQueue

  class MpmcQueue<T> {
    const sequence: array<nat>
    const data: array<Option<T>>
    const threads: array<Local<T>>
    const mask: nat
    var enqueuePos: nat
    var dequeuePos: nat
    ghost var items: seq<T>
    ghost var putBy: seq<nat>
    ghost var gotBy: seq<nat>
    ghost var outs: seq<(nat, Option<T>)>

    ghost predicate Valid()
      reads this
    {
      && sequence.Length == data.Length == mask + 1 >= 2 && IsPow2(mask + 1)
      && |items| == enqueuePos && |putBy| == enqueuePos && |gotBy| == dequeuePos
    }

    ghost function View(): State<T>
      reads this, sequence, data, threads
    {
      State(mask + 1, sequence[..], data[..], enqueuePos, dequeuePos, threads[..],
            items, putBy, gotBy, outs)
    }

    constructor (size: nat, n: nat)
      requires size >= 2 && IsPow2(size)
      ensures Valid() && View() == Init(size, n)
      ensures fresh(sequence) && fresh(data) && fresh(threads)
    {
      mask := size - 1;
      sequence := new nat[size](i => i);
      data := new Option<T>[size](_ => None);
      threads := new Local<T>[n](_ => Idle);
      enqueuePos, dequeuePos := 0, 0;
      items, putBy, gotBy, outs := [], [], [], [];
    }

    /** The size must be a power of two, at least two. */
    static method Create(size: nat, n: nat) returns (r: Option<MpmcQueue<T>>)
      ensures r.Some? <==> size >= 2 && IsPow2(size)
      ensures r.Some? ==> fresh(r.value) && r.value.Valid() && r.value.View() == Init(size, n)
    {
      if size > 0 { PowerOfTwoTest(size); }
      if !(size >= 2 && And(size, size - 1) == 0) {
        return None;
      }
      var q := new MpmcQueue<T>(size, n);
      return Some(q);
    }

    lemma MaskFindsCell(pos: nat)
      requires Valid()
      ensures And(pos, mask) == Cell(View(), pos) < mask + 1
    {
      var k: nat :| mask + 1 == Pow2(k);
      MaskIsMod(pos, k);
    }

    /** One atomic action of an enqueue call. */
    method PutStep(a: nat)
      requires Valid() && a < threads.Length
      requires threads[a].PutAt? || threads[a].PutSeen? || threads[a].PutClaimed? || threads[a].PutWritten?
      modifies this, sequence, data, threads
      ensures Valid() && View() == Apply(old(View()), Step(a))
    {
      var pos := threads[a].pos;
      MaskFindsCell(pos);
      var cell := And(pos, mask);
      match threads[a]
      case PutAt(item, _) =>
        threads[a] := PutSeen(item, pos, sequence[cell]);
      case PutSeen(item, _, seen) =>
        var dif := seen - pos;
        if dif == 0 {
          if enqueuePos == pos {
            enqueuePos := pos + 1;
            items, putBy := items + [item], putBy + [a];
            threads[a] := PutClaimed(item, pos);
          } else {
            threads[a] := PutAt(item, enqueuePos);
          }
        } else if dif < 0 {
          threads[a] := Idle;
        } else {
          threads[a] := PutAt(item, enqueuePos);
        }
      case PutClaimed(item, _) =>
        data[cell] := Some(item);
        threads[a] := PutWritten(item, pos);
      case PutWritten(item, _) =>
        sequence[cell] := pos + 1;
        threads[a] := Idle;
    }

    /** One atomic action of a dequeue call. */
    method GetStep(a: nat)
      requires Valid() && a < threads.Length
      requires threads[a].GetAt? || threads[a].GetSeen? || threads[a].GetClaimed? || threads[a].GetRead?
      modifies this, sequence, data, threads
      ensures Valid() && View() == Apply(old(View()), Step(a))
    {
      var pos := threads[a].pos;
      MaskFindsCell(pos);
      var cell := And(pos, mask);
      match threads[a]
      case GetAt(_) =>
        threads[a] := GetSeen(pos, sequence[cell]);
      case GetSeen(_, seen) =>
        var dif := seen - (pos + 1);
        if dif == 0 {
          if dequeuePos == pos {
            dequeuePos := pos + 1;
            gotBy := gotBy + [a];
            threads[a] := GetClaimed(pos);
          } else {
            threads[a] := GetAt(dequeuePos);
          }
        } else if dif < 0 {
          threads[a] := Idle;
        } else {
          threads[a] := GetAt(dequeuePos);
        }
      case GetClaimed(_) =>
        threads[a] := GetRead(pos, data[cell]);
        data[cell] := None;
      case GetRead(_, value) =>
        sequence[cell] := pos + mask + 1;
        outs := outs + [(pos, value)];
        threads[a] := Idle;
    }

    /** One atomic action of thread ev.a, in place. */
    method Do(ev: Event<T>)
      requires Valid() && Enabled(View(), ev)
      modifies this, sequence, data, threads
      ensures Valid() && View() == Apply(old(View()), ev)
    {
      match ev
      case BeginPut(a, item) => threads[a] := PutAt(item, enqueuePos);
      case BeginGet(a) => threads[a] := GetAt(dequeuePos);
      case Step(a) =>
        if threads[a].PutAt? || threads[a].PutSeen? || threads[a].PutClaimed? || threads[a].PutWritten? {
          PutStep(a);
        } else {
          GetStep(a);
        }
    }

    /** Any interleaving of the threads' atomic actions. */
    method Execute(schedule: seq<Event<T>>)
      requires Valid() && Inv(View())
      modifies this, sequence, data, threads
      ensures Valid() && View() == After(old(View()), schedule) && Inv(View())
    {
      var i := 0;
      while i < |schedule|
        invariant 0 <= i <= |schedule| && Valid() && Inv(View())
        invariant View() == After(old(View()), schedule[..i])
      {
        var ev := schedule[i];
        assert schedule[..i + 1][..i] == schedule[..i];
        var enabled := ev.a < threads.Length && (ev.Step? == !threads[ev.a].Idle?);
        if enabled {
          StepKeeps(View(), ev);
          Do(ev);
        }
        i := i + 1;
      }
      assert schedule[..i] == schedule;
    }
  }
}
