/** Finger refreshes of all members, one after the other, until every lookup is short. */
module FingerRun {
  import opened Wrappers
  import opened Ring
  import opened Bits
  import opened Routing
  import opened Hops
  import opened Maintenance
  import opened Nodes
  import opened Settling

  /** Which slots calls with these random numbers refresh. */
  function SlotsOf(calls: seq<(Id, nat)>): (who: seq<(Id, nat)>)
    ensures |who| == |calls|
    ensures forall k :: 0 <= k < |calls| ==> who[k] == (calls[k].0, FingerIndex(calls[k].1))
  {
    seq(|calls|, k requires 0 <= k < |calls| => (calls[k].0, FingerIndex(calls[k].1)))
  }

  /** Refreshes for members and random numbers in any order. */
  method FixAll(net: Network, calls: seq<(Id, nat)>) returns (ghost ts: seq<Tables>)
    requires net.Valid() && forall k :: 0 <= k < |calls| ==> calls[k].0 in net.nodes
    modifies net`tables, net.Arrays()
    ensures net.Valid() && |ts| == |calls| + 1 && ts[0] == old(net.tables) && ts[|calls|] == net.tables
    ensures forall k {:trigger RefreshAt(ts, SlotsOf(calls), k)} :: 0 <= k < |calls| ==> RefreshAt(ts, SlotsOf(calls), k)
  {
    ts := [net.tables];
    ghost var who := SlotsOf(calls);
    var k := 0;
    while k < |calls|
      invariant 0 <= k <= |calls| && net.Valid() && Traced(ts, who, k)
      invariant ts[0] == old(net.tables) && ts[k] == net.tables
    {
      FixOne(net, calls[k].0, calls[k].1);
      TraceGrows(ts, who, k, net.tables);
      ts := ts + [net.tables];
      k := k + 1;
    }
    TraceRefreshes(ts, who);
  }

  /** The first k refreshes lead through these tables. */
  ghost predicate Traced(ts: seq<Tables>, who: seq<(Id, nat)>, k: nat) {
    && |ts| == k + 1 && k <= |who|
    && (forall j {:trigger who[j]} :: 0 <= j < k ==> OneRefresh(ts[j], who[j], ts[j + 1]))
  }

  lemma TraceGrows(ts: seq<Tables>, who: seq<(Id, nat)>, k: nat, T: Tables)
    requires Traced(ts, who, k) && k < |who| && OneRefresh(ts[k], who[k], T)
    ensures Traced(ts + [T], who, k + 1)
  {
  }

  lemma TraceRefreshes(ts: seq<Tables>, who: seq<(Id, nat)>)
    requires Traced(ts, who, |who|)
    ensures forall k {:trigger RefreshAt(ts, who, k)} :: 0 <= k < |who| ==> RefreshAt(ts, who, k)
  {
    forall j | 0 <= j < |who| ensures RefreshAt(ts, who, j) {
      assert OneRefresh(ts[j], who[j], ts[j + 1]);
    }
  }

  ghost predicate OneRefresh(T: Tables, who: (Id, nat), T': Tables) {
    WellFormed(T) && who.0 in T && 0 < who.1 < M - 1 && T' == Refreshed(T, who.0, who.1)
  }

  method FixOne(net: Network, n: Id, rand: nat)
    requires net.Valid() && n in net.nodes
    modifies net`tables, net.Arrays()
    ensures net.Valid() && OneRefresh(old(net.tables), (n, FingerIndex(rand)), net.tables)
  {
    net.MemberFacts(n);
    net.nodes[n].FixFingers(net, rand);
  }

  /** One call for each node and each of 158 successive random numbers. */
  function AllCalls(ids: seq<Id>): (calls: seq<(Id, nat)>)
    ensures |calls| == 158 * |ids|
  {
    seq(158 * |ids|, k requires 0 <= k < 158 * |ids| => (ids[k / 158], k % 158))
  }

  lemma AllCallsCover(ids: seq<Id>, n: Id, i: nat)
    requires n in ids && 0 < i < M - 1
    ensures (n, i) in SlotsOf(AllCalls(ids))
  {
    var a :| 0 <= a < |ids| && ids[a] == n;
    var k := 158 * a + (i - 1);
    ModUnique(158, a, i - 1);
    assert k / 158 == a && k % 158 == i - 1;
    ModUnique(158, 0, i - 1);
    assert SlotsOf(AllCalls(ids))[k] == (n, i);
  }

  /** In a ring with ideal successors, whose members have filled their first slots, refreshes by every
      member with 158 successive random numbers settle the ring: from then on no lookup is forwarded
      more than 160 times. */
  method SettleFingers(net: Network, ids: seq<Id>)
    requires net.Valid() && Ready(net.tables)
    requires forall i :: i in net.nodes <==> i in ids
    modifies net`tables, net.Arrays()
    ensures net.Valid() && Settled(net.tables, M - 1)
    ensures forall n, id {:trigger Forwards(net.tables, n, id)} :: n in net.tables ==> Forwards(net.tables, n, id) <= 160
  {
    var calls := AllCalls(ids);
    assert forall k :: 0 <= k < |calls| ==> calls[k].0 in ids;
    ghost var ts := FixAll(net, calls);
    ghost var who := SlotsOf(calls);
    forall n, i | n in ts[0] && 0 < i < M - 1 ensures (n, i) in who {
      AllCallsCover(ids, n, i);
    }
    RefreshesSettle(ts, who);
  }
}
