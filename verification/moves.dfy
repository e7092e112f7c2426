/** The one mutation merge and archive share: for a target group and a
    list of source groups, each source in turn hands the records matching a
    predicate to the target (`target.tabs.push(...matching)`) and keeps the
    rest (`source.tabs = source.tabs.filter(t => !matching.includes(t))`).
    Groups are identified by index. */
module Moves {
  import opened Seqs
  import opened Model

  /** A target index and distinct source indices, none of them the target. */
  predicate ValidSources(gs: seq<Group>, dst: nat, srcs: seq<nat>) {
    && dst < |gs|
    && Distinct(srcs)
    && forall i :: 0 <= i < |srcs| ==> srcs[i] < |gs| && srcs[i] != dst
  }

  /** The records of the listed groups that satisfy `p`, group after group. */
  function Gather(gs: seq<Group>, srcs: seq<nat>, p: TabRecord -> bool): (r: seq<TabRecord>)
    requires forall i :: 0 <= i < |srcs| ==> srcs[i] < |gs|
    ensures forall t :: t in r ==> p(t)
  {
    if srcs == [] then []
    else
      FilterMembers(gs[srcs[0]].tabs, p);
      Filter(gs[srcs[0]].tabs, p) + Gather(gs, srcs[1..], p)
  }

  /** Gather only looks at the listed groups. */
  lemma {:induction false} GatherFrame(gs: seq<Group>, hs: seq<Group>, srcs: seq<nat>, p: TabRecord -> bool)
    requires forall i :: 0 <= i < |srcs| ==> srcs[i] < |gs| && srcs[i] < |hs|
    requires forall i :: 0 <= i < |srcs| ==> Filter(gs[srcs[i]].tabs, p) == Filter(hs[srcs[i]].tabs, p)
    ensures Gather(gs, srcs, p) == Gather(hs, srcs, p)
  {
    if srcs != [] {
      GatherFrame(gs, hs, srcs[1..], p);
    }
  }

  /** One source hands its `p`-records to the target. */
  function Move(gs: seq<Group>, src: nat, dst: nat, p: TabRecord -> bool): (r: seq<Group>)
    requires src < |gs| && dst < |gs| && src != dst
    ensures |r| == |gs|
    ensures r[dst].tabs == gs[dst].tabs + Filter(gs[src].tabs, p)
    ensures r[src].tabs == Reject(gs[src].tabs, p)
    ensures forall i :: 0 <= i < |gs| && i != src && i != dst ==> r[i] == gs[i]
    ensures forall i :: 0 <= i < |gs| ==> SameShell(gs[i], r[i])
    ensures multiset(AllTabs(r)) == multiset(AllTabs(gs))
  {
    var moved := Filter(gs[src].tabs, p);
    var gs1 := gs[dst := gs[dst].(tabs := gs[dst].tabs + moved)];
    var r := gs1[src := gs1[src].(tabs := Reject(gs1[src].tabs, p))];
    MoveKeepsRecords(gs, src, dst, p, gs1, r);
    r
  }

  lemma {:induction false} MoveKeepsRecords(gs: seq<Group>, src: nat, dst: nat, p: TabRecord -> bool, gs1: seq<Group>, r: seq<Group>)
    requires src < |gs| && dst < |gs| && src != dst
    requires gs1 == gs[dst := gs[dst].(tabs := gs[dst].tabs + Filter(gs[src].tabs, p))]
    requires r == gs1[src := gs1[src].(tabs := Reject(gs1[src].tabs, p))]
    ensures multiset(AllTabs(r)) == multiset(AllTabs(gs))
  {
    var s := gs[src].tabs;
    var d := gs[dst].tabs;
    FilterRejectPartition(s, p);
    AllTabsUpdate(gs, dst, gs1[dst]);
    AllTabsUpdate(gs1, src, r[src]);
    assert gs1[src].tabs == s;
    assert multiset(gs1[dst].tabs) == multiset(d) + multiset(Filter(s, p));
    Cancel(multiset(AllTabs(gs)), multiset(AllTabs(gs1)), multiset(AllTabs(r)),
           multiset(d), multiset(Filter(s, p)), multiset(Reject(s, p)));
  }

  /** Multiset bookkeeping of one move: adding `f` to the target and then
      replacing `f + k` by `k` at the source changes nothing overall. */
  lemma {:induction false} Cancel<X>(a: multiset<X>, a1: multiset<X>, a2: multiset<X>, d: multiset<X>, f: multiset<X>, k: multiset<X>)
    requires a1 + d == a + (d + f)
    requires a2 + (f + k) == a1 + k
    ensures a2 == a
  {
    forall x ensures a1[x] + d[x] == a[x] + d[x] + f[x] {
      assert (a1 + d)[x] == (a + (d + f))[x];
    }
    forall x ensures a2[x] == a[x] {
      assert (a2 + (f + k))[x] == (a1 + k)[x];
    }
  }

  /** Every listed source, in order, hands its `p`-records to the target. */
  function MoveAll(gs: seq<Group>, dst: nat, srcs: seq<nat>, p: TabRecord -> bool): (r: seq<Group>)
    requires ValidSources(gs, dst, srcs)
    ensures |r| == |gs|
    ensures forall i :: 0 <= i < |gs| ==> SameShell(gs[i], r[i])
    ensures r[dst].tabs == gs[dst].tabs + Gather(gs, srcs, p)
    ensures forall i :: 0 <= i < |srcs| ==> r[srcs[i]].tabs == Reject(gs[srcs[i]].tabs, p)
    ensures forall i :: 0 <= i < |gs| && i != dst && i !in srcs ==> r[i] == gs[i]
    ensures multiset(AllTabs(r)) == multiset(AllTabs(gs))
    decreases srcs
  {
    if srcs == [] then gs
    else
      var gs1 := Move(gs, srcs[0], dst, p);
      assert ValidSources(gs1, dst, srcs[1..]) by {
        assert forall i :: 0 <= i < |srcs| - 1 ==> srcs[1..][i] == srcs[i + 1];
      }
      var r := MoveAll(gs1, dst, srcs[1..], p);
      MoveAllStep(gs, dst, srcs, p, gs1, r);
      r
  }

  /** How the recursive call's facts about `gs1 = Move(gs, srcs[0], ...)`
      combine into the facts about `gs`. */
  lemma {:induction false} MoveAllStep(gs: seq<Group>, dst: nat, srcs: seq<nat>, p: TabRecord -> bool, gs1: seq<Group>, r: seq<Group>)
    requires ValidSources(gs, dst, srcs) && srcs != []
    requires |gs1| == |gs| && |r| == |gs|
    requires gs1[dst].tabs == gs[dst].tabs + Filter(gs[srcs[0]].tabs, p)
    requires gs1[srcs[0]].tabs == Reject(gs[srcs[0]].tabs, p)
    requires forall i :: 0 <= i < |gs| && i != dst && i != srcs[0] ==> gs1[i] == gs[i]
    requires r[dst].tabs == gs1[dst].tabs + Gather(gs1, srcs[1..], p)
    requires forall i :: 0 <= i < |srcs| - 1 ==> r[srcs[1..][i]].tabs == Reject(gs1[srcs[1..][i]].tabs, p)
    requires forall i :: 0 <= i < |gs1| && i != dst && i !in srcs[1..] ==> r[i] == gs1[i]
    ensures r[dst].tabs == gs[dst].tabs + Gather(gs, srcs, p)
    ensures forall i :: 0 <= i < |srcs| ==> r[srcs[i]].tabs == Reject(gs[srcs[i]].tabs, p)
    ensures forall i :: 0 <= i < |gs| && i != dst && i !in srcs ==> r[i] == gs[i]
  {
    var rest := srcs[1..];
    assert forall i :: 0 <= i < |rest| ==> rest[i] == srcs[i + 1];
    RestUntouched(gs, dst, srcs, rest, gs1);
    GatherFrame(gs1, gs, rest, p);
    StepTarget(gs, dst, srcs, rest, p, gs1, r);
    StepSources(gs, dst, srcs, rest, p, gs1, r);
    StepOthers(gs, dst, srcs, rest, gs1, r);
  }

  lemma {:induction false} StepTarget(gs: seq<Group>, dst: nat, srcs: seq<nat>, rest: seq<nat>, p: TabRecord -> bool, gs1: seq<Group>, r: seq<Group>)
    requires dst < |gs| && |gs1| == |gs| && |r| == |gs|
    requires srcs != [] && rest == srcs[1..]
    requires forall i :: 0 <= i < |srcs| ==> srcs[i] < |gs|
    requires gs1[dst].tabs == gs[dst].tabs + Filter(gs[srcs[0]].tabs, p)
    requires Gather(gs1, rest, p) == Gather(gs, rest, p)
    requires r[dst].tabs == gs1[dst].tabs + Gather(gs1, rest, p)
    ensures r[dst].tabs == gs[dst].tabs + Gather(gs, srcs, p)
  {
    var d, f, g := gs[dst].tabs, Filter(gs[srcs[0]].tabs, p), Gather(gs, rest, p);
    calc {
      r[dst].tabs;
      (d + f) + g;
      { AppendAssoc(d, f, g); }
      d + (f + g);
      d + Gather(gs, srcs, p);
    }
  }

  lemma {:induction false} AppendAssoc<X>(a: seq<X>, b: seq<X>, c: seq<X>)
    ensures (a + b) + c == a + (b + c)
  {
  }

  lemma {:induction false} RestUntouched(gs: seq<Group>, dst: nat, srcs: seq<nat>, rest: seq<nat>, gs1: seq<Group>)
    requires ValidSources(gs, dst, srcs) && srcs != [] && |gs1| == |gs|
    requires |rest| == |srcs| - 1
    requires forall i :: 0 <= i < |rest| ==> rest[i] == srcs[i + 1]
    requires forall i :: 0 <= i < |gs| && i != dst && i != srcs[0] ==> gs1[i] == gs[i]
    ensures forall i :: 0 <= i < |rest| ==> rest[i] < |gs| && gs1[rest[i]] == gs[rest[i]]
  {
    forall i | 0 <= i < |rest| ensures rest[i] < |gs| && gs1[rest[i]] == gs[rest[i]] {
      assert srcs[0] != srcs[i + 1];
    }
  }

  lemma {:induction false} StepSources(gs: seq<Group>, dst: nat, srcs: seq<nat>, rest: seq<nat>, p: TabRecord -> bool, gs1: seq<Group>, r: seq<Group>)
    requires ValidSources(gs, dst, srcs) && srcs != [] && rest == srcs[1..]
    requires |gs1| == |gs| && |r| == |gs|
    requires forall i :: 0 <= i < |rest| ==> rest[i] == srcs[i + 1]
    requires gs1[srcs[0]].tabs == Reject(gs[srcs[0]].tabs, p)
    requires forall i :: 0 <= i < |gs| && i != dst && i != srcs[0] ==> gs1[i] == gs[i]
    requires forall i :: 0 <= i < |rest| ==> r[rest[i]].tabs == Reject(gs1[rest[i]].tabs, p)
    requires forall i :: 0 <= i < |gs1| && i != dst && i !in rest ==> r[i] == gs1[i]
    ensures forall i :: 0 <= i < |srcs| ==> r[srcs[i]].tabs == Reject(gs[srcs[i]].tabs, p)
  {
    forall i | 0 <= i < |srcs| ensures r[srcs[i]].tabs == Reject(gs[srcs[i]].tabs, p) {
      if i == 0 {
        forall j | 0 <= j < |rest| ensures rest[j] != srcs[0] {
          assert rest[j] == srcs[j + 1];
        }
        assert srcs[0] !in rest;
      } else {
        assert srcs[i] == rest[i - 1];
        assert srcs[i] != srcs[0];
      }
    }
  }

  lemma {:induction false} StepOthers(gs: seq<Group>, dst: nat, srcs: seq<nat>, rest: seq<nat>, gs1: seq<Group>, r: seq<Group>)
    requires ValidSources(gs, dst, srcs) && srcs != [] && rest == srcs[1..]
    requires |gs1| == |gs| && |r| == |gs|
    requires forall i :: 0 <= i < |gs| && i != dst && i != srcs[0] ==> gs1[i] == gs[i]
    requires forall i :: 0 <= i < |gs1| && i != dst && i !in rest ==> r[i] == gs1[i]
    ensures forall i :: 0 <= i < |gs| && i != dst && i !in srcs ==> r[i] == gs[i]
  {
    forall i | 0 <= i < |gs| && i != dst && i !in srcs ensures r[i] == gs[i] {
      assert i != srcs[0];
      assert i !in rest;
    }
  }

  /** A selection `q` disjoint from `p` sees the same records in every group
      before and after the moves. */
  lemma {:induction false} MoveAllFilterOther(gs: seq<Group>, dst: nat, srcs: seq<nat>, p: TabRecord -> bool, q: TabRecord -> bool)
    requires ValidSources(gs, dst, srcs)
    requires forall x :: q(x) ==> !p(x)
    ensures forall i :: 0 <= i < |gs| ==> Filter(MoveAll(gs, dst, srcs, p)[i].tabs, q) == Filter(gs[i].tabs, q)
  {
    var r := MoveAll(gs, dst, srcs, p);
    forall i | 0 <= i < |gs| ensures Filter(r[i].tabs, q) == Filter(gs[i].tabs, q) {
      if i == dst {
        var g := Gather(gs, srcs, p);
        FilterConcat(gs[dst].tabs, g, q);
        FilterNoneKept(g, q);
      } else if i in srcs {
        var k :| 0 <= k < |srcs| && srcs[k] == i;
        FilterAfterReject(gs[i].tabs, p, q);
      }
    }
  }

  /** Afterwards the target holds its own `p`-records followed by the
      gathered ones, and no source holds any. */
  lemma {:induction false} MoveAllFilterSame(gs: seq<Group>, dst: nat, srcs: seq<nat>, p: TabRecord -> bool)
    requires ValidSources(gs, dst, srcs)
    ensures Filter(MoveAll(gs, dst, srcs, p)[dst].tabs, p) == Filter(gs[dst].tabs, p) + Gather(gs, srcs, p)
    ensures forall k :: 0 <= k < |srcs| ==> Filter(MoveAll(gs, dst, srcs, p)[srcs[k]].tabs, p) == []
  {
    var r := MoveAll(gs, dst, srcs, p);
    var g := Gather(gs, srcs, p);
    FilterConcat(gs[dst].tabs, g, p);
    FilterAllKept(g, p);
    forall k | 0 <= k < |srcs| ensures Filter(r[srcs[k]].tabs, p) == [] {
      RejectMembers(gs[srcs[k]].tabs, p);
      FilterNoneKept(Reject(gs[srcs[k]].tabs, p), p);
    }
  }

  /** Nothing to gather from sources without `p`-records. */
  lemma {:induction false} GatherEmpty(gs: seq<Group>, srcs: seq<nat>, p: TabRecord -> bool)
    requires forall i :: 0 <= i < |srcs| ==> srcs[i] < |gs|
    requires forall i :: 0 <= i < |srcs| ==> Filter(gs[srcs[i]].tabs, p) == []
    ensures Gather(gs, srcs, p) == []
  {
    if srcs != [] {
      GatherEmpty(gs, srcs[1..], p);
    }
  }

  /** When no source holds a `p`-record the moves change nothing. */
  lemma {:induction false} MoveAllIdle(gs: seq<Group>, dst: nat, srcs: seq<nat>, p: TabRecord -> bool)
    requires ValidSources(gs, dst, srcs)
    requires forall i :: 0 <= i < |srcs| ==> Filter(gs[srcs[i]].tabs, p) == []
    ensures MoveAll(gs, dst, srcs, p) == gs
  {
    var r := MoveAll(gs, dst, srcs, p);
    GatherEmpty(gs, srcs, p);
    forall k | 0 <= k < |srcs| ensures r[srcs[k]] == gs[srcs[k]] {
      var s := gs[srcs[k]].tabs;
      FilterEmptyIffNone(s, p);
      FilterNoneKept(s, p);
    }
    forall i | 0 <= i < |gs| ensures r[i] == gs[i] {
      if i in srcs {
        var k :| 0 <= k < |srcs| && srcs[k] == i;
      } else if i == dst {
        assert r[dst].tabs == gs[dst].tabs + [];
      }
    }
  }

  /** Groups that select the same records group by group select the same
      records overall. */
  lemma {:induction false} FilterAllTabsFrame(gs: seq<Group>, hs: seq<Group>, q: TabRecord -> bool)
    requires |gs| == |hs|
    requires forall i :: 0 <= i < |gs| ==> Filter(gs[i].tabs, q) == Filter(hs[i].tabs, q)
    ensures Filter(AllTabs(gs), q) == Filter(AllTabs(hs), q)
  {
    if gs != [] {
      FilterAllTabsFrame(gs[1..], hs[1..], q);
      FilterConcat(gs[0].tabs, AllTabs(gs[1..]), q);
      FilterConcat(hs[0].tabs, AllTabs(hs[1..]), q);
    }
  }
}
