/** "Merge duplicate domains": every hostname that appears in more than one
    group has all of its records gathered into the first group holding one,
    the other groups keep their remaining records, and groups left empty are
    dropped. Groups are identified by their index in the group list. */
module Merge {
  import opened Opt
  import opened Seqs
  import opened Buckets
  import opened Model
  import opened Moves

  /** One `{ group, tab }` item per record of a group whose URL parses, keyed
      by its hostname; the group is recorded by index. */
  function GroupItems(tabs: seq<TabRecord>, host: HostOf, gi: nat): (items: seq<(string, nat)>)
    ensures forall j :: 0 <= j < |items| ==> items[j].1 == gi
    ensures |items| <= |tabs|
  {
    if tabs == [] then []
    else
      (match host(tabs[0].url) case Some(d) => [(d, gi)] case None => []) + GroupItems(tabs[1..], host, gi)
  }

  /** The items of groups `i..`, group after group. */
  function ItemsFrom(gs: seq<Group>, host: HostOf, i: nat): (items: seq<(string, nat)>)
    requires i <= |gs|
    ensures forall j :: 0 <= j < |items| ==> i <= items[j].1 < |gs|
    decreases |gs| - i
  {
    if i == |gs| then [] else GroupItems(gs[i].tabs, host, i) + ItemsFrom(gs, host, i + 1)
  }

  /** For each group, whether it holds a record of hostname `d`. */
  function HolderFlags(gs: seq<Group>, host: HostOf, d: string): (f: seq<bool>)
    ensures |f| == |gs|
    ensures forall j :: 0 <= j < |gs| ==> (f[j] <==> Proj(gs[j], host, Some(d)) != [])
  {
    seq(|gs|, j requires 0 <= j < |gs| => Proj(gs[j], host, Some(d)) != [])
  }

  /** The indices, from `i` on and ascending, of the groups holding a record
      of hostname `d`. */
  function Holders(gs: seq<Group>, host: HostOf, d: string, i: nat): (r: seq<nat>)
    requires i <= |gs|
    ensures forall j :: 0 <= j < |r| ==> i <= r[j] < |gs| && Proj(gs[r[j]], host, Some(d)) != []
    ensures forall j :: i <= j < |gs| && Proj(gs[j], host, Some(d)) != [] ==> j in r
    ensures forall a, b :: 0 <= a < b < |r| ==> r[a] < r[b]
  {
    Positions(HolderFlags(gs, host, d), i)
  }

  /** Every record of hostname `d`, group after group. */
  function HostTabs(gs: seq<Group>, host: HostOf, d: string): seq<TabRecord> {
    Filter(AllTabs(gs), HostIs(host, Some(d)))
  }

  /** What group `i` holds of hostname `d` once `d` is merged: all of it if
      it is the first holder, nothing otherwise. */
  function Merged(gs: seq<Group>, host: HostOf, d: string, i: nat): seq<TabRecord> {
    var h := Holders(gs, host, d, 0);
    if h != [] && i == h[0] then HostTabs(gs, host, d) else []
  }

  lemma {:induction false} SelectGroupItems(tabs: seq<TabRecord>, host: HostOf, gi: nat, d: string)
    ensures forall x :: x in Select(GroupItems(tabs, host, gi), d) ==> x == gi
    ensures Select(GroupItems(tabs, host, gi), d) == [] <==> Filter(tabs, HostIs(host, Some(d))) == []
  {
    var items := GroupItems(tabs, host, gi);
    forall x | x in Select(items, d) ensures x == gi {
      assert (d, x) in items;
    }
    if tabs != [] {
      var head: seq<(string, nat)> := match host(tabs[0].url) case Some(e) => [(e, gi)] case None => [];
      SelectGroupItems(tabs[1..], host, gi, d);
      SelectConcat(head, GroupItems(tabs[1..], host, gi), d);
      assert Select(head, d) == (if host(tabs[0].url) == Some(d) then [gi] else []) by {
        if head != [] {
          assert head[..0] == [];
        }
      }
    }
  }

  /** The source's `[...new Set(items.map(item => item.group))]` for
      hostname `d` lists exactly the holders of `d`, in group order. */
  lemma {:induction false} HoldersOfItems(gs: seq<Group>, host: HostOf, d: string, i: nat)
    requires i <= |gs|
    ensures Dedupe(Select(ItemsFrom(gs, host, i), d)) == Holders(gs, host, d, i)
    decreases |gs| - i
  {
    if i < |gs| {
      var gi := GroupItems(gs[i].tabs, host, i);
      var later := ItemsFrom(gs, host, i + 1);
      var a := Select(gi, d);
      var b := Select(later, d);
      SelectConcat(gi, later, d);
      SelectGroupItems(gs[i].tabs, host, i, d);
      forall x | x in b ensures x != i {
        assert (d, x) in later;
      }
      DedupeConcatDisjoint(a, b);
      DedupeConstant(a, i);
      HoldersOfItems(gs, host, d, i + 1);
    }
  }

  /** Gathering the holders' records of `d` yields every record of `d`. */
  lemma {:induction false} GatherHolders(gs: seq<Group>, host: HostOf, d: string, i: nat)
    requires i <= |gs|
    ensures Gather(gs, Holders(gs, host, d, i), HostIs(host, Some(d))) == HostTabs(gs[i..], host, d)
    decreases |gs| - i
  {
    var p := HostIs(host, Some(d));
    if i < |gs| {
      GatherHolders(gs, host, d, i + 1);
      assert gs[i..][1..] == gs[i + 1..];
      FilterConcat(gs[i].tabs, AllTabs(gs[i + 1..]), p);
      var rest := Holders(gs, host, d, i + 1);
      if Proj(gs[i], host, Some(d)) != [] {
        assert ([i] + rest)[1..] == rest;
      }
    } else {
      assert gs[i..] == [];
    }
  }

  /** The processing of one `[domain, items]` entry, `idxs` being the group
      of every item: with more than one item spread over more than one
      group, every later group hands its `d` records to the first. */
  function MergeStep(gs: seq<Group>, host: HostOf, d: string, idxs: seq<nat>): (r: seq<Group>)
    requires forall j :: 0 <= j < |idxs| ==> idxs[j] < |gs|
    ensures |r| == |gs|
    ensures forall i :: 0 <= i < |gs| ==> SameShell(gs[i], r[i])
    ensures multiset(AllTabs(r)) == multiset(AllTabs(gs))
  {
    var unique := Dedupe(idxs);
    if |idxs| > 1 && |unique| > 1 then
      UniqueSources(gs, idxs);
      MoveAll(gs, unique[0], unique[1..], HostIs(host, Some(d)))
    else gs
  }

  /** The first distinct group is the target, the later ones the sources. */
  lemma {:induction false} UniqueSources(gs: seq<Group>, idxs: seq<nat>)
    requires forall j :: 0 <= j < |idxs| ==> idxs[j] < |gs|
    requires |Dedupe(idxs)| > 1
    ensures ValidSources(gs, Dedupe(idxs)[0], Dedupe(idxs)[1..])
  {
    var unique := Dedupe(idxs);
    assert forall j :: 0 <= j < |unique| ==> unique[j] in idxs;
    assert forall j :: 1 <= j < |unique| ==> unique[1..][j - 1] == unique[j];
  }

  /** The records group `i` holds of hostname `k` once the hostnames in
      `done` have been merged. */
  function Expected(gs0: seq<Group>, host: HostOf, done: set<string>, i: nat, k: Option<string>): seq<TabRecord>
    requires i < |gs0|
  {
    if k.Some? && k.value in done then Merged(gs0, host, k.value, i) else Proj(gs0[i], host, k)
  }

  /** The loop invariant of the merge: starting from `gs0`, the hostnames in
      `done` are merged and nothing else has moved. */
  ghost predicate MergedSoFar(gs0: seq<Group>, gs: seq<Group>, host: HostOf, done: set<string>) {
    && |gs| == |gs0|
    && (forall i :: 0 <= i < |gs| ==> SameShell(gs0[i], gs[i]))
    && (forall i, k :: 0 <= i < |gs| ==> Proj(gs[i], host, k) == Expected(gs0, host, done, i, k))
  }

  lemma {:induction false} MergeStepKeeps(gs0: seq<Group>, gs: seq<Group>, host: HostOf, d: string, idxs: seq<nat>, done: set<string>)
    requires MergedSoFar(gs0, gs, host, done) && d !in done
    requires forall j :: 0 <= j < |idxs| ==> idxs[j] < |gs|
    requires Dedupe(idxs) == Holders(gs0, host, d, 0)
    ensures MergedSoFar(gs0, MergeStep(gs, host, d, idxs), host, done + {d})
  {
    var r := MergeStep(gs, host, d, idxs);
    forall i, k | 0 <= i < |r| ensures Proj(r[i], host, k) == Expected(gs0, host, done + {d}, i, k) {
      if k == Some(d) {
        StepMergesHost(gs0, gs, host, d, idxs, done, i);
      } else {
        StepKeepsOther(gs0, gs, host, d, idxs, done, k, i);
      }
    }
  }

  lemma {:induction false} StepKeepsOther(gs0: seq<Group>, gs: seq<Group>, host: HostOf, d: string, idxs: seq<nat>, done: set<string>, k: Option<string>, i: nat)
    requires MergedSoFar(gs0, gs, host, done) && d !in done
    requires forall j :: 0 <= j < |idxs| ==> idxs[j] < |gs|
    requires k != Some(d) && i < |gs|
    ensures Proj(MergeStep(gs, host, d, idxs)[i], host, k) == Expected(gs0, host, done + {d}, i, k)
  {
    var unique := Dedupe(idxs);
    if |idxs| > 1 && |unique| > 1 {
      UniqueSources(gs, idxs);
      MoveAllFilterOther(gs, unique[0], unique[1..], HostIs(host, Some(d)), HostIs(host, k));
    }
    assert Expected(gs0, host, done + {d}, i, k) == Expected(gs0, host, done, i, k);
  }

  lemma {:induction false} StepMergesHost(gs0: seq<Group>, gs: seq<Group>, host: HostOf, d: string, idxs: seq<nat>, done: set<string>, i: nat)
    requires MergedSoFar(gs0, gs, host, done) && d !in done
    requires forall j :: 0 <= j < |idxs| ==> idxs[j] < |gs|
    requires Dedupe(idxs) == Holders(gs0, host, d, 0)
    requires i < |gs|
    ensures Proj(MergeStep(gs, host, d, idxs)[i], host, Some(d)) == Merged(gs0, host, d, i)
  {
    var h := Holders(gs0, host, d, 0);
    assert forall j :: 0 <= j < |gs| ==> Proj(gs[j], host, Some(d)) == Proj(gs0[j], host, Some(d)) by {
      forall j | 0 <= j < |gs| ensures Proj(gs[j], host, Some(d)) == Proj(gs0[j], host, Some(d)) {
        assert Proj(gs[j], host, Some(d)) == Expected(gs0, host, done, j, Some(d));
      }
    }
    if |idxs| > 1 && |h| > 1 {
      UniqueSources(gs, idxs);
      MovedHost(gs0, gs, host, d, i);
    } else {
      StillHost(gs0, gs, host, d, i);
    }
  }

  /** With a single holder (or none) nothing moves and the holder already
      has every record of `d`. */
  lemma {:induction false} StillHost(gs0: seq<Group>, gs: seq<Group>, host: HostOf, d: string, i: nat)
    requires |gs| == |gs0| && i < |gs|
    requires forall j :: 0 <= j < |gs| ==> Proj(gs[j], host, Some(d)) == Proj(gs0[j], host, Some(d))
    requires |Holders(gs0, host, d, 0)| <= 1
    ensures Proj(gs[i], host, Some(d)) == Merged(gs0, host, d, i)
  {
    var h := Holders(gs0, host, d, 0);
    var p := HostIs(host, Some(d));
    if h != [] {
      GatherHolders(gs0, host, d, 0);
      assert gs0[0..] == gs0;
      assert Gather(gs0, h, p) == Filter(gs0[h[0]].tabs, p) + Gather(gs0, h[1..], p);
      if i != h[0] {
        assert i !in h;
      }
    } else {
      assert i !in h;
    }
  }

  /** With several holders the first one receives every record of `d` in
      group order and the others keep none. */
  lemma {:induction false} MovedHost(gs0: seq<Group>, gs: seq<Group>, host: HostOf, d: string, i: nat)
    requires |gs| == |gs0| && i < |gs|
    requires forall j :: 0 <= j < |gs| ==> Proj(gs[j], host, Some(d)) == Proj(gs0[j], host, Some(d))
    requires |Holders(gs0, host, d, 0)| > 1
    requires ValidSources(gs, Holders(gs0, host, d, 0)[0], Holders(gs0, host, d, 0)[1..])
    ensures
      var h := Holders(gs0, host, d, 0);
      Proj(MoveAll(gs, h[0], h[1..], HostIs(host, Some(d)))[i], host, Some(d)) == Merged(gs0, host, d, i)
  {
    var h := Holders(gs0, host, d, 0);
    var p := HostIs(host, Some(d));
    var srcs := h[1..];
    MoveAllFilterSame(gs, h[0], srcs, p);
    if i == h[0] {
      forall j | 0 <= j < |srcs| ensures Filter(gs[srcs[j]].tabs, p) == Filter(gs0[srcs[j]].tabs, p) {
        assert Proj(gs[srcs[j]], host, Some(d)) == Proj(gs0[srcs[j]], host, Some(d));
      }
      GatherFrame(gs, gs0, srcs, p);
      GatherHolders(gs0, host, d, 0);
      assert gs0[0..] == gs0;
      assert Gather(gs0, h, p) == Filter(gs0[h[0]].tabs, p) + Gather(gs0, srcs, p);
    } else if i in srcs {
      var k :| 0 <= k < |srcs| && srcs[k] == i;
    } else {
      assert i !in h;
    }
  }

  /** Every group index a bucket list mentions is a valid index of `gs`. */
  predicate IndicesIn(bs: seq<(string, seq<nat>)>, gs: seq<Group>) {
    forall m, j :: 0 <= m < |bs| && 0 <= j < |bs[m].1| ==> bs[m].1[j] < |gs|
  }

  /** `for (const [domain, items] of Object.entries(domainGroups))`. */
  function MergeBuckets(gs: seq<Group>, host: HostOf, bs: seq<(string, seq<nat>)>): (r: seq<Group>)
    requires IndicesIn(bs, gs)
    ensures |r| == |gs|
    ensures forall i :: 0 <= i < |gs| ==> SameShell(gs[i], r[i])
    ensures multiset(AllTabs(r)) == multiset(AllTabs(gs))
    decreases |bs|
  {
    if bs == [] then gs
    else
      var gs1 := MergeStep(gs, host, bs[0].0, bs[0].1);
      assert forall m :: 0 <= m < |bs| - 1 ==> bs[1..][m] == bs[m + 1];
      MergeBuckets(gs1, host, bs[1..])
  }

  function Elems(ks: seq<string>): set<string> {
    set k | k in ks
  }

  lemma {:induction false} ElemsCons(k: string, ks: seq<string>)
    ensures Elems([k] + ks) == {k} + Elems(ks)
  {
    assert forall x :: x in [k] + ks <==> x == k || x in ks;
  }

  lemma {:induction false} MergeBucketsKeeps(gs0: seq<Group>, gs: seq<Group>, host: HostOf, bs: seq<(string, seq<nat>)>, done: set<string>)
    requires MergedSoFar(gs0, gs, host, done) && IndicesIn(bs, gs)
    requires Distinct(BucketKeys(bs))
    requires forall m :: 0 <= m < |bs| ==> bs[m].0 !in done
    requires forall m :: 0 <= m < |bs| ==> Dedupe(bs[m].1) == Holders(gs0, host, bs[m].0, 0)
    ensures MergedSoFar(gs0, MergeBuckets(gs, host, bs), host, done + Elems(BucketKeys(bs)))
    decreases |bs|
  {
    if bs != [] {
      var d := bs[0].0;
      var gs1 := MergeStep(gs, host, d, bs[0].1);
      assert forall m :: 0 <= m < |bs| - 1 ==> bs[1..][m] == bs[m + 1];
      MergeStepKeeps(gs0, gs, host, d, bs[0].1, done);
      assert BucketKeys(bs[1..]) == BucketKeys(bs)[1..];
      forall m | 0 <= m < |bs| - 1 ensures bs[1..][m].0 !in done + {d} {
        assert BucketKeys(bs)[0] != BucketKeys(bs)[m + 1];
      }
      MergeBucketsKeeps(gs0, gs1, host, bs[1..], done + {d});
      assert BucketKeys(bs) == [d] + BucketKeys(bs[1..]);
      ElemsCons(d, BucketKeys(bs[1..]));
      assert done + {d} + Elems(BucketKeys(bs[1..])) == done + Elems(BucketKeys(bs));
    }
  }

  /** `Object.entries(domainGroups)`: one entry per hostname that occurs,
      listing the group of each of its records. */
  function Entries(gs: seq<Group>, host: HostOf): (bs: seq<(string, seq<nat>)>)
    ensures IndicesIn(bs, gs)
    ensures Distinct(BucketKeys(bs))
    ensures forall m :: 0 <= m < |bs| ==> Dedupe(bs[m].1) == Holders(gs, host, bs[m].0, 0)
    ensures forall d :: d !in BucketKeys(bs) ==> Holders(gs, host, d, 0) == []
  {
    var items := ItemsFrom(gs, host, 0);
    var bs: seq<(string, seq<nat>)> := Bucketize<string, nat>(items);
    EntriesFacts(gs, host, items, bs);
    bs
  }

  lemma {:induction false} EntriesFacts(gs: seq<Group>, host: HostOf, items: seq<(string, nat)>, bs: seq<(string, seq<nat>)>)
    requires items == ItemsFrom(gs, host, 0) && bs == Bucketize(items)
    ensures IndicesIn(bs, gs)
    ensures forall m :: 0 <= m < |bs| ==> Dedupe(bs[m].1) == Holders(gs, host, bs[m].0, 0)
    ensures forall d :: d !in BucketKeys(bs) ==> Holders(gs, host, d, 0) == []
  {
    forall m, j | 0 <= m < |bs| && 0 <= j < |bs[m].1| ensures bs[m].1[j] < |gs| {
      assert (bs[m].0, bs[m].1[j]) in items;
    }
    forall m | 0 <= m < |bs| ensures Dedupe(bs[m].1) == Holders(gs, host, bs[m].0, 0) {
      HoldersOfItems(gs, host, bs[m].0, 0);
    }
    forall d | d !in BucketKeys(bs) ensures Holders(gs, host, d, 0) == [] {
      SelectEmptyIff(items, d);
      HoldersOfItems(gs, host, d, 0);
    }
  }

  /** The moves of `mergeDuplicateDomains`, before empty groups are dropped. */
  function MergeMoves(gs: seq<Group>, host: HostOf): (r: seq<Group>)
    ensures |r| == |gs|
    ensures forall i :: 0 <= i < |gs| ==> SameShell(gs[i], r[i])
    ensures multiset(AllTabs(r)) == multiset(AllTabs(gs))
    ensures forall i, d :: 0 <= i < |gs| ==> Proj(r[i], host, Some(d)) == Merged(gs, host, d, i)
    ensures forall i :: 0 <= i < |gs| ==> Proj(r[i], host, None) == Proj(gs[i], host, None)
  {
    var bs := Entries(gs, host);
    var r := MergeBuckets(gs, host, bs);
    MergeBucketsKeeps(gs, gs, host, bs, {});
    assert {} + Elems(BucketKeys(bs)) == Elems(BucketKeys(bs));
    MergedAllHosts(gs, host, Elems(BucketKeys(bs)), r);
    MergedAllNone(gs, host, Elems(BucketKeys(bs)), r);
    r
  }

  /** Once every entry is processed each hostname is merged ... */
  lemma {:induction false} MergedAllHosts(gs: seq<Group>, host: HostOf, keys: set<string>, r: seq<Group>)
    requires forall d :: d !in keys ==> Holders(gs, host, d, 0) == []
    requires MergedSoFar(gs, r, host, keys)
    ensures forall i, d :: 0 <= i < |gs| ==> Proj(r[i], host, Some(d)) == Merged(gs, host, d, i)
  {
    forall i, d | 0 <= i < |gs| ensures Proj(r[i], host, Some(d)) == Merged(gs, host, d, i) {
      assert Proj(r[i], host, Some(d)) == Expected(gs, host, keys, i, Some(d));
      if d !in keys {
        assert i !in Holders(gs, host, d, 0);
      }
    }
  }

  /** ... and the records without a hostname are where they were. */
  lemma {:induction false} MergedAllNone(gs: seq<Group>, host: HostOf, keys: set<string>, r: seq<Group>)
    requires MergedSoFar(gs, r, host, keys)
    ensures forall i :: 0 <= i < |gs| ==> Proj(r[i], host, None) == Proj(gs[i], host, None)
  {
    forall i | 0 <= i < |gs| ensures Proj(r[i], host, None) == Proj(gs[i], host, None) {
      assert Proj(r[i], host, None) == Expected(gs, host, keys, i, None);
    }
  }

  /** No hostname has records in both groups. */
  ghost predicate NoCommonHost(g: Group, h: Group, host: HostOf) {
    forall t, u :: t in g.tabs && u in h.tabs && host(t.url).Some? ==> host(t.url) != host(u.url)
  }

  /** Every hostname lives in at most one group. */
  ghost predicate HostsDisjoint(gs: seq<Group>, host: HostOf) {
    forall i, j :: 0 <= i < j < |gs| ==> NoCommonHost(gs[i], gs[j], host)
  }

  /** `mergeDuplicateDomains`: merge, then drop the groups left empty. */
  function MergeDuplicateDomains(gs: seq<Group>, host: HostOf): (r: seq<Group>)
    ensures multiset(AllTabs(r)) == multiset(AllTabs(gs))
    ensures NoEmptyGroup(r)
    ensures HostsDisjoint(r, host)
    ensures forall d :: HostTabs(r, host, d) == HostTabs(gs, host, d)
    ensures Filter(AllTabs(r), HostIs(host, None)) == Filter(AllTabs(gs), HostIs(host, None))
    ensures forall g :: g in r ==> exists i :: 0 <= i < |gs| && SameShell(gs[i], g)
  {
    var m := MergeMoves(gs, host);
    var r := Prune(m);
    assert HostsDisjoint(r, host) by {
      MergedDisjoint(gs, host);
      PruneKeepsDisjoint(m, host);
    }
    assert forall d :: HostTabs(r, host, d) == HostTabs(gs, host, d) by {
      forall d ensures HostTabs(m, host, d) == HostTabs(gs, host, d) {
        MergedKeepsOrder(gs, host, d);
      }
    }
    assert Filter(AllTabs(r), HostIs(host, None)) == Filter(AllTabs(gs), HostIs(host, None)) by {
      FilterAllTabsFrame(m, gs, HostIs(host, None));
    }
    assert forall g :: g in r ==> exists i :: 0 <= i < |gs| && SameShell(gs[i], g) by {
      forall g | g in r ensures exists i :: 0 <= i < |gs| && SameShell(gs[i], g) {
        var i :| 0 <= i < |m| && m[i] == g;
        assert SameShell(gs[i], g);
      }
    }
    r
  }

  /** A record of `d` found in group `i` after merging means `i` is the
      first holder of `d`. */
  lemma {:induction false} MergedOnlyAtFirst(gs: seq<Group>, host: HostOf, d: string, i: nat)
    ensures Merged(gs, host, d, i) != [] ==> Holders(gs, host, d, 0) != [] && i == Holders(gs, host, d, 0)[0]
  {
  }

  lemma {:induction false} MergedDisjoint(gs: seq<Group>, host: HostOf)
    ensures HostsDisjoint(MergeMoves(gs, host), host)
  {
    var r := MergeMoves(gs, host);
    forall i, j | 0 <= i < j < |r| ensures NoCommonHost(r[i], r[j], host) {
      forall t, u | t in r[i].tabs && u in r[j].tabs && host(t.url).Some? ensures host(t.url) != host(u.url) {
        var d := host(t.url).value;
        SeparatedAfterMerge(gs, host, d, r[i], r[j], i, j, t, u);
      }
    }
  }

  /** Two different groups cannot both hold `d` after merging. */
  lemma {:induction false} SeparatedAfterMerge(gs: seq<Group>, host: HostOf, d: string, g: Group, h: Group, i: nat, j: nat, t: TabRecord, u: TabRecord)
    requires i < j
    requires Proj(g, host, Some(d)) == Merged(gs, host, d, i)
    requires Proj(h, host, Some(d)) == Merged(gs, host, d, j)
    requires t in g.tabs && host(t.url) == Some(d) && u in h.tabs
    ensures host(u.url) != Some(d)
  {
    FilterMembers(g.tabs, HostIs(host, Some(d)));
    FilterMembers(h.tabs, HostIs(host, Some(d)));
    MergedOnlyAtFirst(gs, host, d, i);
    MergedOnlyAtFirst(gs, host, d, j);
  }

  lemma {:induction false} PruneKeepsDisjoint(gs: seq<Group>, host: HostOf)
    requires HostsDisjoint(gs, host)
    ensures HostsDisjoint(Prune(gs), host)
  {
    if gs != [] {
      var tail := gs[1..];
      assert HostsDisjoint(tail, host) by {
        forall i, j | 0 <= i < j < |tail| ensures NoCommonHost(tail[i], tail[j], host) {
          assert tail[i] == gs[i + 1] && tail[j] == gs[j + 1];
        }
      }
      PruneKeepsDisjoint(tail, host);
      var rest := Prune(tail);
      if gs[0].tabs != [] {
        var r := [gs[0]] + rest;
        assert Prune(gs) == r;
        forall i, j | 0 <= i < j < |r| ensures NoCommonHost(r[i], r[j], host) {
          if i == 0 {
            assert r[j] == rest[j - 1] && rest[j - 1] in rest;
            var k :| 0 <= k < |tail| && tail[k] == r[j];
            assert gs[k + 1] == r[j];
          } else {
            assert r[i] == rest[i - 1] && r[j] == rest[j - 1];
          }
        }
      }
    }
  }

  /** No group from `i` on holds `d`. */
  lemma {:induction false} HoldersNone(gs: seq<Group>, host: HostOf, d: string, i: nat)
    requires i <= |gs|
    requires forall j :: i <= j < |gs| ==> Proj(gs[j], host, Some(d)) == []
    ensures Holders(gs, host, d, i) == []
  {
    PositionsNone(HolderFlags(gs, host, d), i);
  }

  /** Group `h` is the only holder of `d` from `i` on. */
  lemma {:induction false} HoldersExactly(gs: seq<Group>, host: HostOf, d: string, i: nat, h: nat)
    requires i <= h < |gs|
    requires forall j :: i <= j < |gs| ==> (Proj(gs[j], host, Some(d)) != [] <==> j == h)
    ensures Holders(gs, host, d, i) == [h]
  {
    PositionsExactly(HolderFlags(gs, host, d), i, h);
  }

  /** Merging keeps the records of each hostname in their relative order. */
  lemma {:induction false} MergedKeepsOrder(gs: seq<Group>, host: HostOf, d: string)
    ensures HostTabs(MergeMoves(gs, host), host, d) == HostTabs(gs, host, d)
  {
    var r := MergeMoves(gs, host);
    assert |r| == |gs|;
    assert forall i :: 0 <= i < |gs| ==> Proj(r[i], host, Some(d)) == Merged(gs, host, d, i);
    if Holders(gs, host, d, 0) == [] {
      OrderNoHolder(gs, r, host, d);
    } else {
      OrderFirstHolder(gs, r, host, d);
    }
  }

  lemma {:induction false} OrderNoHolder(gs: seq<Group>, r: seq<Group>, host: HostOf, d: string)
    requires |r| == |gs| && Holders(gs, host, d, 0) == []
    requires forall i :: 0 <= i < |gs| ==> Proj(r[i], host, Some(d)) == Merged(gs, host, d, i)
    ensures HostTabs(r, host, d) == HostTabs(gs, host, d)
  {
    var p := HostIs(host, Some(d));
    GatherHolders(r, host, d, 0);
    GatherHolders(gs, host, d, 0);
    assert r[0..] == r && gs[0..] == gs;
    assert forall i :: 0 <= i < |r| ==> Proj(r[i], host, Some(d)) == [];
    HoldersNone(r, host, d, 0);
  }

  lemma {:induction false} OrderFirstHolder(gs: seq<Group>, r: seq<Group>, host: HostOf, d: string)
    requires |r| == |gs| && Holders(gs, host, d, 0) != []
    requires forall i :: 0 <= i < |gs| ==> Proj(r[i], host, Some(d)) == Merged(gs, host, d, i)
    ensures HostTabs(r, host, d) == HostTabs(gs, host, d)
  {
    var p := HostIs(host, Some(d));
    var hs := Holders(gs, host, d, 0);
    var h := hs[0];
    GatherHolders(gs, host, d, 0);
    assert gs[0..] == gs;
    assert Gather(gs, hs, p) == Filter(gs[h].tabs, p) + Gather(gs, hs[1..], p);
    assert Proj(gs[h], host, Some(d)) != [];
    assert HostTabs(gs, host, d) != [];
    HoldersExactly(r, host, d, 0, h);
    GatherHolders(r, host, d, 0);
    assert r[0..] == r;
    assert Gather(r, [h], p) == Filter(r[h].tabs, p) + Gather(r, [], p);
  }

  /** Two holders of `d` share the hostname `d`. */
  lemma {:induction false} TwoHoldersShare(gs: seq<Group>, host: HostOf, d: string)
    ensures var hs := Holders(gs, host, d, 0);
      |hs| >= 2 ==> !NoCommonHost(gs[hs[0]], gs[hs[1]], host)
  {
    var hs := Holders(gs, host, d, 0);
    if |hs| >= 2 {
      var a, b := hs[0], hs[1];
      var p := HostIs(host, Some(d));
      FilterMembers(gs[a].tabs, p);
      FilterMembers(gs[b].tabs, p);
      var t := Filter(gs[a].tabs, p)[0];
      var u := Filter(gs[b].tabs, p)[0];
      assert t in Filter(gs[a].tabs, p) && u in Filter(gs[b].tabs, p);
      assert t in gs[a].tabs && u in gs[b].tabs && host(t.url) == Some(d) == host(u.url);
    }
  }

  /** Once hostnames are disjoint every hostname has at most one holder. */
  lemma {:induction false} DisjointSingleHolder(gs: seq<Group>, host: HostOf, d: string)
    requires HostsDisjoint(gs, host)
    ensures |Holders(gs, host, d, 0)| <= 1
  {
    TwoHoldersShare(gs, host, d);
  }

  /** Entries whose items sit in a single group move nothing. */
  lemma {:induction false} MergeBucketsIdle(gs: seq<Group>, host: HostOf, bs: seq<(string, seq<nat>)>)
    requires IndicesIn(bs, gs)
    requires forall m :: 0 <= m < |bs| ==> |Dedupe(bs[m].1)| <= 1
    ensures MergeBuckets(gs, host, bs) == gs
    decreases |bs|
  {
    if bs != [] {
      assert forall m :: 0 <= m < |bs| - 1 ==> bs[1..][m] == bs[m + 1];
      MergeBucketsIdle(gs, host, bs[1..]);
    }
  }

  /** A group list whose hostnames are already disjoint, without empty
      groups, is left exactly as it is. */
  lemma {:induction false} MergeFixpoint(gs: seq<Group>, host: HostOf)
    requires HostsDisjoint(gs, host) && NoEmptyGroup(gs)
    ensures MergeDuplicateDomains(gs, host) == gs
  {
    var bs := Entries(gs, host);
    forall m | 0 <= m < |bs| ensures |Dedupe(bs[m].1)| <= 1 {
      DisjointSingleHolder(gs, host, bs[m].0);
    }
    MergeBucketsIdle(gs, host, bs);
    assert MergeMoves(gs, host) == gs;
    PruneNoEmpty(gs);
  }

  /** Merging twice is merging once. */
  lemma {:induction false} MergeIdempotent(gs: seq<Group>, host: HostOf)
    ensures MergeDuplicateDomains(MergeDuplicateDomains(gs, host), host) == MergeDuplicateDomains(gs, host)
  {
    MergeFixpoint(MergeDuplicateDomains(gs, host), host);
  }
}
