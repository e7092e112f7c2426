/** Grouping live tabs by domain: `createInitialGroups` builds one group per
    domain key when nothing is stored, `autoGroupTabs` places the live tabs
    no group holds yet, joining an existing group whose hostnames contain
    the domain or opening a new one. */
module Grouping {
  import opened Opt
  import opened Seqs
  import opened Strs
  import opened Buckets
  import opened Model
  import opened Classify

  /** The fresh group id `Date.now() + Math.random()` drawn for the domain
      entry with the given index. */
  type FreshIds = nat -> GroupId

  /** The group opened for a domain with colour index `k`, holding `tabs`:
      named and iconed after the domain, expanded, with the default theme. */
  function DomainGroup(domain: string, k: nat, ids: FreshIds, tabs: seq<TabRecord>): Group {
    Group(ids(k), GroupName(domain), Palette[k % 6], tabs, false, Gradient, IconFor(domain))
  }

  /** The domain buckets of `tabs`: one (domain key, new records) pair per
      key, keys in first-seen order. */
  function DomainBuckets(tabs: seq<LiveTab>, host: HostOf, now: int): seq<(string, seq<TabRecord>)> {
    Bucketize<string, TabRecord>(DomainItems(tabs, host, now))
  }

  // ---------------------------------------------------------------------
  // createInitialGroups
  // ---------------------------------------------------------------------

  /** The `Object.entries(domainGroups).forEach` of `createInitialGroups`:
      a group per non-empty bucket, the colour index counting only the
      groups made. */
  function Build(bs: seq<(string, seq<TabRecord>)>, k: nat, ids: FreshIds): (r: seq<Group>)
    ensures AllTabs(r) == Flat(bs)
    ensures |r| <= |bs|
    ensures NoEmptyGroup(r)
  {
    if bs == [] then []
    else if |bs[0].1| > 0 then
      var rest := Build(bs[1..], k + 1, ids);
      var r := [DomainGroup(bs[0].0, k, ids, bs[0].1)] + rest;
      assert r[1..] == rest;
      r
    else
      Build(bs[1..], k, ids)
  }

  /** When no bucket is empty, every bucket makes a group. */
  lemma {:induction false} BuildLength(bs: seq<(string, seq<TabRecord>)>, k: nat, ids: FreshIds)
    requires forall i :: 0 <= i < |bs| ==> bs[i].1 != []
    ensures |Build(bs, k, ids)| == |bs|
  {
    if bs != [] {
      BuildLength(bs[1..], k + 1, ids);
    }
  }

  /** A non-empty first bucket makes the first group, and the rest are built
      from the remaining buckets with the next colour index. */
  lemma {:induction false} BuildCons(bs: seq<(string, seq<TabRecord>)>, k: nat, ids: FreshIds)
    requires bs != [] && bs[0].1 != []
    ensures Build(bs, k, ids) == [DomainGroup(bs[0].0, k, ids, bs[0].1)] + Build(bs[1..], k + 1, ids)
  {
  }

  /** Past a non-empty first bucket, the groups are those of the remaining
      buckets. */
  lemma {:induction false} BuildShift(bs: seq<(string, seq<TabRecord>)>, k: nat, ids: FreshIds, i: nat)
    requires bs != [] && bs[0].1 != []
    requires 0 < i < |Build(bs, k, ids)|
    ensures i - 1 < |Build(bs[1..], k + 1, ids)| && Build(bs, k, ids)[i] == Build(bs[1..], k + 1, ids)[i - 1]
  {
    BuildCons(bs, k, ids);
  }

  /** When no bucket is empty, the i-th group is made from the i-th bucket
      with colour index `c = k + i` (named, so that the inductive step
      compares groups built from the same index term). */
  lemma {:induction false} BuildAt(bs: seq<(string, seq<TabRecord>)>, k: nat, ids: FreshIds, i: nat, c: nat)
    requires forall i :: 0 <= i < |bs| ==> bs[i].1 != []
    requires i < |bs| && c == k + i
    ensures i < |Build(bs, k, ids)| && Build(bs, k, ids)[i] == DomainGroup(bs[i].0, c, ids, bs[i].1)
  {
    BuildLength(bs, k, ids);
    if i == 0 {
      BuildCons(bs, k, ids);
    } else {
      var tail := bs[1..];
      assert forall j :: 0 <= j < |tail| ==> tail[j].1 != [] by {
        forall j | 0 <= j < |tail| ensures tail[j].1 != [] {
          assert tail[j] == bs[j + 1];
        }
      }
      BuildShift(bs, k, ids, i);
      BuildAt(tail, k + 1, ids, i - 1, c);
      assert tail[i - 1] == bs[i];
    }
  }

  /** `createInitialGroups`: nothing when the window has no tabs; otherwise
      the stored groups followed by one new group per domain key of the
      parseable tabs. */
  function Initial(gs: seq<Group>, live: seq<LiveTab>, host: HostOf, now: int, ids: FreshIds): (r: seq<Group>)
    ensures live == [] ==> r == gs
    ensures |r| == |gs| + |Dedupe(Keys(DomainItems(live, host, now)))|
    ensures r[..|gs|] == gs
  {
    if |live| == 0 then gs
    else
      var bs := DomainBuckets(live, host, now);
      BucketsNonEmpty(DomainItems(live, host, now));
      BuildLength(bs, 0, ids);
      var r := gs + Build(bs, 0, ids);
      assert r[..|gs|] == gs;
      r
  }

  /** The j-th new group of `createInitialGroups` holds the new records of
      the j-th domain key in tab order, and takes colour j mod 6. */
  lemma {:induction false} InitialAt(gs: seq<Group>, live: seq<LiveTab>, host: HostOf, now: int, ids: FreshIds, j: nat)
    requires j < |Dedupe(Keys(DomainItems(live, host, now)))|
    ensures var items := DomainItems(live, host, now);
            var key := Dedupe(Keys(items))[j];
            Initial(gs, live, host, now, ids)[|gs| + j] == DomainGroup(key, j, ids, Select(items, key))
  {
    var items := DomainItems(live, host, now);
    var bs := DomainBuckets(live, host, now);
    BucketsNonEmpty(items);
    BuildAt(bs, 0, ids, j, j);
    assert BucketKeys(bs)[j] == bs[j].0;
  }

  /** `createInitialGroups` adds exactly the new records of the tabs whose
      URL parses. */
  lemma {:induction false} InitialTabs(gs: seq<Group>, live: seq<LiveTab>, host: HostOf, now: int, ids: FreshIds)
    ensures multiset(AllTabs(Initial(gs, live, host, now, ids)))
            == multiset(AllTabs(gs)) + multiset(Vals(DomainItems(live, host, now)))
  {
    if |live| > 0 {
      var bs := DomainBuckets(live, host, now);
      BucketizeFlat(DomainItems(live, host, now));
      AllTabsAppend(gs, Build(bs, 0, ids));
    }
  }

  /** Every parseable tab lands in a new group. */
  lemma {:induction false} InitialPlacesEach(gs: seq<Group>, live: seq<LiveTab>, host: HostOf, now: int, ids: FreshIds, t: LiveTab)
    requires t in live && host(t.url).Some?
    ensures exists i :: |gs| <= i < |Initial(gs, live, host, now, ids)|
                        && NewRecord(t, now) in Initial(gs, live, host, now, ids)[i].tabs
  {
    var r := Initial(gs, live, host, now, ids);
    var items := DomainItems(live, host, now);
    var keys := Dedupe(Keys(items));
    var key := DomainKey(host(t.url).value);
    DomainItemsSpec(live, host, now);
    assert (key, NewRecord(t, now)) in items;
    var p :| 0 <= p < |items| && items[p] == (key, NewRecord(t, now));
    assert key == Keys(items)[p];
    assert key in keys;
    var j :| 0 <= j < |keys| && keys[j] == key;
    InitialAt(gs, live, host, now, ids, j);
    SelectMember(items, key, NewRecord(t, now));
    assert NewRecord(t, now) in r[|gs| + j].tabs;
  }

  /** A new group holds only records of its own domain key, all fresh, and
      is named after that key. */
  lemma {:induction false} InitialKeyed(gs: seq<Group>, live: seq<LiveTab>, host: HostOf, now: int, ids: FreshIds, i: nat, rec: TabRecord)
    requires |gs| <= i < |Initial(gs, live, host, now, ids)|
    requires rec in Initial(gs, live, host, now, ids)[i].tabs
    ensures host(rec.url).Some?
    ensures Initial(gs, live, host, now, ids)[i].name == GroupName(DomainKey(host(rec.url).value))
    ensures Initial(gs, live, host, now, ids)[i].color == Palette[(i - |gs|) % 6]
    ensures rec.visitCount == 1 && rec.lastVisited == now
  {
    var items := DomainItems(live, host, now);
    var keys := Dedupe(Keys(items));
    var j := i - |gs|;
    InitialAt(gs, live, host, now, ids, j);
    DomainItemsSpec(live, host, now);
    assert (keys[j], rec) in items;
  }

  /** The domain key a new group was made for is the key of any record in it. */
  lemma {:induction false} InitialKeyOf(gs: seq<Group>, live: seq<LiveTab>, host: HostOf, now: int, ids: FreshIds, i: nat, rec: TabRecord)
    requires |gs| <= i < |Initial(gs, live, host, now, ids)|
    requires rec in Initial(gs, live, host, now, ids)[i].tabs
    ensures host(rec.url).Some?
    ensures Dedupe(Keys(DomainItems(live, host, now)))[i - |gs|] == DomainKey(host(rec.url).value)
  {
    var items := DomainItems(live, host, now);
    var keys := Dedupe(Keys(items));
    InitialAt(gs, live, host, now, ids, i - |gs|);
    DomainItemsSpec(live, host, now);
    assert (keys[i - |gs|], rec) in items;
  }

  /** A parseable tab's record lands in exactly one new group. */
  lemma {:induction false} InitialExactlyOnce(gs: seq<Group>, live: seq<LiveTab>, host: HostOf, now: int, ids: FreshIds,
                           rec: TabRecord, i1: nat, i2: nat)
    requires |gs| <= i1 < |Initial(gs, live, host, now, ids)| && |gs| <= i2 < |Initial(gs, live, host, now, ids)|
    requires rec in Initial(gs, live, host, now, ids)[i1].tabs && rec in Initial(gs, live, host, now, ids)[i2].tabs
    ensures i1 == i2
  {
    InitialKeyOf(gs, live, host, now, ids, i1, rec);
    InitialKeyOf(gs, live, host, now, ids, i2, rec);
    var keys := Dedupe(Keys(DomainItems(live, host, now)));
    assert Distinct(keys);
  }

  // ---------------------------------------------------------------------
  // autoGroupTabs
  // ---------------------------------------------------------------------

  function NotIn(ids: seq<TabId>): LiveTab -> bool {
    (t: LiveTab) => t.id !in ids
  }

  /** The live tabs no stored record has the id of. */
  function Ungrouped(live: seq<LiveTab>, gs: seq<Group>): seq<LiveTab> {
    Filter(live, NotIn(TabIds(gs)))
  }

  function Parses(host: HostOf): LiveTab -> bool {
    (t: LiveTab) => host(t.url).Some?
  }

  /** The new records of `tabs`, in order. */
  function NewRecords(tabs: seq<LiveTab>, now: int): (r: seq<TabRecord>)
    ensures |r| == |tabs|
    ensures forall i :: 0 <= i < |tabs| ==> r[i] == NewRecord(tabs[i], now)
  {
    if tabs == [] then [] else [NewRecord(tabs[0], now)] + NewRecords(tabs[1..], now)
  }

  /** The records the domain items carry are the new records of exactly the
      parseable tabs, in tab order. */
  lemma {:induction false} DomainItemsRecords(tabs: seq<LiveTab>, host: HostOf, now: int)
    ensures Vals(DomainItems(tabs, host, now)) == NewRecords(Filter(tabs, Parses(host)), now)
  {
    if tabs != [] {
      DomainItemsRecords(tabs[1..], host, now);
      ValsHead(tabs, host, now);
      NewRecordsHead(tabs, host, now);
    }
  }

  /** The values of the domain items, split after the first tab. */
  lemma {:induction false} ValsHead(tabs: seq<LiveTab>, host: HostOf, now: int)
    requires tabs != []
    ensures Vals(DomainItems(tabs, host, now))
            == (if host(tabs[0].url).Some? then [NewRecord(tabs[0], now)] else []) + Vals(DomainItems(tabs[1..], host, now))
  {
    var d := DomainItems(tabs, host, now);
    var rest := DomainItems(tabs[1..], host, now);
    if host(tabs[0].url).Some? {
      assert d == [d[0]] + rest;
      ValsAppend([d[0]], rest);
    } else {
      assert d == rest;
    }
  }

  /** The new records of the parseable tabs, split after the first tab. */
  lemma {:induction false} NewRecordsHead(tabs: seq<LiveTab>, host: HostOf, now: int)
    requires tabs != []
    ensures NewRecords(Filter(tabs, Parses(host)), now)
            == (if host(tabs[0].url).Some? then [NewRecord(tabs[0], now)] else []) + NewRecords(Filter(tabs[1..], Parses(host)), now)
  {
    var fs := Filter(tabs[1..], Parses(host));
    if host(tabs[0].url).Some? {
      assert Filter(tabs, Parses(host)) == [tabs[0]] + fs;
      assert ([tabs[0]] + fs)[1..] == fs;
    } else {
      assert Filter(tabs, Parses(host)) == fs;
    }
  }

  /** Tabs none of whose URLs parse give no domain items. */
  lemma {:induction false} DomainItemsEmpty(tabs: seq<LiveTab>, host: HostOf, now: int)
    requires forall t :: t in tabs ==> host(t.url).None?
    ensures DomainItems(tabs, host, now) == []
  {
    if tabs != [] {
      DomainItemsEmpty(tabs[1..], host, now);
    }
  }

  lemma {:induction false} ValsAppend<K, V>(a: seq<(K, V)>, b: seq<(K, V)>)
    ensures Vals(a + b) == Vals(a) + Vals(b)
  {
  }

  /** The hostname of the record's URL contains `domain` (an unparseable URL
      contains nothing). */
  predicate HostHas(host: HostOf, domain: string, t: TabRecord) {
    host(t.url).Some? && Contains(host(t.url).value, domain)
  }

  /** Some record of `tabs` has a hostname containing `domain` (the
      `g.tabs.some(...)` of the group lookup). */
  predicate AnyHostHas(host: HostOf, domain: string, tabs: seq<TabRecord>) {
    tabs != [] && (HostHas(host, domain, tabs[0]) || AnyHostHas(host, domain, tabs[1..]))
  }

  predicate Covers(host: HostOf, domain: string, g: Group) {
    AnyHostHas(host, domain, g.tabs)
  }

  function CoversDomain(host: HostOf, domain: string): Group -> bool {
    (g: Group) => Covers(host, domain, g)
  }

  lemma {:induction false} AnyHostHasIff(host: HostOf, domain: string, tabs: seq<TabRecord>)
    ensures AnyHostHas(host, domain, tabs) <==> exists t :: t in tabs && HostHas(host, domain, t)
  {
    if tabs != [] {
      AnyHostHasIff(host, domain, tabs[1..]);
      assert forall t :: t in tabs <==> t == tabs[0] || t in tabs[1..];
    }
  }

  lemma {:induction false} CoversGrow(host: HostOf, domain: string, g: Group, h: Group)
    requires g.tabs <= h.tabs && Covers(host, domain, g)
    ensures Covers(host, domain, h)
  {
    AnyHostHasIff(host, domain, g.tabs);
    AnyHostHasIff(host, domain, h.tabs);
    var t :| t in g.tabs && HostHas(host, domain, t);
    var k :| 0 <= k < |g.tabs| && g.tabs[k] == t;
    assert h.tabs[k] == t;
  }

  /** One domain entry of the loop: the domain key, the group a new group
      for it would start as, and its new records. */
  datatype Entry = Entry(domain: string, shell: Group, recs: seq<TabRecord>)

  /** The entries of a bucket list, the colour index being the entry's
      position (the `index` of `forEach`). */
  function Entries(bs: seq<(string, seq<TabRecord>)>, k: nat, ids: FreshIds): (es: seq<Entry>)
    ensures |es| == |bs|
  {
    if bs == [] then []
    else [Entry(bs[0].0, DomainGroup(bs[0].0, k, ids, []), bs[0].1)] + Entries(bs[1..], k + 1, ids)
  }

  /** Entry i is bucket i's domain and records, with the shell of colour
      index `c = k + i` (named, so that the inductive step compares entries
      built from the same index term). */
  lemma {:induction false} EntriesAt(bs: seq<(string, seq<TabRecord>)>, k: nat, ids: FreshIds, i: nat, c: nat)
    requires i < |bs| && c == k + i
    ensures Entries(bs, k, ids)[i] == Entry(bs[i].0, DomainGroup(bs[i].0, c, ids, []), bs[i].1)
  {
    if i > 0 {
      EntriesAt(bs[1..], k + 1, ids, i - 1, c);
      assert Entries(bs, k, ids)[i] == Entries(bs[1..], k + 1, ids)[i - 1];
      assert bs[1..][i - 1] == bs[i];
    }
  }

  /** All records of the entries, entry after entry. */
  function EntryRecs(es: seq<Entry>): seq<TabRecord> {
    if es == [] then [] else es[0].recs + EntryRecs(es[1..])
  }

  lemma {:induction false} EntriesRecs(bs: seq<(string, seq<TabRecord>)>, k: nat, ids: FreshIds)
    ensures EntryRecs(Entries(bs, k, ids)) == Flat(bs)
  {
    if bs != [] {
      EntriesRecs(bs[1..], k + 1, ids);
      assert Entries(bs, k, ids)[1..] == Entries(bs[1..], k + 1, ids);
    }
  }

  /** One domain entry of `autoGroupTabs`: the records join the first group
      covering the domain, or a new group is appended when none does. The
      walk over the groups is the `groups.find(...)` of the source. */
  function Place(gs: seq<Group>, host: HostOf, e: Entry): (r: seq<Group>)
    ensures |r| == |gs| || |r| == |gs| + 1
    ensures forall i :: 0 <= i < |gs| ==> SameShell(gs[i], r[i]) && gs[i].tabs <= r[i].tabs
    decreases |gs|
  {
    if gs == [] then [e.shell.(tabs := e.recs)]
    else if Covers(host, e.domain, gs[0]) then [gs[0].(tabs := gs[0].tabs + e.recs)] + gs[1..]
    else [gs[0]] + Place(gs[1..], host, e)
  }

  /** When some group covers the domain, the records are appended to the
      first such group and nothing else changes. */
  lemma {:induction false} PlaceJoinsFirst(gs: seq<Group>, host: HostOf, e: Entry, i: nat)
    requires i < |gs| && Covers(host, e.domain, gs[i])
    requires forall j :: 0 <= j < i ==> !Covers(host, e.domain, gs[j])
    ensures Place(gs, host, e) == gs[i := gs[i].(tabs := gs[i].tabs + e.recs)]
    decreases |gs|
  {
    var g := gs[i].(tabs := gs[i].tabs + e.recs);
    if i == 0 {
      assert gs[0 := g] == [g] + gs[1..];
    } else {
      assert !Covers(host, e.domain, gs[0]);
      PlaceJoinsFirst(gs[1..], host, e, i - 1);
      assert gs[1..][i - 1] == gs[i];
      UpdateTail(gs, i, g);
    }
  }

  /** When no group covers the domain, one new group holding the records is
      appended. */
  lemma {:induction false} PlaceAppendsNew(gs: seq<Group>, host: HostOf, e: Entry)
    requires forall j :: 0 <= j < |gs| ==> !Covers(host, e.domain, gs[j])
    ensures Place(gs, host, e) == gs + [e.shell.(tabs := e.recs)]
    decreases |gs|
  {
    if gs != [] {
      assert !Covers(host, e.domain, gs[0]);
      PlaceAppendsNew(gs[1..], host, e);
      assert gs + [e.shell.(tabs := e.recs)] == [gs[0]] + (gs[1..] + [e.shell.(tabs := e.recs)]);
    }
  }

  /** A group is appended exactly when no group covers the domain, and it
      is the entry's shell holding the entry's records. */
  lemma {:induction false} PlaceGrows(gs: seq<Group>, host: HostOf, e: Entry)
    ensures |Place(gs, host, e)| == |gs| + 1 <==> forall i :: 0 <= i < |gs| ==> !Covers(host, e.domain, gs[i])
    ensures |Place(gs, host, e)| == |gs| + 1 ==> Place(gs, host, e)[|gs|] == e.shell.(tabs := e.recs)
    decreases |gs|
  {
    if gs != [] {
      PlaceGrows(gs[1..], host, e);
      assert forall i :: 1 <= i < |gs| ==> gs[i] == gs[1..][i - 1];
    }
  }

  /** Placing adds exactly the entry's records. */
  lemma {:induction false} PlaceTabs(gs: seq<Group>, host: HostOf, e: Entry)
    ensures multiset(AllTabs(Place(gs, host, e))) == multiset(AllTabs(gs)) + multiset(e.recs)
    decreases |gs|
  {
    var r := Place(gs, host, e);
    if gs == [] {
      assert AllTabs(r) == e.recs + AllTabs([]);
    } else if Covers(host, e.domain, gs[0]) {
      assert r[1..] == gs[1..];
    } else {
      PlaceTabs(gs[1..], host, e);
      assert r[1..] == Place(gs[1..], host, e);
    }
  }

  /** The `Object.entries(domainGroups).forEach(..., index)` loop of
      `autoGroupTabs`; entries without records are skipped. */
  function PlaceAll(gs: seq<Group>, host: HostOf, es: seq<Entry>): (r: seq<Group>)
    ensures |r| >= |gs|
    ensures forall i :: 0 <= i < |gs| ==> SameShell(gs[i], r[i]) && gs[i].tabs <= r[i].tabs
    decreases |es|
  {
    if es == [] then gs
    else PlaceAll(if |es[0].recs| > 0 then Place(gs, host, es[0]) else gs, host, es[1..])
  }

  /** The whole loop adds exactly the records of all entries. */
  lemma {:induction false} PlaceAllTabs(gs: seq<Group>, host: HostOf, es: seq<Entry>)
    ensures multiset(AllTabs(PlaceAll(gs, host, es))) == multiset(AllTabs(gs)) + multiset(EntryRecs(es))
    decreases |es|
  {
    if es != [] {
      var next := if |es[0].recs| > 0 then Place(gs, host, es[0]) else gs;
      if |es[0].recs| > 0 {
        PlaceTabs(gs, host, es[0]);
      }
      PlaceAllTabs(next, host, es[1..]);
    }
  }

  /** The index of the entry whose placement appended group `j`. */
  function Origin(gs: seq<Group>, host: HostOf, es: seq<Entry>, j: nat): (m: nat)
    requires |gs| <= j < |PlaceAll(gs, host, es)|
    ensures m < |es|
    decreases |es|
  {
    var next := if |es[0].recs| > 0 then Place(gs, host, es[0]) else gs;
    if j < |next| then 0 else 1 + Origin(next, host, es[1..], j)
  }

  /** Every group the loop adds is its entry's shell, and its records start
      with the entry's records. */
  lemma {:induction false} PlaceAllShell(gs: seq<Group>, host: HostOf, es: seq<Entry>, j: nat)
    requires |gs| <= j < |PlaceAll(gs, host, es)|
    ensures SameShell(es[Origin(gs, host, es, j)].shell, PlaceAll(gs, host, es)[j])
    ensures es[Origin(gs, host, es, j)].recs <= PlaceAll(gs, host, es)[j].tabs
    decreases |es|
  {
    var next := if |es[0].recs| > 0 then Place(gs, host, es[0]) else gs;
    var r := PlaceAll(gs, host, es);
    assert r == PlaceAll(next, host, es[1..]);
    if j < |next| {
      assert |es[0].recs| > 0 && j == |gs|;
      PlaceGrows(gs, host, es[0]);
      assert next[j] == es[0].shell.(tabs := es[0].recs);
      assert SameShell(next[j], r[j]) && next[j].tabs <= r[j].tabs;
      assert Origin(gs, host, es, j) == 0;
    } else {
      PlaceAllShell(next, host, es[1..], j);
      var m := Origin(next, host, es[1..], j);
      assert Origin(gs, host, es, j) == 1 + m;
      assert es[1..][m] == es[1 + m];
    }
  }

  /** No original group covers the domain of the entry that appended group
      `j`. */
  lemma {:induction false} PlaceAllUncovered(gs: seq<Group>, host: HostOf, es: seq<Entry>, j: nat)
    requires |gs| <= j < |PlaceAll(gs, host, es)|
    ensures forall i :: 0 <= i < |gs| ==> !Covers(host, es[Origin(gs, host, es, j)].domain, gs[i])
    decreases |es|
  {
    var next := if |es[0].recs| > 0 then Place(gs, host, es[0]) else gs;
    if j < |next| {
      PlaceGrows(gs, host, es[0]);
    } else {
      PlaceAllUncovered(next, host, es[1..], j);
      NoCoverBefore(gs, next, host, es[Origin(gs, host, es, j)].domain);
    }
  }

  /** A domain no grown group covers was covered by none of the originals. */
  lemma {:induction false} NoCoverBefore(gs: seq<Group>, hs: seq<Group>, host: HostOf, domain: string)
    requires |gs| <= |hs|
    requires forall i :: 0 <= i < |gs| ==> gs[i].tabs <= hs[i].tabs
    requires forall i :: 0 <= i < |hs| ==> !Covers(host, domain, hs[i])
    ensures forall i :: 0 <= i < |gs| ==> !Covers(host, domain, gs[i])
  {
    forall i | 0 <= i < |gs| ensures !Covers(host, domain, gs[i]) {
      if Covers(host, domain, gs[i]) {
        CoversGrow(host, domain, gs[i], hs[i]);
      }
    }
  }

  /** `autoGroupTabs`: nothing changes when every live tab is grouped;
      otherwise each domain entry of the ungrouped tabs is placed in turn.
      Stored groups keep their place, fields and records. */
  function AutoGroup(gs: seq<Group>, live: seq<LiveTab>, host: HostOf, now: int, ids: FreshIds): (r: seq<Group>)
    ensures Ungrouped(live, gs) == [] ==> r == gs
    ensures |r| >= |gs|
    ensures forall i :: 0 <= i < |gs| ==> SameShell(gs[i], r[i]) && gs[i].tabs <= r[i].tabs
  {
    var un := Ungrouped(live, gs);
    if |un| == 0 then gs
    else PlaceAll(gs, host, Entries(DomainBuckets(un, host, now), 0, ids))
  }

  /** `autoGroupTabs` adds exactly the new records of the ungrouped tabs
      whose URL parses, each once. */
  lemma {:induction false} AutoGroupTabs(gs: seq<Group>, live: seq<LiveTab>, host: HostOf, now: int, ids: FreshIds)
    ensures multiset(AllTabs(AutoGroup(gs, live, host, now, ids))) == multiset(AllTabs(gs))
              + multiset(NewRecords(Filter(Ungrouped(live, gs), Parses(host)), now))
  {
    var un := Ungrouped(live, gs);
    if |un| == 0 {
      assert Filter(un, Parses(host)) == [];
    } else {
      var bs := DomainBuckets(un, host, now);
      DomainItemsRecords(un, host, now);
      BucketizeFlat(DomainItems(un, host, now));
      EntriesRecs(bs, 0, ids);
      PlaceAllTabs(gs, host, Entries(bs, 0, ids));
    }
  }

  /** A new group comes from the m-th domain bucket of the ungrouped tabs
      (the m-th entry of `Object.entries(domainGroups)`), whose key no stored
      hostname contains. It has the id, name, colour and icon of that key at
      index m, and its records start with the bucket's records. */
  lemma {:induction false} AutoGroupNewOnlyUncovered(gs: seq<Group>, live: seq<LiveTab>, host: HostOf, now: int, ids: FreshIds, j: nat)
    requires |gs| <= j < |AutoGroup(gs, live, host, now, ids)|
    ensures var bs := DomainBuckets(Ungrouped(live, gs), host, now);
            exists m :: 0 <= m < |bs|
              && (forall i :: 0 <= i < |gs| ==> !Covers(host, bs[m].0, gs[i]))
              && SameShell(DomainGroup(bs[m].0, m, ids, []), AutoGroup(gs, live, host, now, ids)[j])
              && bs[m].1 <= AutoGroup(gs, live, host, now, ids)[j].tabs
  {
    var un := Ungrouped(live, gs);
    var bs := DomainBuckets(un, host, now);
    var es := Entries(bs, 0, ids);
    assert |un| > 0 && AutoGroup(gs, live, host, now, ids) == PlaceAll(gs, host, es);
    PlaceAllShell(gs, host, es, j);
    PlaceAllUncovered(gs, host, es, j);
    var m := Origin(gs, host, es, j);
    EntriesAt(bs, 0, ids, m, m);
  }

  /** Growing groups in place keeps every stored id. */
  lemma {:induction false} GrowKeepsIds(gs: seq<Group>, hs: seq<Group>, id: TabId)
    requires |gs| <= |hs|
    requires forall i :: 0 <= i < |gs| ==> gs[i].tabs <= hs[i].tabs
    requires id in TabIds(gs)
    ensures id in TabIds(hs)
  {
    var rec :| rec in AllTabs(gs) && rec.id == id;
    AllTabsMember(gs, rec);
    var i :| 0 <= i < |gs| && rec in gs[i].tabs;
    var k :| 0 <= k < |gs[i].tabs| && gs[i].tabs[k] == rec;
    assert hs[i].tabs[k] == rec;
  }

  /** Every ungrouped live tab whose URL parses has its new record stored
      afterwards. */
  lemma {:induction false} AutoGroupStoresNew(gs: seq<Group>, live: seq<LiveTab>, host: HostOf, now: int, ids: FreshIds, t: LiveTab)
    requires t in Ungrouped(live, gs) && host(t.url).Some?
    ensures NewRecord(t, now) in AllTabs(AutoGroup(gs, live, host, now, ids))
  {
    var ps := Filter(Ungrouped(live, gs), Parses(host));
    FilterMembers(Ungrouped(live, gs), Parses(host));
    var p :| 0 <= p < |ps| && ps[p] == t;
    AutoGroupTabs(gs, live, host, now, ids);
    assert NewRecords(ps, now)[p] == NewRecord(t, now);
    assert NewRecord(t, now) in multiset(AllTabs(AutoGroup(gs, live, host, now, ids)));
  }

  /** Afterwards every live tab whose URL parses is held by some group. */
  lemma {:induction false} AutoGroupCoversLive(gs: seq<Group>, live: seq<LiveTab>, host: HostOf, now: int, ids: FreshIds, t: LiveTab)
    requires t in live && host(t.url).Some?
    ensures t.id in TabIds(AutoGroup(gs, live, host, now, ids))
  {
    var r := AutoGroup(gs, live, host, now, ids);
    if t.id in TabIds(gs) {
      GrowKeepsIds(gs, r, t.id);
    } else {
      FilterMembers(live, NotIn(TabIds(gs)));
      AutoGroupStoresNew(gs, live, host, now, ids, t);
      AllTabsMember(r, NewRecord(t, now));
    }
  }

  /** Every record after `autoGroupTabs` was stored before or is the new
      record of an ungrouped live tab whose URL parses. */
  lemma {:induction false} AutoGroupAddsOnlyNew(gs: seq<Group>, live: seq<LiveTab>, host: HostOf, now: int, ids: FreshIds, rec: TabRecord)
    requires rec in AllTabs(AutoGroup(gs, live, host, now, ids))
    ensures rec in AllTabs(gs)
            || exists t :: t in Ungrouped(live, gs) && host(t.url).Some? && rec == NewRecord(t, now)
  {
    var r := AutoGroup(gs, live, host, now, ids);
    AutoGroupTabs(gs, live, host, now, ids);
    assert rec in multiset(AllTabs(r));
    if rec !in AllTabs(gs) {
      var ps := Filter(Ungrouped(live, gs), Parses(host));
      assert rec in NewRecords(ps, now);
      var p :| 0 <= p < |ps| && NewRecords(ps, now)[p] == rec;
      FilterMembers(Ungrouped(live, gs), Parses(host));
      assert ps[p] in Ungrouped(live, gs);
    }
  }

  /** A second `autoGroupTabs` over the same live tabs changes nothing:
      the only tabs still ungrouped are those whose URL does not parse. */
  lemma {:induction false} AutoGroupIdempotent(gs: seq<Group>, live: seq<LiveTab>, host: HostOf, now: int, ids: FreshIds,
                            now2: int, ids2: FreshIds)
    ensures AutoGroup(AutoGroup(gs, live, host, now, ids), live, host, now2, ids2)
            == AutoGroup(gs, live, host, now, ids)
  {
    var r := AutoGroup(gs, live, host, now, ids);
    var un := Ungrouped(live, r);
    FilterMembers(live, NotIn(TabIds(r)));
    forall t | t in un ensures host(t.url).None? {
      if host(t.url).Some? {
        AutoGroupCoversLive(gs, live, host, now, ids, t);
      }
    }
    DomainItemsEmpty(un, host, now2);
    assert DomainBuckets(un, host, now2) == [];
  }
}
