/** The data model of the tab organizer: stored tab records, groups, the
    live tabs the browser reports, and the settings record, together with
    the whole-collection views every operation is specified against. */
module Model {
  import opened Opt
  import opened Seqs

  type TabId = int

  /** Group ids are `Date.now()` or `Date.now() + Math.random()`: numbers
      that are only ever compared for equality. */
  type GroupId = real

  /** The URL parser, reduced to what the engine reads from it: the
      hostname of a URL, or None when `new URL(url)` throws. */
  type HostOf = string -> Option<string>

  /** A stored tab record; times are integer milliseconds. */
  datatype TabRecord = TabRecord(
    id: TabId,
    title: string,
    url: string,
    favicon: string,
    lastVisited: int,
    visitCount: int)

  datatype Theme = Gradient | Solid | Glass

  datatype Group = Group(
    id: GroupId,
    name: string,
    color: string,
    tabs: seq<TabRecord>,
    collapsed: bool,
    theme: Theme,
    icon: string)

  /** A tab as the browser reports it; `favIconUrl` may be absent. */
  datatype LiveTab = LiveTab(id: TabId, title: string, url: string, favIconUrl: Option<string>)

  datatype Settings = Settings(autoGroup: bool, aiEnabled: bool, theme: string)

  /** The six group colours, in the order every palette literal lists them. */
  const Palette: seq<string> := ["#8b5a3c", "#6d4226", "#a0826d", "#5c3d2e", "#b8956a", "#8b6f47"]

  /** The favicon token a record gets when the live tab reports none. */
  const GlobeIcon: string := "fas fa-globe"

  const HourMs: int := 3600000
  const DayMs: int := 24 * HourMs

  /** `v || fallback` for an optional string: absent and empty both fall back. */
  function OrElse(v: Option<string>, fallback: string): (r: string)
    ensures r != "" ==> r == fallback || (v.Some? && r == v.value)
    ensures v.Some? && v.value != "" ==> r == v.value
    ensures v.None? ==> r == fallback
  {
    if v.Some? && v.value != "" then v.value else fallback
  }

  /** The record made for a live tab when it is first grouped. */
  function NewRecord(tab: LiveTab, now: int): TabRecord {
    TabRecord(tab.id, tab.title, tab.url, OrElse(tab.favIconUrl, GlobeIcon), now, 1)
  }

  /** Every stored record, group after group, each group in its own order. */
  function AllTabs(gs: seq<Group>): seq<TabRecord> {
    if gs == [] then [] else gs[0].tabs + AllTabs(gs[1..])
  }

  /** The ids of every stored record (`groups.flatMap(g => g.tabs.map(t => t.id))`). */
  function TabIds(gs: seq<Group>): (ids: seq<TabId>)
    ensures forall i :: 0 <= i < |gs| ==> forall t :: t in gs[i].tabs ==> t.id in ids
    ensures forall id :: id in ids ==> exists t :: t in AllTabs(gs) && t.id == id
  {
    if gs == [] then []
    else
      var ids := IdsOf(gs[0].tabs) + TabIds(gs[1..]);
      assert forall i :: 1 <= i < |gs| ==> gs[i] == gs[1..][i - 1];
      ids
  }

  function IdsOf(ts: seq<TabRecord>): (ids: seq<TabId>)
    ensures |ids| == |ts|
    ensures forall i :: 0 <= i < |ts| ==> ids[i] == ts[i].id
  {
    if ts == [] then [] else [ts[0].id] + IdsOf(ts[1..])
  }

  /** `g` and `h` differ at most in their tab lists. */
  predicate SameShell(g: Group, h: Group) {
    g.id == h.id && g.name == h.name && g.color == h.color
    && g.collapsed == h.collapsed && g.theme == h.theme && g.icon == h.icon
  }

  predicate NoEmptyGroup(gs: seq<Group>) {
    forall i :: 0 <= i < |gs| ==> gs[i].tabs != []
  }

  /** `groups.filter(g => g.tabs.length > 0)`. */
  function Prune(gs: seq<Group>): (r: seq<Group>)
    ensures NoEmptyGroup(r)
    ensures AllTabs(r) == AllTabs(gs)
    ensures |r| <= |gs|
    ensures forall g :: g in r ==> g in gs
    ensures forall g :: g in gs && g.tabs != [] ==> g in r
  {
    if gs == [] then []
    else
      var rest := Prune(gs[1..]);
      if gs[0].tabs == [] then rest
      else
        var r := [gs[0]] + rest;
        assert r[1..] == rest;
        r
  }

  /** Whether each group still holds a record. */
  function NonEmptyFlags(gs: seq<Group>): (f: seq<bool>)
    ensures |f| == |gs|
    ensures forall i :: 0 <= i < |gs| ==> f[i] == (gs[i].tabs != [])
  {
    seq(|gs|, i requires 0 <= i < |gs| => gs[i].tabs != [])
  }

  /** Pruning the groups from `i` on keeps exactly the non-empty ones, in
      order: group j of the result is the group at the j-th position from
      `i` on that holds a record. */
  lemma {:induction false} PruneAt(gs: seq<Group>, i: nat)
    requires i <= |gs|
    ensures var ix := Positions(NonEmptyFlags(gs), i);
            |Prune(gs[i..])| == |ix| && forall j :: 0 <= j < |ix| ==> Prune(gs[i..])[j] == gs[ix[j]]
    decreases |gs| - i
  {
    if i < |gs| {
      PruneAt(gs, i + 1);
      assert gs[i..][0] == gs[i];
      assert gs[i..][1..] == gs[i + 1..];
    }
  }

  lemma {:induction false} PruneNoEmpty(gs: seq<Group>)
    requires NoEmptyGroup(gs)
    ensures Prune(gs) == gs
  {
    if gs != [] {
      PruneNoEmpty(gs[1..]);
    }
  }

  lemma {:induction false} PruneAppend(gs: seq<Group>, hs: seq<Group>)
    ensures Prune(gs + hs) == Prune(gs) + Prune(hs)
  {
    if gs == [] {
      assert gs + hs == hs;
    } else {
      assert (gs + hs)[1..] == gs[1..] + hs;
      PruneAppend(gs[1..], hs);
    }
  }

  lemma {:induction false} AllTabsAppend(gs: seq<Group>, hs: seq<Group>)
    ensures AllTabs(gs + hs) == AllTabs(gs) + AllTabs(hs)
  {
    if gs == [] {
      assert gs + hs == hs;
    } else {
      assert (gs + hs)[1..] == gs[1..] + hs;
      AllTabsAppend(gs[1..], hs);
    }
  }

  /** Replacing one group changes the multiset of all records by exactly
      the difference between the old and new tab lists. */
  lemma {:induction false} AllTabsUpdate(gs: seq<Group>, i: nat, g: Group)
    requires i < |gs|
    ensures multiset(AllTabs(gs[i := g])) + multiset(gs[i].tabs)
            == multiset(AllTabs(gs)) + multiset(g.tabs)
  {
    var hs := gs[i := g];
    if i == 0 {
      assert hs[1..] == gs[1..];
      assert AllTabs(hs) == g.tabs + AllTabs(gs[1..]);
    } else {
      var tail := gs[1..];
      assert hs[1..] == tail[i - 1 := g];
      assert tail[i - 1] == gs[i];
      AllTabsUpdate(tail, i - 1, g);
      var a := multiset(gs[0].tabs);
      var x := multiset(AllTabs(tail[i - 1 := g]));
      var y := multiset(AllTabs(tail));
      assert x + multiset(gs[i].tabs) == y + multiset(g.tabs);
      assert multiset(AllTabs(hs)) == a + x;
      assert multiset(AllTabs(gs)) == a + y;
      calc {
        multiset(AllTabs(hs)) + multiset(gs[i].tabs);
        (a + x) + multiset(gs[i].tabs);
        a + (x + multiset(gs[i].tabs));
        a + (y + multiset(g.tabs));
        (a + y) + multiset(g.tabs);
      }
    }
  }

  /** Appending records to one group adds exactly those records. */
  lemma {:induction false} AllTabsExtend(gs: seq<Group>, i: nat, extra: seq<TabRecord>)
    requires i < |gs|
    ensures multiset(AllTabs(gs[i := gs[i].(tabs := gs[i].tabs + extra)]))
            == multiset(AllTabs(gs)) + multiset(extra)
  {
    var hs := gs[i := gs[i].(tabs := gs[i].tabs + extra)];
    if i == 0 {
      assert hs[1..] == gs[1..];
    } else {
      assert hs[1..] == gs[1..][i - 1 := gs[1..][i - 1].(tabs := gs[1..][i - 1].tabs + extra)];
      AllTabsExtend(gs[1..], i - 1, extra);
    }
  }

  lemma {:induction false} InAllTabs(gs: seq<Group>, i: nat, t: TabRecord)
    requires i < |gs| && t in gs[i].tabs
    ensures t in AllTabs(gs)
  {
    if i > 0 {
      InAllTabs(gs[1..], i - 1, t);
    }
  }

  lemma {:induction false} AllTabsMember(gs: seq<Group>, t: TabRecord)
    requires t in AllTabs(gs)
    ensures exists i :: 0 <= i < |gs| && t in gs[i].tabs
  {
    if t !in gs[0].tabs {
      AllTabsMember(gs[1..], t);
      var i :| 0 <= i < |gs[1..]| && t in gs[1..][i].tabs;
      assert t in gs[i + 1].tabs;
    }
  }

  /** The tab-record predicate "its URL has hostname `k`" (None: does not parse). */
  function HostIs(host: HostOf, k: Option<string>): TabRecord -> bool {
    (t: TabRecord) => host(t.url) == k
  }

  /** The records of `g` whose URL has hostname `k`, in order. */
  function Proj(g: Group, host: HostOf, k: Option<string>): seq<TabRecord> {
    Filter(g.tabs, HostIs(host, k))
  }

  /** Older than 24 hours at `now`. */
  function StaleAt(now: int): TabRecord -> bool {
    (t: TabRecord) => now - t.lastVisited > DayMs
  }

  function IdIs(id: TabId): TabRecord -> bool {
    (t: TabRecord) => t.id == id
  }

  function IdIn(live: set<TabId>): TabRecord -> bool {
    (t: TabRecord) => t.id in live
  }
}
