/** The service worker's storage handlers. Each handler reads the stored
    groups and returns the groups it writes back, or None when it writes
    nothing; browser queries are passed in as parameters. */
module Background {
  import opened Opt
  import opened Seqs
  import opened Strs
  import opened Model
  import Classify
  import Grouping

  /** What storage holds after a handler: its write, or the old groups. */
  function Stored(gs: seq<Group>, w: Option<seq<Group>>): seq<Group> {
    if w.Some? then w.value else gs
  }

  // ---------------------------------------------------------------------
  // onInstalled
  // ---------------------------------------------------------------------

  const DefaultSettings: Settings := Settings(true, true, "coffee-brown")

  /** The install listener: only the "install" reason resets storage, to no
      groups and the default settings. */
  function OnInstalled(reason: string): (w: Option<(seq<Group>, Settings)>)
    ensures w.Some? <==> reason == "install"
    ensures w.Some? ==> w.value.0 == [] && w.value.1.autoGroup && w.value.1.aiEnabled
                        && w.value.1.theme == "coffee-brown"
  {
    if reason == "install" then Some(([], DefaultSettings)) else None
  }

  // ---------------------------------------------------------------------
  // updateTabActivity
  // ---------------------------------------------------------------------

  /** The fields `updateTabActivity` writes into a matching record. */
  function Activity(tab: LiveTab, now: int): TabRecord -> TabRecord {
    (t: TabRecord) => t.(lastVisited := now, visitCount := t.visitCount + 1, title := tab.title,
                         url := tab.url, favicon := OrElse(tab.favIconUrl, GlobeIcon))
  }

  /** The `forEach` over the groups: in each group, the first record with
      the id is refreshed. */
  function TouchAll(gs: seq<Group>, tabId: TabId, tab: LiveTab, now: int): (r: seq<Group>)
    ensures |r| == |gs|
    ensures forall i :: 0 <= i < |gs| ==> SameShell(gs[i], r[i])
    ensures forall i :: 0 <= i < |gs| ==> r[i].tabs == UpdateFirst(gs[i].tabs, IdIs(tabId), Activity(tab, now))
  {
    if gs == [] then []
    else
      var rest := TouchAll(gs[1..], tabId, tab, now);
      var r := [gs[0].(tabs := UpdateFirst(gs[0].tabs, IdIs(tabId), Activity(tab, now)))] + rest;
      assert forall i :: 1 <= i < |gs| ==> r[i] == rest[i - 1] && gs[i] == gs[1..][i - 1];
      r
  }

  /** `updateTabActivity`: writes only when some group held the id. */
  function UpdateTabActivity(gs: seq<Group>, tabId: TabId, tab: LiveTab, now: int): (w: Option<seq<Group>>)
    ensures w.Some? <==> tabId in TabIds(gs)
  {
    HeldSomewhere(gs, tabId);
    if exists i :: 0 <= i < |gs| && FirstIndex(gs[i].tabs, IdIs(tabId)).Some? then Some(TouchAll(gs, tabId, tab, now))
    else None
  }

  /** Some group has a record with the id exactly when the id is stored. */
  lemma {:induction false} HeldSomewhere(gs: seq<Group>, tabId: TabId)
    ensures (exists i :: 0 <= i < |gs| && FirstIndex(gs[i].tabs, IdIs(tabId)).Some?) <==> tabId in TabIds(gs)
  {
    if exists i :: 0 <= i < |gs| && FirstIndex(gs[i].tabs, IdIs(tabId)).Some? {
      var i :| 0 <= i < |gs| && FirstIndex(gs[i].tabs, IdIs(tabId)).Some?;
      var k := FirstIndex(gs[i].tabs, IdIs(tabId)).value;
      assert gs[i].tabs[k] in gs[i].tabs;
    }
    if tabId in TabIds(gs) {
      var t :| t in AllTabs(gs) && t.id == tabId;
      AllTabsMember(gs, t);
      var i :| 0 <= i < |gs| && t in gs[i].tabs;
      var k :| 0 <= k < |gs[i].tabs| && gs[i].tabs[k] == t;
      assert IdIs(tabId)(gs[i].tabs[k]);
    }
  }

  /** Record k of group i is refreshed exactly when it is the first record
      of its group with the id; every other record, the group count and
      every group's length stay as they were. */
  lemma {:induction false} ActivityChangesFirstPerGroup(gs: seq<Group>, tabId: TabId, tab: LiveTab, now: int, i: nat, k: nat)
    requires tabId in TabIds(gs)
    requires i < |gs| && k < |gs[i].tabs|
    ensures var r := UpdateTabActivity(gs, tabId, tab, now).value;
            |r| == |gs| && |r[i].tabs| == |gs[i].tabs|
            && r[i].tabs[k] == if gs[i].tabs[k].id == tabId && (forall j :: 0 <= j < k ==> gs[i].tabs[j].id != tabId)
                               then Activity(tab, now)(gs[i].tabs[k]) else gs[i].tabs[k]
  {
    UpdateFirstAt(gs[i].tabs, IdIs(tabId), Activity(tab, now), k);
  }

  // ---------------------------------------------------------------------
  // onRemoved and cleanupStaleData
  // ---------------------------------------------------------------------

  /** Every group's records filtered by `keep`. */
  function KeepAll(gs: seq<Group>, keep: TabRecord -> bool): (r: seq<Group>)
    ensures |r| == |gs|
    ensures forall i :: 0 <= i < |gs| ==> SameShell(gs[i], r[i]) && r[i].tabs == Filter(gs[i].tabs, keep)
    ensures AllTabs(r) == Filter(AllTabs(gs), keep)
  {
    if gs == [] then []
    else
      var rest := KeepAll(gs[1..], keep);
      var r := [gs[0].(tabs := Filter(gs[0].tabs, keep))] + rest;
      assert forall i :: 1 <= i < |gs| ==> r[i] == rest[i - 1] && gs[i] == gs[1..][i - 1];
      assert r[1..] == rest;
      FilterConcat(gs[0].tabs, AllTabs(gs[1..]), keep);
      r
  }

  /** Whether each group keeps a record under `keep`. */
  function KeepFlags(gs: seq<Group>, keep: TabRecord -> bool): (f: seq<bool>)
    ensures |f| == |gs|
    ensures forall i :: 0 <= i < |gs| ==> f[i] == (Filter(gs[i].tabs, keep) != [])
  {
    seq(|gs|, i requires 0 <= i < |gs| => Filter(gs[i].tabs, keep) != [])
  }

  /** `r` holds exactly the groups of `gs` that keep a record under `keep`,
      in their stored order, each with its stored id, name, colour, flag,
      theme and icon, and holding only its own kept records. */
  predicate KeptGroups(gs: seq<Group>, keep: TabRecord -> bool, r: seq<Group>) {
    var ix := Positions(KeepFlags(gs, keep), 0);
    |r| == |ix|
    && forall j :: 0 <= j < |ix| ==> SameShell(gs[ix[j]], r[j]) && r[j].tabs == Filter(gs[ix[j]].tabs, keep)
  }

  /** Filtering every group and then pruning the empty ones filters each
      group in place and drops exactly the groups left without records. */
  lemma {:induction false} PruneKeepAll(gs: seq<Group>, keep: TabRecord -> bool)
    ensures KeptGroups(gs, keep, Prune(KeepAll(gs, keep)))
  {
    var kept := KeepAll(gs, keep);
    PruneAt(kept, 0);
    assert NonEmptyFlags(kept) == KeepFlags(gs, keep);
    assert kept[0..] == kept;
  }

  /** The shared shape of the removal handlers: records failing `keep` are
      dropped; when any was, the empty groups are pruned and the result
      written; otherwise nothing is written. */
  function RemoveWhere(gs: seq<Group>, keep: TabRecord -> bool): (w: Option<seq<Group>>)
    ensures w.Some? <==> exists t :: t in AllTabs(gs) && !keep(t)
    ensures w.Some? ==> NoEmptyGroup(w.value) && AllTabs(w.value) == Filter(AllTabs(gs), keep)
    ensures w.Some? ==> KeptGroups(gs, keep, w.value)
  {
    var kept := KeepAll(gs, keep);
    ChangedIff(gs, keep);
    PruneKeepAll(gs, keep);
    if exists i :: 0 <= i < |gs| && |kept[i].tabs| != |gs[i].tabs| then Some(Prune(kept)) else None
  }

  /** Some group loses a record exactly when some stored record fails `keep`. */
  lemma {:induction false} ChangedIff(gs: seq<Group>, keep: TabRecord -> bool)
    ensures (exists i :: 0 <= i < |gs| && |KeepAll(gs, keep)[i].tabs| != |gs[i].tabs|)
            <==> exists t :: t in AllTabs(gs) && !keep(t)
  {
    var kept := KeepAll(gs, keep);
    if exists i :: 0 <= i < |gs| && |kept[i].tabs| != |gs[i].tabs| {
      var i :| 0 <= i < |gs| && |kept[i].tabs| != |gs[i].tabs|;
      var t := ShortenedDropped(gs[i].tabs, keep);
      InAllTabs(gs, i, t);
    }
    if exists t :: t in AllTabs(gs) && !keep(t) {
      var t :| t in AllTabs(gs) && !keep(t);
      AllTabsMember(gs, t);
      var i :| 0 <= i < |gs| && t in gs[i].tabs;
      DroppedShortens(gs[i].tabs, keep, t);
    }
  }

  /** A filter that drops something drops a member failing the predicate. */
  lemma {:induction false} ShortenedDropped(s: seq<TabRecord>, keep: TabRecord -> bool) returns (t: TabRecord)
    requires |Filter(s, keep)| != |s|
    ensures t in s && !keep(t)
  {
    FilterRejectPartition(s, keep);
    RejectMembers(s, keep);
    t := Reject(s, keep)[0];
  }

  /** A member failing the predicate makes the filter shorter. */
  lemma {:induction false} DroppedShortens(s: seq<TabRecord>, keep: TabRecord -> bool, t: TabRecord)
    requires t in s && !keep(t)
    ensures |Filter(s, keep)| < |s|
  {
    FilterRejectPartition(s, keep);
    RejectMembers(s, keep);
  }

  /** Removal leaves nothing to remove: a second run writes nothing and
      storage is as after the first. */
  lemma {:induction false} RemoveWhereIdempotent(gs: seq<Group>, keep: TabRecord -> bool)
    ensures var once := Stored(gs, RemoveWhere(gs, keep));
            RemoveWhere(once, keep).None? && Stored(once, RemoveWhere(once, keep)) == once
  {
    var once := Stored(gs, RemoveWhere(gs, keep));
    if RemoveWhere(gs, keep).Some? {
      FilterMembers(AllTabs(gs), keep);
    }
  }

  function IdIsNot(id: TabId): TabRecord -> bool {
    (t: TabRecord) => t.id != id
  }

  /** The `tabs.onRemoved` listener. */
  function OnRemoved(gs: seq<Group>, tabId: TabId): (w: Option<seq<Group>>)
    ensures w.Some? <==> tabId in TabIds(gs)
    ensures w.Some? ==> tabId !in TabIds(w.value) && NoEmptyGroup(w.value)
    ensures w.Some? ==> AllTabs(w.value) == Filter(AllTabs(gs), IdIsNot(tabId))
    ensures w.Some? ==> KeptGroups(gs, IdIsNot(tabId), w.value)
  {
    var w := RemoveWhere(gs, IdIsNot(tabId));
    FilterMembers(AllTabs(gs), IdIsNot(tabId));
    StoredIdIff(gs, tabId);
    w
  }

  /** Some stored record has the id exactly when the id is stored. */
  lemma {:induction false} StoredIdIff(gs: seq<Group>, tabId: TabId)
    ensures (exists t :: t in AllTabs(gs) && !IdIsNot(tabId)(t)) <==> tabId in TabIds(gs)
  {
    if exists t :: t in AllTabs(gs) && !IdIsNot(tabId)(t) {
      var t :| t in AllTabs(gs) && !IdIsNot(tabId)(t);
      AllTabsMember(gs, t);
    }
  }

  /** Removing a closed tab twice is removing it once. */
  lemma {:induction false} OnRemovedIdempotent(gs: seq<Group>, tabId: TabId)
    ensures var once := Stored(gs, OnRemoved(gs, tabId));
            OnRemoved(once, tabId).None? && Stored(once, OnRemoved(once, tabId)) == once
  {
    RemoveWhereIdempotent(gs, IdIsNot(tabId));
  }

  /** `cleanupStaleData`: `live` is the set of ids of every open tab. */
  function Cleanup(gs: seq<Group>, live: set<TabId>): (w: Option<seq<Group>>)
    ensures w.Some? <==> exists t :: t in AllTabs(gs) && t.id !in live
    ensures w.Some? ==> NoEmptyGroup(w.value)
    ensures w.Some? ==> forall t :: t in AllTabs(w.value) ==> t.id in live
    ensures w.Some? ==> KeptGroups(gs, IdIn(live), w.value)
  {
    var w := RemoveWhere(gs, IdIn(live));
    FilterMembers(AllTabs(gs), IdIn(live));
    w
  }

  /** Records of open tabs all survive cleanup, in their original order. */
  lemma {:induction false} CleanupKeepsLive(gs: seq<Group>, live: set<TabId>)
    ensures AllTabs(Stored(gs, Cleanup(gs, live))) == Filter(AllTabs(gs), IdIn(live))
  {
    if Cleanup(gs, live).None? {
      FilterAllKept(AllTabs(gs), IdIn(live));
    }
  }

  // ---------------------------------------------------------------------
  // quickGroupCurrentTab
  // ---------------------------------------------------------------------

  /** The group `quickGroupCurrentTab` creates for a domain: named after
      its first label, colour picked by the random index, folder icon, no
      records yet. */
  function QuickShell(domain: string, id: GroupId, pick: nat): Group
    requires pick < |Palette|
  {
    Group(id, Classify.GroupName(domain), Palette[pick], [], false, Gradient, Classify.FolderIcon)
  }

  /** `quickGroupCurrentTab`: `active` is the window's active tab, `id`
      the `Date.now()` of the new group and `pick` the random colour index.
      Nothing is written when there is no active tab or its URL does not
      parse (the throw is caught). */
  function QuickGroup(gs: seq<Group>, active: Option<LiveTab>, host: HostOf, now: int, id: GroupId, pick: nat)
    : (w: Option<seq<Group>>)
    requires pick < |Palette|
    ensures w.Some? <==> active.Some? && host(active.value.url).Some?
  {
    if active.None? then None
    else
      var tab := active.value;
      match host(tab.url)
      case None => None
      case Some(h) =>
        var domain := Classify.DomainKey(h);
        var (hs, i) := match FirstIndex(gs, Grouping.CoversDomain(host, domain))
          case Some(i) => (gs, i)
          case None => (gs + [QuickShell(domain, id, pick)], |gs|);
        var target := hs[i];
        if tab.id in IdsOf(target.tabs) then Some(hs)
        else Some(hs[i := target.(tabs := target.tabs + [NewRecord(tab, now)])])
  }

  /** The group the tab goes to: the first one holding a record whose
      hostname contains the domain key, else a new one at the end. */
  function QuickTarget(gs: seq<Group>, host: HostOf, domain: string): (i: nat)
    ensures i <= |gs|
    ensures i < |gs| ==> Grouping.Covers(host, domain, gs[i]) && forall j :: 0 <= j < i ==> !Grouping.Covers(host, domain, gs[j])
    ensures i == |gs| ==> forall j :: 0 <= j < |gs| ==> !Grouping.Covers(host, domain, gs[j])
  {
    match FirstIndex(gs, Grouping.CoversDomain(host, domain))
    case Some(i) =>
      assert forall j :: 0 <= j < i ==> !Grouping.CoversDomain(host, domain)(gs[j]);
      i
    case None =>
      assert forall j :: 0 <= j < |gs| ==> !Grouping.CoversDomain(host, domain)(gs[j]);
      |gs|
  }

  /** When the active tab's URL parses, the groups are kept in place with
      only the target changed: a new group is appended exactly when none
      covers the domain, the tab's record is appended to the target exactly
      when the target lacks its id, and afterwards the tab is grouped. */
  lemma {:induction false} QuickGroupSpec(gs: seq<Group>, tab: LiveTab, host: HostOf, now: int, id: GroupId, pick: nat)
    requires pick < |Palette| && host(tab.url).Some?
    ensures var domain := Classify.DomainKey(host(tab.url).value);
            var i := QuickTarget(gs, host, domain);
            var r := QuickGroup(gs, Some(tab), host, now, id, pick).value;
            var before := if i < |gs| then gs[i].tabs else [];
            && |r| == (if i < |gs| then |gs| else |gs| + 1)
            && (forall j :: 0 <= j < |gs| && j != i ==> r[j] == gs[j])
            && (i == |gs| ==> SameShell(r[i], QuickShell(domain, id, pick)))
            && (i < |gs| ==> SameShell(r[i], gs[i]))
            && r[i].tabs == before + (if tab.id in IdsOf(before) then [] else [NewRecord(tab, now)])
            && tab.id in TabIds(r)
  {
    var domain := Classify.DomainKey(host(tab.url).value);
    var i := QuickTarget(gs, host, domain);
    var r := QuickGroup(gs, Some(tab), host, now, id, pick).value;
    var hs := if i < |gs| then gs else gs + [QuickShell(domain, id, pick)];
    var before := if i < |gs| then gs[i].tabs else [];
    assert hs[i].tabs == before;
    if tab.id in IdsOf(before) {
      assert r == hs;
      var k :| 0 <= k < |before| && IdsOf(before)[k] == tab.id;
      assert before[k] in r[i].tabs;
    } else {
      assert r == hs[i := hs[i].(tabs := before + [NewRecord(tab, now)])];
      assert NewRecord(tab, now) in r[i].tabs;
    }
  }

  /** Quick grouping adds at most one record, and exactly one when the
      target lacks the tab's id. */
  lemma {:induction false} QuickGroupCount(gs: seq<Group>, tab: LiveTab, host: HostOf, now: int, id: GroupId, pick: nat)
    requires pick < |Palette| && host(tab.url).Some?
    ensures var domain := Classify.DomainKey(host(tab.url).value);
            var i := QuickTarget(gs, host, domain);
            var before := if i < |gs| then gs[i].tabs else [];
            multiset(AllTabs(QuickGroup(gs, Some(tab), host, now, id, pick).value))
            == multiset(AllTabs(gs)) + (if tab.id in IdsOf(before) then multiset{} else multiset{NewRecord(tab, now)})
  {
    var domain := Classify.DomainKey(host(tab.url).value);
    var i := QuickTarget(gs, host, domain);
    var r := QuickGroup(gs, Some(tab), host, now, id, pick).value;
    var hs := if i < |gs| then gs else gs + [QuickShell(domain, id, pick)];
    var before := if i < |gs| then gs[i].tabs else [];
    if i == |gs| {
      AllTabsAppend(gs, [QuickShell(domain, id, pick)]);
      assert AllTabs([QuickShell(domain, id, pick)]) == [] + AllTabs([]);
    }
    assert AllTabs(hs) == AllTabs(gs) + [];
    if tab.id !in IdsOf(before) {
      AllTabsExtend(hs, i, [NewRecord(tab, now)]);
    }
  }

  // ---------------------------------------------------------------------
  // syncAllTabs
  // ---------------------------------------------------------------------

  /** A stored record refreshed from the first live tab with its id (title,
      URL, and favicon unless the tab reports none). */
  function Synced(t: TabRecord, live: seq<LiveTab>): (u: TabRecord) {
    match FirstIndex(live, LiveIdIs(t.id))
    case None => t
    case Some(k) => t.(title := live[k].title, url := live[k].url, favicon := OrElse(live[k].favIconUrl, t.favicon))
  }

  function LiveIdIs(id: TabId): LiveTab -> bool {
    (l: LiveTab) => l.id == id
  }

  function SyncTabs(ts: seq<TabRecord>, live: seq<LiveTab>): (r: seq<TabRecord>)
    ensures |r| == |ts|
    ensures forall k :: 0 <= k < |ts| ==> r[k] == Synced(ts[k], live)
  {
    if ts == [] then []
    else
      var rest := SyncTabs(ts[1..], live);
      var r := [Synced(ts[0], live)] + rest;
      assert forall k :: 1 <= k < |ts| ==> r[k] == rest[k - 1] && ts[k] == ts[1..][k - 1];
      r
  }

  function SyncGroups(gs: seq<Group>, live: seq<LiveTab>): (r: seq<Group>)
    ensures |r| == |gs|
    ensures forall i :: 0 <= i < |gs| ==> SameShell(gs[i], r[i]) && r[i].tabs == SyncTabs(gs[i].tabs, live)
  {
    if gs == [] then []
    else
      var rest := SyncGroups(gs[1..], live);
      var r := [gs[0].(tabs := SyncTabs(gs[0].tabs, live))] + rest;
      assert forall i :: 1 <= i < |gs| ==> r[i] == rest[i - 1] && gs[i] == gs[1..][i - 1];
      r
  }

  /** `syncAllTabs`: always writes, and reports the number of groups. */
  function SyncAll(gs: seq<Group>, live: seq<LiveTab>): (r: (seq<Group>, nat))
    ensures r.1 == |gs| == |r.0|
  {
    (SyncGroups(gs, live), |gs|)
  }

  /** Syncing keeps every group and record in place with its id, visit
      count and last visit; a record whose id is live takes that tab's
      title and URL, and its favicon unless the tab reports none; any other
      record is unchanged. */
  lemma {:induction false} SyncAllSpec(gs: seq<Group>, live: seq<LiveTab>, i: nat, k: nat)
    requires i < |gs| && k < |gs[i].tabs|
    ensures var r := SyncAll(gs, live).0;
            var t := gs[i].tabs[k];
            var u := r[i].tabs[k];
            SameShell(gs[i], r[i]) && |r[i].tabs| == |gs[i].tabs|
            && u.id == t.id && u.visitCount == t.visitCount && u.lastVisited == t.lastVisited
            && ((forall l :: l in live ==> l.id != t.id) ==> u == t)
            && (forall m :: 0 <= m < |live| && live[m].id == t.id && (forall j :: 0 <= j < m ==> live[j].id != t.id)
                  ==> u.title == live[m].title && u.url == live[m].url
                      && u.favicon == OrElse(live[m].favIconUrl, t.favicon))
  {
    var t := gs[i].tabs[k];
    match FirstIndex(live, LiveIdIs(t.id))
    case None =>
    case Some(m) =>
      assert LiveIdIs(t.id)(live[m]);
      forall m' | 0 <= m' < |live| && live[m'].id == t.id && (forall j :: 0 <= j < m' ==> live[j].id != t.id)
        ensures m' == m
      {
      }
  }

  /** Syncing twice against the same tabs is syncing once. */
  lemma {:induction false} SyncAllIdempotent(gs: seq<Group>, live: seq<LiveTab>)
    ensures SyncAll(SyncAll(gs, live).0, live).0 == SyncAll(gs, live).0
  {
    var once := SyncAll(gs, live).0;
    var twice := SyncAll(once, live).0;
    forall i | 0 <= i < |gs| ensures twice[i] == once[i] {
      forall k | 0 <= k < |once[i].tabs| ensures twice[i].tabs[k] == once[i].tabs[k] {
        SyncedTwice(gs[i].tabs[k], live);
      }
      assert twice[i].tabs == once[i].tabs;
    }
  }

  lemma {:induction false} SyncedTwice(t: TabRecord, live: seq<LiveTab>)
    ensures Synced(Synced(t, live), live) == Synced(t, live)
  {
    assert Synced(t, live).id == t.id;
  }
}
