/** The popup's small mutators: collapsing a group, deleting a group, and
    the storage bookkeeping of opening a tab. */
module Popup {
  import opened Opt
  import opened Seqs
  import opened Model

  function GroupIdIs(id: GroupId): Group -> bool {
    (g: Group) => g.id == id
  }

  function GroupIdIsNot(id: GroupId): Group -> bool {
    (g: Group) => g.id != id
  }

  function Flip(g: Group): Group {
    g.(collapsed := !g.collapsed)
  }

  /** `toggleGroup`: the first group with the id has its collapsed flag
      flipped; nothing changes when no group has the id. */
  function ToggleGroup(gs: seq<Group>, id: GroupId): (r: seq<Group>)
    ensures |r| == |gs|
    ensures forall i :: 0 <= i < |gs| ==> r[i].tabs == gs[i].tabs && r[i].id == gs[i].id
  {
    match FirstIndex(gs, GroupIdIs(id))
    case None => gs
    case Some(i) => gs[i := Flip(gs[i])]
  }

  /** Exactly the first group with the id is flipped, and every other group
      is left as it was. */
  lemma {:induction false} ToggleGroupSpec(gs: seq<Group>, id: GroupId, i: nat)
    requires i < |gs|
    ensures ToggleGroup(gs, id)[i]
            == if gs[i].id == id && (forall j :: 0 <= j < i ==> gs[j].id != id) then Flip(gs[i]) else gs[i]
  {
    match FirstIndex(gs, GroupIdIs(id))
    case None =>
      assert !GroupIdIs(id)(gs[i]);
    case Some(k) =>
      assert GroupIdIs(id)(gs[k]);
      if i < k {
        assert !GroupIdIs(id)(gs[i]);
      } else if i > k {
        assert gs[k].id == id;
      }
  }

  /** Toggling the same group twice restores the groups. */
  lemma {:induction false} ToggleTwice(gs: seq<Group>, id: GroupId)
    ensures ToggleGroup(ToggleGroup(gs, id), id) == gs
  {
    var once := ToggleGroup(gs, id);
    var twice := ToggleGroup(once, id);
    forall i | 0 <= i < |gs| ensures twice[i] == gs[i] {
      ToggleGroupSpec(gs, id, i);
      ToggleGroupSpec(once, id, i);
      assert (forall j :: 0 <= j < i ==> once[j].id != id) <==> (forall j :: 0 <= j < i ==> gs[j].id != id);
    }
  }

  /** `deleteGroup`: after the user confirms, every group with the id is
      dropped; without confirmation nothing changes. */
  function DeleteGroup(gs: seq<Group>, id: GroupId, confirmed: bool): (r: seq<Group>)
    ensures forall g :: g in r <==> g in gs && (confirmed ==> g.id != id)
    ensures |r| <= |gs|
    ensures !confirmed ==> r == gs
  {
    if confirmed then
      FilterMembers(gs, GroupIdIsNot(id));
      FilterRejectPartition(gs, GroupIdIsNot(id));
      Filter(gs, GroupIdIsNot(id))
    else gs
  }

  /** Deleting twice is deleting once. */
  lemma {:induction false} DeleteIdempotent(gs: seq<Group>, id: GroupId, confirmed: bool)
    ensures DeleteGroup(DeleteGroup(gs, id, confirmed), id, confirmed) == DeleteGroup(gs, id, confirmed)
  {
    if confirmed {
      var r := Filter(gs, GroupIdIsNot(id));
      FilterMembers(gs, GroupIdIsNot(id));
      FilterAllKept(r, GroupIdIsNot(id));
    }
  }

  /** Deletion keeps the other groups in their order and with their
      repeats: every selection of groups that all lack the id picks the
      same groups, in the same order, before and after. */
  lemma {:induction false} DeleteKeepsOrder(gs: seq<Group>, id: GroupId, p: Group -> bool)
    requires forall g :: p(g) ==> g.id != id
    ensures Filter(DeleteGroup(gs, id, true), p) == Filter(gs, p)
  {
    FilterNarrowing(gs, GroupIdIsNot(id), p);
  }

  /** Deleting an id no group has changes nothing. */
  lemma {:induction false} DeleteKeepsOthers(gs: seq<Group>, id: GroupId)
    requires forall i :: 0 <= i < |gs| ==> gs[i].id != id
    ensures DeleteGroup(gs, id, true) == gs
  {
    FilterAllKept(gs, GroupIdIsNot(id));
  }

  /** The visit `openTab` records: now, and one more visit. */
  function Visit(now: int): TabRecord -> TabRecord {
    (t: TabRecord) => t.(lastVisited := now, visitCount := t.visitCount + 1)
  }

  function HoldsId(id: TabId): Group -> bool {
    (g: Group) => id in IdsOf(g.tabs)
  }

  /** The storage half of `openTab`: the first group holding a record with
      the id has the first such record visited. The flag says whether the
      groups were saved. */
  function OpenTab(gs: seq<Group>, id: TabId, now: int): (r: (seq<Group>, bool))
    ensures r.1 <==> id in TabIds(gs)
    ensures |r.0| == |gs|
    ensures forall i :: 0 <= i < |gs| ==> SameShell(gs[i], r.0[i]) && |r.0[i].tabs| == |gs[i].tabs|
  {
    match FirstIndex(gs, HoldsId(id))
    case None =>
      NoHolderNoId(gs, id);
      (gs, false)
    case Some(i) =>
      HolderHasId(gs, id, i);
      (gs[i := gs[i].(tabs := UpdateFirst(gs[i].tabs, IdIs(id), Visit(now)))], true)
  }

  lemma {:induction false} NoHolderNoId(gs: seq<Group>, id: TabId)
    requires forall i :: 0 <= i < |gs| ==> !HoldsId(id)(gs[i])
    ensures id !in TabIds(gs)
  {
    if gs != [] {
      assert !HoldsId(id)(gs[0]);
      NoHolderNoId(gs[1..], id);
      assert forall i :: 0 <= i < |gs[1..]| ==> gs[1..][i] == gs[i + 1];
    }
  }

  lemma {:induction false} HolderHasId(gs: seq<Group>, id: TabId, i: nat)
    requires i < |gs| && HoldsId(id)(gs[i])
    ensures id in TabIds(gs)
  {
    var k :| 0 <= k < |gs[i].tabs| && IdsOf(gs[i].tabs)[k] == id;
    assert gs[i].tabs[k] in gs[i].tabs;
  }

  /** A tab list holds a record with the id exactly when the id is among
      its ids. */
  lemma {:induction false} FirstIdIffHeld(ts: seq<TabRecord>, id: TabId)
    ensures FirstIndex(ts, IdIs(id)).Some? <==> id in IdsOf(ts)
  {
    if FirstIndex(ts, IdIs(id)).Some? {
      var k := FirstIndex(ts, IdIs(id)).value;
      assert IdsOf(ts)[k] == id;
    }
    if id in IdsOf(ts) {
      var k :| 0 <= k < |ts| && IdsOf(ts)[k] == id;
      assert IdIs(id)(ts[k]);
    }
  }

  /** Across all stored records, in storage order, opening a tab visits
      exactly the first record with its id and nothing else. */
  lemma {:induction false} OpenTabVisitsFirst(gs: seq<Group>, id: TabId, now: int)
    ensures AllTabs(OpenTab(gs, id, now).0) == UpdateFirst(AllTabs(gs), IdIs(id), Visit(now))
  {
    if gs != [] {
      var rest := gs[1..];
      FirstIdIffHeld(gs[0].tabs, id);
      UpdateFirstConcat(gs[0].tabs, AllTabs(rest), IdIs(id), Visit(now));
      if HoldsId(id)(gs[0]) {
        var r := OpenTab(gs, id, now).0;
        assert r == gs[0 := gs[0].(tabs := UpdateFirst(gs[0].tabs, IdIs(id), Visit(now)))];
        assert r[1..] == rest;
      } else {
        OpenTabVisitsFirst(rest, id, now);
        OpenTabTail(gs, id, now);
      }
    }
  }

  /** Past a first group without the id, opening works on the remaining
      groups. */
  lemma {:induction false} OpenTabTail(gs: seq<Group>, id: TabId, now: int)
    requires gs != [] && !HoldsId(id)(gs[0])
    ensures OpenTab(gs, id, now).0 == [gs[0]] + OpenTab(gs[1..], id, now).0
  {
    var rest := gs[1..];
    assert FirstIndex(gs, HoldsId(id)) == match FirstIndex(rest, HoldsId(id)) case None => None case Some(k) => Some(k + 1);
    match FirstIndex(rest, HoldsId(id))
    case None =>
      assert gs == [gs[0]] + rest;
    case Some(k) =>
      var g := rest[k].(tabs := UpdateFirst(rest[k].tabs, IdIs(id), Visit(now)));
      assert rest[k] == gs[k + 1];
      UpdateTail(gs, k + 1, g);
  }
}
