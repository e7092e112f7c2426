/** "Archive stale tabs": every record last visited more than 24 hours ago
    moves from its group into the first group named "Archived" (created,
    collapsed, at the end of the list when there is none), and groups left
    empty are dropped. */
module Archive {
  import opened Opt
  import opened Seqs
  import opened Model
  import opened Moves

  const ArchiveName: string := "Archived"
  const ArchiveColor: string := "#8b6f47"
  const ArchiveIcon: string := "fa-archive"

  /** The group created when no "Archived" group exists; `id` is the
      creation time the source uses as its id. */
  function NewArchive(id: GroupId): Group {
    Group(id, ArchiveName, ArchiveColor, [], true, Gradient, ArchiveIcon)
  }

  function IsArchive(): Group -> bool {
    (g: Group) => g.name == ArchiveName
  }

  /** The index of the archive group: the first group named "Archived". */
  function FindArchive(gs: seq<Group>): Option<nat> {
    FirstIndex(gs, IsArchive())
  }

  /** The group list with an archive group, and that group's index. */
  function WithArchive(gs: seq<Group>, id: GroupId): (r: (seq<Group>, nat))
    ensures r.1 < |r.0| && r.0[r.1].name == ArchiveName
    ensures FindArchive(r.0) == Some(r.1)
    ensures FindArchive(gs).Some? ==> r.0 == gs
    ensures FindArchive(gs).None? ==> r.0 == gs + [NewArchive(id)] && r.1 == |gs|
  {
    match FindArchive(gs)
    case Some(a) => (gs, a)
    case None =>
      var hs := gs + [NewArchive(id)];
      assert forall j :: 0 <= j < |gs| ==> hs[j] == gs[j];
      (hs, |gs|)
  }

  /** Every index below `n` except `a`, ascending. */
  function Others(n: nat, a: nat): (r: seq<nat>)
    ensures Distinct(r)
    ensures forall i :: 0 <= i < |r| ==> r[i] < n && r[i] != a
    ensures forall j :: 0 <= j < n && j != a ==> j in r
  {
    if n == 0 then []
    else
      var init := Others(n - 1, a);
      if n - 1 == a then init else init + [n - 1]
  }

  /** The moves of `archiveStaleTabs`, before empty groups are dropped: the
      archive gets the stale records of every other group in group order,
      each other group keeps its records that are not stale. */
  function ArchiveMoves(gs: seq<Group>, now: int, id: GroupId): (r: seq<Group>)
    ensures var (hs, a) := WithArchive(gs, id);
      && |r| == |hs|
      && (forall i :: 0 <= i < |hs| ==> SameShell(hs[i], r[i]))
      && r[a].tabs == hs[a].tabs + Gather(hs, Others(|hs|, a), StaleAt(now))
      && (forall i :: 0 <= i < |hs| && i != a ==> r[i].tabs == Reject(hs[i].tabs, StaleAt(now)))
    ensures multiset(AllTabs(r)) == multiset(AllTabs(gs))
  {
    var (hs, a) := WithArchive(gs, id);
    var srcs := Others(|hs|, a);
    var r := MoveAll(hs, a, srcs, StaleAt(now));
    forall i | 0 <= i < |hs| && i != a ensures r[i].tabs == Reject(hs[i].tabs, StaleAt(now)) {
      assert i in srcs;
      var k :| 0 <= k < |srcs| && srcs[k] == i;
    }
    SameRecords(gs, id);
    r
  }

  /** Adding the archive adds no record. */
  lemma {:induction false} SameRecords(gs: seq<Group>, id: GroupId)
    ensures AllTabs(WithArchive(gs, id).0) == AllTabs(gs)
  {
    if FindArchive(gs).None? {
      AllTabsAppend(gs, [NewArchive(id)]);
      assert AllTabs([NewArchive(id)]) == [];
      assert AllTabs(gs) + [] == AllTabs(gs);
    }
  }

  /** Stale records sit only in the first "Archived" group. */
  ghost predicate StaleOnlyInArchive(gs: seq<Group>, now: int) {
    forall i, t :: 0 <= i < |gs| && t in gs[i].tabs && StaleAt(now)(t) ==> FindArchive(gs) == Some(i)
  }

  /** Not stale at `now`. */
  function FreshAt(now: int): TabRecord -> bool {
    (t: TabRecord) => now - t.lastVisited <= DayMs
  }

  /** `archiveStaleTabs`. */
  function ArchiveStaleTabs(gs: seq<Group>, now: int, id: GroupId): (r: seq<Group>)
    ensures multiset(AllTabs(r)) == multiset(AllTabs(gs))
    ensures NoEmptyGroup(r)
    ensures StaleOnlyInArchive(r, now)
    ensures Filter(AllTabs(r), FreshAt(now)) == Filter(AllTabs(gs), FreshAt(now))
  {
    var m := ArchiveMoves(gs, now, id);
    var r := Prune(m);
    assert StaleOnlyInArchive(r, now) by {
      MovesLeaveStaleInArchive(gs, now, id);
      PruneKeepsStaleInArchive(m, now);
    }
    assert Filter(AllTabs(r), FreshAt(now)) == Filter(AllTabs(gs), FreshAt(now)) by {
      MovesKeepFresh(gs, now, id);
    }
    r
  }

  lemma {:induction false} MovesLeaveStaleInArchive(gs: seq<Group>, now: int, id: GroupId)
    ensures StaleOnlyInArchive(ArchiveMoves(gs, now, id), now)
  {
    var (hs, a) := WithArchive(gs, id);
    var m := ArchiveMoves(gs, now, id);
    var p := StaleAt(now);
    assert FindArchive(m) == Some(a) by {
      assert forall j :: 0 <= j < |m| ==> m[j].name == hs[j].name;
      assert forall j :: 0 <= j < |m| ==> (IsArchive()(m[j]) <==> IsArchive()(hs[j]));
      FirstIndexSame(hs, m, IsArchive());
    }
    forall i, t | 0 <= i < |m| && t in m[i].tabs && p(t) ensures i == a {
      NotStaleOutside(hs, m, a, now, i, t);
    }
  }

  /** Outside the archive only records that are not stale remain. */
  lemma {:induction false} NotStaleOutside(hs: seq<Group>, m: seq<Group>, a: nat, now: int, i: nat, t: TabRecord)
    requires |m| == |hs| && i < |hs|
    requires i != a ==> m[i].tabs == Reject(hs[i].tabs, StaleAt(now))
    requires t in m[i].tabs && StaleAt(now)(t)
    ensures i == a
  {
    RejectMembers(hs[i].tabs, StaleAt(now));
  }

  /** FirstIndex only looks at what `p` says of each element. */
  lemma {:induction false} FirstIndexSame<T>(s: seq<T>, u: seq<T>, p: T -> bool)
    requires |s| == |u|
    requires forall j :: 0 <= j < |s| ==> (p(s[j]) <==> p(u[j]))
    ensures FirstIndex(s, p) == FirstIndex(u, p)
  {
    if s != [] {
      FirstIndexSame(s[1..], u[1..], p);
    }
  }

  lemma {:induction false} MovesKeepFresh(gs: seq<Group>, now: int, id: GroupId)
    ensures Filter(AllTabs(ArchiveMoves(gs, now, id)), FreshAt(now)) == Filter(AllTabs(gs), FreshAt(now))
  {
    var (hs, a) := WithArchive(gs, id);
    var m := ArchiveMoves(gs, now, id);
    var srcs := Others(|hs|, a);
    MoveAllFilterOther(hs, a, srcs, StaleAt(now), FreshAt(now));
    assert m == MoveAll(hs, a, srcs, StaleAt(now));
    FilterAllTabsFrame(m, hs, FreshAt(now));
    SameRecords(gs, id);
  }

  /** Dropping empty groups keeps stale records inside the first archive. */
  lemma {:induction false} PruneKeepsStaleInArchive(gs: seq<Group>, now: int)
    requires StaleOnlyInArchive(gs, now)
    ensures StaleOnlyInArchive(Prune(gs), now)
  {
    if gs != [] {
      var rest := Prune(gs[1..]);
      if IsArchive()(gs[0]) {
        ArchiveFirst(gs, now);
        PruneNoStale(gs[1..], now);
        if gs[0].tabs != [] {
          ArchiveHead(gs[0], rest, now);
        } else {
          NoStaleOnly(rest, now);
        }
      } else {
        OrdinaryFirst(gs, now);
        PruneKeepsStaleInArchive(gs[1..], now);
        if gs[0].tabs != [] {
          OrdinaryHead(gs[0], rest, now);
        }
      }
    }
  }

  /** Behind a leading archive group no record is stale. */
  lemma {:induction false} ArchiveFirst(gs: seq<Group>, now: int)
    requires gs != [] && IsArchive()(gs[0]) && StaleOnlyInArchive(gs, now)
    ensures NoStale(gs[1..], now)
  {
    var tail := gs[1..];
    assert FindArchive(gs) == Some(0);
    forall i, t | 0 <= i < |tail| && t in tail[i].tabs ensures !StaleAt(now)(t) {
      assert t in gs[i + 1].tabs;
    }
  }

  /** Behind a leading ordinary group the property holds of the rest, and
      the leading group holds nothing stale. */
  lemma {:induction false} OrdinaryFirst(gs: seq<Group>, now: int)
    requires gs != [] && !IsArchive()(gs[0]) && StaleOnlyInArchive(gs, now)
    ensures StaleOnlyInArchive(gs[1..], now)
    ensures forall t :: t in gs[0].tabs ==> !StaleAt(now)(t)
  {
    var tail := gs[1..];
    assert FindArchive(gs) == Shift(FindArchive(tail));
    forall i, t | 0 <= i < |tail| && t in tail[i].tabs && StaleAt(now)(t) ensures FindArchive(tail) == Some(i) {
      assert t in gs[i + 1].tabs;
    }
  }

  /** An index one further along, if any. */
  function Shift(o: Option<nat>): (r: Option<nat>)
    ensures forall i: nat :: r == Some(i + 1) <==> o == Some(i)
    ensures r != Some(0)
  {
    match o
    case None => None
    case Some(k) => Some(k + 1)
  }

  /** No stale record anywhere. */
  ghost predicate NoStale(gs: seq<Group>, now: int) {
    forall i, t :: 0 <= i < |gs| && t in gs[i].tabs ==> !StaleAt(now)(t)
  }

  lemma {:induction false} PruneNoStale(gs: seq<Group>, now: int)
    requires NoStale(gs, now)
    ensures NoStale(Prune(gs), now)
  {
    var r := Prune(gs);
    forall i, t | 0 <= i < |r| && t in r[i].tabs ensures !StaleAt(now)(t) {
      assert r[i] in gs;
      var j :| 0 <= j < |gs| && gs[j] == r[i];
    }
  }

  lemma {:induction false} NoStaleOnly(gs: seq<Group>, now: int)
    requires NoStale(gs, now)
    ensures StaleOnlyInArchive(gs, now)
  {
  }

  lemma {:induction false} ArchiveHead(g: Group, rest: seq<Group>, now: int)
    requires IsArchive()(g) && NoStale(rest, now)
    ensures StaleOnlyInArchive([g] + rest, now)
  {
    var r := [g] + rest;
    assert FindArchive(r) == Some(0);
    assert forall i :: 0 < i < |r| ==> r[i] == rest[i - 1];
  }

  lemma {:induction false} OrdinaryHead(g: Group, rest: seq<Group>, now: int)
    requires !IsArchive()(g) && StaleOnlyInArchive(rest, now)
    requires forall t :: t in g.tabs ==> !StaleAt(now)(t)
    ensures StaleOnlyInArchive([g] + rest, now)
  {
    var r := [g] + rest;
    assert r[1..] == rest;
    assert FindArchive(r) == Shift(FindArchive(rest));
    assert forall i :: 0 < i < |r| ==> r[i] == rest[i - 1];
  }

  /** With stale records only in the first archive and no empty group,
      archiving changes nothing, whatever id a new archive would get. */
  lemma {:induction false} ArchiveFixpoint(gs: seq<Group>, now: int, id: GroupId)
    requires StaleOnlyInArchive(gs, now) && NoEmptyGroup(gs)
    ensures ArchiveStaleTabs(gs, now, id) == gs
  {
    var (hs, a) := WithArchive(gs, id);
    var srcs := Others(|hs|, a);
    var p := StaleAt(now);
    forall k | 0 <= k < |srcs| ensures Filter(hs[srcs[k]].tabs, p) == [] {
      NothingStaleAt(gs, id, now, srcs[k]);
    }
    MoveAllIdle(hs, a, srcs, p);
    assert ArchiveMoves(gs, now, id) == hs;
    PruneNoEmpty(gs);
    if FindArchive(gs).None? {
      PruneAppend(gs, [NewArchive(id)]);
      assert Prune([NewArchive(id)]) == [];
      assert gs + [] == gs;
    }
  }

  lemma {:induction false} NothingStaleAt(gs: seq<Group>, id: GroupId, now: int, j: nat)
    requires StaleOnlyInArchive(gs, now)
    requires j < |WithArchive(gs, id).0| && j != WithArchive(gs, id).1
    ensures Filter(WithArchive(gs, id).0[j].tabs, StaleAt(now)) == []
  {
    var (hs, a) := WithArchive(gs, id);
    FilterEmptyIffNone(hs[j].tabs, StaleAt(now));
    if j < |gs| {
      assert hs[j] == gs[j];
    }
  }

  /** Archiving twice is archiving once. */
  lemma {:induction false} ArchiveIdempotent(gs: seq<Group>, now: int, id1: GroupId, id2: GroupId)
    ensures ArchiveStaleTabs(ArchiveStaleTabs(gs, now, id1), now, id2) == ArchiveStaleTabs(gs, now, id1)
  {
    ArchiveFixpoint(ArchiveStaleTabs(gs, now, id1), now, id2);
  }
}
