/** The data half of `generateAISuggestions`: which of the three bulk
    actions the popup proposes, in which order, and the counts their texts
    carry. */
module Suggest {
  import opened Opt
  import opened Seqs
  import opened Strs
  import opened Model
  import Grouping

  datatype Action = MergeDomains | ArchiveStale | AutoGroupTabs

  datatype Suggestion = Suggestion(icon: string, text: string, action: Action)

  /** The position of each action in the fixed push order. */
  function Rank(a: Action): nat {
    match a
    case MergeDomains => 0
    case ArchiveStale => 1
    case AutoGroupTabs => 2
  }

  /** The raw hostname of every record whose URL parses, in record order
      (the keys fed into `domainCounts`). */
  function Hostnames(ts: seq<TabRecord>, host: HostOf): seq<string> {
    if ts == [] then []
    else
      (match host(ts[0].url) case None => [] case Some(h) => [h]) + Hostnames(ts[1..], host)
  }

  /** A hostname is counted once per record that has it. */
  lemma {:induction false} HostnamesCount(ts: seq<TabRecord>, host: HostOf, d: string)
    ensures multiset(Hostnames(ts, host))[d] == |Filter(ts, HostIs(host, Some(d)))|
  {
    if ts != [] {
      HostnamesCount(ts[1..], host, d);
      var head := match host(ts[0].url) case None => [] case Some(h) => [h];
      assert Hostnames(ts, host) == head + Hostnames(ts[1..], host);
      assert multiset(Hostnames(ts, host)) == multiset(head) + multiset(Hostnames(ts[1..], host));
      if HostIs(host, Some(d))(ts[0]) {
        assert head == [d];
      } else {
        assert d !in multiset(head);
      }
    }
  }

  /** The predicate "occurs more than once in `hs`" (`count > 1`). */
  function Repeated(hs: seq<string>): string -> bool {
    (d: string) => multiset(hs)[d] > 1
  }

  /** `Object.entries(domainCounts).filter(([_, count]) => count > 1)`:
      the repeated hostnames, in first-seen order. */
  function Duplicates(hs: seq<string>): seq<string> {
    Filter(Dedupe(hs), Repeated(hs))
  }

  /** Filtering a sequence without repeats gives one without repeats. */
  lemma {:induction false} FilterDistinct<T>(s: seq<T>, p: T -> bool)
    requires Distinct(s)
    ensures Distinct(Filter(s, p))
  {
    if s != [] {
      var tail := s[1..];
      assert Distinct(tail) by {
        forall i, j | 0 <= i < j < |tail| ensures tail[i] != tail[j] {
          assert tail[i] == s[i + 1] && tail[j] == s[j + 1];
        }
      }
      FilterDistinct(tail, p);
      FilterMembers(tail, p);
      assert s[0] !in tail by {
        forall j | 0 <= j < |tail| ensures tail[j] != s[0] {
          assert tail[j] == s[j + 1];
        }
      }
      var head := if p(s[0]) then [s[0]] else [];
      var r := head + Filter(tail, p);
      assert Filter(s, p) == r;
      forall i, j | 0 <= i < j < |r| ensures r[i] != r[j] {
        if head != [] && i == 0 {
          assert r[j] == Filter(tail, p)[j - 1];
          assert r[j] in Filter(tail, p);
        } else {
          assert r[i] == Filter(tail, p)[i - |head|] && r[j] == Filter(tail, p)[j - |head|];
        }
      }
    }
  }

  /** The duplicate list names every hostname that occurs more than once,
      each exactly once, and nothing else. */
  lemma {:induction false} DuplicatesSpec(hs: seq<string>)
    ensures Distinct(Duplicates(hs))
    ensures forall d :: d in Duplicates(hs) <==> multiset(hs)[d] > 1
  {
    FilterDistinct(Dedupe(hs), Repeated(hs));
    FilterMembers(Dedupe(hs), Repeated(hs));
  }

  /** `groups.reduce((count, group) => count + group.tabs.filter(stale).length, 0)`. */
  function StaleCount(gs: seq<Group>, now: int): nat {
    if gs == [] then 0 else |Filter(gs[0].tabs, StaleAt(now))| + StaleCount(gs[1..], now)
  }

  /** The per-group sum is the number of stale records overall. */
  lemma {:induction false} StaleCountAll(gs: seq<Group>, now: int)
    ensures StaleCount(gs, now) == |Filter(AllTabs(gs), StaleAt(now))|
  {
    if gs != [] {
      StaleCountAll(gs[1..], now);
      FilterConcat(gs[0].tabs, AllTabs(gs[1..]), StaleAt(now));
    }
  }

  function MergeSuggestion(n: nat): Suggestion {
    Suggestion("fa-object-group", "Merge " + NatToString(n) + " groups with duplicate domains", MergeDomains)
  }

  function ArchiveSuggestion(n: nat): Suggestion {
    Suggestion("fa-archive", "Archive " + NatToString(n) + " tabs inactive for 24+ hours", ArchiveStale)
  }

  function AutoGroupSuggestion(n: nat): Suggestion {
    Suggestion("fa-layer-group", "Group " + NatToString(n) + " ungrouped tabs automatically", AutoGroupTabs)
  }

  /** `s` when the condition holds, nothing otherwise (one `if (...) push`). */
  function When(c: bool, s: Suggestion): seq<Suggestion> {
    if c then [s] else []
  }

  /** `generateAISuggestions` without the rendering: `live` is the window's
      tab list the deferred query returns. */
  function Suggestions(gs: seq<Group>, live: seq<LiveTab>, host: HostOf, now: int): (r: seq<Suggestion>)
    ensures |r| <= 3
    ensures forall i, j :: 0 <= i < j < |r| ==> Rank(r[i].action) < Rank(r[j].action)
  {
    var n := |Duplicates(Hostnames(AllTabs(gs), host))|;
    var s := StaleCount(gs, now);
    var u := |Grouping.Ungrouped(live, gs)|;
    var x, y, z := MergeSuggestion(n), ArchiveSuggestion(s), AutoGroupSuggestion(u);
    ThreeRanked(x, y, z, n > 0, s > 0, u > 5);
    When(n > 0, x) + When(s > 0, y) + When(u > 5, z)
  }

  /** Three optional pushes in rank order give at most three suggestions,
      in strictly increasing rank. */
  lemma {:induction false} ThreeRanked(x: Suggestion, y: Suggestion, z: Suggestion, cx: bool, cy: bool, cz: bool)
    requires Rank(x.action) < Rank(y.action) < Rank(z.action)
    ensures var r := When(cx, x) + When(cy, y) + When(cz, z);
            |r| <= 3 && forall i, j :: 0 <= i < j < |r| ==> Rank(r[i].action) < Rank(r[j].action)
  {
    var r := When(cx, x) + When(cy, y) + When(cz, z);
    forall i, j | 0 <= i < j < |r| ensures Rank(r[i].action) < Rank(r[j].action) {
      assert r[i] in [x, y, z] && r[j] in [x, y, z];
      assert r[i] == x || r[j] == z;
    }
  }

  /** The suggestion for action `a`, if one was made. */
  function Find(r: seq<Suggestion>, a: Action): (o: Option<Suggestion>)
    ensures o.Some? ==> o.value in r && o.value.action == a
    ensures o.None? <==> forall i :: 0 <= i < |r| ==> r[i].action != a
  {
    if r == [] then None
    else if r[0].action == a then Some(r[0])
    else
      var o := Find(r[1..], a);
      assert forall i :: 1 <= i < |r| ==> r[i] == r[1..][i - 1];
      o
  }

  /** Finding in a concatenation looks in the first part, then the second. */
  lemma {:induction false} FindAppend(x: seq<Suggestion>, y: seq<Suggestion>, a: Action)
    ensures Find(x + y, a) == if Find(x, a).Some? then Find(x, a) else Find(y, a)
  {
    if x != [] {
      FindAppend(x[1..], y, a);
      assert (x + y)[1..] == x[1..] + y;
    } else {
      assert x + y == y;
    }
  }

  /** In three optional pushes of the three actions, each action is found
      in its own push. */
  lemma {:induction false} FindOfThree(x: Suggestion, y: Suggestion, z: Suggestion, cx: bool, cy: bool, cz: bool, a: Action)
    requires x.action == MergeDomains && y.action == ArchiveStale && z.action == AutoGroupTabs
    ensures Find(When(cx, x) + When(cy, y) + When(cz, z), a)
            == match a
               case MergeDomains => if cx then Some(x) else None
               case ArchiveStale => if cy then Some(y) else None
               case AutoGroupTabs => if cz then Some(z) else None
  {
    FindAppend(When(cx, x) + When(cy, y), When(cz, z), a);
    FindAppend(When(cx, x), When(cy, y), a);
  }

  /** The merge suggestion appears exactly when some raw hostname is shared
      by two or more stored records, and its text counts the hostnames so
      shared. */
  lemma {:induction false} MergeSuggested(gs: seq<Group>, live: seq<LiveTab>, host: HostOf, now: int)
    ensures var o := Find(Suggestions(gs, live, host, now), MergeDomains);
            o.Some? <==> exists d :: |Filter(AllTabs(gs), HostIs(host, Some(d)))| > 1
    ensures var o := Find(Suggestions(gs, live, host, now), MergeDomains);
            o.Some? ==> o.value == MergeSuggestion(|Duplicates(Hostnames(AllTabs(gs), host))|)
  {
    var hs := Hostnames(AllTabs(gs), host);
    var dups := Duplicates(hs);
    var s := StaleCount(gs, now);
    var u := |Grouping.Ungrouped(live, gs)|;
    FindOfThree(MergeSuggestion(|dups|), ArchiveSuggestion(s), AutoGroupSuggestion(u), |dups| > 0, s > 0, u > 5, MergeDomains);
    DuplicatesSpec(hs);
    if |dups| > 0 {
      assert dups[0] in dups;
      HostnamesCount(AllTabs(gs), host, dups[0]);
    }
    if exists d :: |Filter(AllTabs(gs), HostIs(host, Some(d)))| > 1 {
      var d :| |Filter(AllTabs(gs), HostIs(host, Some(d)))| > 1;
      HostnamesCount(AllTabs(gs), host, d);
      assert d in dups;
    }
  }

  /** The archive suggestion appears exactly when some stored record is
      older than 24 hours, and its text counts all such records. */
  lemma {:induction false} ArchiveSuggested(gs: seq<Group>, live: seq<LiveTab>, host: HostOf, now: int)
    ensures var o := Find(Suggestions(gs, live, host, now), ArchiveStale);
            o.Some? <==> exists t :: t in AllTabs(gs) && StaleAt(now)(t)
    ensures var o := Find(Suggestions(gs, live, host, now), ArchiveStale);
            o.Some? ==> o.value == ArchiveSuggestion(|Filter(AllTabs(gs), StaleAt(now))|)
  {
    var n := |Duplicates(Hostnames(AllTabs(gs), host))|;
    var s := StaleCount(gs, now);
    var u := |Grouping.Ungrouped(live, gs)|;
    FindOfThree(MergeSuggestion(n), ArchiveSuggestion(s), AutoGroupSuggestion(u), n > 0, s > 0, u > 5, ArchiveStale);
    StaleCountAll(gs, now);
    FilterEmptyIffNone(AllTabs(gs), StaleAt(now));
  }

  /** The auto-group suggestion appears exactly when more than five live
      tabs are in no group, and its text counts them. */
  lemma {:induction false} AutoGroupSuggested(gs: seq<Group>, live: seq<LiveTab>, host: HostOf, now: int)
    ensures var o := Find(Suggestions(gs, live, host, now), AutoGroupTabs);
            o.Some? <==> |Filter(live, Grouping.NotIn(TabIds(gs)))| > 5
    ensures var o := Find(Suggestions(gs, live, host, now), AutoGroupTabs);
            o.Some? ==> o.value == AutoGroupSuggestion(|Filter(live, Grouping.NotIn(TabIds(gs)))|)
  {
    var n := |Duplicates(Hostnames(AllTabs(gs), host))|;
    var s := StaleCount(gs, now);
    var u := |Grouping.Ungrouped(live, gs)|;
    FindOfThree(MergeSuggestion(n), ArchiveSuggestion(s), AutoGroupSuggestion(u), n > 0, s > 0, u > 5, AutoGroupTabs);
  }
}
