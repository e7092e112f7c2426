/** Per-tab and per-domain classification: priority, the elapsed-time
    label, the domain key, the derived group name and the group icon. */
module Classify {
  import opened Opt
  import opened Seqs
  import opened Strs
  import opened Model

  /** `(now - lastVisited) / 3600000` as the source computes it: hours, as
      a real number. */
  function HoursSince(now: int, lastVisited: int): real {
    (now - lastVisited) as real / 3600000.0
  }

  /** The 24-hour staleness test written in hours (archive and suggestions)
      is the millisecond test the model uses. */
  lemma {:induction false} StaleIsOverADay(now: int, t: TabRecord)
    ensures StaleAt(now)(t) <==> HoursSince(now, t.lastVisited) > 24.0
  {
  }

  datatype Priority = High | Active | Stale | Normal

  /** The priority badge of a tab: visit count first, then recency. */
  function TabPriority(t: TabRecord, now: int): (p: Priority)
    ensures t.visitCount > 50 ==> p == High
    ensures t.visitCount <= 50 ==> (p == Active <==> now - t.lastVisited < HourMs)
    ensures t.visitCount <= 50 ==> (p == Stale <==> now - t.lastVisited > DayMs)
    ensures p == Normal <==> t.visitCount <= 50 && HourMs <= now - t.lastVisited <= DayMs
  {
    var hours := HoursSince(now, t.lastVisited);
    if t.visitCount > 50 then High
    else if hours < 1.0 then Active
    else if hours > 24.0 then Stale
    else Normal
  }

  /** The elapsed-time label, before its number is rendered. */
  datatype Elapsed = JustNow | MinutesAgo(minutes: nat) | HoursAgo(hours: nat) | DaysAgo(days: nat)

  /** `getTimeSince`: whole seconds by `Math.floor`, then the largest unit
      that fits, again rounded down. */
  function TimeSince(now: int, timestamp: int): (e: Elapsed)
    ensures e == JustNow <==> now - timestamp < 60000
    ensures e.MinutesAgo? <==> 60000 <= now - timestamp < 3600000
    ensures e.HoursAgo? <==> 3600000 <= now - timestamp < 86400000
    ensures e.DaysAgo? <==> 86400000 <= now - timestamp
    ensures e.MinutesAgo? ==> e.minutes * 60000 <= now - timestamp < (e.minutes + 1) * 60000
    ensures e.HoursAgo? ==> e.hours * 3600000 <= now - timestamp < (e.hours + 1) * 3600000
    ensures e.DaysAgo? ==> e.days * 86400000 <= now - timestamp < (e.days + 1) * 86400000
  {
    FloorOfQuotient(now - timestamp, 1000);
    var seconds := ((now - timestamp) as real / 1000.0).Floor;
    FloorOfQuotient(seconds, 60);
    FloorOfQuotient(seconds, 3600);
    FloorOfQuotient(seconds, 86400);
    if seconds < 60 then JustNow
    else if seconds < 3600 then MinutesAgo((seconds as real / 60.0).Floor)
    else if seconds < 86400 then HoursAgo((seconds as real / 3600.0).Floor)
    else DaysAgo((seconds as real / 86400.0).Floor)
  }

  /** `Math.floor(x / k)` on a whole number and a positive whole divisor is
      Dafny's integer division (which rounds down when `k > 0`). */
  lemma {:induction false} FloorOfQuotient(x: int, k: int)
    requires k > 0
    ensures (x as real / k as real).Floor == x / k
  {
    var q := x / k;
    var r := x % k;
    assert x == q * k + r;
    assert x as real == q as real * k as real + r as real;
    assert x as real / k as real == q as real + r as real / k as real;
    assert 0.0 <= r as real / k as real < 1.0;
  }

  /** `r` is the decimal digits of `n`, without a leading zero, followed
      by `suffix`. */
  predicate CountThen(r: string, suffix: string, n: nat) {
    |r| > |suffix| && r[|r| - |suffix|..] == suffix
    && (forall k :: 0 <= k < |r| - |suffix| ==> IsDigit(r[k]))
    && (|r| - |suffix| > 1 ==> r[0] != '0')
    && DecimalValue(r[..|r| - |suffix|]) == n
  }

  /** The text `getTimeSince` returns: "just now", or the count followed by
      the unit letter and " ago". */
  function Render(e: Elapsed): (r: string)
    ensures e.JustNow? <==> r == "just now"
    ensures e.MinutesAgo? ==> CountThen(r, "m ago", e.minutes)
    ensures e.HoursAgo? ==> CountThen(r, "h ago", e.hours)
    ensures e.DaysAgo? ==> CountThen(r, "d ago", e.days)
  {
    match e
    case JustNow => "just now"
    case MinutesAgo(m) => WithUnit(m, "m ago")
    case HoursAgo(h) => WithUnit(h, "h ago")
    case DaysAgo(d) => WithUnit(d, "d ago")
  }

  /** A count followed by a five-character unit: never "just now", whose
      fifth character from the end is 't'. */
  function WithUnit(n: nat, unit: string): (r: string)
    requires |unit| == 5 && unit[0] != 't'
    ensures CountThen(r, unit, n)
    ensures r != "just now"
  {
    var r := NatToString(n) + unit;
    assert r[..|r| - 5] == NatToString(n) && r[|r| - 5..] == unit;
    assert r[|r| - 5] == unit[0];
    r
  }

  /** The label reads back: two elapsed values with the same text are the
      same value, so the text loses neither the unit nor the count. */
  lemma {:induction false} RenderReadsBack(e1: Elapsed, e2: Elapsed)
    requires Render(e1) == Render(e2)
    ensures e1 == e2
  {
    var r := Render(e1);
    if !e1.JustNow? && !e2.JustNow? {
      assert r[|r| - 5] == (if e1.MinutesAgo? then 'm' else if e1.HoursAgo? then 'h' else 'd');
      assert r[|r| - 5] == (if e2.MinutesAgo? then 'm' else if e2.HoursAgo? then 'h' else 'd');
    }
  }

  /** The number of entries in the icon map of `getIconForDomain`. */
  const IconCount: nat := 16

  /** Key `n` of the icon map, in its iteration order. */
  function IconKey(n: nat): string {
    match n
    case 0 => "gmail"     case 1 => "mail"      case 2 => "google"    case 3 => "docs"
    case 4 => "drive"     case 5 => "youtube"   case 6 => "github"    case 7 => "stackoverflow"
    case 8 => "twitter"   case 9 => "facebook"  case 10 => "linkedin" case 11 => "reddit"
    case 12 => "amazon"   case 13 => "netflix"  case 14 => "spotify"  case _ => "slack"
  }

  /** The icon stored under key `n`. */
  function IconName(n: nat): string {
    match n
    case 0 => "fa-envelope" case 1 => "fa-envelope" case 2 => "fa-google"  case 3 => "fa-file-alt"
    case 4 => "fa-folder"   case 5 => "fa-youtube"  case 6 => "fa-github"  case 7 => "fa-stack-overflow"
    case 8 => "fa-twitter"  case 9 => "fa-facebook" case 10 => "fa-linkedin" case 11 => "fa-reddit"
    case 12 => "fa-amazon"  case 13 => "fa-film"    case 14 => "fa-spotify" case _ => "fa-slack"
  }

  const FolderIcon: string := "fa-folder"

  /** The `for (const [key, icon] of Object.entries(...))` scan of
      `getIconForDomain` from entry `n` on: the icon of the first key the
      domain contains, or the folder icon when it contains none. */
  function IconFrom(domain: string, n: nat): string
    decreases IconCount - n
  {
    if n >= IconCount then FolderIcon
    else if Contains(domain, IconKey(n)) then IconName(n)
    else IconFrom(domain, n + 1)
  }

  /** `getIconForDomain`. */
  function IconFor(domain: string): string {
    IconFrom(domain, 0)
  }

  /** From entry `n` on, the scan returns the icon of the first key the
      domain contains, or the folder icon exactly when it contains none. */
  lemma {:induction false} IconFromFirstMatch(domain: string, n: nat)
    requires n <= IconCount
    ensures (exists i :: n <= i < IconCount && Contains(domain, IconKey(i))
               && (forall j :: n <= j < i ==> !Contains(domain, IconKey(j)))
               && IconFrom(domain, n) == IconName(i))
         || ((forall i :: n <= i < IconCount ==> !Contains(domain, IconKey(i)))
               && IconFrom(domain, n) == FolderIcon)
    decreases IconCount - n
  {
    if n < IconCount && !Contains(domain, IconKey(n)) {
      IconFromFirstMatch(domain, n + 1);
      assert IconFrom(domain, n) == IconFrom(domain, n + 1);
      if exists i :: n + 1 <= i < IconCount && Contains(domain, IconKey(i))
                     && (forall j :: n + 1 <= j < i ==> !Contains(domain, IconKey(j)))
                     && IconFrom(domain, n + 1) == IconName(i) {
        var i :| n + 1 <= i < IconCount && Contains(domain, IconKey(i))
                 && (forall j :: n + 1 <= j < i ==> !Contains(domain, IconKey(j)))
                 && IconFrom(domain, n + 1) == IconName(i);
        assert forall j :: n <= j < i ==> !Contains(domain, IconKey(j));
      }
    }
  }

  /** The icon is that of the first key, in map order, that the domain
      contains; the folder icon exactly when it contains none. */
  lemma {:induction false} IconFirstMatch(domain: string)
    ensures (exists i :: 0 <= i < IconCount && Contains(domain, IconKey(i))
               && (forall j :: 0 <= j < i ==> !Contains(domain, IconKey(j)))
               && IconFor(domain) == IconName(i))
         || ((forall i :: 0 <= i < IconCount ==> !Contains(domain, IconKey(i)))
               && IconFor(domain) == FolderIcon)
  {
    IconFromFirstMatch(domain, 0);
  }

  /** `hostname.replace("www.", "")`: the first occurrence of "www." is
      removed, wherever it is; a hostname without one is its own key. */
  function DomainKey(hostname: string): string {
    ReplaceFirst(hostname, "www.", "")
  }

  /** A hostname without "www." is its own key; otherwise the key is the
      hostname with its first "www." cut out. */
  lemma {:induction false} DomainKeySpec(hostname: string)
    ensures (forall j :: !OccursAt(hostname, "www.", j)) ==> DomainKey(hostname) == hostname
    ensures forall i :: OccursAt(hostname, "www.", i) && (forall j :: 0 <= j < i ==> !OccursAt(hostname, "www.", j))
                        ==> DomainKey(hostname) == hostname[..i] + hostname[i + 4..]
  {
    ReplaceFirstSpec(hostname, "www.", "");
  }

  /** Taking the key shortens a hostname by the four characters of "www."
      or not at all. */
  lemma {:induction false} DomainKeyLength(hostname: string)
    ensures |DomainKey(hostname)| == |hostname| || |DomainKey(hostname)| == |hostname| - 4
  {
    match IndexOf(hostname, "www.")
    case None =>
    case Some(i) =>
      assert |hostname[..i] + "" + hostname[i + 4..]| == |hostname| - 4;
  }

  /** A leading "www." is the first occurrence, so it is what goes. */
  lemma {:induction false} DomainKeyLeadingWww(hostname: string)
    requires |hostname| >= 4 && hostname[..4] == "www."
    ensures DomainKey(hostname) == hostname[4..]
  {
    assert OccursAt(hostname, "www.", 0);
    DomainKeySpec(hostname);
  }

  /** The name a domain group gets: its first dot label, first character
      upper-cased. */
  function GroupName(domain: string): string {
    Capitalize(FirstLabel(domain))
  }

  /** The name is the domain up to its first dot, dot-free, with only the
      first character changed, to upper case. */
  lemma {:induction false} GroupNameShape(domain: string)
    ensures '.' !in GroupName(domain)
    ensures |GroupName(domain)| <= |domain|
    ensures |GroupName(domain)| < |domain| ==> domain[|GroupName(domain)|] == '.'
    ensures GroupName(domain) != [] ==>
              GroupName(domain)[0] == UpperAscii(domain[0]) && GroupName(domain)[1..] == domain[1..|GroupName(domain)|]
  {
    var first := FirstLabel(domain);
    FirstLabelSpec(domain);
    CapitalizeSpec(first);
    if first != [] {
      UpperAsciiSpec(first[0]);
      assert first[1..] == domain[1..|first|];
      assert GroupName(domain) == [GroupName(domain)[0]] + first[1..];
    }
  }

  /** One (domain key, new record) pair per live tab whose URL parses, in
      tab order; tabs whose URL does not parse are skipped. */
  function DomainItems(tabs: seq<LiveTab>, host: HostOf, now: int): seq<(string, TabRecord)> {
    if tabs == [] then []
    else
      var head := match host(tabs[0].url)
        case None => []
        case Some(h) => [(DomainKey(h), NewRecord(tabs[0], now))];
      head + DomainItems(tabs[1..], host, now)
  }

  /** Every pair is keyed by its record's domain key and holds a fresh
      record of one of the tabs; every tab whose URL parses has its pair. */
  lemma {:induction false} DomainItemsSpec(tabs: seq<LiveTab>, host: HostOf, now: int)
    ensures forall p :: p in DomainItems(tabs, host, now) ==>
              host(p.1.url).Some? && p.0 == DomainKey(host(p.1.url).value)
    ensures forall p :: p in DomainItems(tabs, host, now) ==> p.1.visitCount == 1 && p.1.lastVisited == now
    ensures forall t :: t in tabs && host(t.url).Some? ==> (DomainKey(host(t.url).value), NewRecord(t, now)) in DomainItems(tabs, host, now)
    ensures forall p :: p in DomainItems(tabs, host, now) ==> exists t :: t in tabs && p.1 == NewRecord(t, now)
  {
    if tabs != [] {
      DomainItemsSpec(tabs[1..], host, now);
      assert forall t :: t in tabs ==> t == tabs[0] || t in tabs[1..];
    }
  }

  /** A pattern whose first two characters never appear side by side in
      `s` does not occur in it. */
  lemma {:induction false} AbsentByPair(s: string, pat: string)
    requires |pat| >= 2
    requires forall j :: 0 <= j < |s| - 1 ==> !(s[j] == pat[0] && s[j + 1] == pat[1])
    ensures !Contains(s, pat)
  {
    forall j ensures !OccursAt(s, pat, j) {
      OccursStartsWith(s, pat, j);
    }
    ContainsIff(s, pat);
  }

  lemma {:induction false} OccursStartsWith(s: string, pat: string, j: int)
    requires |pat| >= 2
    ensures OccursAt(s, pat, j) ==> s[j] == pat[0] && s[j + 1] == pat[1]
  {
    if OccursAt(s, pat, j) {
      assert s[j..j + |pat|][0] == pat[0];
      assert s[j..j + |pat|][1] == pat[1];
    }
  }

  /** "docs.google.com" contains "google" before it is tested for "docs". */
  lemma {:induction false} IconOfDocs(docs: string)
    requires docs == "docs.google.com"
    ensures IconFor(docs) == "fa-google"
  {
    AbsentByPair(docs, "gmail");
    AbsentByPair(docs, "mail");
    assert docs[5..11] == "google";
    assert OccursAt(docs, "google", 5);
    ContainsIff(docs, "google");
    assert IconFor(docs) == IconFrom(docs, 1) == IconFrom(docs, 2);
  }

  /** "mail.google.com" contains "mail" before "google". */
  lemma {:induction false} IconOfMail(mail: string)
    requires mail == "mail.google.com"
    ensures IconFor(mail) == "fa-envelope"
  {
    AbsentByPair(mail, "gmail");
    assert mail[0..4] == "mail";
    assert OccursAt(mail, "mail", 0);
    ContainsIff(mail, "mail");
    assert IconFor(mail) == IconFrom(mail, 1);
  }

  /** A URL host "www.example.com" gives the key "example.com" and the
      group name "Example". */
  lemma {:induction false} NameExample(hostname: string)
    requires hostname == "www.example.com"
    ensures DomainKey(hostname) == "example.com"
    ensures GroupName(DomainKey(hostname)) == "Example"
  {
    assert hostname[..4] == "www.";
    DomainKeyLeadingWww(hostname);
    assert hostname[4..] == "example.com";
    GroupNameOfExample(DomainKey(hostname));
  }

  lemma {:induction false} GroupNameOfExample(key: string)
    requires key == "example.com"
    ensures GroupName(key) == "Example"
  {
    var first := FirstLabel(key);
    FirstLabelSpec(key);
    assert key[7] == '.';
    assert key[..7] == "example";
    assert first == "example";
    assert Capitalize(first) == [UpperAscii('e')] + "xample";
  }
}
