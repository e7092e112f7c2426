# TabFlow tab-grouping engine in Dafny

TabFlow is a browser extension that keeps the user's tabs in named, coloured
groups stored in extension storage. Its popup (`popup.js`) builds groups from
the open tabs and rearranges them: it merges groups that share a hostname,
moves stale tabs into an "Archived" group and sorts ungrouped tabs in by
domain. It also proposes those bulk actions as suggestions, and it
collapses, deletes and opens groups and tabs. Its service worker
(`background.js`) keeps the stored records up to date. It records visits,
drops records of closed tabs, reconciles the store with the open tabs every
hour, quick-groups the active tab from a keyboard command and refreshes the
records' metadata on request.

This project models the list logic of both files as pure Dafny functions.
Each one maps a `seq<Group>`, where every group holds a `seq<TabRecord>`, to
a new `seq<Group>`. Browser state is passed in as parameters:

- the open tabs (`seq<LiveTab>`);
- the current time `now` in integer milliseconds;
- URL parsing, as an injected partial function `HostOf = string -> Option<string>`, where `None` is the `new URL(...)` throw;
- fresh group ids;
- random colour indices.

The background handlers return `Option<seq<Group>>`: the groups written to
storage, or `None` when the handler writes nothing.

Modules, in dependency order:

| module | file | contents |
|---|---|---|
| `Opt` | opt.dfy | `Option` |
| `Seqs` | seqs.dfy | `Filter`/`Reject`, `FirstIndex` (`findIndex`), `UpdateFirst` (`find` and update), `Dedupe` (`[...new Set(s)]`) |
| `Strs` | strs.dfy | `indexOf`/`includes`, `replace` with a string pattern (first occurrence only), `split(".")[0]`, ASCII capitalisation, decimal rendering |
| `Buckets` | buckets.dfy | a JavaScript object of arrays used as an insertion-ordered map from key to bucket |
| `Model` | model.dfy | `TabRecord`, `Group`, `LiveTab`, `Settings`, the palette, `Prune` (drop empty groups), `AllTabs` |
| `Classify` | classify.dfy | priority, elapsed time, icon lookup, domain key, group name |
| `Grouping` | grouping.dfy | `createInitialGroups`, `autoGroupTabs` |
| `Moves` | moves.dfy | "every source hands its matching records to one target", shared by merge and archive |
| `Merge` | merge.dfy | `mergeDuplicateDomains` |
| `Archive` | archive.dfy | `archiveStaleTabs` |
| `Suggest` | suggest.dfy | the data part of `generateAISuggestions` |
| `Popup` | popup.dfy | `toggleGroup`, `deleteGroup`, the storage half of `openTab` |
| `Background` | background.dfy | the service worker's storage handlers |

Groups are identified by their position in the sequence. The source uses
object identity (`new Set(items.map(item => item.group))`,
`group !== archivedGroup`), and within one pass each group object sits at
exactly one index. `!domainTabs.includes(tab)` and
`!staleTabs.includes(tab)` remove exactly the records that the selecting
predicate chose, so they are modelled as `Reject` with that predicate.

## Model

| member | source | states |
|---|---|---|
| Classify.TabPriority | popup.js:286-292 | More than 50 visits gives High whatever the time. Otherwise: Active exactly when under one hour (3,600,000 ms) has passed, Stale exactly when over 24 hours (86,400,000 ms) have passed, Normal exactly in between. |
| Classify.StaleIsOverADay | popup.js:287-290 | The source's test `(now - lastVisited) / 3600000 > 24` on hours agrees with the millisecond staleness test the model uses everywhere. |
| Classify.TimeSince | popup.js:268-275 | "just now" under a minute, minutes under an hour, hours under a day, days after that. The number shown is the elapsed time in that unit, rounded down. |
| Classify.FloorOfQuotient | popup.js:269-274 | `Math.floor(x / k)` of a whole number by a positive whole divisor is integer division. |
| Classify.Render | popup.js:268-275 | The label is "just now" exactly for the just-now case. Otherwise it is the count in decimal digits, without a leading zero, followed by "m ago", "h ago" or "d ago" for minutes, hours or days. |
| Classify.RenderReadsBack | popup.js:268-275 | Two elapsed values with the same label are equal: the label keeps both the unit and the count. |
| Classify.IconFirstMatch | popup.js:81-108 | The icon is the one stored under the first key, in map order, that the domain contains. The "fa-folder" fallback applies exactly when the domain contains none of the keys; the key "drive" also maps to "fa-folder". |
| Classify.IconFromFirstMatch | popup.js:101-107 | The same first-match property for the scan from any map entry on. |
| Classify.IconOfDocs | popup.js:82-86 | "docs.google.com" gets "fa-google", because "google" comes before "docs" in the map. |
| Classify.IconOfMail | popup.js:82-85 | "mail.google.com" gets "fa-envelope", because "mail" comes before "google". |
| Classify.DomainKeySpec | popup.js:35 | The domain key is the hostname with its first "www." cut out, wherever that is. A hostname without "www." is its own key. |
| Classify.DomainKeyLength | background.js:118 | The key is as long as the hostname, or four characters shorter. |
| Classify.DomainKeyLeadingWww | background.js:118 | A leading "www." is the occurrence that is removed. |
| Classify.GroupNameShape | popup.js:64-67 | A group name is the domain up to its first dot, has no dot, and differs from the domain only in its first character, which is upper-cased. |
| Classify.NameExample | popup.js:35-67 | The hostname "www.example.com" gives the key "example.com" and the group name "Example". |
| Classify.DomainItemsSpec | popup.js:32-50 | Every parseable tab yields one (domain key, new record) pair. The new record has 1 visit and was last visited now. Tabs whose URL does not parse yield nothing. |
| Strs.IndexOfSpec | popup.js:102 | `indexOf` finds the first occurrence, and finds none exactly when the pattern does not occur. |
| Strs.ReplaceFirstSpec | popup.js:35 | `replace` with a string pattern cuts out the first occurrence only and leaves a string without the pattern unchanged. |
| Strs.FirstLabelSpec | popup.js:64 | `split(".")[0]` is a dot-free prefix, followed by a dot unless it is the whole string. |
| Strs.CapitalizeSpec | popup.js:67 | Capitalising keeps the length and every character after the first. A first character in a-z becomes the letter at the same alphabet position in A-Z; any other first character is kept. |
| Strs.NatToString | popup.js:356 | The decimal rendering of a count reads back as that count and has no leading zero. |
| Buckets.Bucketize | popup.js:37-49 | The object of arrays has one bucket per key, in first-seen order, and each bucket holds that key's values in insertion order. |
| Buckets.BucketizeFlat | popup.js:37-49 | Bucketing neither loses nor invents a value. |
| Buckets.InsertAt | popup.js:37-49 | Pushing onto a key's array grows only that key's bucket, by the value, at its end. |
| Grouping.Build | popup.js:62-76 | The new groups hold exactly the bucketed records, in bucket order. There is at most one group per bucket, and none is empty, because empty buckets are skipped. |
| Grouping.BuildAt | popup.js:62-76 | When no bucket is empty, group i is made from bucket i with colour index i. |
| Grouping.Initial | popup.js:25-79 | With no open tabs nothing changes. Otherwise the stored groups stay in front, followed by one new group per distinct domain key. |
| Grouping.InitialAt | popup.js:62-76 | New group j is the group of the j-th domain key in first-seen order: its records in tab order, colour `colors[j % 6]`, name and icon derived from the key. |
| Grouping.InitialTabs | popup.js:32-50 | `createInitialGroups` adds exactly the new records of the tabs whose URL parses. |
| Grouping.InitialPlacesEach | popup.js:32-76 | Every tab whose URL parses lands in some new group. |
| Grouping.InitialKeyed | popup.js:62-76 | A new group holds only fresh records whose key names the group, and it carries the colour of its position. |
| Grouping.InitialExactlyOnce | popup.js:32-76 | A record lands in exactly one new group. |
| Grouping.DomainItemsRecords | popup.js:32-50 | The bucketed records are the new records of exactly the parseable tabs, in tab order. |
| Grouping.PlaceJoinsFirst | popup.js:563-574 | If some group has a record whose hostname contains the domain, the entry's records are appended to the first such group and nothing else changes. |
| Grouping.PlaceAppendsNew | popup.js:575-587 | If no group covers the domain, exactly one new group holding the records is appended. |
| Grouping.PlaceGrows | popup.js:563-587 | A group is appended exactly when no group covers the domain. |
| Grouping.PlaceTabs | popup.js:563-587 | Placing an entry adds exactly its records. |
| Grouping.Place | popup.js:562-587 | Placing one entry keeps every group's place and fields and only appends to records, and adds at most one group. |
| Grouping.PlaceAll | popup.js:561-588 | The loop over the entries keeps every stored group's place and fields, and their records stay a prefix. |
| Grouping.AutoGroup | popup.js:523-589 | When every live tab is grouped nothing changes. Stored groups keep their place and fields, and their records stay as a prefix. |
| Grouping.AutoGroupTabs | popup.js:525-588 | `autoGroupTabs` adds exactly the new records of the ungrouped tabs whose URL parses, each once. |
| Grouping.AutoGroupNewOnlyUncovered | popup.js:561-587 | Each new group comes from the m-th domain bucket of the ungrouped tabs (the m-th domain key in first-seen order), whose key no stored hostname contains. It carries the id `ids(m)`, the name and icon of that key and the colour `colors[m % 6]`, and its records start with that bucket's records. |
| Grouping.AutoGroupStoresNew | popup.js:532-574 | Every ungrouped tab whose URL parses has its new record stored afterwards. |
| Grouping.AutoGroupCoversLive | popup.js:524-588 | Afterwards every live tab whose URL parses is in some group. |
| Grouping.AutoGroupAddsOnlyNew | popup.js:525-588 | Every record afterwards was stored before or is the new record of an ungrouped, parseable live tab. |
| Grouping.AutoGroupIdempotent | popup.js:523-528 | A second `autoGroupTabs` over the same live tabs changes nothing. |
| Moves.MoveAll | popup.js:473-484 | The target gains the sources' matching records in source order. Each source keeps only its other records, and every other group is untouched. The multiset of records is unchanged. |
| Moves.MoveAllFilterOther | popup.js:473-484 | Records the moving predicate does not select stay in their groups, in order. |
| Moves.MoveAllIdle | popup.js:473-484 | When no source holds a matching record, the moves change nothing. |
| Moves.Move | popup.js:473-483 | One source hands its matching records to the target, appended in order. The source keeps only its other records, every other group is untouched, and the multiset of records is kept. |
| Merge.HoldersOfItems | popup.js:454-468 | `uniqueGroups` for a hostname lists exactly the groups holding a record of it, in group order. |
| Merge.Entries | popup.js:454-466 | `Object.entries(domainGroups)` has one entry per occurring hostname, without repeats, listing its holders. |
| Merge.MergeStep | popup.js:466-486 | One hostname entry keeps every group's place and fields and the multiset of records. |
| Merge.MergeBuckets | popup.js:466-487 | The loop over all hostname entries keeps every group's place and fields and the multiset of records. |
| Merge.MergeMoves | popup.js:466-487 | After the loop, each hostname's records all sit in its first holder, in their original order. Records whose URL does not parse stay where they were. |
| Merge.MergeDuplicateDomains | popup.js:451-490 | Merging keeps the multiset of records and leaves no empty group. Afterwards no hostname is in two groups. Each hostname's records, and the unparseable ones, keep their relative order. |
| Merge.MergedKeepsOrder | popup.js:473-484 | The records of each hostname keep their relative order. |
| Merge.MergeFixpoint | popup.js:451-490 | Groups with disjoint hostnames and none empty are left exactly as they are. |
| Merge.MergeIdempotent | popup.js:451-490 | Merging twice is merging once. |
| Archive.WithArchive | popup.js:493-506 | The target is the first group named "Archived". If there is none, a collapsed "Archived" group is appended. |
| Archive.ArchiveMoves | popup.js:508-518 | The archive receives the stale records of every other group, in group order. Every other group keeps only its records that are not stale. The multiset of records is unchanged. |
| Archive.ArchiveStaleTabs | popup.js:492-521 | The multiset of records is kept and no group is empty, so an unused new archive is pruned too. Stale records sit only in the first archive. Records that are not stale keep their order. |
| Archive.ArchiveFixpoint | popup.js:492-521 | Groups with stale records only in the first archive and none empty are left exactly as they are. |
| Archive.ArchiveIdempotent | popup.js:492-521 | Archiving twice is archiving once, whatever id a new archive would get. |
| Suggest.Suggestions | popup.js:336-395 | At most three suggestions, in the fixed order merge, archive, auto-group. |
| Suggest.HostnamesCount | popup.js:340-348 | `domainCounts[d]` is the number of stored records whose raw hostname is `d`. |
| Suggest.DuplicatesSpec | popup.js:350-352 | The duplicate list names each hostname counted more than once, exactly once. |
| Suggest.StaleCountAll | popup.js:361-369 | The per-group sum of stale records is the number of stale records overall. |
| Suggest.MergeSuggested | popup.js:340-359 | The merge suggestion appears exactly when some raw hostname is shared by two stored records, even within one group. Its number is the count of such hostnames. |
| Suggest.ArchiveSuggested | popup.js:361-377 | The archive suggestion appears exactly when some stored record is stale, and its number is the count of stale records. |
| Suggest.AutoGroupSuggested | popup.js:379-392 | The auto-group suggestion appears exactly when more than five live tabs are in no group, and its number is that count. |
| Popup.ToggleGroup | popup.js:294-301 | Toggling keeps every group's place, id and records. |
| Popup.ToggleGroupSpec | popup.js:294-301 | Exactly the first group with the id has its collapsed flag flipped, and no group changes when none has the id. |
| Popup.ToggleTwice | popup.js:294-301 | Toggling the same group twice restores the groups. |
| Popup.DeleteGroup | popup.js:303-310 | After confirmation a group is kept exactly when its id differs. Without confirmation the groups are returned unchanged. |
| Popup.DeleteIdempotent | popup.js:303-310 | Deleting twice is deleting once. |
| Popup.DeleteKeepsOthers | popup.js:303-310 | Deleting an id no group has leaves the groups as they are. |
| Popup.DeleteKeepsOrder | popup.js:305 | Deletion keeps the other groups in order and with their repeats: any selection of groups that all lack the id picks the same groups, in the same order, before and after. |
| Popup.OpenTab | popup.js:322-330 | The groups are saved exactly when some record has the tab's id. Group shells and record counts are unchanged. |
| Popup.OpenTabVisitsFirst | popup.js:322-330 | Across all records in storage order, opening a tab updates exactly the first record with its id: one more visit, last visited now. |
| Seqs.UpdateFirstSpec | background.js:47-56 | `findIndex` followed by an update at that index replaces exactly the first matching element. |
| Seqs.UpdateFirstConcat | popup.js:322-326 | In a concatenation, the first match lies in the first part if that part has one, otherwise in the second. |
| Background.OnInstalled | background.js:4-16 | Only the "install" reason writes, and it writes no groups and the settings autoGroup on, AI on, theme "coffee-brown". |
| Background.UpdateTabActivity | background.js:39-65 | The handler writes exactly when some group holds a record with the tab's id. |
| Background.TouchAll | background.js:46-57 | Every group keeps its place and fields. In each group, the first record with the id is refreshed. |
| Background.ActivityChangesFirstPerGroup | background.js:46-57 | A record changes exactly when it is the first in its group with the id. It gets the time, one more visit, the tab's title and URL, and the tab's favicon or "fas fa-globe". All counts and orders are kept. |
| Background.KeepAll | background.js:75-81 | Filtering every group in place keeps each group's place and fields, leaves it exactly its passing records, and keeps the passing records in their overall order. |
| Model.PruneAt | background.js:85 | `groups.filter(g => g.tabs.length > 0)` keeps exactly the groups that hold a record, in order: result group j is the j-th non-empty group. |
| Background.PruneKeepAll | background.js:75-86 | Filtering each group and pruning the empty ones leaves exactly the groups that keep a record, in their order, each with its own fields and its own passing records. |
| Background.RemoveWhere | background.js:73-87 | Storage is written exactly when some record fails the test. The written groups are exactly the groups that keep a passing record, in their order, each with its own id, name, colour, flag, theme and icon and only its own passing records. No group is empty. |
| Background.RemoveWhereIdempotent | background.js:73-87 | After a removal there is nothing left to remove: a second run writes nothing. |
| Background.OnRemoved | background.js:68-91 | The handler writes exactly when the closed tab's id is stored. It then removes every record with that id and prunes empty groups; every other group keeps its place relative to the others, its fields and its remaining records. Otherwise nothing is written, so empty groups survive. |
| Background.OnRemovedIdempotent | background.js:68-91 | Handling the same closed tab twice is handling it once. |
| Background.Cleanup | background.js:194-226 | The cleanup writes exactly when some stored record's tab is closed. It then keeps exactly the groups holding a live record, in their order, each with its own fields and only its live records; every record's id is live and no group is empty. |
| Background.CleanupKeepsLive | background.js:201-216 | Records of open tabs all survive, in their original order. |
| Background.QuickGroup | background.js:106-182 | Storage is written exactly when there is an active tab and its URL parses. |
| Background.QuickTarget | background.js:121-129 | The target is the first group with a record whose hostname contains the domain key, or a new group when none has one. |
| Background.QuickGroupSpec | background.js:117-167 | Only the target changes. A new group named after the first label, with the folder icon, is appended exactly when none covers the domain. The tab's record is appended exactly when the target lacks its id, and afterwards the tab is grouped. |
| Background.QuickGroupCount | background.js:156-167 | Quick grouping adds at most one record: the new record, exactly when the target lacks the id. |
| Background.SyncAll | background.js:237-261 | The reported group count is the number of groups, and no group is added or dropped. |
| Background.SyncTabs | background.js:245-252 | Each record of a group is the synced form of the record at its place. |
| Background.SyncGroups | background.js:244-253 | Every group keeps its place and fields, and its records are synced one by one. |
| Background.SyncAllSpec | background.js:244-253 | Every record keeps its place, id, visit count and last visit. A record whose id is live takes that tab's title and URL, and its favicon unless the tab reports none. Other records are unchanged. |
| Background.SyncAllIdempotent | background.js:244-255 | Syncing twice against the same tabs is syncing once. |

`Classify.DomainKey` and `Classify.GroupName` carry no contract of their
own: the rows `Classify.DomainKeySpec` and `Classify.GroupNameShape` state
what they compute.

## Behaviour worth noting

- The domain key removes the first "www." anywhere in the hostname (`replace("www.", "")`), wherever it occurs.
- `updateTabActivity` refreshes the first record with the id in each group (`findIndex`); later records with the same id in that group are left as they are.
- The merge suggestion counts raw hostnames that occur on two or more records, whether those records share a group or not. It counts hostnames, not groups: the "N groups" in its text is the number of repeated hostnames.
- In `autoGroupTabs` the colour of a new group is chosen by the index of its domain entry. That index also counts entries that joined an existing group, so new groups can skip colours.
- Merge and archive always prune empty groups; the removal handlers prune them when they removed something. `autoGroupTabs`, quick grouping and the sync do not prune.
- A tab id can be held by more than one group. Quick grouping checks only the target group for the id.

## Left out

- Browser APIs: storage reads and writes, tab queries, tab and window activation, notifications, alarms, commands and runtime messages. Their results are parameters, and each handler's write is its return value.
- DOM and rendering: `renderGroups`, `createGroupCard`, `createTabItem`, `getThemeStyle`, `renderSuggestions`, the event wiring, and the AI and view toggles. `createNewGroup`, `loadGroups` and `handleAISuggestion` only wire user actions to the modelled operations and are not modelled.
- URL parsing (WHATWG URL Standard, sections 4.4 and 3.5) is the injected `HostOf`. An unparseable URL is `None`.
- `toUpperCase` is modelled on ASCII letters only.
- Time is one integer `now` per operation. The source calls `Date.now()` once per record and may see different values within one pass. The hours computed by division are real numbers only in `Classify.HoursSince`.
- Group ids (`Date.now()`, or `Date.now() + Math.random()` in `createInitialGroups` and `autoGroupTabs`) and random colour indices are parameters: the `FreshIds` function, the `id` argument and `pick`.
- `Object.entries` order is assumed to be insertion order, that is, no key is integer-like. JavaScript lists integer-like keys first. A URL with a non-special scheme can have such a hostname (`foo://7/` has hostname "7"); those hostnames would reorder the merge entries and shift the `autoGroupTabs` colour index, and they are not modelled. Hostnames such as `__proto__` that clash with `Object.prototype` members are not modelled.
- A stored `visitCount` that is missing (the `|| 0` in `updateTabActivity`) cannot occur in the model, because records always hold an integer.
- `OpenTab` models the bookkeeping half of `openTab` after the browser calls succeed. When one of them throws, the `try`/`catch` skips the bookkeeping, and that path is not modelled. A missing `visitCount` would become `NaN` after `visitCount++`; records here always hold an integer.
- The `confirm()` dialog of `deleteGroup` is the boolean input `confirmed`.
- The listener guards are not modelled: `onUpdated` fires only for a "complete" status with a URL, and `onActivated` calls `chrome.tabs.get`. `UpdateTabActivity` models the handler they call.
- The fire-and-forget promise in `generateAISuggestions`, and the last-writer-wins race between the hourly cleanup and popup writes, are concurrency and are not modelled.
- The welcome tab opened on install and the quick-group notification are output only.
- The failure result `{ success: false, error }` of `syncAllTabs` comes from a failing browser call. Only the success path is modelled.
