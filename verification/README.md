# Tab Cleaner: a Dafny model of the selection rules and the background scheduler

Tab Cleaner is a browser extension. Its popup closes inactive, duplicate or
all-but-the-current tabs, groups tabs by domain, and archives and restores
tabs. Its background worker closes inactive tabs on a timer and expires
archived tabs after a day. Around the host calls, the code is a handful of
pure rules over lists of tab records. This project models those rules as
Dafny functions over immutable sequences and proves what they select.

- `Basics` (`basics.dfy`): `Option`; `Reply`, the success or failure of a host call; `Outcome`, a callback that returns or throws.
- `Seqs` (`seqs.dfy`): an order-preserving `Filter` and its laws.
- `Tabs` (`tabs.dfy`): the tab record, the first active tab, the inactive-tab classifier, and the popup's `getInactiveTabs`. Both the popup and the worker use the classifier. Also the "close all" selection.
- `Duplicates` (`duplicates.dfy`): the duplicate-URL scan, as a method with loop invariants.
- `TimeFormat` (`time_format.dfy`) and `Decimal` (`decimal.dfy`): `formatTime` and decimal rendering, each with a reader that inverts it.
- `Domains` (`domains.dfy`): the domain key, the per-domain buckets, and the colour-cycling plan of group requests.
- `Restore` (`restore.dfy`): selective restore of archived tabs. Typed numbers become indices, and the archive entries are spliced out in descending order.
- `Preview` (`preview.dfy`): the "first ten lines and `... and N more`" preview.
- `Archive` (`archive.dfy`): the 24-hour retention of archived tabs.
- `Scheduler` (`scheduler.dfy`): the alarm registry (`map<string, Alarm>`), the install, message and alarm handlers, and the auto-cleanup tick.

Host calls are not executed. Each is an input:
- the tab query, the storage reads, and the success of `tabs.remove` and of the storage write;
- the clock (`now`, in milliseconds);
- URL parsing (`hostOf`, the hostname or a parse failure).

A handler's result is what it asks of the host: the ids to close, the list to write, the count to notify about, and the registry afterwards.

Two behaviours of the code are easy to overlook:
- With no active tab, the filter does not skip the active-tab test. Reading `currentTab.id` throws. Because `&&` short-circuits, it throws exactly when some tab is stale. `Tabs.Classify` returns `Threw` in that case.
- After closing tabs, the background worker only sends a notification. On a settings read error it returns without touching the alarm.

## Model

| member | source | states |
|---|---|---|
| Tabs.FindActive | popup/popup.js:54 | There is no result exactly when no tab is active. Otherwise the result is the first active tab of the list: no earlier tab is active. |
| Tabs.Classify | popup/popup.js:54-59 | Throws exactly when no tab is active and some tab was last used before `now - minutes*60000`. Otherwise a tab is selected iff it was used strictly before the cutoff, is unpinned, and is not the first active tab. A tab without `lastAccessed` is never used before the cutoff. The selection keeps the tabs' order. |
| Tabs.GetInactiveTabs | popup/popup.js:46-62 | A failed query, or a threshold `parseInt` could not read, lists no tabs and does not throw. Otherwise it throws exactly when no tab is active and some tab is stale, and it lists exactly the stale, unpinned tabs other than the first active one, in tab order. |
| Tabs.UntimedTabsNeverSelected | popup/popup.js:55-57 | Tabs without `lastAccessed` are never selected and never make the filter throw, even with no active tab. |
| Tabs.ClassifyMonotone | popup/popup.js:47-59 | A longer threshold never selects a tab that a shorter one leaves out. |
| Tabs.OnlyFirstActiveTabIsSpared | popup/popup.js:54-57 | With two active tabs (two windows), the second one is selected like any other stale tab. |
| Tabs.NoActiveTabThrows | background.js:64-69 | A stale tab with no active tab makes the worker's filter throw. |
| Tabs.OneHourScenario | background.js:56-69 | With a 60-minute threshold, the active tab, a pinned stale tab and a recent tab are kept out; only the stale unpinned tab is selected. |
| Tabs.CloseAllIds | popup/popup.js:429-430 | Throws exactly when there are tabs and none is active. Otherwise a tab's id is selected iff it is not the first active tab's id, pinned tabs included, in tab order. |
| Tabs.CloseAllSparesExactlyOne | popup/popup.js:429-430 | With unique ids and an active tab, "close all" selects all tabs but one. |
| Duplicates.FindDuplicates | popup/popup.js:447-456 | Returns, in tab order, the ids of the tabs whose URL occurred at an earlier position. Their number is the number of tabs minus the number of distinct URLs. |
| Duplicates.ReportedIff | popup/popup.js:450-455 | With unique ids, a tab is reported iff an earlier tab has its URL. The first tab of a URL is never reported, and active or pinned tabs get no exemption. |
| Duplicates.KeptCoversAllUrls | popup/popup.js:450-455 | The tabs left unreported still carry every URL of the list. |
| Duplicates.KeptUrlsDistinct | popup/popup.js:450-455 | The tabs left unreported carry no URL twice. |
| Duplicates.ReportedPlusKept | popup/popup.js:450-455 | Every tab is either reported or kept. |
| TimeFormat.FormatTime | popup/popup.js:95-100 | The text has an `h` exactly when the value is 60 minutes or more. It ends in `h` exactly for whole hours. |
| TimeFormat.FormatTimeRoundTrip | popup/popup.js:95-100 | The minutes read back from the text, so the text loses nothing. The reader accepts only `"{m}m"` below an hour, `"{h}h"` with h ≥ 1, or `"{h}h {r}m"` with h ≥ 1 and 1 ≤ r ≤ 59, all without leading zeros. |
| TimeFormat.FormatTimeCanonical | popup/popup.js:95-100 | Any text that reads back as m is exactly the text printed for m. With the round trip, this fixes the output: `"{m}m"` below an hour, and otherwise h = ⌊m/60⌋ hours and r = m mod 60 minutes, with `" {r}m"` only when r > 0 and no padding. |
| TimeFormat.FormatTimeInjective | popup/popup.js:95-100 | Different minute counts never print the same. |
| Decimal.NatRoundTrip | popup/popup.js:99 | A whole number printed in a template literal reads back as itself. |
| Decimal.NatCanonical | popup/popup.js:99 | The reader accepts only digits without leading zeros, so a text that reads as n is exactly how n prints. |
| Domains.DomainKey | popup/popup.js:281-288 | The key is `"other"` when the URL does not parse. Otherwise it is the hostname, with a leading `www.` removed exactly when there is one. |
| Domains.StripsOnePrefixOnly | popup/popup.js:284 | Only one leading `www.` is removed. |
| Domains.AddTabFiles | popup/popup.js:311-314 | Adding a tab under its key appends it to that key's tabs and leaves every other key's tabs unchanged. |
| Domains.AddTabDomains | popup/popup.js:311-313 | A bucket is created, at the end, exactly when the key has none yet. |
| Domains.AddTabKeepsDistinct | popup/popup.js:311-313 | Adding a tab never gives a domain a second bucket. |
| Domains.Bucketize | popup/popup.js:301-315 | Buckets have distinct domains and are never empty. Each holds exactly the unpinned tabs of its domain, in tab order. |
| Domains.BucketsInFirstOccurrenceOrder | popup/popup.js:304-321 | The buckets come in the order in which their domains first occur among the unpinned tabs, which is the order `Object.entries` lists them in. |
| Domains.EveryUnpinnedTabInOneBucket | popup/popup.js:304-315 | A pinned tab is in no bucket. An unpinned tab is in exactly the bucket of its own domain, and that bucket exists. |
| Domains.EligibleIsFilter | popup/popup.js:321-322 | The buckets that get a group are exactly those with two or more tabs, in bucket order. |
| Domains.PlanFrom | popup/popup.js:321-343 | There are no more requests than buckets, and every request has at least two tabs. |
| Domains.PlanMatchesEligible | popup/popup.js:317-343 | The k-th group request is for the k-th bucket with two or more tabs, and it gets colour `colorIndex + k` mod 8. Buckets with fewer tabs do not advance the colour. |
| Domains.PlanRequest | popup/popup.js:317-343 | Request k has colour `colors[k mod 8]` and holds exactly the unpinned tabs of its domain, at least two of them. |
| Domains.GroupTitlesInOrder | popup/popup.js:304-343 | The group titles are the crowded domains, those with two or more unpinned tabs, in the order in which they first occur among the unpinned tabs. |
| Domains.GroupTabsByDomain | popup/popup.js:294-343 | A query error gives no requests. Filing aborts, with no requests, exactly when some unpinned tab's key is a property every object inherits, such as `constructor` or `__proto__`. Otherwise request k has colour `colors[k mod 8]` and at least two tabs: exactly the unpinned tabs of its domain. The titles are distinct and are the crowded domains in first-occurrence order, so the k-th crowded domain gets the k-th colour. |
| Domains.CrowdedDomainIsGrouped | popup/popup.js:321-327 | A domain with two or more unpinned tabs gets a group request. |
| Domains.GroupedExactlyCrowdedDomains | popup/popup.js:321-327 | Unless filing aborts, a domain gets a group request iff it has two or more unpinned tabs. |
| Domains.ConstructorHostAborts | popup/popup.js:310-314 | A tab on `www.constructor` is filed under `constructor`, whose inherited value has no `push`, so the grouping aborts. |
| Restore.SelectIndices | popup/popup.js:226 | An index is selected iff it is below the archive's length and its one-based number was typed. No more indices than typed pieces. |
| Restore.SelectIndicesFollowsTyping | popup/popup.js:226 | The selection is the typed pieces that name an entry (a number from 1 to the archive's length), each minus one, in typed order, repeats included. |
| Restore.SelectIndicesDistinct | popup/popup.js:226 | Distinct typed pieces give distinct indices. |
| Restore.SortDescending | popup/popup.js:239 | The indices are reordered largest first, as a permutation of the input. |
| Restore.Splice | popup/popup.js:240 | Splicing an index inside the list removes the entry at that index: earlier entries stay in place and later ones move down by one. An index at or past the end removes nothing. |
| Restore.DescendingSpliceDrops | popup/popup.js:239-241 | Splicing, largest first, indices into a list of increasing archive positions whose prefix is untouched leaves only positions that were there and that were not spliced. |
| Restore.AfterCallbacksEntriesAt | popup/popup.js:232-243 | After any number of callbacks, the written archive is the original entries at the positions the same callbacks leave when run over the position list. |
| Restore.CallbacksDropChosen | popup/popup.js:232-243 | After one or more callbacks, the positions left are increasing, in range and never chosen. |
| Restore.SpliceDescendingIsWithout | popup/popup.js:239-241 | Splicing distinct in-range indices in descending order leaves exactly the other entries, in order. |
| Restore.RemoveSelectedExact | popup/popup.js:239-241 | For distinct in-range indices, one removal pass deletes exactly the chosen entries and no other. |
| Restore.SelectiveRestore | popup/popup.js:225-248 | As written: nothing happens iff no typed number names an entry. Otherwise the k-th reopened tab is the entry at the k-th selected index. The archive written last holds the entries at increasing positions, none of them chosen, in stored order. Unchosen entries may be lost too. |
| Restore.FirstWriteExact | popup/popup.js:232-243 | When no index is selected twice, the first callback writes back exactly the entries not chosen. |
| Restore.SingleChoiceIsExact | popup/popup.js:226-243 | With one valid number, the as-written restore removes exactly the chosen entry. |
| Restore.RepeatedOneRestoresFirstTwice | popup/popup.js:226-243 | `"1,1"` over any three entries reopens the first twice and writes back an empty archive. |
| Restore.RepeatedIndexLosesAnEntry | popup/popup.js:226-241 | `"1,1"` over three entries reopens the first twice and removes the second without reopening it. |
| Restore.EveryCallbackSplicesAgain | popup/popup.js:232-243 | `"1,2"` over five entries reopens two, yet the archive ends with one entry. |
| Restore.SelectiveRestoreDeduplicated | popup/popup.js:225-243 | Corrected restore, with each index used once and the archive written once: the archive loses exactly the chosen entries, and every chosen entry is reopened. |
| Restore.DeduplicatedAgreesWithFirstWrite | popup/popup.js:232-243 | When no index is selected twice, the corrected restore writes what the original's first callback writes. |
| Preview.PreviewLines | popup/popup.js:412-417 | At most the first ten entries, each as `"• " + label`. A closing line `"... and {n-10} more"` is added exactly when there are more than ten. |
| Preview.MoreLineRoundTrip | popup/popup.js:183 | The count of hidden entries reads back from the closing line. |
| Preview.PreviewAccountsForAll | popup/popup.js:175-183 | The bulleted lines plus the number on the closing line give the number of entries. |
| Preview.InactivePreview | popup/popup.js:412-417 | Only the first ten tabs are shown. Line k, for k below ten, is a bullet and the tab's title, or its URL when the title is empty. With more than ten tabs an eleventh line `"... and {n-10} more"` closes the list, and only then. The lines account for every tab. |
| Preview.TwelveEntries | popup/popup.js:412-417 | Twelve entries give `"... and 2 more"`. |
| Archive.Retained | background.js:115-118 | An entry is kept iff it was archived strictly after `now - 86400000`, in stored order. |
| Archive.Expired | background.js:116-119 | The deleted entries are those archived at or before the cutoff. |
| Archive.ArchiveCleanup | background.js:109-136 | A read error does nothing. Otherwise the list is written back iff some entry expired, and the written list is the retained entries. A notification is sent iff that write succeeded; its count is the number of expired entries, which equals before minus after and is positive. |
| Archive.DeletedAreExpired | background.js:118-121 | The deleted count equals the number of expired entries. It is positive iff some entry expired. |
| Archive.RetainedPlusExpired | background.js:118-119 | Kept and deleted entries together are the stored entries, with multiplicity. |
| Archive.CleanupIdempotent | background.js:115-122 | A second cleanup at the same instant over the written list writes and notifies nothing. |
| Archive.RetentionMonotone | background.js:116-118 | A later cleanup keeps no entry that an earlier one would delete. |
| Archive.DayOldEntryIsDropped | background.js:115-128 | Of a three-day-old and a one-hour-old entry, only the second is kept, and one deletion is notified. |
| Scheduler.ClearAlarm | background.js:35 | The named alarm is gone and every other alarm is unchanged. |
| Scheduler.CreateAlarm | background.js:39-42 | The named alarm is set, replacing any earlier one, and every other alarm is unchanged. |
| Scheduler.Cadence | background.js:37 | The check interval is at most 30 minutes and at most a quarter of the threshold. It equals one of the two. |
| Scheduler.CadenceRegimes | background.js:37 | Up to 120 minutes the interval is exactly a quarter of the threshold; from 120 minutes on it is 30. |
| Scheduler.LongThresholdCadence | background.js:37 | A 60-minute threshold is checked every 15 minutes; a 200-minute one every 30. |
| Scheduler.SetupAutoCleanup | background.js:34-43 | Leaves one auto-cleanup alarm with delay and period both equal to the cadence. Every other alarm, the archive alarm included, is unchanged. |
| Scheduler.LastSetupWins | background.js:34-43 | Arming again gives the registry that arming only the second time gives. |
| Scheduler.SetupIdempotent | background.js:34-43 | Arming twice with the same threshold is the same as arming once. |
| Scheduler.SetupArchiveCleanup | background.js:100-107 | Leaves the archive alarm at delay 60 and period 60. Every other alarm is unchanged. |
| Scheduler.OnMessage | background.js:14-24 | `enableAutoCleanup` arms with the message's threshold. `disableAutoCleanup` removes only the auto-cleanup alarm. Any other action changes nothing. |
| Scheduler.DisableUndoesEnable | background.js:16-20 | Enabling and then disabling leaves the registry as clearing the auto-cleanup alarm would. |
| Scheduler.EffectiveMinutes | background.js:56 | A missing or zero threshold means 60 minutes; any other stored value is used as is. |
| Scheduler.OnInstalled | background.js:1-12 | Always arms the archive alarm at 60/60. Arms auto-cleanup, at the cadence of `inactiveTime` or 60, exactly when the stored settings enable it. |
| Scheduler.InstallOrderIrrelevant | background.js:2-11 | Arming auto-cleanup before or after the archive alarm gives the same registry. |
| Scheduler.FreshInstall | background.js:1-12 | Installing with auto-cleanup on and no threshold gives exactly a 15-minute check and the hourly archive alarm. |
| Scheduler.AutoCleanupTick | background.js:45-90 | A settings read error does nothing; a disabled setting clears only the auto-cleanup alarm and closes nothing. Otherwise the tick closes exactly the ids of the classifier's selection at the fresh threshold. It closes nothing when that selection is empty, throws or the query fails. It notifies iff the remove succeeded, with the number of ids closed. |
| Scheduler.SameSelectionAtBothSites | background.js:56-72 | For the same tabs, threshold and clock, the tick closes exactly the tabs the popup's `getInactiveTabs` lists, and closes nothing when it lists none. |
| Scheduler.DisabledTickStopsItself | background.js:51-54 | A tick that reads auto-cleanup as off closes and notifies nothing and leaves no auto-cleanup alarm. |
| Scheduler.OnAlarm | background.js:26-32 | The auto-cleanup alarm runs the tick; the archive alarm runs the retention cleanup; any other name is ignored. |
| Scheduler.RunKeepsWellFormed | background.js:14-43 | Starting from a well-formed registry (the empty one included), after any sequence of installs, messages and alarms the registry holds only the two named alarms, each with delay equal to period. |
| Scheduler.ArchiveStaysArmed | background.js:14-43 | Once armed, the hourly archive alarm is never removed or changed by any event. |

## Left out

- content/content.js: it only reports the page title and location to the host; there is no logic to model.
- DOM wiring, `alert`/`confirm`/`prompt`, the periodic count refresh and the `setTimeout` polling after grouping (popup/popup.js:345): user interface and timing.
- Ordering of the host callbacks: each host call is an input that succeeds or fails. `Restore.SelectiveRestore` assumes every `tabs.create` callback runs and that their storage writes land in the order issued.
- Restore.SelectiveRestore: whether a `tabs.create` succeeds is not an input. The completion test at popup/popup.js:238 always holds, so the archive is spliced and written whatever the outcome. The restored-count message is not modelled.
- The restore-all path (popup/popup.js:254-279) and the delete-all choice: they clear the whole archive and select nothing.
- `new URL(url).hostname` is the input `hostOf`; only the `www.` strip is modelled.
- `archiveTab` (popup/popup.js:112-130): its ids come from the clock and `Math.random`, and its record is appended as is. `toLocaleDateString` in the archived preview is locale-dependent, so the preview takes each entry's label as given.
- `parseInt` of the threshold and of the typed numbers: integers, or `None` for `NaN`, are inputs. The worker's stored threshold is an integer or missing.
- Scheduler.OnMessage: a missing or `NaN` `message.time` is not modelled; the message carries an integer.
- `Object.entries` lists integer-like keys first, in ascending order. The URL parser reads an all-digit host as an IPv4 address, so a hostname is never integer-like, and buckets are modelled in insertion order.
- Domains.GroupTabsByDomain: an aborted grouping is modelled as requesting nothing. The uncaught `TypeError` itself, and the result message that the skipped `setTimeout` (popup/popup.js:345-352) would show, are not modelled. Hostnames come back lower-case, so in practice only `constructor` and `__proto__` can abort. The model also aborts on the mixed-case inherited names such as `hasOwnProperty`, which only a `hostOf` that keeps upper case could produce.
- Scheduler.Cadence: the host's minimum alarm period, and a zero or negative threshold passed to `chrome.alarms.create`, are not modelled; the registry stores the cadence as computed.
- Decimal.NatRoundTrip: covers whole numbers only. JavaScript's rendering of fractions and of numbers from 1e21 up is not modelled.
- Stored settings are read as JavaScript truthiness: `autoCleanup` enables only when it is `true`; other stored values are outside the model.
- Notification titles, icons and message wording are not modelled; only the count each notification carries is.

## Findings

| source | as written | input that shows it | evidently intended | confidence | as-written member | corrected member |
|---|---|---|---|---|---|---|
| popup/popup.js:226-241 | A typed number is kept once per occurrence, so a repeated number reopens its entry twice and splices its index twice. | `"1,1"` with three archived entries: the first entry is reopened twice, and the second is removed from the archive without being reopened. | Each chosen entry is reopened once, and the archive loses exactly the chosen entries. | not executed | Restore.RepeatedIndexLosesAnEntry | Restore.SelectiveRestoreDeduplicated |
| popup/popup.js:232-243 | The completion test always holds, so every `tabs.create` callback runs the descending splice loop again on the same working copy and writes it back. | `"1,2"` with five archived entries: two entries are reopened, but after the second callback the archive holds only the fifth entry. | The chosen entries are spliced out once, after the restores, and the archive is written once. | not executed | Restore.EveryCallbackSplicesAgain | Restore.SelectiveRestoreDeduplicated |
