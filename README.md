# MindfulBlocker, modelled in Dafny

MindfulBlocker is a browser extension that keeps a block list of hosts. The
popup adds, edits and deletes entries. Each entry is blocked permanently, for a
number of minutes, or until a time of day. The background worker turns the list
into declarative redirect rules (two per entry: the bare host and its `www.`
form) and into one alarm per timed entry. When an alarm fires, the entry is
dropped from the list and the rules and alarms are rebuilt.

This project models the background worker (`background.js`), the popup's state
machine (`popup.js`) and the two helpers in `utils.js`, and proves properties of
them. The browser's APIs are modelled as thin classes whose state the handlers
change. The models and properties are spread over these files:

- `wrappers.dfy`: `Option`, `Result` and JavaScript truthiness of an optional number.
- `strings.dfy`: the string built-ins the code relies on.
  - `trim`, `startsWith` and `parseInt(_, 10)`.
  - The decimal rendering of integers in template literals.
  - `encodeURIComponent` and `join`.
- `utils.dfy`: `getRemainingTime` and `normalizeUrl`, with a simplified host parser.
- `sites.dfy`: the stored entry (`BlockedSite`), the rule records, and list search, splice and filter.
- `platform.dfy`: the browser's services.
  - `chrome.storage.sync` as `SyncStorage`.
  - The dynamic rule table as `RuleTable`. Its update is refused when an added id clashes.
  - The alarm registry as `AlarmRegistry`.
- `rules.dfy`: `updateDeclarativeNetRequestRules`.
  - The desired rules and the add/remove diff loop, both as written and corrected.
  - Their properties.
- `alarms.dfy`: the alarm names and `setupAlarms`.
- `background.dfy`: the alarm, message and install handlers.
- `popup.dfy`: the popup's `currentBlockedSites`/`nextRuleId` state and its handlers.
  - Submit, delete, load and storage-change sync.
  - The invariant the popup keeps.

Some JavaScript values are model encodings:

- A missing `ruleId` is `0`.
- A missing `url` or `blockType` is `""`.
- A missing `unblockTime`, `durationMinutes` or `isActive` is `None`.
- `Date.now()` is a parameter `now`, taken once per handler run.
- `generateUniqueId()` is a parameter `newId`.
- The blocked page's URL (`chrome.runtime.getURL('blocked.html')`) is a parameter `page`.

## Model

| member | source | states |
|---|---|---|
| `Strings.TrimStart` | popup.js:109 | The result is a suffix of the input. Only whitespace was dropped, and the result does not start with whitespace. |
| `Strings.TrimEnd` | popup.js:109 | The result is a prefix of the input. Only whitespace was dropped, and the result does not end with whitespace. |
| `Strings.Trim` | popup.js:109 | Definition of `trim`: `trimStart` then `trimEnd`. Its behaviour is that of the two rows above; `Utils.TrimSpaced` uses it. |
| `Strings.DigitPrefix` | popup.js:121-123 | `parseInt` reads the longest run of decimal digits: every character before the stop is a digit, and the stop is not. |
| `Strings.ParseInt` | popup.js:121-123 | Definition of `parseInt(_, 10)`: leading whitespace and one sign skipped, then the longest digit run read, `None` (NaN) when there is no digit. `Strings.ParseIntOfNatToString` is its round trip. |
| `Strings.NatToString` | background.js:27 | A rendered number is a non-empty string of decimal digits. |
| `Strings.DigitsValueOfNatToString` | background.js:27 | The digits of a rendered number have exactly that value. |
| `Strings.ParseIntOfNatToString` | popup.js:121-123 | `parseInt(_, 10)` reads back every non-negative numeral. |
| `Strings.EncodeChar` | background.js:27 | A character is kept when unreserved, and percent-encoded otherwise. The output is always URI-safe. |
| `Strings.EncodeUriComponent` | background.js:27 | The encoded host holds only unreserved characters and `%`. It can never terminate the `url=` query parameter early. |
| `Strings.EncodeUriComponentIdentity` | background.js:27 | Encoding leaves a string unchanged iff all its characters are unreserved. |
| `Utils.SplitDiffBounds` | utils.js:47-49 | `hours < 24` and `minutes < 60`. The parts recompose to within one minute below the difference. |
| `Utils.RemainingTime` | utils.js:40-57 | Definition of `getRemainingTime`: `""` for a falsy timestamp, `Soon` for a non-positive difference, else the trimmed d/h/m text or `<1m`. Its properties are the rows around it. |
| `Utils.RenderSpanJoin` | utils.js:51-56 | The remaining-time text is the non-zero parts joined by single spaces in the order d, h, m, or `<1m` when there are none. |
| `Utils.TrimSpaced` | utils.js:56 | Trimming the space-terminated parts leaves them joined by single spaces, with no trailing space. |
| `Utils.RemainingTimeFormat` | utils.js:40-57 | A falsy timestamp gives `""`, a non-positive difference gives `Soon`, and otherwise the joined non-zero parts or `<1m`. |
| `Utils.LessThanAMinute` | utils.js:56 | For a positive difference, the text is `<1m` exactly when the difference is under 60000 ms. |
| `Utils.WithScheme` | utils.js:95-97 | `http://` is prepended exactly when the input has neither scheme prefix. The result always has one. |
| `Utils.StripWww` | utils.js:101-103 | Exactly one leading `www.` is removed. A host without it is returned unchanged. |
| `Utils.HostnameOf` | utils.js:98-99 | Definition of the simplified `new URL(...).hostname`. `Utils.HostnameOfIsHostname` and `Utils.HostnameOfClean` state what it gives. |
| `Utils.NormalizeUrl` | utils.js:93-108 | Definition of `normalizeUrl`: scheme added when missing, host parsed, one `www.` stripped, `None` (null) when parsing fails. The rows below state its properties. |
| `Utils.HostnameOfIsHostname` | utils.js:98-99 | A successful parse gives a non-empty, lower-case host free of forbidden host characters. |
| `Utils.HostnameOfClean` | utils.js:98-99 | An already clean host parses back to itself after `http://`. |
| `Utils.StripWwwKeepsHostname` | utils.js:101-103 | Removing `www.` from a clean host leaves a clean host, unless nothing is left. |
| `Utils.NormalizeUrlResult` | utils.js:93-108 | A non-empty normalized URL is a clean host name. |
| `Utils.NormalizeUrlFixpoint` | utils.js:93-108 | Normalizing a normal result again gives the same host. |
| `Utils.NormalizeUrlBareHost` | utils.js:95-104 | `example.com` normalizes to itself. |
| `Utils.NormalizeUrlFullUrl` | utils.js:93-104 | `https://www.Example.com/path` normalizes to `example.com`. |
| `Utils.NormalizeUrlEmpty` | utils.js:105-108 | An unparsable input (the empty string) gives the null marker rather than a failure. |
| `Sites.Ids` | background.js:9 | The id list has one entry per rule, in order. |
| `Sites.FindIndex` | popup.js:150 | `findIndex` gives -1 iff no entry has the id. Otherwise it gives the first index that has it. |
| `Sites.RemoveAt` | background.js:132 | `splice(k, 1)` removes index `k` and keeps the rest in order. |
| `Sites.WithoutId` | popup.js:231 | The filtered list holds exactly the entries whose id differs. |
| `Sites.WithoutAbsentId` | popup.js:231 | Filtering out an absent id leaves the list unchanged. |
| `Sites.WithoutPresentId` | popup.js:231 | Filtering out a present id makes the list strictly shorter. |
| `Sites.SpliceIsFilter` | background.js:118-132 | When only index `k` holds the id, splicing `k` equals filtering the id out. |
| `Sites.WithoutIdKeepsDistinct` | popup.js:231 | Filtering keeps site ids unique and rule ids distinct. |
| `Sites.DistinctAppend` | background.js:70-73 | Two id lists concatenate to a duplicate-free list iff both are duplicate-free and disjoint. |
| `Sites.DistinctCount` | background.js:62-65 | In a duplicate-free id list every id occurs at most once, and exactly once when present. |
| `Platform.SyncStorage.SetAll` | background.js:135 | Writing both keys stores exactly the given list and counter. |
| `Platform.SyncStorage.SetNextRuleId` | background.js:187 | Writing only the counter leaves the stored list alone. |
| `Platform.Keep` | background.js:70-73 | The rules kept by an update are exactly the installed ones whose id is not removed. |
| `Platform.UpdateAccepted` | background.js:70-73 | Definition of when `updateDynamicRules` accepts: the added ids are distinct and none is still installed after the removals. |
| `Platform.RuleTable.UpdateDynamicRules` | background.js:70-73 | The update is applied iff the added ids are distinct and absent from the kept rules. Otherwise the table is unchanged. |
| `Platform.AlarmRegistry.ClearAll` | background.js:90 | After clearing, no alarm is left. |
| `Platform.AlarmRegistry.Create` | background.js:97 | Creating an alarm sets (or replaces) the alarm of that name. |
| `RuleSync.RedirectUrl` | background.js:27 | Definition of the redirect target: the blocked page with `url=` the encoded host, `unblockTime=` the time or empty, `blockType=` the type or `permanent`. |
| `RuleSync.RedirectRule` | background.js:22-44 | Definition of one rule: the given id, priority 1, a redirect to `RedirectUrl`, the filter `*://host/*` on `main_frame`. |
| `RuleSync.SiteRules` | background.js:20-45 | Definition of one site's pushes: the bare-host rule and the `www.` rule when the site is active with a url and rule id, none otherwise. |
| `RuleSync.DesiredRules` | background.js:18-47 | Definition of `rulesToAdd`: the sites' rules concatenated in list order. `RuleSync.BuildDesiredRules` is proved to compute it. |
| `RuleSync.BuildDesiredRules` | background.js:18-47 | The `forEach` loop builds exactly the desired rules, two per site that gets rules. |
| `RuleSync.DesiredRulesAppend` | background.js:19-47 | The desired rules of a concatenation are the concatenation of the desired rules, so list order is kept. |
| `RuleSync.DesiredRulesMembers` | background.js:19-47 | A rule is desired iff it is one of the two rules of some site with `isActive !== false`, a url and a rule id. |
| `RuleSync.SingleSiteRules` | background.js:20-45 | A ruled site yields its bare-host rule and then its `www.` rule. |
| `RuleSync.SiteRuleShape` | background.js:22-44 | Each of a ruled site's rules has priority 1 and matches only `main_frame`. Under `ruleId` it is for the bare host, under `ruleId + 100000` for `www.` + host. Its filter is `*://<host>/*`. It redirects to the blocked page with `url=` the encoded host, `unblockTime=` the time or empty, and `blockType=` the type or `permanent`. |
| `RuleSync.DesiredRuleShape` | background.js:19-47 | Every desired rule has priority 1, is a redirect and matches only `main_frame`. It belongs to some ruled site: under `ruleId` for its bare host, under `ruleId + 100000` for `www.` + host. It has that host's `*://<host>/*` filter and the redirect URL carrying the encoded host, the unblock time (or empty) and the block type (or `permanent`). |
| `RuleSync.SiteRuleIds` | background.js:23-35 | A ruled site's rule ids are `[ruleId, ruleId + 100000]`, and other sites have none. |
| `RuleSync.DesiredIdsDistinct` | background.js:23-35 | With rule ids in 1..100000 and distinct, the desired rules have distinct ids. |
| `RuleSync.RedirectUrlDiffers` | background.js:27 | Two different unblock times give two different redirect URLs. |
| `RuleSync.Lookup` | background.js:51-57 | The map lookup finds a rule with that id iff one is installed. |
| `RuleSync.LookupInstalled` | background.js:51-57 | With distinct installed ids, the lookup returns exactly the installed rule. |
| `RuleSync.NeedsAdd` | background.js:57-58 | Definition of the test of background.js:58: no installed rule has the id, or its action or condition differs. |
| `RuleSync.AddList` | background.js:56-60 | A desired rule is added exactly when no installed rule has its id or its action or condition differs. |
| `RuleSync.UnchangedRules` | background.js:56-60 | The desired rules that are not added are exactly those installed unchanged. |
| `RuleSync.IndexOf` | background.js:62 | `indexOf` gives -1 iff the id is absent. Otherwise it gives its first position. |
| `RuleSync.SpliceOut` | background.js:62-65 | The `indexOf`/`splice` step removes the first occurrence of the id, when there is one. |
| `RuleSync.RemoveFirstCount` | background.js:62-65 | The splice removes one occurrence of the id and nothing else, counted as a multiset. |
| `RuleSync.RemoveEachCount` | background.js:54-66 | The remove list is the installed ids minus the spared ids, as a multiset. |
| `RuleSync.RemoveEachDistinctMembers` | background.js:54-66 | With distinct installed ids, an id is removed iff it is installed and not spared. |
| `RuleSync.AsWrittenRemoveList` | background.js:54-66 | Definition of `finalRuleIdsToRemove` as written: one occurrence of every desired id spliced out of the installed ids. |
| `RuleSync.RemoveList` | background.js:54-66 | Definition of the corrected remove list: only the ids of desired rules installed unchanged are spliced out. |
| `RuleSync.ReconcileAsWritten` | background.js:53-68 | The loop as written adds the new or changed desired rules and removes the installed ids that are not desired. The update is made iff a list is non-empty. |
| `RuleSync.Reconcile` | background.js:53-68 | The corrected loop removes every installed id that is not desired unchanged, and the rest as above. |
| `RuleSync.NothingToDoWhenInSync` | background.js:68-77 | When the installed rules equal the desired ones, both lists are empty (as written and corrected), so no update call is made. |
| `RuleSync.KeepDistinct` | background.js:70-73 | Removing rules keeps the installed ids distinct. |
| `RuleSync.AddListDistinct` | background.js:56-60 | The add list of distinct desired rules has distinct ids. |
| `RuleSync.KeptAreUnchanged` | background.js:61-73 | After the corrected removal, exactly the desired rules installed unchanged remain. |
| `RuleSync.ReconcileEstablishesDesired` | background.js:53-73 | The corrected update is accepted by the platform, and afterwards the installed rules are exactly the desired rules. |
| `RuleSync.DesiredPriorityOne` | background.js:24-36 | All desired rules have priority 1. |
| `RuleSync.ReconcileTwiceIsNoOp` | background.js:53-77 | Reconciling again after an update gives two empty lists. |
| `RuleSync.AsWrittenRejectsChangedRule` | background.js:61-65 | As written, a changed rule whose id is installed is re-added without its id being removed, so the platform refuses the whole update. |
| `RuleSync.EditedSiteUpdate` | background.js:56-73 | After editing one site's unblock time, the as-written update is refused and the corrected one is accepted. |
| `RuleSync.AsWrittenMatchesCorrected` | background.js:54-66 | When no desired rule changed under an installed id, the as-written removals keep the same rules as the corrected ones, and one list is empty iff the other is. |
| `RuleSync.SeparatedRemoveAt` | background.js:132 | Splicing a site out keeps the rule ids separated. |
| `RuleSync.AddListAppend` | background.js:56-60 | The add list of a concatenation is the concatenation of the add lists. |
| `RuleSync.AddedSiteAdds` | background.js:56-60 | Starting in sync, adding one site adds exactly its two rules. |
| `RuleSync.AddedSiteRemovesNothing` | background.js:54-66 | Starting in sync, adding one site removes nothing, as written and corrected. |
| `RuleSync.SplitDesired` | background.js:19-47 | The desired rules split around site `k`. Dropping `k` drops exactly its rules. |
| `RuleSync.RemovedSiteIds` | background.js:23-35 | Dropping a ruled site drops exactly the ids `ruleId` and `ruleId + 100000` from the desired ids. |
| `RuleSync.ExpiredSiteAddsNothing` | background.js:56-60 | Starting in sync, dropping a site adds nothing. |
| `RuleSync.ExpiredSiteRemovesItsRulesAsWritten` | background.js:54-66 | Starting in sync, dropping a ruled site removes exactly its two ids, as written. |
| `RuleSync.ExpiredSiteRemovesItsRules` | background.js:54-66 | Starting in sync, dropping a ruled site removes exactly its two ids, corrected. |
| `Alarms.SiteIdOfAlarm` | background.js:111-112 | A name yields a site id iff it starts with `unblock_`, and the name is the prefix followed by that id. |
| `Alarms.SiteIdOfAlarmName` | background.js:95-112 | The id parsed from the alarm named for a site is that site's id. |
| `Alarms.ScheduledAlarms` | background.js:93-103 | Definition of the alarm map `setupAlarms` builds: one `unblock_<id>` alarm at `unblockTime` per active site whose unblock time is truthy and in the future. |
| `Alarms.AlarmNameInjective` | background.js:95 | Different site ids get different alarm names. |
| `Alarms.SetupAlarms` | background.js:89-103 | Clearing and then creating in a loop leaves exactly the alarms scheduled for the list. |
| `Alarms.ScheduledAlarmsKeys` | background.js:93-103 | An alarm exists iff it is named for a site with `isActive !== false`, a truthy unblock time and `unblockTime > now`. |
| `Alarms.ScheduledAlarmsInFuture` | background.js:94 | Every alarm fires after `now`. |
| `Alarms.ScheduledAlarmsWhen` | background.js:94-97 | A schedulable site with a unique id has its alarm at its unblock time. |
| `Background.SyncedRulesAsWritten` | background.js:13-85 | Definition of the table after the update as written: kept rules plus added ones when the lists are non-empty and the platform accepts, else unchanged. |
| `Background.SyncedRules` | background.js:13-85 | Definition of the table after the update with the corrected diff, in the same shape. |
| `Background.KeepNothing` | background.js:70-73 | An empty remove list keeps every installed rule. |
| `Background.SyncedRulesInSync` | background.js:13-77 | With the corrected diff and separated rule ids, the table after a resync holds exactly the desired rules. |
| `Background.SyncedRulesIdempotent` | background.js:13-77 | With the corrected diff, a second resync with the same list changes nothing. |
| `Background.UpdateRules` | background.js:13-85 | The rule table after `updateDeclarativeNetRequestRules`, as written: the as-written diff applied when non-empty and accepted, otherwise the table as it was. |
| `Background.UpdateRulesCorrected` | background.js:13-85 | The same update with the corrected diff gives the corrected table. |
| `Background.AsWrittenAgrees` | background.js:53-73 | When no desired rule changed under an installed id, the as-written resync gives the same table as the corrected one. |
| `Background.AsWrittenKeepsStale` | background.js:56-84 | When a desired rule changed under an installed id, the as-written update is refused. The table keeps its stale rules and is not in sync with the list. |
| `Background.EditedSiteStaysStale` | background.js:56-84 | After an edit of the only site's unblock time, the as-written resync leaves the table unchanged, and the corrected one changes it. |
| `Background.RemovalStaysInSync` | background.js:118-139 | Starting in sync, the as-written resync after a site is spliced out brings the table back in sync. |
| `Background.AdditionStaysInSync` | background.js:13-77 | Starting in sync, the as-written resync after a site is appended brings the table back in sync. |
| `Background.MaxRuleIdBound` | background.js:183-186 | `maxId` is at least 0, no rule id exceeds it, and it is 0 or some site's rule id. |
| `Background.InitialNextRuleId` | background.js:183-187 | The loop computes `maxId + 1`. |
| `Background.InitialNextRuleIdFresh` | background.js:182-187 | The initial counter is at least 1 and above every stored rule id. |
| `Background.MaxRuleId` | background.js:183-186 | Definition of `maxId`: the largest truthy rule id, or 0. |
| `Background.AfterUnblock` | background.js:118-132 | Definition of the list after an alarm: the first site with the id spliced out, `None` when there is none. |
| `Background.AfterUnblockDropsSite` | background.js:118-132 | With unique site ids, unblocking drops exactly the site with that id, which is one entry fewer. An unknown id changes nothing. |
| `Background.HandleAlarm` | background.js:109-159 | For an `unblock_` alarm of a listed site, the site is spliced out, the list and the counter (defaulting to 1) are written back, the rules are resynced as written and the alarms rebuilt. Otherwise nothing changes. |
| `Background.HandleMessage` | background.js:162-173 | `updateRulesAndAlarms` resyncs the rules (as written) and the alarms to the carried list and answers success. Any other message changes nothing. |
| `Background.HandleInstalled` | background.js:176-198 | A falsy counter becomes `maxId + 1`, a truthy one is kept, and the rules (as written) and the alarms are built for the stored list. |
| `Popup.DisplayUrl` | popup.js:48-53 | A URL over 20 characters shows as its first 20 followed by `...`. Otherwise it shows unchanged. |
| `Popup.FormTiming` | popup.js:115-144 | Definition of the form's timing: none for permanent, `now + minutes * 60000` for a duration, the next `HH:mm` for a time of day, or the error. |
| `Popup.SubmitResult` | popup.js:107-181 | Definition of the submit handler's effect: URL check, then timing, then storing. `Popup.SubmitAccepted` characterises it. |
| `Popup.StoreResult` | popup.js:146-181 | Definition of the storing step: edit the entry with the id, or append a new one. The Store rows below state its effect. |
| `Popup.DeleteResult` | popup.js:226-234 | Definition of the delete handler's effect: filter the id out, or nothing for an unknown id. |
| `Popup.ReadTiming` | popup.js:115-144 | The handler's timing code computes exactly the form's timing or its error. |
| `Popup.DurationTiming` | popup.js:119-129 | A duration is accepted iff it parses to a positive number. The entry then expires `minutes * 60000` ms after `now`; otherwise the error is an invalid duration. |
| `Popup.UntilTimeTiming` | popup.js:130-143 | A time-of-day block is refused iff no time is chosen. Otherwise it expires at the next occurrence of that time, strictly after `now`. |
| `Popup.TimingFields` | popup.js:115-178 | `durationMinutes` is set iff the type is `duration`, and then it is positive. `unblockTime` is set iff the block is timed or time-of-day. |
| `Popup.SubmitAccepted` | popup.js:107-169 | An invalid URL is refused first, then a timing error. An edit is accepted iff the id is listed, and an addition iff the URL is not. Each refusal carries its error. |
| `Popup.StoreAdds` | popup.js:164-180 | Adding a URL not yet listed succeeds and appends one active entry with the new id, the URL, the form's type and timing and the old counter as rule id. The counter grows by exactly 1 and earlier entries are kept. |
| `Popup.StoreRejectsDuplicate` | popup.js:165-169 | Adding a URL that is already listed is refused with the already-blocked error. |
| `Popup.StoreEdits` | popup.js:149-162 | An edit is refused exactly when no entry has that id. Otherwise it replaces only the first entry with that id, keeps its id, rule id and active flag, and overwrites its URL, type and timing. The length and the counter are unchanged. |
| `Popup.DeleteRemoves` | popup.js:226-234 | Delete is a no-op iff the id is absent. Otherwise it keeps exactly the entries with another id, shortens the list and leaves the counter alone. With unique site ids the result is the list with the found index spliced out, in order. |
| `Popup.EditKeepsValid` | popup.js:149-162 | An edit keeps the popup invariant. |
| `Popup.AddKeepsValid` | popup.js:164-179 | An addition with an unused entry id keeps the popup invariant. |
| `Popup.SubmitKeepsValid` | popup.js:107-181 | Every accepted submission keeps the invariant: counter positive, rule ids below it, site ids unique, rule ids distinct. |
| `Popup.DeleteKeepsValid` | popup.js:226-234 | Every deletion keeps the popup invariant. |
| `Popup.ValidSeparatesRuleIds` | popup.js:176 | In a valid state whose counter is at most 100001, the background's two rule ids per site cannot collide. |
| `Popup.PopupState.constructor` | popup.js:17-18 | The popup starts with an empty list and counter 1, which is a valid state. |
| `Popup.PopupState.LoadInitialData` | popup.js:21-31 | A missing list loads as empty, and a missing or zero counter loads as 1. |
| `Popup.PopupState.SaveAndApplyChanges` | popup.js:237-245 | The list and counter are stored, and the list is sent to the background worker. |
| `Popup.PopupState.ApplySubmit` | popup.js:107-181 | The state after validation and edit or append is the submission's result. A refused form changes nothing. |
| `Popup.PopupState.Store` | popup.js:146-181 | The in-place edit at the found index, or the append with `nextRuleId++`, gives the stored result. |
| `Popup.PopupState.Submit` | popup.js:107-185 | An accepted form is applied, stored and sent. A refused one leaves the state and the store unchanged and reports its error. From a valid state, with an unused entry id, the state stays valid. |
| `Popup.PopupState.DeleteSite` | popup.js:226-234 | A listed id is filtered out, then stored and sent. An unknown id changes nothing. A valid state stays valid. |
| `Popup.PopupState.OnStorageChanged` | popup.js:272-280 | A changed list replaces the popup's (a removed key reads as empty). A changed counter replaces it unless the new value is missing or 0. Other areas are ignored. |

## Left out

- The `chrome.*` services are not called; they are the classes of `platform.dfy`.
  - The two `getDynamicRules` calls of one resync are read as one snapshot (the table's current rules).
  - A storage write always succeeds.
  - The `try`/`catch` blocks cover only the refused rule update, which leaves the table unchanged.
- The rule table refuses an update only for duplicate or clashing ids. The platform's other checks (rule count limits, filter syntax) are not modelled.
- Async ordering and concurrency are not modelled, because the model runs each handler as one atomic step. This covers:
  - the interleaving between the popup and the background worker;
  - `sendResponse` and the asynchronous `return true`;
  - the `setInterval` refresh.
- DOM and user-interface work is left out because it has no state the model tracks. This covers:
  - `renderBlockedSites` beyond the URL truncation;
  - `handleEditSite` form filling, `resetForm`, `showToast` and the show/hide listeners;
  - the console logging;
  - the notification at background.js:145-150.
- `formatTime`, `formatDateTime` and `generateUniqueId` are left out. They depend on locale and the clock; the new entry id is a parameter.
- The time-of-day block does no calendar or time-zone arithmetic.
  - The local instant "today at HH:mm" is a parameter `todayAt`.
  - Moving it to tomorrow adds a fixed 86400000 ms, so daylight-saving days are not modelled.
  - Splitting the `HH:mm` text into numbers is part of computing `todayAt` and is not modelled.
- Popup.UntilTimeTiming: the unblock time is strictly after `now` only given `now - 86400000 < todayAt`. The calendar construction that guarantees this is abstracted into `todayAt`.
- `new URL(...).hostname` is a simplified parser.
  - It keeps the authority up to `/`, `\`, `?` or `#`, after the last `@` and before the first `:`.
  - It lower-cases ASCII, and refuses an empty host or forbidden host code points.
  - Not modelled: IDNA, percent-decoding, IPv4/IPv6 normalisation, port validation and the rest of the WHATWG parser.
- The action and condition comparison at background.js:58 uses structural equality of the records in place of `JSON.stringify`.
- The `isActive = false` write at background.js:128 is not modelled. The entry is spliced out right after it, so only the removal is.
- The id filter at background.js:16 is the identity, because every installed id is a number in the model.
- Strings are sequences of Unicode code points, not UTF-16 code units. As a result, `substring(0, 20)` in the truncation and `encodeURIComponent` differ from JavaScript for characters outside the Basic Multilingual Plane. Lone surrogates, on which `encodeURIComponent` fails, are not modelled.
- JavaScript numbers are doubles; the model uses unbounded integers. Rounding in `durationMinutes * 60 * 1000` and in `parseInt` of huge numerals is not modelled. Values of the wrong type (a non-numeric `ruleId`, a non-string `url`) are also not modelled.
- Popup.SubmitKeepsValid: the invariant requires a fresh entry id. The source only makes ids fresh in practice, by using the current time.
- Popup.DeleteRemoves: the order of the remaining entries is stated only for lists with unique site ids, where the filter equals the splice at the found index. With repeated ids it states which entries remain; the order is kept by the definition of `Sites.WithoutId` as a front-to-back filter.
- The popup invariant keeps rule ids separated from the `www.` offset (`Popup.ValidSeparatesRuleIds`) only while the counter stays at most 100001. The source does nothing to stop the counter passing that bound.
- The handlers (`Background.HandleAlarm`, `Background.HandleMessage`, `Background.HandleInstalled`) resync through `Background.UpdateRules`, which runs the diff as written. The corrected diff of the finding below is the separate `Background.UpdateRulesCorrected` and `Background.SyncedRules`; `Background.SyncedRulesInSync` and `Background.SyncedRulesIdempotent` are about it, not about the handlers.
- The specification and the code differ in three places; the model follows the code:
  - Host names need not be unique among entries. An edit does not check the new URL against the other entries (popup.js:149-162), and only an addition does (popup.js:166).
  - An active entry gets rules only when its `url` and `ruleId` are also truthy (background.js:20), not for every entry with `isActive !== false`.
  - An alarm handler writes the counter back as `nextRuleId || 1` (background.js:116, 135), so the background worker can also set the counter.

## Findings

| source | as written | input that shows it | evidently intended | confidence | as-written member | corrected member |
|---|---|---|---|---|---|---|
| background.js:61-65 | Every desired rule's id is spliced out of the remove list, even when the installed rule with that id has changed and is being re-added. The update then adds an id that stays installed, and the platform refuses the whole `updateDynamicRules` call, so the table keeps the stale rules. | One installed, in-sync site whose unblock time is edited from t1 to t2 ≠ t1 (same `ruleId`). Its two rules are re-added but neither id is removed. | Remove the ids of changed rules, so that only rules installed unchanged are spared and the re-added rules replace the old ones. | not executed | `RuleSync.ReconcileAsWritten`, run by `Background.UpdateRules` and the handlers (discrepancy shown by `RuleSync.EditedSiteUpdate`, `RuleSync.AsWrittenRejectsChangedRule`, `Background.AsWrittenKeepsStale` and `Background.EditedSiteStaysStale`) | `RuleSync.Reconcile`, run by `Background.UpdateRulesCorrected` (proved by `RuleSync.ReconcileEstablishesDesired`, `RuleSync.ReconcileTwiceIsNoOp`, `Background.SyncedRulesInSync` and `Background.SyncedRulesIdempotent`) |
