# Screen-time quotas: web app tracker and browser extension

This project models in Dafny the quota logic of a screen-time tracker. The logic exists twice.

**The web app's `WebsiteTimeTracker`** keeps a list of sites. Each site has a daily budget in **minutes**. The model covers:
- adding a site, deduplicated without regard to case;
- removing a site, which is refused once it has used time;
- the remaining time of a site;
- explicit "spend N minutes" sessions, which are started and then ended;
- the daily reset and the forced reset, each of which appends a marker record;
- the table the tracker sends to the extension, converted to milliseconds.

**The browser extension** keeps a `websiteLimits` object keyed by hostname, with budgets in **milliseconds** and a `blocked` flag. The model covers:
- the background page's daily reset;
- the block decision `shouldBlockSite`;
- the `blockSite` flag;
- the one-second tracking tick;
- the rebuild of the table from the server's reply;
- the two site scans of the navigation listener;
- the content script's redirect decision;
- the popup's `formatTime` and its remaining-time clamp.

The model is organised as follows:
- The web app tracker and the background page are classes whose methods update their fields.
- Each method is proved against a specification function on values.
- The properties are proved about those functions as lemmas.

Some details of the representation:
- A JavaScript object is modelled as its key sequence, in `for...in` order, together with a map of its values.
- `replace('www.', '')` replaces the first occurrence, wherever it stands.
- `includes` is substring search.
- `toLowerCase` lowers the ASCII letters.
- The clock, the parsing of URLs and the parsing of `requestedMinutes` are inputs:
  - `today` is the ISO date;
  - `now` is in milliseconds;
  - the hostname is already extracted;
  - `parseInt`'s result is `None` when it gives NaN.

Modules:
- `Wrappers`, `Strings`: `Option`, and the string operations listed above.
- `Quota`: the `Math.max(0, limit - used)` clamp, shared by the web app and the popup.
- `WebsiteBlocker`: `WebsiteTimeTracker`.
- `LimitsTable`: the extension's table and its three hostname-matching rules.
- `Background`: the background page.
- `ContentScript`: the content script.
- `Popup`: the popup.

## Model

| member | source | states |
|---|---|---|
| WebsiteBlocker.FindIndex | FRONT-END/website-blocker.js:98-107 | finds the first site whose url equals the given one ignoring case; None exactly when no site matches |
| WebsiteBlocker.NewWebsiteLimit | FRONT-END/website-blocker.js:4-11 | a new site has the given url and limit, usage 0, no sessions and today's date, so its whole (non-negative) limit remains |
| WebsiteBlocker.FindIndexOfOwnUrl | FRONT-END/website-blocker.js:98-107 | when urls are unique ignoring case, looking a site up by its own url in any case finds that very site |
| WebsiteBlocker.TimeRemaining | FRONT-END/website-blocker.js:91-96 | never negative; positive exactly when the site is known and under its limit, and then equal to limit minus used; 0 for an unknown url |
| WebsiteBlocker.StartOutcome | FRONT-END/website-blocker.js:117-159 | failures come in a fixed order: not found, then nothing left, then minutes missing or not positive, then more than is left; success exactly when 0 < minutes ≤ remaining; nothing left answers the site's own url; more than is left answers the minutes remaining; on success the leftover is remaining − minutes ≥ 0 and the address is https:// + the site's url |
| WebsiteBlocker.ElapsedMinutes | FRONT-END/website-blocker.js:175-178 | `Math.ceil(ms / 60000)`: the least r with ms ≤ r·60000 |
| WebsiteBlocker.SettledMinutes | FRONT-END/website-blocker.js:172-180 | the supplied minutes when given; otherwise the smaller of the requested minutes and the started minutes elapsed since the session began |
| WebsiteBlocker.LocateSession | FRONT-END/website-blocker.js:163-168 | located exactly when the active session's site is found by url and its record index is in range and holds a spend record |
| WebsiteBlocker.Complete | FRONT-END/website-blocker.js:170-183 | that spend is marked completed with the charged minutes; usage grows by exactly those minutes; every other record and field is unchanged |
| WebsiteBlocker.DailyReset | FRONT-END/website-blocker.js:190-205 | same sites in the same order, urls and limits kept, every site dated today |
| WebsiteBlocker.ForceReset | FRONT-END/website-blocker.js:227-237 | every site: usage 0, dated today, one manual-reset marker appended; urls and limits kept |
| WebsiteBlocker.DailyResetTouchesExactlyStale | FRONT-END/website-blocker.js:194-204 | a site changes exactly when its date differs from today, and then its usage is 0 and one reset marker is appended |
| WebsiteBlocker.DailyResetIdempotent | FRONT-END/website-blocker.js:190-205 | a second daily check on the same day changes nothing |
| WebsiteBlocker.ForceResetLeavesNothingStale | FRONT-END/website-blocker.js:227-237 | after a forced reset the daily check finds nothing to do that day |
| WebsiteBlocker.ResetsKeepUniqueUrls | FRONT-END/website-blocker.js:194-237 | both resets keep the urls unique ignoring case |
| WebsiteBlocker.ExtensionLimits | FRONT-END/website-blocker.js:36-43 | the object sent to the extension has one property per site url and no other |
| WebsiteBlocker.ExtensionLimitsLastSiteWins | FRONT-END/website-blocker.js:36-43 | a url's property holds the last site with that url, in milliseconds |
| WebsiteBlocker.ExtensionLimitsOfUniqueUrls | FRONT-END/website-blocker.js:36-43 | with unique urls each site is sent with its own limit and usage times 60000 and its date |
| WebsiteBlocker.ToExtension | FRONT-END/website-blocker.js:37-41 | minutes become milliseconds: both figures are exact multiples of 60000, dividing back gives the minutes again, the date is kept, and the over-limit comparison is unchanged |
| WebsiteBlocker.WebsiteTimeTracker.constructor | FRONT-END/website-blocker.js:15-21 | the tracker starts with the stored list after the daily check and with no active session |
| WebsiteBlocker.WebsiteTimeTracker.AddWebsite | FRONT-END/website-blocker.js:56-76 | returns the hostname; adds nothing when a site equal ignoring case exists; otherwise appends one site with usage 0, no sessions and today's date; keeps urls unique |
| WebsiteBlocker.WebsiteTimeTracker.RemoveWebsite | FRONT-END/website-blocker.js:78-89 | true exactly when the index is in range and that site has used no time; then exactly that entry is removed and the rest keep their order; otherwise nothing changes |
| WebsiteBlocker.WebsiteTimeTracker.StartWebsiteSession | FRONT-END/website-blocker.js:109-160 | answers StartOutcome; a failure changes nothing; a success appends one spend record (requested minutes, 0 actual, not completed), points the active session at it and leaves usage alone |
| WebsiteBlocker.WebsiteTimeTracker.EndWebsiteSession | FRONT-END/website-blocker.js:162-188 | false with no change when no session is active or its record is gone; otherwise that record is completed with the settled minutes, usage grows by exactly them, and the active session is cleared, so a second call answers false |
| WebsiteBlocker.WebsiteTimeTracker.CheckAndResetDailyLimits | FRONT-END/website-blocker.js:190-205 | the list becomes DailyReset of the old list, site by site; the active session is kept |
| WebsiteBlocker.WebsiteTimeTracker.ForceResetAll | FRONT-END/website-blocker.js:227-258 | the list becomes ForceReset of the old list; always answers true |
| Quota.Remaining | FRONT-END/website-blocker.js:95 | never negative; limit − used within the limit, 0 from the limit on |
| Popup.DisplayedRemaining | FRONT-END/extension/popup.js:49 | never negative; 0 exactly when usage has reached the limit; limit − used within the limit |
| Popup.FormatTime | FRONT-END/extension/popup.js:2-11 | the text is non-empty and ends in "m" |
| Popup.FormatTimeMinutesBranch | FRONT-END/extension/popup.js:3-5 | below an hour, the text reads back as just the whole minutes `floor(ms / 60000)` |
| Popup.FormatTimeHoursBranch | FRONT-END/extension/popup.js:6-10 | from an hour on, the text reads back as h hours and m minutes with h ≥ 1, m < 60 and h·60 + m = `floor(ms / 60000)` |
| Popup.FormatTimeLosesNoMinutes | FRONT-END/extension/popup.js:3-9 | in either branch, the minutes read back from the text total exactly `floor(ms / 60000)` |
| Strings.IndexOf | FRONT-END/extension/background.js:70 | `indexOf`: the first position at which the needle occurs; None exactly when it occurs nowhere |
| Strings.ReplaceFirst | FRONT-END/extension/background.js:67-68 | `replace` with a string pattern: no occurrence leaves the string as it is; otherwise the first occurrence is replaced and everything before and after it is kept |
| Strings.StripWwwChanges | FRONT-END/extension/background.js:67-68 | stripping "www." changes a name exactly when it contains "www.", and then shortens it by four |
| Strings.StripLeadingWww | FRONT-END/extension/background.js:68 | a leading "www." is the one removed |
| Strings.ToLower | FRONT-END/website-blocker.js:106 | same length; each ASCII capital becomes its small letter (code + 32) and every other character is kept; no capital is left |
| Strings.ParseIntToString | FRONT-END/extension/popup.js:5 | the decimal text of an integer reads back as that integer |
| Strings.ParseNat | FRONT-END/extension/popup.js:5-9 | reads a displayed count back: it accepts exactly non-empty digit text without a leading zero, and whatever it accepts is the `${n}` rendering of the value it returns |
| Strings.CanonicalDigitsRoundTrip | FRONT-END/extension/popup.js:5-9 | digit text without a leading zero is the `${n}` rendering of its own value |
| Strings.ParseNatOnlyFromRendering | FRONT-END/extension/popup.js:5-9 | a count's rendering is the only text that reads back as that count, so a display reads back one way only |
| Strings.NatToString | FRONT-END/extension/popup.js:3-9 | the decimal text of a count is non-empty, all digits, and has no leading zero |
| LimitsTable.FirstMatch | FRONT-END/extension/background.js:66-74 | the first key in iteration order that matches the hostname under a rule; None exactly when no key matches |
| LimitsTable.FirstMatchAt | FRONT-END/extension/background.js:66-74 | conversely, a matching key with no matching key before it is the first match |
| LimitsTable.FirstMatchOfAgreeingPrefix | FRONT-END/extension/background.js:66-74 | key lists that agree up to the first match have the same first match |
| LimitsTable.MatchRulesAsOccurrences | FRONT-END/extension/background.js:67-70 | the three rules as occurrences: the content script (content.js:11) finds the key inside the hostname; the listener's scans (background.js:123-124) test containment either way with "www." removed from the key; `shouldBlockSite` removes it from both sides |
| LimitsTable.RulesAgreeWithoutWww | FRONT-END/extension/background.js:123-124 | for a hostname without "www." the listener's scans and `shouldBlockSite` match alike |
| Background.DailyReset | FRONT-END/extension/background.js:50-62 | same keys in the same order, limits kept, every entry dated today |
| Background.DailyResetTouchesExactlyStale | FRONT-END/extension/background.js:53-59 | an entry changes exactly when its date differs from today, and then it has usage 0, no block and today's date |
| Background.DailyResetIdempotent | FRONT-END/extension/background.js:50-62 | a second reset on the same day changes nothing |
| Background.DailyResetKeepsConsistent | FRONT-END/extension/background.js:54-58 | the reset keeps "blocked implies usage ≥ limit" |
| Background.ShouldBlock | FRONT-END/extension/background.js:65-76 | block exactly when some key matches with "www." stripped from both sides and the first such key has used its budget or is flagged |
| Background.ShouldBlockIgnoresLaterKeys | FRONT-END/extension/background.js:65-76 | only the first key matching with "www." stripped from both sides decides; tables that agree up to it decide alike |
| Background.ShouldBlockWhenConsistent | FRONT-END/extension/background.js:70-73 | in a consistent table the answer is: some key matches and the first match has used its budget |
| Background.Block | FRONT-END/extension/background.js:84-87 | sets the flag of a present key whatever its usage, touches no other key or field; an absent key leaves the table unchanged |
| Background.BlockIdempotent | FRONT-END/extension/background.js:84-87 | blocking twice is blocking once |
| Background.BlockKeepsConsistentIff | FRONT-END/extension/background.js:84-87 | blocking a key keeps "blocked implies usage ≥ limit" exactly when that key has used its budget |
| Background.Tick | FRONT-END/extension/background.js:91-98 | an absent or blocked site leaves the table unchanged; otherwise usage grows by exactly 1000 and the flag is set exactly when usage has reached the limit; other keys untouched |
| Background.TickKeepsConsistent | FRONT-END/extension/background.js:94-98 | a tick keeps "blocked implies usage ≥ limit" |
| Background.BlockAfterTickIsNoOp | FRONT-END/extension/background.js:97-105 | after the tick that reaches the limit, the follow-up `blockSite` calls change nothing |
| Background.Ticks | FRONT-END/extension/background.js:91-111 | repeated ticks keep the keys and touch no other site |
| Background.TicksBlockOnceBudgetSpent | FRONT-END/extension/background.js:91-98 | n ticks on an unblocked site block it exactly when n ≥ 1 and usage + 1000·n reaches the limit; until then usage grows by 1000·n; a site that started under its limit overshoots it by less than one tick |
| Background.Assign | FRONT-END/extension/background.js:33-38 | `obj[key] = value`: a new key goes last, an existing key keeps its place |
| Background.FromServer | FRONT-END/extension/background.js:33-38 | minutes become milliseconds: both figures are exact multiples of 60000, dividing back gives the server's minutes, the date is kept, the flag is cleared, and over-limit in milliseconds is over-limit in minutes |
| Background.SyncTable | FRONT-END/extension/background.js:30-39 | the rebuilt table has exactly one key per server url and nothing blocked |
| Background.SyncTableLastRecordWins | FRONT-END/extension/background.js:32-39 | a url's entry is the last server record with that url, with limit and usage times 60000 |
| Background.SyncTableKeysInServerOrder | FRONT-END/extension/background.js:31-39 | with distinct urls the keys are exactly ServerUrls: the server's urls, in the server's order |
| Background.ServerUrls | FRONT-END/extension/background.js:32-39 | one url per server record, position by position |
| Background.SyncTableConsistent | FRONT-END/extension/background.js:37 | a rebuilt table satisfies "blocked implies usage ≥ limit" |
| Background.NavigationDecision | FRONT-END/extension/background.js:114-147 | as written: nothing happens exactly when no key matches the raw hostname; otherwise the first such key in iteration order is blocked when `shouldBlockSite` says so, else tracked |
| Background.NavigationFlagsLaterKey | FRONT-END/extension/background.js:121-128 | for any table: when the key that decides `shouldBlockSite` is exhausted but the raw-hostname scan stops at an unexhausted key, that is a different key, the listener blocks it, and "blocked implies usage ≥ limit" breaks |
| Background.NavigationBlocksUnexhaustedKey | FRONT-END/extension/background.js:121-128 | on a consistent two-key table, visiting "www.bbc.co" blocks "bbc.co", which has its whole budget left. The steps are small lemmas about the sample strings: "www.bbc.co" strips to "bbc.co" and neither key has a "www."; "bbc.co.uk" contains "bbc.co"; "www.bbc.co" contains "bbc.co"; neither of "www.bbc.co" and "bbc.co.uk" contains the other. So the stripped scan stops at "bbc.co.uk" (index 0), while the raw scan passes it and stops at "bbc.co" (index 1) |
| Background.CorrectedNavigationDecision | FRONT-END/extension/background.js:121-128 | with the scans using the rule of `shouldBlockSite`, a block happens exactly when `shouldBlockSite` says so, and it names the first key matching under that rule, the key that decided |
| Background.CorrectedNavigationKeepsConsistent | FRONT-END/extension/background.js:121-128 | the corrected listener keeps "blocked implies usage ≥ limit" |
| Background.BackgroundPage.constructor | FRONT-END/extension/background.js:2 | the table starts empty |
| Background.BackgroundPage.CheckDailyReset | FRONT-END/extension/background.js:50-62 | the key-by-key loop leaves the table equal to DailyReset of the old one |
| Background.BackgroundPage.ShouldBlockSite | FRONT-END/extension/background.js:65-76 | the loop with early return answers the first-match decision |
| Background.BackgroundPage.BlockSite | FRONT-END/extension/background.js:79-88 | the table becomes Block of the old one |
| Background.BackgroundPage.TrackTime | FRONT-END/extension/background.js:91-111 | the table becomes Tick of the old one |
| Background.BackgroundPage.LoadWebsiteLimits | FRONT-END/extension/background.js:26-46 | a successful reply that lists websites replaces the table with SyncTable of them, built key by key; any other reply or a failed fetch leaves it unchanged |
| Background.BackgroundPage.FindSiteForHostname | FRONT-END/extension/background.js:132-146 | the scan stops at the first key whose stripped form and the raw hostname contain one another |
| Background.BackgroundPage.OnTabUpdated | FRONT-END/extension/background.js:114-152 | answers NavigationDecision; on a block the table becomes Block of the chosen key, otherwise it is unchanged |
| ContentScript.FirstOverdue | FRONT-END/extension/content.js:10-19 | the first key in iteration order that lies inside the hostname and has used its budget; matching keys under their limit do not stop the scan |
| ContentScript.RedirectTarget | FRONT-END/extension/content.js:6-19 | no redirect without stored limits; a redirect happens exactly when some stored key lies inside the hostname and has used its budget, and it names the first such key in iteration order |
| ContentScript.FirstOverdueIgnoresFlags | FRONT-END/extension/content.js:12-13 | the scan's choice depends only on usage and limits |
| ContentScript.RedirectIgnoresBlockedFlag | FRONT-END/extension/content.js:12-13 | two snapshots that differ only in `blocked` flags redirect alike |

## Left out

- Browser and platform calls are not modelled:
  - `chrome.tabs.update/query/get`;
  - `chrome.storage.local`;
  - `chrome.runtime.sendMessage` and the message listeners;
  - `localStorage`.
  
  Persisting and sending are effects of the state that is modelled. The tab redirect of `blockSite` and the blocking of open tabs after a tick are not modelled.
- Timers are not modelled: `setInterval` for the minute reset, the 30-second refresh and the per-tab tracking interval, together with its lifetime and its `tab.url.includes(site)` guard. A tick is one call of `trackTime`.
- The fetch in `loadWebsiteLimits` and its user-id guard are not modelled. The model receives the parsed reply or a failed fetch.
- `initialize` and the reading of stored data at start-up are not modelled.
- The web app tracker's constructor receives its list already parsed.
- `new URL(...).hostname`, `Date` and `toISOString` are inputs: the hostname, `today` and `now`.
- `parseInt` leniency: `requestedMinutes` arrives as an optional integer, not as text.
- `toLowerCase` lowers only the ASCII letters.
- Minutes and milliseconds are JavaScript numbers, modelled as unbounded integers. Fractional values are not modelled, such as a fractional `timeLimit` passed to `addWebsite` or a fractional or `NaN` `actualMinutes` passed to `endWebsiteSession`. Loss of precision above 2^53 is not modelled either.
- Properties with integer-like names, which JavaScript visits first in numeric order, are iterated in insertion order like every other name.
- The popup's `percentUsed` and its warning class are floating point, and the rest of the popup is HTML rendering.
- `getAllWebsites` and the `window.resetAllWebsiteLimits` hook only expose the state or call `forceResetAll`.
- The `updateLimits` and `resetAllLimits` messages sent by the web app are not modelled, because no listener of the extension handles them.
- WebsiteBlocker.WebsiteTimeTracker.EndWebsiteSession: when the active session's index holds a reset marker rather than a spend, the source goes on to mutate the marker and add a NaN or the supplied minutes to the usage. The model instead answers false and changes nothing.
- The server (Flask with MySQL or PostgreSQL), the login pages, the API wrappers, the e-mail service, the export and the usage statistics are not part of this model.

## Findings

| source | as written | input that shows it | evidently intended | confidence | as-written member | corrected member |
|---|---|---|---|---|---|---|
| FRONT-END/extension/background.js:121-128 | once `shouldBlockSite` (host with "www." stripped) says block, the blocking scan looks for a key matching the RAW hostname, so it can flag a different key | keys "bbc.co.uk" (60000 of 60000 ms used) then "bbc.co" (0 used), visiting "www.bbc.co": the exhausted "bbc.co.uk" decides the block, but "bbc.co" is the key marked blocked, with its whole budget left | block the key that made `shouldBlockSite` answer true, by scanning with the same stripped-host rule | not executed | Background.NavigationBlocksUnexhaustedKey | Background.CorrectedNavigationKeepsConsistent |
