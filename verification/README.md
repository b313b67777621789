# isp-checker core, modelled in Dafny

isp-checker lets a visitor see which developer-cloud services their network blocks. The browser probes ten services. A card per service shows "checking", then "ok" or "blocked". The batch is posted to a submission endpoint. That endpoint rate-limits each caller to one batch an hour, keyed by a hash of the caller's address. It enriches the batch with the caller's ISP and appends one row per result to a check log. A live dashboard then shows blocked percentages per service and per ISP.

This project models the decision logic of that flow as pure functions over immutable data. Clocks, network outcomes, database outcomes and the address hash are all inputs. It has nine modules:

- `Wrappers`: the `Option` type.
- `Sets`: cardinality facts about subsets, used by the counting proofs.
- `Numbers`: durations in milliseconds, and `Math.floor` and `Math.ceil` of an integer divided by a positive constant.
- `Text`: `String.prototype.trim`, the first segment of `split`, the default string sort with de-duplication, and decimal rendering with its read-back.
- `Registry`: the ten services probed (`lib/services.ts`).
- `Probe`: one probe's classification and the batch that runs them all (`lib/detect.ts`). Probes complete in an arbitrary order, given as a permutation.
- `Submit`: the submission endpoint as one step function (`app/api/submit/route.ts`). It maps a store, the request and the outside world's answers to a reply and a new store. The store is a rate-limit map plus an append-only check log.
- `Checker`: the checker panel as a state machine (`components/ServiceChecker.tsx`). It covers the card map, the progress callback, the reply handling, the summary and the rate-limit notice.
- `Dashboard`: the dashboard helpers (`components/LiveDashboard.tsx`). These are the colour tiers, the bar width, "time ago", the ISP filter options and the state update after a statistics fetch.

## Model

| member | source | states |
|---|---|---|
| `Numbers.CeilDiv` | app/api/submit/route.ts:48-50 | `Math.ceil(a / b)` for a positive divisor: the unique q with (q-1)·b < a ≤ q·b, negative a included |
| `Numbers.FloorDiv` | components/LiveDashboard.tsx:60 | `Math.floor(a / b)` for a positive divisor: the unique q with q·b ≤ a < (q+1)·b, negative a included |
| `Text.Trim` | app/api/submit/route.ts:19 | the result is the input with a whitespace prefix and suffix removed, and it neither starts nor ends with whitespace; every character comes from the input |
| `Text.FirstSegment` | app/api/submit/route.ts:19 | `split(',')[0]`: a prefix of the input with no separator in it, followed by a separator when shorter than the input |
| `Text.LessIrreflexive` | components/LiveDashboard.tsx:100 | the default sort's order never puts a string before itself |
| `Text.LessTransitive` | components/LiveDashboard.tsx:100 | the default sort's order is transitive |
| `Text.LessTotal` | components/LiveDashboard.tsx:100 | any two different strings are ordered one way or the other |
| `Text.SortedUnique` | components/LiveDashboard.tsx:100 | `[...new Set(xs)].sort()`: strictly ascending, with exactly the elements of the input |
| `Text.StrictlySortedUnique` | components/LiveDashboard.tsx:100 | two strictly ascending lists with the same elements are equal, so the sorted unique list is canonical |
| `Text.NatToDecimal` | components/LiveDashboard.tsx:62 | a number in a template literal: at least one digit, only digits, no leading zero |
| `Text.IntToDecimal` | components/ServiceChecker.tsx:78 | an integer in a template literal: a minus sign first exactly when it is negative, then digits with no leading zero that read back as its magnitude |
| `Text.DecimalRoundTrip` | components/ServiceChecker.tsx:78 | reading back the rendered digits gives the number rendered |
| `Registry.Services` | lib/services.ts:7-18 | the registry has exactly ten entries |
| `Registry.RegistryWellFormed` | lib/services.ts:8-17 | registry names are pairwise distinct, addresses are pairwise distinct, and every address starts with `https://` |
| `Registry.NameSetSize` | lib/services.ts:7-18 | the registry has no more names than entries, and exactly as many when names are distinct |
| `Probe.CheckService` | lib/detect.ts:10-32 | a settled request gives not blocked with time end − start; a failed one gives blocked with no time; blocked iff no time; name and address copied |
| `Probe.SettledTimeNonNegative` | lib/detect.ts:11-22 | with a clock that does not run backwards, a reachable result's time is non-negative |
| `Probe.RunAllChecks` | lib/detect.ts:34-44 | for any completion order: one result per registry entry, and result i is entry i's probe; the i-th notification carries the i-th completed entry's name and its result |
| `Probe.CompletionOrderCovers` | lib/detect.ts:37-43 | a completion order names every registry index, so every slot of the joined batch is filled |
| `Probe.ProgressOncePerService` | lib/detect.ts:38-40 | each registry entry is reported exactly once, with the same result the batch returns for it |
| `Submit.ClientIp` | app/api/submit/route.ts:16-22 | a non-empty forwarded-for gives its first comma-separated entry trimmed, with no comma in it; otherwise the real-ip header even when empty; otherwise `0.0.0.0` |
| `Submit.Throttle` | app/api/submit/route.ts:44-54 | with the decision taken at one clock reading and the wait at a second: refused iff a record exists and is newer than the first reading minus 1 h, so a record exactly an hour old is accepted; the wait is the whole seconds left at the second reading, rounded up; it is ≥ 1 when the readings agree, ≥ 0 when the second follows the first by under a second, and ≤ 3600 when the record is not after the second reading |
| `Submit.HourRunsOutBetweenReadings` | app/api/submit/route.ts:46-50 | a record 3599.999 s old at the first reading, with the second reading 1 ms later, is refused with a wait of 0 |
| `Submit.ThrottleOneReading` | app/api/submit/route.ts:44-54 | the decision with one reading for both uses: same refusal condition, every wait ≥ 1 second, and ≤ 3600 when the record is not in the future |
| `Submit.StampReadsBack` | app/api/submit/route.ts:38-44 | read after write: after an accepted batch with a successful upsert, the caller's record reads back as the upsert time; every other hash reads as before, and so does the caller's when the upsert failed |
| `Submit.Enrich` | app/api/submit/route.ts:59-75 | a failed or non-OK lookup gives `Unknown ISP` and empty city and state; an OK lookup gives each field, or that field's default when missing |
| `Submit.BuildRows` | app/api/submit/route.ts:78-87 | one row per result in submission order; every row has the same hash, ISP, city and state; service fields come from result i; a missing time becomes null |
| `Submit.HandleSubmit` | app/api/submit/route.ts:24-101 | 400 `Invalid results` iff the batch is missing, not a list or empty, with the store unchanged; 429 `rate_limited` iff a valid batch is throttled, carrying exactly `Submit.Throttle`'s wait, with the store unchanged; 500 `Database error` iff a valid, unthrottled batch's insert fails, with no rate-limit update; 200 iff that insert succeeds, and then it appends exactly the built rows, stamps only the caller's hash when the upsert succeeds, and echoes ISP, city and state |
| `Submit.AcceptedTouchesOnlyCaller` | app/api/submit/route.ts:89-99 | an accepted batch leaves every other hash's record and all earlier log rows unchanged |
| `Submit.SecondBatchWithinHourRefused` | app/api/submit/route.ts:44-54 | after an accepted and stamped batch, a second batch from the same address within the hour gets 429 and writes nothing; its wait is ≤ 3600 s, ≥ 1 s when the request's two clock readings agree, and ≥ 0 when they are under a second apart |
| `Submit.SpacedBatchesAccepted` | app/api/submit/route.ts:44-47 | a second batch an hour or more after the stamped one is accepted when its insert succeeds |
| `Checker.Initial` | components/ServiceChecker.tsx:15-23 | every registry name, and only those, starts idle; nothing else is set |
| `Checker.InitialSummaryPending` | components/ServiceChecker.tsx:15-17 | before any run, with at least one service, the panel is not done, shows no summary and counts nothing blocked |
| `Checker.StartRun` | components/ServiceChecker.tsx:26-32 | every registry name becomes checking; times are cleared; error, ISP banner and rate-limit flag are reset; the run is in progress |
| `Checker.OnProgress` | components/ServiceChecker.tsx:34-37 | the named card shows blocked or ok from the result, and its time is the result's; every other card, time and field is unchanged |
| `Checker.ApplyProgressFrame` | components/ServiceChecker.tsx:34-37 | notifications only add their names to the cards and times; unnamed cards and all other fields are unchanged |
| `Checker.ApplyProgressKeeps` | components/ServiceChecker.tsx:34-37 | a name no notification mentions keeps its card and its time |
| `Checker.ApplyProgressEffect` | components/ServiceChecker.tsx:34-37 | after notifications with distinct names, each named card shows its own notification's verdict and time, whatever the order |
| `Checker.BlockedCount` | components/ServiceChecker.tsx:61 | the number of blocked cards never exceeds the number of cards |
| `Checker.BlockedNamesSize` | components/ServiceChecker.tsx:61 | with distinct names, the number of blocked names equals the number of blocked results |
| `Checker.RunEventsCoverRegistry` | lib/detect.ts:37-41 | a run's notifications name every registry entry, each once |
| `Checker.RunSettlesEveryCard` | components/ServiceChecker.tsx:25-61 | after a run's notifications in any completion order, every registry card shows its own probe's verdict and time, `allDone` holds, and `blockedCount` is the number of blocked results |
| `Checker.SettledCards` | components/ServiceChecker.tsx:60-61 | cards keyed by the registry, each showing its own result, are all done and count exactly the blocked results |
| `Checker.Summarize` | components/ServiceChecker.tsx:102-116 | no summary until all cards are done; "all accessible" iff no card is blocked; otherwise blocked ≥ 1, and blocked plus accessible is the registry size |
| `Checker.AccessibleNonNegative` | components/ServiceChecker.tsx:112 | while cards are keyed by registry names, `blockedCount` ≤ registry size, so the accessible count is non-negative |
| `Checker.FinishRun` | components/ServiceChecker.tsx:39-57 | 429 sets the rate-limit flag and the wait, which is null when missing; a successful reply sets the ISP banner; an unreadable reply sets the connection error; cards are untouched and the run ends |
| `Checker.RateLimitedRunShowsNoBanner` | components/ServiceChecker.tsx:25-57 | a run answered with 429 ends rate-limited with no banner and no error, every card done and the wait recorded |
| `Checker.RetryWait` | components/ServiceChecker.tsx:78 | a null or zero wait reads "an hour"; any other wait of s seconds reads m minutes with 60(m−1) < s ≤ 60m |
| `Checker.ServerWaitInMinutes` | components/ServiceChecker.tsx:78 | a wait of 1 to 3600 seconds is shown as 1 to 60 minutes |
| `Checker.RefusalShownInMinutes` | components/ServiceChecker.tsx:75-80 | when the endpoint refuses a caller whose own record is not after the request's first clock reading, and the second reading does not precede the first, the panel shows at most 60 minutes; it shows 1 to 60 minutes when the two readings agree, and that or "an hour" when they are under a second apart |
| `Checker.ExpiringRecordShownAsAnHour` | components/ServiceChecker.tsx:78 | a record that turns an hour old between the endpoint's two clock readings is refused with a wait of 0, and the panel tells the caller to wait "an hour" |
| `Checker.RateLimitNotice` | components/ServiceChecker.tsx:77-78 | the notice starts with the fixed prefix; it ends "an hour." when there is no wait; otherwise it ends " minutes." and the text between is the canonical decimal of the minutes: a minus sign exactly when they are negative, then digits with no leading zero that read back as their magnitude |
| `Dashboard.BadgeTier` | components/LiveDashboard.tsx:26-44 | red iff pct ≥ 50, yellow iff 10 ≤ pct < 50, green iff pct < 10; so the tiers partition all percentages |
| `Dashboard.BarColour` | components/LiveDashboard.tsx:47 | the bar's class is one of the three fill classes |
| `Dashboard.BarAgreesWithBadge` | components/LiveDashboard.tsx:47 | for every percentage, the bar's fill class is the one for the badge's tier |
| `Dashboard.BarWidth` | components/LiveDashboard.tsx:51 | `min(pct, 100)`: never above 100 or above pct, and equal to pct up to 100 |
| `Dashboard.TimeAgo` | components/LiveDashboard.tsx:58-66 | under a minute, including negative differences, is "just now"; otherwise minutes 1 to 59, hours 1 to 23 or days ≥ 1, each the whole units elapsed, rounded down |
| `Dashboard.TimeAgoText` | components/LiveDashboard.tsx:58-66 | "just now" iff under a minute; otherwise the count's digits, with no leading zero, followed by "m ago", "h ago" or "d ago", and the digits read back as the count |
| `Dashboard.IspOptions` | components/LiveDashboard.tsx:100 | the filter options are strictly ascending and are exactly the ISPs named in the rows |
| `Dashboard.IspOptionsCanonical` | components/LiveDashboard.tsx:100 | any strictly ascending list of exactly those ISPs is the option list |
| `Dashboard.LoadingUntilFirstSettledFetch` | components/LiveDashboard.tsx:88-103 | from the first render, "Loading..." is shown exactly until a readable reply arrives to a filtered fetch, or to an unfiltered one that carries ISP rows |
| `Dashboard.FoldLoading` | components/LiveDashboard.tsx:94-103 | after any sequence of fetches, loading is still shown iff it was before and none of them ended it |
| `Dashboard.ApplyStats` | components/LiveDashboard.tsx:91-104 | a non-OK or unreadable reply changes nothing; otherwise tables and count take the reply's values or their defaults; only an unfiltered fetch recomputes the options; an unfiltered reply without ISP rows throws after the three setters, so options and loading are unchanged; otherwise loading ends |
| `Dashboard.FilteredFetchesKeepOptions` | components/LiveDashboard.tsx:99-102 | after an unfiltered fetch, any sequence of filtered fetches keeps the options of the unfiltered rows |
| `Dashboard.FilteredFetchesKeepOptionsFrom` | components/LiveDashboard.tsx:99 | filtered fetches never change the option list |

## Left out

- The address hash (SHA-256, `hashIp`, app/api/submit/route.ts:12-14) is a parameter `hash: string -> string`. It is deterministic but otherwise uninterpreted.
- All I/O is input. This covers the database client and its queries, `fetch` and its `no-cors`/timeout options, the ip-api lookup and `Date.now`. The inputs are a probe outcome per service, a lookup outcome, the insert and upsert outcomes and the clock readings.
- The rate-limit check reads the clock twice, at app/api/submit/route.ts:46 and 49. Both readings are inputs, `now` and `later`, and nothing orders them. The upsert's own clock read (line 98) is a third input.
- The rate-limit read's error is ignored by the source (app/api/submit/route.ts:38-42). It is modelled as a flag under which the caller has no record.
- The upsert's outcome is ignored by the source (app/api/submit/route.ts:96-99). The reply is 200 whether or not the record was written.
- The outer `try/catch` returning 500 `Internal server error` (app/api/submit/route.ts:102-105) is not modelled. That path covers an unparsable body and unexpected exceptions.
- Submitted results are not validated field by field in the source. The model carries them as given. Only `responseTimeMs` distinguishes missing, null and a number.
- The read-then-write race between the rate-limit check and the upsert needs concurrent requests. The model handles one request at a time.
- Strings are sequences of Unicode scalar values. JavaScript compares and trims UTF-16 code units, so the sort order and trim are modelled on code points. The two orders agree except between astral characters and characters from U+E000 to U+FFFF.
- Millisecond timestamps, their differences and the waits derived from them are unbounded integers. The program computes them as doubles, which represent these integers exactly, and make the floor and ceiling of their quotients exact, while the values stay within the range of a `Date`.
- `Number(row.blocked_pct)` is a `real` used only in comparisons and `min`. Floating-point rounding and NaN are not modelled.
- `timeAgo`'s date parsing is not modelled: the elapsed milliseconds are the input.
- React rendering is not modelled. This covers JSX, styling, the badge's emoji and text, the "service(s)" plural, the tab switch, the empty and loading placeholders and the ISP banner layout.
- The dashboard's realtime subscription is not modelled. Neither are `app/api/stats/route.ts`, `components/ServiceCard.tsx`, `components/ISPFilter.tsx`, `app/page.tsx`, `app/layout.tsx` and `lib/supabase.ts`. The statistics are computed by database views that are not part of this model.
- `runAllChecks`'s progress callback is optional in the source (lib/detect.ts:35,39). The model always emits the notifications. Its only caller, components/ServiceChecker.tsx:34, always passes a callback.
- The five-second probe timeout and aborts are folded into the `Failed` outcome.
- Overlapping runs of the checker panel are not modelled. Each run is start, notifications, then the reply.
- `Checker.BlockedCount`: its contract bounds the count by the number of cards. The exact count is stated through `Checker.RunSettlesEveryCard` and `Checker.SettledCards`, because the counted map comes from React state.
- `Dashboard.BarColour`: its own contract only names the possible classes. The tier it picks is stated by `Dashboard.BarAgreesWithBadge`.

## Findings

| source | as written | input that shows it | evidently intended | confidence | as-written member | corrected member |
|---|---|---|---|---|---|---|
| app/api/submit/route.ts:46-50 | the refusal is decided at one clock reading (line 46) and the wait is computed at a second (line 49) | a record 3 599 999 ms old at the first reading, second reading 1 ms later: refused with `retryAfter` 0, which the panel (components/ServiceChecker.tsx:78) treats as no wait and shows as "an hour" | one reading for both, so every refusal waits at least 1 s and is shown as 1 to 60 minutes | low (a window of under a millisecond per request); not executed | `Submit.Throttle`, `Submit.HourRunsOutBetweenReadings`, `Checker.ExpiringRecordShownAsAnHour` | `Submit.ThrottleOneReading`, `Checker.RefusalShownInMinutes` (equal readings) |

`Submit.HandleSubmit` keeps the code as written, with two readings. The promises that need the correction, a wait of at least one second and a notice of 1 to 60 minutes, are stated under equal readings.
