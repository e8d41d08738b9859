# F1 telemetry dashboard — a verified model of its data logic

The dashboard polls an F1 telemetry service and shows several views:

- a live leaderboard;
- a race-control message panel;
- a car telemetry panel;
- a track-conditions widget.

This project models the logic behind those views in Dafny:

- the client service that talks to the upstream (`F1ApiService`);
- the projection that turns the raw feeds into one leaderboard row per driver;
- the selection rules and classifiers of the panels.

Each piece is stated as functions, methods and a class, and its properties are proved.

Modules:

- **`Wrappers`** (`wrappers.dfy`): `Option` and `Nullable`. `Option` stands for JavaScript `undefined`; in the optional fields of a lap record (`Timing`) it also stands for a JSON `null`. `Nullable` stands for a JSON `null` the feed sent, where the model keeps it apart from a missing value: response bodies, intervals and the nullable fields of race-control messages.
- **`Records`** (`records.dfy`): the record shapes of `src/types/index.ts`. Dates are abstract integers.
- **`Ordering`** (`ordering.dfy`):
  - `Filter` and `Find`;
  - a stable newest-first sort (`SortDesc`), which is what `Array.prototype.sort` does with a `b - a` comparator;
  - the reference meaning of "newest": `NewestIndex`, the first element in input order among those with the greatest key;
  - the lemmas connecting the two.
- **`Text`** (`text.dfy`):
  - ASCII `toUpperCase`/`toLowerCase`;
  - `Math.round`;
  - integer `toString`, with a decimal parser as its inverse.
- **`DriversTable`** (`drivers_table.dfy`): the `driversWithPositions` projection, `formatIntervalTime` and `getPositionIcon`.
- **`F1Api`** (`f1_api.dfy`):
  - the error classifier of `makeRequest`;
  - session resolution;
  - the race-control cache as a state machine;
  - `ApiService`, a class that holds the two fields of `F1ApiService`, its methods, and a ghost trace of the requests issued.
- **`RaceControlPanel`** (`race_control_panel.dfy`):
  - the in-place newest-first sort of the caller's array, as an insertion sort on an `array`;
  - the five most recent messages;
  - the flag and category classifiers.
- **`TelemetryPanel`** (`telemetry_panel.dfy`):
  - the newest car-data record per driver;
  - the six-card cap and the empty view;
  - the speed, RPM, gear and DRS classifiers.
- **`WeatherInfo`** (`weather_info.dfy`): the weather icon, the Wet/Dry label and the 16-point compass label.

The upstream service is not called. Each request is answered by an `Upstream` value: for every endpoint, a function from the request's parameters to a `Response`. A `Response` is either a body (a list, or JSON null) or a fault (error code, HTTP status and message). The current year comes from the clock. Each reading is a parameter: `getCurrentSessionData` reads it twice, once per session resolution, and the model takes both readings.

## Model

| member | source | states |
|---|---|---|
| Ordering.Head | src/components/DriversTable.tsx:36 | definition (no contract): `s[0]`, undefined for an empty array; `LatestOfFiltered` proves what the head of a sorted filter is |
| Ordering.Filter | src/components/DriversTable.tsx:32-34 | `filter` keeps only elements satisfying the predicate, keeps every element that satisfies it, and is a sub-multiset of its input |
| Ordering.Find | src/components/DriversTable.tsx:60 | `find` is undefined exactly when no element matches; otherwise it returns a matching element of the list |
| Ordering.FindIsFirst | src/components/DriversTable.tsx:60 | `find` returns the first match: the element it returns sits at an index before which nothing satisfies the predicate |
| Ordering.MaxOf | src/components/DriversTable.tsx:56 | `Math.max(...s)` is None, JavaScript's -Infinity, only for an empty list; otherwise it is an element that bounds every element |
| Ordering.SortDesc | src/components/DriversTable.tsx:32-34 | the newest-first sort is a permutation of its input |
| Ordering.InsertPermutes | src/components/RaceControlPanel.tsx:12-13 | one insertion step adds the inserted element and keeps every other element |
| Ordering.SortDescMembers | src/components/DriversTable.tsx:32-34 | sorting neither adds nor drops an element |
| Ordering.SortDescSorted | src/components/DriversTable.tsx:32-34 | the sort's output is ordered by non-increasing key |
| Ordering.SortDescStable | src/components/DriversTable.tsx:32-34 | the sort is stable: elements with equal keys keep their input order |
| Ordering.InsertAt | src/components/RaceControlPanel.tsx:12-13 | one insertion step places the element after exactly the leading elements with a greater key |
| Ordering.NewestIndex | src/components/DriversTable.tsx:36 | the reference "newest" is absent exactly when nothing qualifies; otherwise it is the first qualifying element with the greatest key |
| Ordering.FindAfterSort | src/components/DriversTable.tsx:60 | `sort(newest first).find(q)` selects the first, in input order, of the newest elements satisfying `q` |
| Ordering.LatestOfFiltered | src/components/DriversTable.tsx:32-36 | `filter(p).sort(newest first)[0]` is the newest element satisfying `p` |
| Ordering.FindInSortedFiltered | src/components/DriversTable.tsx:39-45 | `filter(p).sort(newest first).find(q)` is the newest element satisfying both `p` and `q` |
| Ordering.FirstOfGreatestKey | src/components/DriversTable.tsx:74-84 | when `k` is the greatest key, the first element of the stable re-sort is the first element with key `k` in input order |
| Ordering.ResortHead | src/components/DriversTable.tsx:74-82 | re-sorting a date-sorted list by lap number puts first the element with the highest lap and, among those, the newest date |
| Text.Upper | src/components/RaceControlPanel.tsx:31 | upper-casing keeps the length, leaves no lower-case ASCII letter, and changes no character other than by its case |
| Text.Lower | src/components/RaceControlPanel.tsx:44 | lower-casing keeps the length, leaves no upper-case ASCII letter, and changes no character other than by its case; `LowerIgnoresCase` relates it to upper-casing |
| Text.LowerIgnoresCase | src/components/RaceControlPanel.tsx:44 | two strings that upper-case alike also lower-case alike |
| Text.NatToString | src/components/DriversTable.tsx:159 | the decimal rendering is non-empty, all digits and without a leading zero |
| Text.IntToString | src/components/DriversTable.tsx:159 | `n.toString()` is non-empty, starts with '-' exactly for a negative `n`, and has no leading zero; `IntToStringRoundTrip` reads it back |
| Text.IntToStringRoundTrip | src/components/DriversTable.tsx:159 | reading back `n.toString()` gives `n` |
| Text.IntToStringInjective | src/components/TelemetryPanel.tsx:40 | different integers render differently |
| Text.Round | src/components/TelemetryPanel.tsx:29 | `Math.round(x)` is the integer within half a unit of `x`, with halves rounding up |
| DriversTable.HasValidLap | src/components/DriversTable.tsx:44 | definition (no contract): `t.lap_duration && t.lap_duration > 0`, so null and 0 are not valid laps; used by `ValidTiming` and `LastLapIsNewestValid` |
| DriversTable.LapSeconds | src/components/DriversTable.tsx:49 | definition (no contract): how `>` and `<` read `lap_duration`, with null read as 0, so a null-duration record never replaces the best so far; `BestLap` and `BestLapIsMinimum` prove its effect |
| DriversTable.LapOrZero | src/components/DriversTable.tsx:56 | definition (no contract): `t.lap_number \|\| 0`, a missing lap number counts as 0; its use is proved by `MaxLapIsMax` and `LiveRecordFallback` |
| DriversTable.LatestPosition | src/components/DriversTable.tsx:31-36 | definition (no contract): the head of the driver's positions sorted newest first; `PositionIsLatest` proves it is the reference newest record |
| DriversTable.DriverTiming | src/components/DriversTable.tsx:39-41 | definition (no contract): the driver's lap records sorted newest first; `DriverTimingMembers` proves it holds exactly the driver's records, and `SortDescSorted` and `SortDescStable` give its order |
| DriversTable.DriverTimingMembers | src/components/DriversTable.tsx:39-41 | `driverTiming` holds exactly the lap records carrying the driver's number |
| DriversTable.ValidTiming | src/components/DriversTable.tsx:43-44 | holds exactly the driver's records with a valid lap, drawn from the lap feed |
| DriversTable.LatestValidLap | src/components/DriversTable.tsx:45 | definition (no contract): the head of `ValidTiming`; `LastLapIsNewestValid` proves it is the newest valid record |
| DriversTable.LapNumbers | src/components/DriversTable.tsx:56 | one number per record, in order, each the record's `lap_number \|\| 0`; `MaxLapIsMax` states the maximum taken over it |
| DriversTable.MaxLap | src/components/DriversTable.tsx:55-56 | definition (no contract): `Math.max` over `lap_number \|\| 0` of the driver's records; `MaxLapIsMax` proves it attained and bounding, and absent exactly without records |
| DriversTable.LapCount | src/components/DriversTable.tsx:57 | definition (no contract): `maxLap > 0 ? maxLap : 0`; `LapCountIsMaxLap` proves the lap count is the greatest lap number, or 0 |
| DriversTable.LapIs | src/components/DriversTable.tsx:60 | definition (no contract): `t.lap_number === m`, which no missing lap number satisfies; `LiveRecordIsNewestOfMaxLap` and `PreviousLapChoice` prove the records it selects |
| DriversTable.CurrentLapRecord | src/components/DriversTable.tsx:59-60 | definition (no contract): `find(lap_number === maxLap)` on the date-sorted records; `LiveRecordIsNewestOfMaxLap` proves it is the newest record of the greatest lap |
| DriversTable.PreviousLapNumber | src/components/DriversTable.tsx:63 | definition (no contract): `lapCount > 1 ? lapCount - 1 : lapCount`; `PreviousLapChoice` and `FirstLapPreviousIsLive` prove which record it selects |
| DriversTable.PreviousLapRecord | src/components/DriversTable.tsx:62-64 | definition (no contract): `find` of the previous lap number on the date-sorted records; `PreviousLapChoice` proves which record it is |
| DriversTable.LiveRecord | src/components/DriversTable.tsx:73-84 | definition (no contract): `currentLapData \|\| driverTimingSortedByLap[0]`; proved by `LiveRecordWithoutLaps`, `LiveRecordIsNewestOfMaxLap` and `LiveRecordFallback` |
| DriversTable.LatestInterval | src/components/DriversTable.tsx:66-71 | definition (no contract): the head of the driver's intervals sorted newest first; `IntervalIsLatest` proves it is the reference newest record |
| DriversTable.ProjectDriver | src/components/DriversTable.tsx:105-121 | definition (no contract): the row of one driver; its fields are proved by `PositionIsLatest`, `IntervalIsLatest`, `LastLapIsNewestValid`, `BestLapIsMinimum`, `LapCountIsMaxLap`, the live-record lemmas, `PreviousLapChoice` and `DriverWithoutData` |
| DriversTable.SortPosition | src/components/DriversTable.tsx:122 | definition (no contract): `a.position \|\| 999`; `OrderedByPosition` and `TiesKeepDriverOrder` prove the order it induces |
| DriversTable.BestLap | src/components/DriversTable.tsx:48-53 | the `reduce` is undefined only on an empty list; otherwise it returns a listed record whose duration is at most every duration, when all durations are positive |
| DriversTable.Project | src/components/DriversTable.tsx:29-123 | the projection has one row per driver and is a permutation of the per-driver rows |
| DriversTable.Rows | src/components/DriversTable.tsx:30 | `drivers.map` builds one row per driver, in driver-list order |
| DriversTable.OneRowPerDriver | src/components/DriversTable.tsx:30 | every output row is the row of a listed driver and keeps its identity fields; every driver's row is in the output |
| DriversTable.OrderedByPosition | src/components/DriversTable.tsx:122 | rows are ascending by `position \|\| 999` |
| DriversTable.TiesKeepDriverOrder | src/components/DriversTable.tsx:122 | rows with equal `position \|\| 999` (including all drivers without a position) keep driver-list order |
| DriversTable.PositionIsLatest | src/components/DriversTable.tsx:32-36 | `position` comes from the driver's newest position record (the first in feed order on a tie), and is undefined exactly when there is none |
| DriversTable.IntervalIsLatest | src/components/DriversTable.tsx:67-71 | `interval` and `gapToLeader` come from the driver's newest interval record; a stored null stays null, distinct from no record |
| DriversTable.LastLapIsNewestValid | src/components/DriversTable.tsx:44-45 | `lastLapTime` is the positive duration of the driver's newest record with one, and undefined exactly when there is none |
| DriversTable.BestLapIsMinimum | src/components/DriversTable.tsx:47-53 | `bestLapTime` is one of the driver's positive durations and at most all of them; it is undefined exactly when there is none |
| DriversTable.MaxLapIsMax | src/components/DriversTable.tsx:56 | the highest `lap_number \|\| 0` is -Infinity exactly without records; otherwise it is attained and bounds every record |
| DriversTable.LapCountIsMaxLap | src/components/DriversTable.tsx:56-57 | `lapCount` bounds every record's `lap_number \|\| 0`, and a positive count is some record's lap number |
| DriversTable.LiveRecordWithoutLaps | src/components/DriversTable.tsx:84 | a driver without lap records has no live sectors |
| DriversTable.LiveRecordIsNewestOfMaxLap | src/components/DriversTable.tsx:60 | when a record carries the highest lap number, the live sectors come from the newest such record |
| DriversTable.FallbackOnlyAtLapZero | src/components/DriversTable.tsx:56-60 | a missing current-lap record means the highest `lap_number \|\| 0` is 0 |
| DriversTable.LiveRecordFallback | src/components/DriversTable.tsx:74-84 | otherwise the live sectors come from a record of the driver that is first by lap number, then by date; on a tie it is the first in feed order, the reference newest record whose `lap_number \|\| 0` is 0 |
| DriversTable.PreviousLapChoice | src/components/DriversTable.tsx:63-64 | all three previous sectors come from the newest record of lap `lapCount - 1` when `lapCount > 1`, else of lap `lapCount` |
| DriversTable.FirstLapPreviousIsLive | src/components/DriversTable.tsx:63-64 | with `lapCount == 1` the previous sectors equal the live sectors |
| DriversTable.DriverWithoutData | src/components/DriversTable.tsx:105-121 | a driver absent from every feed gets a row with every derived field undefined and a lap count of 0 |
| DriversTable.FormatInterval | src/components/DriversTable.tsx:143-152 | '-' exactly for null, undefined or negative; 'LEAD' exactly for 0; otherwise '+' and the positive seconds |
| DriversTable.PositionIcon | src/components/DriversTable.tsx:154-160 | the question mark exactly for 0 or undefined; gold, silver and bronze medals for 1, 2 and 3; any other position renders as its own decimal number, written without a leading zero |
| F1Api.ErrorMessage | src/services/f1Api.ts:36-45 | the message starts with "Failed to fetch data: " exactly for a generic failure; `ReadErrorMessage` proves every message reads back to its error |
| F1Api.Classify | src/services/f1Api.ts:36-45 | timeout exactly for `ECONNABORTED`, whatever the status; otherwise rate limit exactly for 429; otherwise server error for any status of 500 or more; otherwise a generic failure carrying the original message |
| F1Api.ReadErrorMessage | src/services/f1Api.ts:37-45 | each thrown message identifies its classification (the messages can be read back) |
| F1Api.ErrorMessageInjective | src/services/f1Api.ts:37-45 | no two classifications throw the same message |
| F1Api.MakeRequest | src/services/f1Api.ts:24-47 | a response yields its body; a fault is rethrown with the message of its classification |
| F1Api.FeedOrEmpty | src/services/f1Api.ts:71-79 | a getter returns the listed records or `[]`, never anything else |
| F1Api.FeedOrEmptyCases | src/services/f1Api.ts:71-79 | a successful non-null body is returned as is; a fault or a null body gives `[]` |
| F1Api.HasSessions | src/services/f1Api.ts:54-57 | definition (no contract): a successful, non-null, non-empty session list, the negation of `!sessions \|\| sessions.length === 0`; `LatestSessionResolves` proves its role |
| F1Api.NeedsPreviousYear | src/services/f1Api.ts:54-56 | definition (no contract): the current year's request succeeded with a null or empty list, so `!sessions \|\| sessions.length === 0` holds; `SessionRequests` and `LatestSessionResolves` prove when the previous year is asked |
| F1Api.LastSession | src/services/f1Api.ts:60-64 | definition (no contract): `sessions[sessions.length - 1]`; `LatestSession`'s ensures state when it is returned |
| F1Api.LatestSession | src/services/f1Api.ts:49-69 | a non-empty current-year list gives its last session; otherwise a non-empty previous-year list gives its last session |
| F1Api.LatestSessionResolves | src/services/f1Api.ts:49-69 | a session resolves exactly when one of the two years lists one; a failed current-year request, or two empty or null lists, give null |
| F1Api.ServedFromCache | src/services/f1Api.ts:125-127 | definition (no contract): unforced, the incremented counter not a multiple of 3, and a non-empty cache; `CacheStepCases` and `FetchesAreMultiples` prove its effect |
| F1Api.CacheStep | src/services/f1Api.ts:125 | every `getRaceControl` call increments the counter by one |
| F1Api.CacheStepCases | src/services/f1Api.ts:125-154 | the cache is kept when served or when the fetch fails, and is otherwise replaced by `data \|\| []`; an empty cache or a forced call never serves |
| F1Api.RunCounts | src/services/f1Api.ts:125 | after any sequence of calls (forced, cached or failed) the counter has grown by the number of calls |
| F1Api.UnforcedFetches | src/services/f1Api.ts:127-132 | unforced calls on a cache that stays filled fetch exactly when the counter reaches a multiple of 3 |
| F1Api.FetchesAreMultiples | src/services/f1Api.ts:125-132 | with the cache kept filled, an unforced call fetches exactly when the incremented counter is a multiple of 3 |
| F1Api.MultiplesCount | src/services/f1Api.ts:127 | among `n` consecutive counter values after `c`, `(c + n) / 3 - c / 3` are multiples of 3 |
| F1Api.ThreeCallsFetchOnce | src/services/f1Api.ts:127-132 | with a filled cache, any three consecutive unforced calls fetch exactly once |
| F1Api.EmptyCacheAlwaysFetches | src/services/f1Api.ts:127 | while the cache is empty, every call fetches |
| F1Api.SessionRequests | src/services/f1Api.ts:52-56 | the previous year is asked for exactly when the current year's request succeeded with a null or empty list |
| F1Api.BatchRequests | src/services/f1Api.ts:182-205 | the batch asks for sessions, then drivers, positions, laps and intervals, and then race control only when not served from cache; every feed request uses the given session key and car data is never requested |
| F1Api.ApiService.constructor | src/services/f1Api.ts:17-18 | the counter starts at 0 and the cache empty |
| F1Api.ApiService.GetLatestSession | src/services/f1Api.ts:49-69 | returns the resolved session and issues the current-year request, then the previous-year one only when needed |
| F1Api.ApiService.GetDrivers | src/services/f1Api.ts:71-79 | returns the drivers or `[]` and records one request |
| F1Api.ApiService.GetPositions | src/services/f1Api.ts:81-90 | returns the positions or `[]` and records one request |
| F1Api.ApiService.GetCarData | src/services/f1Api.ts:92-100 | returns the car data or `[]` and records one request carrying the limit |
| F1Api.ApiService.GetTiming | src/services/f1Api.ts:102-120 | returns the laps or `[]` and records one request |
| F1Api.ApiService.GetIntervals | src/services/f1Api.ts:158-173 | returns the intervals or `[]` and records one request |
| F1Api.ApiService.GetRaceControl | src/services/f1Api.ts:122-156 | advances the cache state by `CacheStep`, returns the new cache, and records a request only when it fetches |
| F1Api.ApiService.GetBatchData | src/services/f1Api.ts:176-227 | the snapshot holds the re-resolved session, each feed or `[]`, empty car data and the new race-control cache; requests go out in the fixed order |
| F1Api.ApiService.GetCurrentSessionData | src/services/f1Api.ts:230-247 | with no session: the empty snapshot and no further requests; otherwise the whole batch snapshot for the resolved session's key, whose session is resolved again with the second clock reading, so it is the first session whenever both readings give the same year |
| RaceControlPanel.RecentMessages | src/components/RaceControlPanel.tsx:12-14 | at most five messages are listed |
| RaceControlPanel.RecentMessagesAreNewest | src/components/RaceControlPanel.tsx:12-14 | the listed messages are newest first, come from the input, and no message left out is newer than a listed one |
| RaceControlPanel.InsertIntoSortedTail | src/components/RaceControlPanel.tsx:13 | one in-place step inserts an element into the sorted tail of the array |
| RaceControlPanel.SortNewestFirst | src/components/RaceControlPanel.tsx:12-13 | sorts the array in place into the stable newest-first order |
| RaceControlPanel.SelectRecent | src/components/RaceControlPanel.tsx:9-14 | renders nothing for an absent or empty list; otherwise leaves the caller's array sorted newest first and lists its first five messages |
| RaceControlPanel.SortedInPlaceIsPermutation | src/components/RaceControlPanel.tsx:12-13 | the caller's reordered array holds the same messages, newest first |
| RaceControlPanel.FlagEmojiOfName | src/components/RaceControlPanel.tsx:31-39 | the white flag exactly for a name outside the seven known flags |
| RaceControlPanel.FlagEmoji | src/components/RaceControlPanel.tsx:29-41 | empty output exactly for a null or empty flag; any other unknown flag gets the white flag |
| RaceControlPanel.FlagEmojiIdentifiesFlag | src/components/RaceControlPanel.tsx:31-38 | each known flag, in any case, gets its own emoji, distinct from the others and from the unknown-flag emoji |
| RaceControlPanel.FlagEmojiIgnoresCase | src/components/RaceControlPanel.tsx:31 | the flag's case does not change its emoji |
| RaceControlPanel.CategoryColour | src/components/RaceControlPanel.tsx:43-50 | amber `#f59e0b` exactly for `flag`, red `#ef4444` exactly for `safetycar`, cyan `#06b6d4` exactly for `other`, and grey `#6b7280` for anything else, all after lower-casing |
| RaceControlPanel.CategoryColourIgnoresCase | src/components/RaceControlPanel.tsx:44 | the category's case does not change its colour |
| TelemetryPanel.LatestCarData | src/components/TelemetryPanel.tsx:17-23 | definition (no contract): the head of the driver's car data sorted newest first; `LatestCarDataIsNewest` proves it is the reference newest record, present exactly when the driver has data |
| TelemetryPanel.HasLatest | src/components/TelemetryPanel.tsx:25 | definition (no contract): `dt.latestData !== null`; `TelemetryKeepsDriversWithData` proves which drivers pass the filter |
| TelemetryPanel.Entries | src/components/TelemetryPanel.tsx:16-24 | one entry per driver in list order, each carrying that driver's newest car data |
| TelemetryPanel.Telemetry | src/components/TelemetryPanel.tsx:15-26 | no more entries than drivers, and every entry has data; `TelemetryKeepsDriversWithData` pins the exact list |
| TelemetryPanel.LatestCarDataIsNewest | src/components/TelemetryPanel.tsx:17-23 | a driver's newest record exists exactly when they have a record; it is the first in feed order among their latest-dated records |
| TelemetryPanel.TelemetryKeepsDriversWithData | src/components/TelemetryPanel.tsx:16-25 | the panel lists exactly the drivers with car data, in driver-list order |
| TelemetryPanel.TelemetryEntriesAreNewest | src/components/TelemetryPanel.tsx:21-23 | every entry is a listed driver holding that driver's newest record |
| TelemetryPanel.View | src/components/TelemetryPanel.tsx:54-70 | the "No telemetry" view exactly when nothing is listed; otherwise the first cards, at most six, all of them when fewer than six |
| TelemetryPanel.NoTelemetryWhenNoData | src/components/TelemetryPanel.tsx:54-64 | the empty view appears exactly when no listed driver has car data |
| TelemetryPanel.WithUnit | src/components/TelemetryPanel.tsx:28-34 | '-' exactly for a missing or zero value; otherwise the rounded value, readable back, followed by the unit, written without a leading zero |
| TelemetryPanel.FormatSpeed | src/components/TelemetryPanel.tsx:28-30 | '-' exactly for a missing or zero speed; otherwise the rounded speed, readable back, followed by " km/h", written without a leading zero |
| TelemetryPanel.FormatRpm | src/components/TelemetryPanel.tsx:32-34 | '-' exactly for a missing or zero RPM; otherwise the rounded RPM, readable back, followed by " RPM", written without a leading zero |
| TelemetryPanel.GearDisplay | src/components/TelemetryPanel.tsx:36-41 | '-' exactly when missing, 'N' exactly for 0, 'R' exactly for negative gears, and a positive gear as its number, written without a leading zero |
| TelemetryPanel.DrsStatus | src/components/TelemetryPanel.tsx:43-46 | unknown exactly when missing, open exactly for a positive state, closed otherwise |
| WeatherInfo.WeatherIcon | src/components/WeatherInfo.tsx:9-14 | rain exactly when rainfall is positive; otherwise sun above 30, part-cloud in (20, 30], cloud at 20 or below |
| WeatherInfo.ConditionsLabel | src/components/WeatherInfo.tsx:34 | "Wet" exactly when rainfall is positive, "Dry" otherwise |
| WeatherInfo.LabelAgreesWithIcon | src/components/WeatherInfo.tsx:34 | the label is "Wet" exactly when the icon shows rain |
| WeatherInfo.ThresholdsAreStrict | src/components/WeatherInfo.tsx:11-12 | 30 degrees gives part-cloud and 20 gives cloud |
| WeatherInfo.JsRemainder16 | src/components/WeatherInfo.tsx:18 | JavaScript's `% 16` is the usual remainder for non-negative operands, and non-positive and congruent for negative ones |
| WeatherInfo.WindDirection | src/components/WeatherInfo.tsx:16-20 | a bearing of 0 or more always has a compass label |
| WeatherInfo.WindDirectionSector | src/components/WeatherInfo.tsx:16-20 | for a bearing of 0 or more, the label is the 22.5-degree sector centred nearest to it, counted modulo 16 |
| WeatherInfo.WindDirectionFullTurn | src/components/WeatherInfo.tsx:18 | for a bearing of 0 or more, adding 360 degrees does not change the label |
| WeatherInfo.CardinalPoints | src/components/WeatherInfo.tsx:17-19 | 0 and 360 give N, 90 gives E, 180 gives S, 270 gives W, and 11.25 rounds up to NNE |
| WeatherInfo.NegativeBearingHasNoLabel | src/components/WeatherInfo.tsx:18-19 | a bearing below -11.25 (within one turn) gives a negative index and an undefined label |

## Left out

- HTTP transport is replaced by `Upstream` answers: axios, the base URL, the headers and the 10-second timeout.
- The `delay` pauses and `Date.now` timing in `getBatchData` are left out.
- `lastUpdated` is a clock reading and is not part of `Snapshot`.
- All `console.log` and `console.error` output is left out. So are the logging-only statistics in `getTiming` and `getRaceControl`, and the debug output in the projection.
- The upstream answers a repeated request the same way within one call. So `getBatchData`'s second session resolution sees the answers the first one saw.
- F1Api.ApiService.GetBatchData: its `try`/`catch` rethrow is not modelled. Every step it calls already swallows its errors, so nothing can reach it.
- Aliasing is not modelled. The service returns its cache array itself, and the race-control panel sorts the array it is given in place, so in the source the panel can reorder the service's cached array. The model's cache is a value (`seq`), and the panel works on its own `array`.
- Dates are abstract integers. Parsing date strings (`new Date(...).getTime()`) is left out, including the NaN of an invalid date. So are locale time formatting and `formatTime`.
- Number formatting digits are not modelled: `toFixed`, `padStart`, `formatLapTime`, `formatSectorTime`, the "+x.xxxs" digits of `formatIntervalTime` and the throttle colour and bar. `FormatInterval` returns the cell kind and the seconds.
- DriversTable.FormatInterval: NaN input is not modelled, because reals have no NaN.
- Text.Upper: only ASCII letters change case. Unicode case mapping is left out.
- The optional fields of `Timing` (lap duration, lap number, sector durations, speed-trap readings) are `None` both when the feed sends null and when it leaves the field out. Every consumer treats the two alike: `||`, `&&`, `?.` and the relational operators give the same result for both.
- Positions, lap and driver numbers, gears and DRS states are modelled as integers, while the feed's JavaScript numbers are doubles. A fractional value, which `toString()` would show with its decimals and which the `===` comparisons would match differently, is not modelled.
- Text.Lower: only ASCII letters change case, for the same reason.
- Text.IntToString: JavaScript switches to exponent notation from 1e21 upward; the model always writes plain digits. Positions and gears stay far below that.
- DriversTable.LiveRecordFallback: the fallback is modelled as a stable re-sort of the date-sorted list on `lap_number || 0` alone. This is the same order as the source's two-key comparator, since the list is already newest first.
- `src/App.tsx` is not part of this model: the React state, the polling interval, manual refresh, and concurrent overlapping polls.
- `src/components/SessionInfo.tsx` and `src/components/LoadingSpinner.tsx` are markup only and are not part of this model.
- All JSX and DOM output is left out.
- Temperatures are displayed after `Math.round`. Only the weather icon and wind label logic is modelled.
- WeatherInfo.WindDirection: NaN and infinite bearings are not modelled.
