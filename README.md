# Running log: a Dafny model

The system is a running log. Users upload Garmin TCX workout files. The backend
(FastAPI) turns each file into activities with laps and stores them per user. It
keeps a per-user list of races, each with a registration, a result, an optional
linked activity and up to five photos. It serves a dashboard with this month's
day-by-day distance, the next upcoming races and the latest activities. Two web
front ends list and filter the activities, show one activity's lap table, edit
races and upload race photos.

This project models the logic of that system in Dafny and proves what it promises:

- `tcx_parser.dfy` (module `TcxParser`) covers the aggregation half of
  `parse_tcx`. It numbers the laps, derives their paces, accumulates the totals and
  averages heart rate and cadence over the laps that report them.
- `store.dfy` (module `Store`) holds the rows of the database: activities, laps,
  races and race images. The `Db` class keeps them as sequences with the next id
  of each table. It also has the lookups the routers share.
- `activities_router.dfy` and `races_router.dfy` hold the request handlers as
  methods on a `Db`. Each returns a `Result` whose errors are the HTTP errors of
  the source, and states the whole new state of the store.
- `dashboard_router.dfy` (module `DashboardRouter`) holds `get_dashboard`. It uses
  a grouping loop, a day-by-day loop for the current month, and the upcoming-race
  and recent-activity selections.
- `calendar.dfy`, `sorting.dfy`, `text.dfy` and `common.dfy` hold the shared
  pieces:
  - the Gregorian calendar and the `YYYY-MM-DD` key;
  - a stable insertion sort;
  - decimal digits and padding;
  - sums, means and the `Patch` type of partial updates.
- `format.dfy` (module `Format`) holds the shared front-end formatters of
  `lib/utils/format.ts`, each with the parser that reads its output back.
- `activity_filter.dfy` (module `ActivityFilter`) holds the activity list page of
  both front ends: the year and month pills, the filter, and the page's state
  handlers.
- `activity_detail.dfy`, `race_form.dfy` and `race_image_upload.dfy` hold the lap
  table, the race form conversions and the photo admission loop.

## Model

| member | source | states |
|---|---|---|
| TcxParser.Pace | backend/tcx_parser.py:56 | a lap's pace times its distance is 1000 × its time when the distance is positive, and the pace is 0 otherwise (no division by zero) |
| TcxParser.ParseLaps | backend/tcx_parser.py:26-69 | the i-th lap record is numbered i + 1 and copies time, distance and heart rates; its pace is `Pace`; its cadence is the standard Cadence and falls back to AvgRunCadence only when that is absent; the totals are the sums of the lap times and distances |
| TcxParser.SummarizeActivity | backend/tcx_parser.py:21-88 | the activity entry carries the start time, the recorded laps, the summed totals, `Pace` of the totals and the means of the laps' present heart rates and cadences |
| TcxParser.Kept | backend/tcx_parser.py:16-20 | only activities with a non-empty Id are kept, in order, and no more than there were |
| TcxParser.ParseTcx | backend/tcx_parser.py:10-90 | the result has one summary per kept activity, in input order, and is no longer than the input |
| TcxParser.KeptAppend | backend/tcx_parser.py:16-20 | keeping distributes over concatenation, so input order is preserved |
| TcxParser.KeptMembership | backend/tcx_parser.py:16-20 | an activity is kept iff it is in the input with a non-empty Id |
| TcxParser.AvgHrAbsentIffNoLapHr | backend/tcx_parser.py:74-75 | the activity's average heart rate is None iff no lap reports one |
| TcxParser.AvgCadenceAbsentIffNoLapCadence | backend/tcx_parser.py:77-78 | the activity's cadence is None iff no lap has a standard or extension cadence |
| TcxParser.AvgHrWithinLapRange | backend/tcx_parser.py:74-75 | the average heart rate lies between the smallest and largest lap values |
| TcxParser.TotalsAndAvgPace | backend/tcx_parser.py:68-72 | with non-negative lap values the totals are non-negative, avg_pace × km = total time when there is distance, and avg_pace is 0 when there is none |
| Common.Mean | backend/tcx_parser.py:75 | the mean is None iff there are no values, and otherwise times the count equals the sum |
| Common.PresentMembership | backend/tcx_parser.py:74 | a value is among the present ones iff `Some` of it is in the list |
| Common.PresentEmpty | backend/tcx_parser.py:74-75 | no present values iff every entry is None |
| Common.MeanBounds | backend/tcx_parser.py:75 | the mean of non-empty values in [lo, hi] is present and lies in [lo, hi] |
| Store.StatusName | backend/routers/races.py:36 | only the upcoming status is stored as "예정" |
| Store.FindActivity | backend/routers/activities.py:60-61 | finds the first activity with this id owned by this user, or reports that there is none |
| Store.FindRace | backend/routers/races.py:63-66 | finds the first race with this id owned by this user, or reports that there is none |
| Store.FindImage | backend/routers/races.py:274-277 | finds an image with this id belonging to this race, or reports that there is none |
| Store.UserActivities | backend/routers/activities.py:55 | exactly the user's activities, never more rows than the table |
| Store.UserActivitiesAppend | backend/routers/activities.py:55 | filtering by owner distributes over concatenation, so the user's rows come in table order, repeats included |
| Store.ActivityFrom | backend/routers/activities.py:21-29 | the stored row has the given id and owner and copies the parsed start, distance, time, pace, heart rate and cadence |
| Store.LapRowsFor | backend/routers/activities.py:34-45 | one lap row per parsed lap, each linked to the new activity, with consecutive ids, copying the lap's number, distance, time, pace, heart rates and cadence |
| ActivitiesRouter.NewActivities | backend/routers/activities.py:20-31 | one stored activity per parsed activity, in order, owned by the caller, with consecutive ids and the parsed fields copied |
| ActivitiesRouter.NewLapRows | backend/routers/activities.py:34-45 | the lap rows of an upload are each activity's laps in turn, linked to that activity |
| ActivitiesRouter.NewLapRowsCopyLaps | backend/routers/activities.py:34-45 | the k-th lap row of an upload copies the k-th parsed lap, counting activity after activity |
| ActivitiesRouter.StoreLaps | backend/routers/activities.py:34-45 | appends exactly the lap rows of one activity; no other table changes |
| ActivitiesRouter.StoreActivity | backend/routers/activities.py:20-45 | appends one activity owned by the caller and then its laps; races and images are untouched |
| ActivitiesRouter.StoreNext | backend/routers/activities.py:20-49 | storing the next parsed activity extends the stored rows from those of the activities before it to those of one more, and its activity is the next of `NewActivities` |
| ActivitiesRouter.StoreAll | backend/routers/activities.py:19-51 | the saved activities are `NewActivities` of the parsed list, appended in order with their `NewLapRows`; ids advance by the counts; races and images are untouched |
| ActivitiesRouter.UploadTcx | backend/routers/activities.py:11-51 | a parse failure is a 400 with the store unchanged; otherwise every parsed activity is stored with its laps and returned in order, with no duplicate check |
| ActivitiesRouter.Page | backend/routers/activities.py:54-56 | the rows kept by `OFFSET skip LIMIT limit`: a negative offset counts as 0, and a negative limit means no limit |
| ActivitiesRouter.PagesConcatenate | backend/routers/activities.py:54-56 | consecutive pages neither overlap nor leave a gap |
| ActivitiesRouter.ReadActivities | backend/routers/activities.py:53-56 | the `Page` at offset skip and limit of exactly the caller's activities in table order; hence only the caller's activities, at most `limit` of them, and all of them when nothing is skipped or limited |
| ActivitiesRouter.ReadActivity | backend/routers/activities.py:58-63 | the caller's activity with this id, or 404 exactly when the caller owns none |
| ActivitiesRouter.Orphaned | backend/routers/activities.py:70-72 | the laps of the deleted activity lose their link and nothing else; every other lap is unchanged |
| ActivitiesRouter.DeleteActivity | backend/routers/activities.py:65-72 | 404 with no change unless the caller owns the activity; otherwise exactly that activity is removed, its laps are unlinked and no race is touched |
| RacesRouter.ApplyRaceUpdate | backend/routers/races.py:86-88 | each registration field set in the request takes the request's value and each unset one keeps the race's; id, owner, result and link are kept |
| RacesRouter.ApplyResultUpdate | backend/routers/races.py:109-111 | each result field set in the request takes the request's value and each unset one keeps the race's; the registration is kept |
| RacesRouter.UpdatesIdempotent | backend/routers/races.py:86-111 | applying the same edit twice is the same as applying it once |
| RacesRouter.UpdatesCommute | backend/routers/races.py:86-111 | a registration edit and a result edit give the same race in either order |
| RacesRouter.CreateRace | backend/routers/races.py:22-41 | appends one race of the caller's with the given fields and status "예정", whatever the payload; other tables are unchanged |
| RacesRouter.RacesMatching | backend/routers/races.py:50-52 | a race is listed iff it is the caller's and passes the status filter (an absent or empty filter passes all) |
| RacesRouter.ListRaces | backend/routers/races.py:44-54 | the matching races as a permutation, latest race date first |
| RacesRouter.GetRace | backend/routers/races.py:57-69 | the caller's race with this id, or 404 exactly when the caller owns none |
| RacesRouter.UpdateRace | backend/routers/races.py:72-92 | 404 with no change unless the caller owns the race; otherwise only that race changes, by `ApplyRaceUpdate` |
| RacesRouter.UpdateRaceResult | backend/routers/races.py:95-115 | 404 with no change unless the caller owns the race; otherwise only that race changes, by `ApplyResultUpdate` |
| RacesRouter.FindByStart | backend/routers/races.py:145-148 | the caller's first activity with this start time, or none when there is no such activity |
| RacesRouter.UploadRaceTcx | backend/routers/races.py:118-186 | 404, then 400 for an unparsable file, then 400 for an empty parse, each with no change; otherwise the first parsed activity is linked, reusing the caller's activity with the same start time or else creating exactly one activity with its laps |
| RacesRouter.ImagesNotOfKeepsIds | backend/routers/races.py:207 | dropping a race's images keeps the image table's id invariant |
| RacesRouter.DeleteRace | backend/routers/races.py:189-209 | 404 with no change unless the caller owns the race; otherwise the race and its images go, and activities and laps are untouched |
| RacesRouter.RFind | backend/routers/races.py:232 | the index of the last occurrence of a character, or -1 |
| RacesRouter.RFindOther | backend/routers/races.py:232 | the index of the last character other than the given one, or -1 |
| RacesRouter.Extension | backend/routers/races.py:232 | the extension `os.path.splitext` returns is empty or a suffix of the path that starts with '.' and holds no other '.' or '/'; a path without '.' has none |
| RacesRouter.StoredExtension | backend/routers/races.py:232 | the lower-cased extension of the client's name (of "" when there is none) is empty or starts with '.' |
| RacesRouter.ExtensionOfName | backend/routers/races.py:232 | a plain file name "stem.e", whose stem holds a character other than '.' and whose e holds no '.' or '/', has the extension "." + e |
| RacesRouter.StoredExtensionOfName | backend/routers/races.py:232 | the stored extension of such a name is "." followed by e in lower case |
| RacesRouter.ImagesOfAppend | backend/routers/races.py:248-254 | adding an image adds exactly one to that race's images |
| RacesRouter.ImageRejection | backend/routers/races.py:226-238 | accepted iff the race has fewer than 5 images, the extension is .png/.jpg/.jpeg and the size is at most 5 MiB; the checks apply in that order (too many images, then the type, then the size), and each rejection is a 400 |
| RacesRouter.UploadRaceImage | backend/routers/races.py:212-257 | 404 unless the caller owns the race; a rejection changes nothing; an accepted image is appended to that race and never takes it past 5 images |
| RacesRouter.AddImage | backend/routers/races.py:248-256 | the row is appended to the image table under its next id, which advances by one; the store stays valid and no other table changes |
| RacesRouter.DeleteRaceImage | backend/routers/races.py:260-287 | 404 unless the caller owns the race and the image belongs to it; otherwise exactly that image is removed |
| Sorting.SortAsc | backend/routers/dashboard.py:26 | a sorted permutation of the input by ascending key |
| Sorting.SortDesc | backend/routers/dashboard.py:80 | a permutation of the input ordered by descending key |
| Sorting.Take | backend/routers/dashboard.py:27 | the first n rows, or all of them when there are fewer |
| Sorting.TakeSubMultiset | backend/routers/dashboard.py:27 | the rows kept by a limit are drawn from the rows, none more often than it occurs |
| Sorting.TakeSortedOmitsOnlyLater | backend/routers/dashboard.py:26-27 | when a row is left out of the first n of an ascending list, those n all sort at or before it |
| Calendar.DaysInMonth | backend/routers/dashboard.py:34 | 31, 30 or, for February, 29 exactly in a Gregorian leap year and 28 otherwise |
| Calendar.YearLength | backend/routers/dashboard.py:34 | the months add up to 366 days in a leap year and to 365 otherwise |
| Calendar.OrdinalIsChronological | backend/routers/dashboard.py:26-40 | comparing instants by ordinal is chronological order, and equal ordinals mean equal instants |
| Calendar.AtOrAfterFirstOfMonth | backend/routers/dashboard.py:33-40 | an instant is at or after the first instant of the current month iff it is in a later year, or in this year and a later or equal month |
| Calendar.DateKey | backend/routers/dashboard.py:54 | the key is the year, the two-digit month and the two-digit day, joined by '-' |
| Calendar.DateKeyInjective | backend/routers/dashboard.py:48-54 | different days have different keys |
| Calendar.DayKeyOf | backend/routers/dashboard.py:48 | an instant's key is that of its year, month and day |
| Text.DecimalRoundTrip | backend/routers/dashboard.py:54 | reading back the decimal digits of n gives n |
| Text.Pad2RoundTrip | backend/routers/dashboard.py:54 | the two-digit padding reads back as the number |
| DashboardRouter.UpcomingOf | backend/routers/dashboard.py:20-25 | a race is a candidate iff it is the caller's and upcoming |
| DashboardRouter.UpcomingRaces | backend/routers/dashboard.py:19-29 | at most 2 of the caller's upcoming races, each listed no more often than stored, by ascending race date, with no comparison against the current date |
| DashboardRouter.UpcomingOmitsOnlyLater | backend/routers/dashboard.py:19-29 | an upcoming race that is not shown sorts at or after both races that are |
| DashboardRouter.ActivitiesOf | backend/routers/dashboard.py:79 | exactly the caller's activities |
| DashboardRouter.RecentActivities | backend/routers/dashboard.py:76-83 | at most 5 of the caller's activities, each listed no more often than stored, latest start first |
| DashboardRouter.RecentOmitsOnlyEarlier | backend/routers/dashboard.py:76-83 | an activity that is not shown starts no later than all five that are |
| DashboardRouter.MonthActivities | backend/routers/dashboard.py:36-43 | exactly the caller's activities starting at or after the first instant of the current month |
| DashboardRouter.WithKey | backend/routers/dashboard.py:46-49 | the activities whose day key is k |
| DashboardRouter.GroupedIsWithKey | backend/routers/dashboard.py:46-56 | a day has an entry in the grouping iff some activity falls on it, and that entry lists exactly that day's activities |
| DashboardRouter.GroupBy | backend/routers/dashboard.py:46-49 | the grouping loop builds the `Grouped` map |
| DashboardRouter.NonZeroPaces | backend/routers/dashboard.py:58 | exactly the non-zero paces of the day's activities, at most one per activity |
| DashboardRouter.NonZeroPacesAppend | backend/routers/dashboard.py:58 | collecting the paces distributes over concatenation, so each activity's non-zero pace is kept once, in order, repeats included |
| DashboardRouter.DaySummary | backend/routers/dashboard.py:55-74 | distance_km × 1000 is the day's summed distance; avg_pace is present exactly when there are non-zero paces and their sum is not 0, and then it is their mean; a day without activities is (key, 0, None) |
| DashboardRouter.MonthSeries | backend/routers/dashboard.py:52-74 | one entry per day of the month |
| DashboardRouter.MonthSeriesEntry | backend/routers/dashboard.py:53-54 | entry i is day i + 1, summarising that day's activities |
| DashboardRouter.BuildMonth | backend/routers/dashboard.py:52-74 | the day loop builds exactly `MonthSeries` from the grouping |
| DashboardRouter.GetDashboard | backend/routers/dashboard.py:14-89 | the dashboard is the upcoming races, the month's day series for the current year and month, and the recent activities |
| DashboardRouter.CountedOnItsDay | backend/routers/dashboard.py:40-54 | an activity is counted on day d iff it is the caller's, in the current month, and starts on day d |
| Format.ClockFields | frontend-ts/lib/utils/format.ts:7-9 | for s ≥ 0 the minutes and seconds are below 60 and h·3600 + m·60 + sec = ⌊s⌋; for s < 0 the hour is negative and the other fields are not positive |
| Format.FormatTimeRoundTrip | frontend-ts/lib/utils/format.ts:6-11 | formatTime writes three fields from one hour on and two below it, the minutes and seconds as two characters each, and reads back as ⌊s⌋ |
| Format.ClockTextReadsBack | frontend-ts/lib/utils/format.ts:10 | the template string reads back as h·3600 + m·60 + s when the minutes and seconds are below 60 |
| Format.ClockTextFieldCount | frontend-ts/lib/utils/format.ts:10 | the template string has three fields when the hour is positive and two otherwise |
| Format.ClockTextPadded | frontend-ts/lib/utils/format.ts:10 | the template string splits into the unpadded hour when it is positive, then the minutes and the seconds as exactly two digits each |
| Format.FormatTimePadded | frontend-ts/lib/utils/format.ts:6-11 | for s ≥ 0 formatTime writes the minutes and the seconds as two characters each |
| Format.FormatTimeFieldCount | frontend-ts/lib/utils/format.ts:6-11 | formatTime writes three fields from one hour on and two below it |
| Format.FormatTimeReadsBack | frontend-ts/lib/utils/format.ts:6-11 | formatTime of a non-negative duration reads back as its whole seconds |
| Format.FormatTimeFields | frontend-ts/lib/utils/format.ts:7-10 | formatTime writes the template string of whole hours, minutes below 60 and seconds below 60 that add back up to ⌊s⌋ |
| Format.ClockTextReadsBackAs | frontend-ts/lib/utils/format.ts:10 | any text equal to the template string of h, m, s reads back as h·3600 + m·60 + s |
| Format.FormatPaceRoundTrip | frontend-ts/lib/utils/format.ts:13-17 | formatPace writes two fields, the seconds as two characters, and reads back as ⌊p⌋ seconds |
| Format.PaceTextReadsBack | frontend-ts/lib/utils/format.ts:16 | unpadded minutes, a colon and padded seconds read back as m·60 + s |
| Format.TimeOfDay | frontend-ts/lib/utils/format.ts:20 | the second of the UTC day, in [0, 86400) |
| Format.ToKst | frontend-ts/lib/utils/format.ts:1-4 | the instant moves by exactly 9 hours, and its time of day moves by 9 hours modulo a day |
| Format.SplitDaySecond | frontend-ts/lib/utils/format.ts:20 | a second of the day splits into an hour below 24 and a minute and second below 60 that add back up |
| Format.FormatTimeFromSeconds | frontend-ts/lib/utils/format.ts:19-21 | 8 characters `HH:MM:SS`: three two-digit fields with the hour below 24 and the minute and second below 60, reading back as the time of day of the instant, so the hour wraps modulo 24 |
| Format.DayClockOfFields | frontend-ts/lib/utils/format.ts:20 | an hour below 24 and a minute and second below 60, each padded to two digits, make a valid time of day |
| Format.FormatTimeFromSecondsWraps | frontend-ts/lib/utils/format.ts:19-21 | a day later gives the same text |
| Format.NextDaySameTime | frontend-ts/lib/utils/format.ts:20 | the time of day repeats every 86400000 ms |
| Format.FormatTimeFromSecondsOfDuration | frontend-ts/lib/utils/format.ts:19-21 | a duration under one day reads back as its whole seconds |
| Format.ValidateTcxFile | frontend-ts/lib/utils/format.ts:23-25 | true iff the name ends in '.' followed by t, c and x in either case |
| Format.JsRound | frontend/src/pages/ActivityDetail.jsx:76 | Math.round gives the integer within half a unit, halves rounded up |
| Format.DisplayRounded | frontend/src/pages/ActivityDetail.jsx:112-114 | "-" iff the value is missing or zero, and the rounded value otherwise |
| ActivityDetail.CellsOf | frontend/src/pages/ActivityDetail.jsx:106-114 | a lap's row keeps its number; each heart-rate or cadence cell is "-" iff the value is missing or zero |
| ActivityDetail.CellsReadBack | frontend/src/pages/ActivityDetail.jsx:26-37 | for a non-negative time and pace, the time and pace cells read back as their whole seconds |
| ActivityDetail.LapTable | frontend/src/pages/ActivityDetail.jsx:106 | one row per lap, in the order received |
| ActivityDetail.LapNumbersDownTheTable | frontend/src/pages/ActivityDetail.jsx:106-108 | laps stored from a parse show the numbers 1..n in order |
| ActivityFilter.Distinct | frontend-ts/app/activities/page.tsx:43-44 | each value present once, and nothing else |
| ActivityFilter.NoRepeatsCountOnce | frontend-ts/app/activities/page.tsx:43-45 | a sequence without repeats holds each of its values once |
| ActivityFilter.DistinctDescending | frontend-ts/app/activities/page.tsx:43-45 | exactly the values present, strictly descending |
| ActivityFilter.Years | frontend-ts/app/activities/page.tsx:43-45 | the years of the activities, each once, strictly descending |
| ActivityFilter.InYear | frontend-ts/app/activities/page.tsx:50-54 | the activities in the selected year, or all of them for "all" |
| ActivityFilter.Months | frontend-ts/app/activities/page.tsx:47-57 | the months of the activities in the selected year (or in all of them), each once, strictly descending |
| ActivityFilter.Filtered | frontend-ts/app/activities/page.tsx:59-66 | the filter keeps a subsequence of the list |
| ActivityFilter.FilteredMembership | frontend-ts/app/activities/page.tsx:59-66 | an activity is shown iff it is in the list and both its year and its month match |
| ActivityFilter.FilteredAppend | frontend-ts/app/activities/page.tsx:59-66 | filtering distributes over concatenation, so order is preserved |
| ActivityFilter.FilteredAllShowsEverything | frontend-ts/app/activities/page.tsx:59-66 | with "all" and "all" every activity is shown, in order |
| ActivityFilter.MonthPillsSelectSomething | frontend-ts/app/activities/page.tsx:47-66 | choosing a month pill shows at least one activity |
| ActivityFilter.YearPillsSelectSomething | frontend-ts/app/activities/page.tsx:43-66 | choosing a year pill shows at least one activity |
| ActivityFilter.ByLatestStart | frontend-ts/app/activities/page.tsx:29-32 | a permutation of the loaded list, latest start first |
| ActivityFilter.LegacyTcxCheck | frontend/src/pages/Dashboard.jsx:50 | true iff the name ends in exactly ".tcx" |
| ActivityFilter.LegacyCheckIsStricter | frontend/src/pages/Dashboard.jsx:50 | every name the older page accepts is also accepted by `validateTCXFile` |
| ActivityFilter.UpperCaseExtensionOnlyValidated | frontend/src/pages/Dashboard.jsx:50 | "x.TCX" is refused by the older page and accepted by `validateTCXFile` |
| ActivityFilter.FailureToast | frontend-ts/app/activities/page.tsx:79-85 | a warning with the server's detail iff the status is 409 and the detail is non-empty; otherwise the generic error |
| ActivityFilter.ActivityListPage.constructor | frontend-ts/app/activities/page.tsx:19-23 | nothing loaded, no dialog, no toast, "all" selected |
| ActivityFilter.ActivityListPage.LoadActivities | frontend-ts/app/activities/page.tsx:26-37 | the fetched list, latest first, replaces the loaded one; a failure keeps it, and the older page then shows an error toast |
| ActivityFilter.ActivityListPage.HandleUpload | frontend-ts/app/activities/page.tsx:68-89 | a refused name shows the error toast and sends nothing; otherwise the file is sent, success reloads the list, a failure shows `FailureToast`, and the busy flag ends cleared |
| ActivityFilter.ActivityListPage.HandleDelete | frontend-ts/app/activities/page.tsx:91-95 | remembers the activity to confirm; nothing else changes |
| ActivityFilter.ActivityListPage.CancelDelete | frontend-ts/app/activities/page.tsx:154 | closes the dialog; nothing else changes |
| ActivityFilter.ActivityListPage.ConfirmDelete | frontend-ts/app/activities/page.tsx:97-107 | with no pending id nothing happens; otherwise that id is sent, the toast and list follow the outcome, and the dialog closes |
| ActivityFilter.ActivityListPage.HandleYearChange | frontend-ts/app/activities/page.tsx:109-112 | the year is selected and the month goes back to "all", so the shown list is that year's |
| ActivityFilter.ActivityListPage.HandleMonthChange | frontend/src/pages/Dashboard.jsx:192-200 | only the month changes |
| RaceForm.ParseIntOfString | frontend-ts/components/race/RaceForm.tsx:47-60 | `parseInt(String(n)) \|\| 0` gives back every integer n |
| RaceForm.ParseIntStopsAtPoint | frontend-ts/components/race/RaceForm.tsx:58-60 | a field holding a decimal fraction contributes its whole part |
| RaceForm.CombineTargetTime | frontend-ts/components/race/RaceForm.tsx:58-69 | a target time is only sent when positive; three blank fields send null; blank hours and minutes send the seconds field's value when that is positive |
| RaceForm.SplitTargetTime | frontend-ts/components/race/RaceForm.tsx:46-54 | blank fields unless the target time is truthy |
| RaceForm.CombineWrittenFields | frontend-ts/components/race/RaceForm.tsx:46-61 | fields written with `String()` recombine to the total h·3600 + m·60 + s, or null when it is not positive |
| RaceForm.TargetTimeRoundTrip | frontend-ts/components/race/RaceForm.tsx:46-69 | submitting an untouched split gives back a positive target time, and null for an absent, zero or negative one |
| RaceForm.InitialKm | frontend-ts/components/race/RaceForm.tsx:43-45 | the field holds km exactly when the stored distance is truthy, and that km × 1000 is the stored distance |
| RaceForm.SubmittedDistance | frontend-ts/components/race/RaceForm.tsx:68 | km × 1000 for a custom race; null for every other type and for an empty field |
| RaceForm.CustomDistanceRoundTrip | frontend-ts/components/race/RaceForm.tsx:43-68 | an untouched custom distance is sent back as stored |
| RaceForm.RaceFormState.constructor | frontend-ts/components/race/RaceForm.tsx:38-54 | missing text fields are empty, the distance type defaults to the half marathon, and the distance and target time are split for editing |
| RaceForm.RaceFormState.SetRaceName | frontend-ts/components/race/RaceForm.tsx:80 | the race name becomes the typed value; every other field is unchanged |
| RaceForm.RaceFormState.SetRaceDate | frontend-ts/components/race/RaceForm.tsx:92 | the race date becomes the typed value; every other field is unchanged |
| RaceForm.RaceFormState.SetLocation | frontend-ts/components/race/RaceForm.tsx:104 | the location becomes the typed value; every other field is unchanged |
| RaceForm.RaceFormState.SetDistanceType | frontend-ts/components/race/RaceForm.tsx:116 | the distance type becomes the selected one; every other field is unchanged |
| RaceForm.RaceFormState.SetDistanceCustomKm | frontend-ts/components/race/RaceForm.tsx:133 | the custom distance field becomes the typed value; every other field is unchanged |
| RaceForm.RaceFormState.SetTargetH | frontend-ts/components/race/RaceForm.tsx:150 | the hours field becomes the typed value; every other field is unchanged |
| RaceForm.RaceFormState.SetTargetM | frontend-ts/components/race/RaceForm.tsx:160 | the minutes field becomes the typed value; every other field is unchanged |
| RaceForm.RaceFormState.SetTargetS | frontend-ts/components/race/RaceForm.tsx:170 | the seconds field becomes the typed value; every other field is unchanged |
| RaceForm.RaceFormState.Submit | frontend-ts/components/race/RaceForm.tsx:56-71 | the payload carries the typed fields, `SubmittedDistance` and `CombineTargetTime`; a distance is only sent for a custom race, and a target time only when positive |
| RaceImageUpload.Examined | frontend-ts/components/race/RaceImageUpload.tsx:26-30 | the loop looks at the files before the first index i with count + i ≥ 5, which is at most max(0, 5 − count) files |
| RaceImageUpload.NoticeFor | frontend-ts/components/race/RaceImageUpload.tsx:32-46 | a file leaves no notice iff it is an image of at most 5 MiB and its upload succeeds |
| RaceImageUpload.AdmittedMembership | frontend-ts/components/race/RaceImageUpload.tsx:32-43 | a file is sent iff it is one of the files and passes both checks |
| RaceImageUpload.SentWithinLimit | frontend-ts/components/race/RaceImageUpload.tsx:26-30 | no more files are sent than the images left before the limit |
| RaceImageUpload.AllAdmissibleAllSent | frontend-ts/components/race/RaceImageUpload.tsx:26-49 | when every file passes and there is room, all are sent in the order dropped |
| RaceImageUpload.TotalsStep | frontend-ts/components/race/RaceImageUpload.tsx:26-50 | one more file extends the sent files, the notices and the refresh count by that file's share |
| RaceImageUpload.DropZone.HandleOne | frontend-ts/components/race/RaceImageUpload.tsx:31-49 | one file is sent iff it passes both checks; its notices are `NoticeFor`; it refreshes once iff sent and accepted; the busy flag is cleared after an upload |
| RaceImageUpload.DropZone.HandleFiles | frontend-ts/components/race/RaceImageUpload.tsx:23-51 | a null list does nothing; otherwise the examined files that pass both checks are sent in order, each skipped or failed file and the stop at the limit leave a notice, each success refreshes once, and the busy flag ends cleared after any upload |

## Behaviour as coded

Where the system's written description and the code differ, the model follows the
code:

- A lap or activity with zero distance gets pace 0; it is not left unset.
- `upload_tcx` stores every parsed activity again on a second upload. It has no
  duplicate check and never answers 409, although both front ends handle a 409.
- Deleting an activity does not clear a race's link to it.
- The dashboard's upcoming races are selected by status alone, never by date.
- `update_race_result` stores any `activity_id` it is given; it does not check
  that the caller owns that activity.

## Left out

- XML parsing and date parsing in `backend/tcx_parser.py`. The model starts
  from each activity's Id text, its start instant and its laps' values, already
  extracted.
- Persistence plumbing: sessions, commits and refreshes. Each handler is one
  step on in-memory tables. Ids come from a counter per table and are never
  reused. The id columns in `backend/models.py` are plain integer primary keys
  without AUTOINCREMENT, and SQLite gives such a table max(id) + 1. So after the
  row with the largest id is deleted, SQLite hands that id out again, and the
  model does not.
- A query's row order without `ORDER BY` is taken to be table order. SQLite
  leaves the order of rows that tie in an `ORDER BY` open; the model fixes one.
- Authentication. The caller's user id is a parameter.
- File-system effects in `backend/routers/races.py`: writing and removing image
  files, uuid file names, and `get_race_image_file`. Only the metadata decisions
  are modelled. The stored file name and the upload instant are parameters of
  `RacesRouter.UploadRaceImage`.
- `backend/ai_analysis.py`, an LLM call, is not part of this model.
- Race rows follow the columns the handlers read and write. The table definitions
  are not part of this model. `RacesRouter.DeleteRace` removes the race's image
  rows with it; the cascade that does so is assumed, not shown.
- Deleting an activity clears its laps' link (`ActivitiesRouter.Orphaned`), which
  is what an ORM relationship without a delete cascade does; the relationship
  definition is not part of this model.
- The clock: `datetime.utcnow()` and the front ends' `Date` are parameters.
- Fractions of a second. `Calendar.DateTime` keeps whole seconds, while the
  parsed start times of `backend/tcx_parser.py` may carry fractions. So two starts
  that differ only below a second are equal in the model: `RacesRouter.FindByStart`
  would match them, and the date sorts would treat them as a tie.
- The local-time `getFullYear`/`getMonth` of the front ends: an activity arrives
  with its year and month already computed.
- `formatDateForInput` and the `toISOString` conversion of the race date in
  `RaceForm.tsx`: the date field is carried as text.
- Floating point. Distances, times and paces are reals. `round(…, 2)`,
  `round(…, 1)` and `toFixed` are not applied, so the dashboard's day entries are
  stated before rounding.
- NaN and Infinity are not modelled. An empty custom-distance field, whose
  `parseFloat` gives NaN (sent as null), is the `Blank` field.
- Number-to-text conversion of reals, in `String(distance_custom / 1000)` and its
  `parseFloat`. The km field holds a real.
- Case folding beyond ASCII. `toLowerCase` agrees with ASCII lower-casing on the
  only characters the `.tcx` test looks at.
- `parseInt` on leading white space and hexadecimal prefixes. A number input never
  holds them.
- Toast timers, drag state, charts, cards and layout.
- The server calls of the front ends are parameters, for example the upload
  outcome, the reloaded list and each image upload's success.
- Format.FormatTimeFromSeconds: requires the instant to lie in the years 0000 to
  9999, where `toISOString` writes a four-digit year. Outside that range the year
  field is wider and the `substring(11, 19)` slice no longer falls on the time.
- Format.FormatTimeFromSecondsWraps: stated for non-negative seconds only.
- Format.ClockFields: the exact fields of a negative input are not stated, only
  their signs, which is all the target-time round trip needs.
