# Stop service frequency of a GTFS bus feed

This project models the analytic core of `main.py` in la_transit_accessibility.
The script reads a static GTFS schedule of the Los Angeles bus network and
counts, for every bus stop, how many distinct trips serve that stop between
07:00:00 and 19:00:00 inclusive on one service date. Stops with at least one
trip become the weighted points of a heat map.

The computation runs in this order:

1. It takes the first of the feed's service dates. A feed with no dates is an
   error.
2. It finds the active services on that date. A service is active when a
   calendar.txt rule covers the date and has the flag 1 for its weekday. A
   calendar_dates.txt row of type 1 on the date adds a service. A row of
   type 2 removes one, and removal wins.
3. It keeps the stop-times whose trips belong to active services.
4. It reads each `arrival_time` "H:M:S" as `H*3600 + M*60 + S` seconds. Hours
   may exceed 23 and nothing wraps.
5. It keeps the stop-times that arrive inside [25200, 68400].
6. It counts the distinct trips per stop.
7. It left-joins the counts onto the stop list, filling 0 where a stop has
   no count.
8. It turns the stops with a positive count into heat points.

Modules, one per concern:

- `Gtfs` (gtfs.dfy): the feed's records, the errors and `Result`/`Option`.
- `Seqs` (seqs.dfy): order-preserving `Filter` and `Map`. These are the
  boolean-mask selections and column projections of the script.
- `CalendarDate` (calendar_date.dfy): dates written as YYYYMMDD integers,
  their validity, their day number and weekday, and why comparing the
  integers compares the days.
- `Service` (service.dfy): the choice of date and the active services. This
  includes the loop that drops removed services.
- `ArrivalTime` (arrival_time.dfy): splitting at ':' and reading H:M:S as
  seconds.
- `Frequency` (frequency.dfy): the join with the trips, the window, the
  distinct count, the left join, the whole pipeline with its error cases,
  and the heat points.

The main theorem is `Frequency.StopFrequenciesCountDistinctTrips`. When the
computation succeeds, row i is stop i with the number of distinct trips that
have a qualifying stop-time at that stop. A stop-time qualifies when its
trip's service is active on the first date and its arrival parses to a time
inside the window.

## Model

| member | source | states |
|---|---|---|
| Service.ChooseDate | main.py:44-47 | the evaluated date is the first service date; an empty date list is the NoServiceDates error and the only way to get it |
| CalendarDate.DateOrderIsChronological | main.py:55-57 | comparing two valid YYYYMMDD integers agrees with comparing the days they name, so the rule's start/end bounds test is a date comparison |
| CalendarDate.WeekdayOfNextDay | main.py:53 | the weekday used to pick the calendar column advances by one, cyclically, from each valid day to the next |
| CalendarDate.NextDayNumber | main.py:52-53 | the next day of a valid date is a valid, later date numbered one more |
| CalendarDate.WeekdayAnchor | main.py:53 | the weekday numbering puts 2024-01-01 on a Monday, as the calendar does |
| Service.ActiveServicesMembership | main.py:55-73 | a service is active iff (a calendar rule covers the date and runs on its weekday, or a type-1 exception adds it on the date) and no type-2 exception removes it on the date |
| Service.ResolveActiveServices | main.py:55-73 | the step-by-step computation (base list, extend with added, drop removed) yields exactly the specified active list |
| Service.DropRemoved | main.py:73 | the loop keeps, in order, exactly the services that are not among the removed ones |
| Service.AddedServiceIsActive | main.py:64-68 | a service added on the date is active even with no matching rule, unless it is also removed |
| Service.RemovedServiceIsInactive | main.py:69-73 | a service removed on the date is never active, whatever the rules or added rows say |
| Service.OtherDatesAreIgnored | main.py:64-72 | exception rows dated on other days change neither the active list nor its order |
| Service.NoExceptionsOnDate | main.py:61-73 | with no exception row on the date (table absent, empty or about other days) the active services are those of the calendar rules |
| Service.ExceptionOrderIrrelevant | main.py:61-73 | which services are active does not depend on the order of the exception rows |
| ArrivalTime.Split | main.py:79 | splitting at ':' gives one more field than separators, and no field holds a separator |
| ArrivalTime.JoinSplit | main.py:79 | joining the split fields with ':' gives the text back |
| ArrivalTime.SplitJoin | main.py:79 | splitting separator-free fields joined by ':' gives the fields back |
| ArrivalTime.TimeToSeconds | main.py:78-80 | a text with other than two colons is a MalformedTime error carrying that text |
| ArrivalTime.ParseTimeFields | main.py:78-80 | any three digit fields joined by colons read as H*3600 + M*60 + S, with no range check and no wrap-around |
| ArrivalTime.ParsedTimeHasThreeFields | main.py:78-80 | conversely, every text that parses is three digit fields joined by colons, valued at their weighted sum |
| ArrivalTime.TimeTextRoundTrip | main.py:78-80 | writing h, m, s as "HH:MM:SS" and reading it back gives h*3600 + m*60 + s for every h, including hours past 23 |
| ArrivalTime.DecimalValue | main.py:79 | reading back the decimal numeral of n gives n |
| Frequency.WindowStartIsSeven | main.py:83 | the window's start is the reading of "07:00:00" |
| Frequency.WindowEndIsNineteen | main.py:84 | the window's end is the reading of "19:00:00" |
| Frequency.WindowIsInclusive | main.py:85 | arrivals exactly at 25200 and 68400 are kept; 25199 and 68401 are dropped |
| Frequency.ActiveTripIdsMembership | main.py:75 | a trip id is selected iff some trip with that id has an active service |
| Frequency.WithArrivalSeconds | main.py:82 | every stop-time gets the reading of its arrival, in order; otherwise the error is that of the first arrival that does not parse |
| Frequency.TripCounts | main.py:86 | the grouped stops are exactly those with a windowed stop-time; each stop's count is the number of distinct trip ids among its windowed stop-times, which lies between 1 and the number of stop-times |
| Frequency.DistinctTripsAtMostStopTimes | main.py:86 | a stop has no more distinct trips than stop-times |
| Frequency.RepeatedTripCountsOnce | main.py:86 | another stop-time of a trip already counted at a stop changes no count |
| Frequency.LeftJoin | main.py:87-89 | one row per stop in stop order; a stop with a group carries that group's count, and a row's count is 0 exactly when its stop has no group |
| Frequency.FirstInvalidDate | main.py:50-63 | no date is reported iff all converted dates (rule start and end dates, the evaluated date, the exception dates) are calendar dates; otherwise the first one that is not |
| Frequency.WindowedTripsAreQualifyingTrips | main.py:75-86 | the trips counted at a stop are exactly the trips of that stop's qualifying stop-times |
| Frequency.StopFrequenciesCountDistinctTrips | main.py:75-89 | on success, row i is stop i with the number of distinct trips among its qualifying stop-times on the first service date |
| Frequency.ZeroExactlyWithoutQualifyingStopTime | main.py:86-89 | a stop's count is 0 exactly when none of its stop-times qualifies |
| Frequency.RemovedServiceZeroesItsStops | main.py:69-89 | a stop served only by a service removed on the date counts 0 trips, even when the calendar marks the weekday active |
| Frequency.NoDatesIsAnError | main.py:44-46 | the computation stops with NoServiceDates exactly when the feed has no service dates |
| Frequency.MalformedArrivalIsAnError | main.py:75-82 | once the dates convert, the computation fails iff a stop-time of an active trip has an arrival that does not parse, and the error names such an arrival; stop-times of inactive trips are never read |
| Frequency.InvalidDateIsAnError | main.py:50-63 | the computation stops with InvalidDate exactly when a converted date is not a calendar date |
| Frequency.HeatPoints | main.py:109 | heat points are the stops with a positive count, each weighted by its count, and no others |
| Frequency.HeatPointsAppend | main.py:109 | heat points keep stop order: the points of two stop lists are the points of each, in turn |
| Frequency.HeatPointOfOneStop | main.py:109 | a single stop gives its point iff its count is positive |
| Seqs.FilterAppend | main.py:75-76 | a row selection distributes over concatenation, so it keeps the rows' relative order |

## Left out

- Extracting the zip archive, downloading the county boundary with osmnx, the GeoDataFrame geometry and the folium map are left out. They are file, network and drawing I/O.
- The loop that draws the circle markers is left out. It is drawing only.
- Loading the feed is not modelled. The feed arrives as a `Feed` value with the tables already read.
- The feed's list of service dates is not computed from the tables. It is a given sequence, in the order the loader returns it.
- gtfs_kit may report the calendar table as absent, and then the script fails when it copies it (main.py:49). The model always has a calendar sequence, possibly empty, so where the script would fail the model treats the feed as having no calendar rules and returns a result.
- Dates are YYYYMMDD integers and the weekday comes from a day count. The date library's timestamp type is not modelled.
- `ValidDate` accepts years 1 to 9999. The pandas timestamp range (1677 to 2262) is not modelled, so a far-off date that pandas would reject is accepted.
- An exception date that does not convert is an error only when the exceptions table has rows, as in the code.
- No search for a typical weekday among the service dates is made. The code takes the first date, and the model follows the code.
- Python's `int()` also accepts signs, surrounding blanks, underscores between digits and non-ASCII decimal digits in a field. The model accepts the ASCII digits 0-9 only, so such a text is a MalformedTime error here.
- A blank arrival time is the empty string and therefore a MalformedTime error. In the script it is a float NaN, on which `split` raises.
- The error is reported for the first malformed arrival in stop-time order. Which exception pandas raises first is not modelled.
- `Frequency.StopTimesOfTrips`: the inner merge repeats a stop-time once per trips row with the same trip id. The model keeps each stop-time once. Distinct trip counts are the same either way.
- `Frequency.LeftJoin`: after `fillna`, the script's count column is a float. The model uses a natural number.
- Stop latitude and longitude are carried through as real numbers. Floating point is not modelled.
