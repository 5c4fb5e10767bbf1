/** The stop-frequency computation: the trips of the active services, their
    stop-times with arrivals inside 07:00:00-19:00:00, the number of
    distinct trips per stop, that number joined onto every stop (0 where
    there is none), and the weighted points of the heat layer. */
module Frequency {
  import opened Gtfs
  import opened Seqs
  import opened CalendarDate
  import opened Service
  import opened ArrivalTime

  /** Start of the counting window, 07:00:00, in seconds after midnight. */
  const WINDOW_START := 25200
  /** End of the counting window, 19:00:00, in seconds after midnight. */
  const WINDOW_END := 68400

  /** A stop-time of an active trip with its arrival in seconds. */
  datatype TimedStopTime = TimedStopTime(tripId: TripId, stopId: StopId, arrivalSec: nat)

  /** A row of the output stop table: the stop and its number of trips. */
  datatype StopRow = StopRow(stop: Stop, numTrips: nat)

  /** A point of the heat layer: a stop's position weighted by its trips. */
  datatype HeatPoint = HeatPoint(lat: real, lon: real, weight: nat)

  function ServiceIn(active: seq<ServiceId>): Trip -> bool
  {
    (t: Trip) => t.serviceId in active
  }

  function TripIdOf(t: Trip): TripId { t.tripId }

  function TripIn(tripIds: seq<TripId>): StopTime -> bool
  {
    (st: StopTime) => st.tripId in tripIds
  }

  function RuleStart(rule: CalendarRule): Date { rule.startDate }
  function RuleEnd(rule: CalendarRule): Date { rule.endDate }
  function ExceptionDate(e: CalendarException): Date { e.date }

  predicate InsideWindow(r: TimedStopTime)
  {
    WINDOW_START <= r.arrivalSec <= WINDOW_END
  }

  predicate HasTrips(row: StopRow) { row.numTrips > 0 }

  function ToHeatPoint(row: StopRow): HeatPoint
  {
    HeatPoint(row.stop.lat, row.stop.lon, row.numTrips)
  }

  /** The window opens at the reading of "07:00:00". */
  lemma WindowStartIsSeven()
    ensures TimeToSeconds("07:00:00") == Ok(WINDOW_START)
  {
    ReadClockTime("07:00:00", "07", 7);
  }

  /** The window closes at the reading of "19:00:00". */
  lemma WindowEndIsNineteen()
    ensures TimeToSeconds("19:00:00") == Ok(WINDOW_END)
  {
    ReadClockTime("19:00:00", "19", 19);
  }

  /** "hh:00:00", for a two-digit hour numeral hh, reads as that many hours. */
  lemma ReadClockTime(text: string, hh: string, h: nat)
    requires |hh| == 2 && IsNumeral(hh) && h == (hh[0] as int - '0' as int) * 10 + (hh[1] as int - '0' as int)
    requires text == hh + ":00:00"
    ensures TimeToSeconds(text) == Ok(h * 3600)
  {
    var first := hh[..1];
    assert first[..0] == [] && first[0] == hh[0];
    assert NumeralValue(first) == hh[0] as int - '0' as int;
    assert hh[..|hh| - 1] == first;
    assert NumeralValue(hh) == h;
    assert NumeralValue("00") == 0 by {
      assert "00"[..1] == "0" && "0"[..0] == "";
    }
    ParseTimeFields(hh, "00", "00");
    assert hh + ":" + "00" + ":" + "00" == text;
  }

  /** Both ends of the window count; one second outside either does not. */
  lemma WindowIsInclusive(trip: TripId, stop: StopId)
    ensures InWindow([TimedStopTime(trip, stop, 25200)]) == [TimedStopTime(trip, stop, 25200)]
    ensures InWindow([TimedStopTime(trip, stop, 68400)]) == [TimedStopTime(trip, stop, 68400)]
    ensures InWindow([TimedStopTime(trip, stop, 25199)]) == []
    ensures InWindow([TimedStopTime(trip, stop, 68401)]) == []
  {
    var rows := [TimedStopTime(trip, stop, 25200), TimedStopTime(trip, stop, 68400),
                 TimedStopTime(trip, stop, 25199), TimedStopTime(trip, stop, 68401)];
    forall r | r in rows ensures InWindow([r]) == (if InsideWindow(r) then [r] else []) {
      assert [r][..0] == [];
    }
  }

  /** The trips whose service is active, in trip order. */
  function ActiveTripIds(trips: seq<Trip>, active: seq<ServiceId>): seq<TripId>
  {
    Map(Filter(trips, ServiceIn(active)), TripIdOf)
  }

  lemma ActiveTripIdsMembership(trips: seq<Trip>, active: seq<ServiceId>, tid: TripId)
    ensures tid in ActiveTripIds(trips, active) <==>
      exists t :: t in trips && t.tripId == tid && t.serviceId in active
  {
    MapMembership(Filter(trips, ServiceIn(active)), TripIdOf, tid);
  }

  /** The stop-times of the given trips, in stop-time order: the inner join
      of the stop-times with the active trips on the trip id. */
  function StopTimesOfTrips(stopTimes: seq<StopTime>, tripIds: seq<TripId>): seq<StopTime>
  {
    Filter(stopTimes, TripIn(tripIds))
  }

  /** Row `i` is the first whose arrival time does not parse. */
  predicate FirstMalformed(rows: seq<StopTime>, i: int)
  {
    && 0 <= i < |rows|
    && TimeToSeconds(rows[i].arrivalTime).Err?
    && forall j :: 0 <= j < i ==> TimeToSeconds(rows[j].arrivalTime).Ok?
  }

  /** Every stop-time with its arrival in seconds, or the error of the first
      arrival time that does not parse. */
  function WithArrivalSeconds(rows: seq<StopTime>): (r: Result<seq<TimedStopTime>>)
    ensures r.Ok? <==> forall i :: 0 <= i < |rows| ==> TimeToSeconds(rows[i].arrivalTime).Ok?
    ensures r.Ok? ==> |r.value| == |rows| && forall i :: 0 <= i < |rows| ==>
      && TimeToSeconds(rows[i].arrivalTime) == Ok(r.value[i].arrivalSec)
      && r.value[i].tripId == rows[i].tripId
      && r.value[i].stopId == rows[i].stopId
    ensures r.Err? ==> exists i :: FirstMalformed(rows, i) && r.error == MalformedTime(rows[i].arrivalTime)
    decreases |rows|
  {
    if rows == [] then Ok([])
    else
      match TimeToSeconds(rows[0].arrivalTime)
      case Err(e) => Err(e)
      case Ok(sec) =>
        var rest := WithArrivalSeconds(rows[1..]);
        assert forall i :: 1 <= i < |rows| ==> rows[i] == rows[1..][i - 1];
        match rest
        case Err(e) =>
          var i :| FirstMalformed(rows[1..], i) && e == MalformedTime(rows[1..][i].arrivalTime);
          assert FirstMalformed(rows, i + 1);
          Err(e)
        case Ok(timed) => Ok([TimedStopTime(rows[0].tripId, rows[0].stopId, sec)] + timed)
  }

  /** The stop-times whose arrival lies in the window, both ends included. */
  function InWindow(rows: seq<TimedStopTime>): seq<TimedStopTime>
  {
    Filter(rows, InsideWindow)
  }

  /** The distinct trips among the stop-times at `stopId`. */
  function TripsAt(rows: seq<TimedStopTime>, stopId: StopId): set<TripId>
  {
    set r | r in rows && r.stopId == stopId :: r.tripId
  }

  /** The number of distinct trips per stop, for the stops that occur among
      the stop-times (a group-by on the stop with a distinct count). */
  function TripCounts(rows: seq<TimedStopTime>): (counts: map<StopId, nat>)
    ensures forall sid :: sid in counts <==> exists r :: r in rows && r.stopId == sid
    ensures forall sid :: sid in counts ==> counts[sid] == |TripsAt(rows, sid)|
    ensures forall sid :: sid in counts ==> 1 <= counts[sid] <= |rows|
  {
    var stopIds := set r | r in rows :: r.stopId;
    assert forall sid :: sid in stopIds ==> 1 <= |TripsAt(rows, sid)| <= |rows| by {
      forall sid | sid in stopIds ensures 1 <= |TripsAt(rows, sid)| <= |rows| {
        var r :| r in rows && r.stopId == sid;
        assert r.tripId in TripsAt(rows, sid);
        DistinctTripsAtMostStopTimes(rows, sid);
      }
    }
    map sid | sid in stopIds :: |TripsAt(rows, sid)|
  }

  /** A stop has no more distinct trips than stop-times. */
  lemma {:induction false} DistinctTripsAtMostStopTimes(rows: seq<TimedStopTime>, stopId: StopId)
    ensures |TripsAt(rows, stopId)| <= |rows|
    decreases |rows|
  {
    if rows != [] {
      var init, last := rows[..|rows| - 1], rows[|rows| - 1];
      assert rows == init + [last];
      DistinctTripsAtMostStopTimes(init, stopId);
      assert TripsAt(rows, stopId)
          == TripsAt(init, stopId) + (if last.stopId == stopId then {last.tripId} else {});
    }
  }

  /** A further stop-time of a trip already counted at a stop leaves every
      count unchanged: repeated visits count once. */
  lemma RepeatedTripCountsOnce(rows: seq<TimedStopTime>, r: TimedStopTime, stopId: StopId)
    requires exists q :: q in rows && q.tripId == r.tripId && q.stopId == r.stopId
    ensures TripsAt(rows + [r], stopId) == TripsAt(rows, stopId)
  {
    var q :| q in rows && q.tripId == r.tripId && q.stopId == r.stopId;
    assert forall x :: x in rows + [r] <==> x in rows || x == r;
  }

  function CountOrZero(counts: map<StopId, nat>, stopId: StopId): nat
  {
    if stopId in counts then counts[stopId] else 0
  }

  /** Every stop, in order, with its count, 0 where it has none: the left
      join of the stops with the counts, missing counts filled with 0. */
  function LeftJoin(stops: seq<Stop>, counts: map<StopId, nat>): (rows: seq<StopRow>)
    requires forall sid :: sid in counts ==> counts[sid] > 0
    ensures |rows| == |stops|
    ensures forall i :: 0 <= i < |stops| ==> rows[i].stop == stops[i]
    ensures forall i :: 0 <= i < |stops| ==> (rows[i].numTrips == 0 <==> stops[i].stopId !in counts)
    ensures forall i :: 0 <= i < |stops| && stops[i].stopId in counts ==> rows[i].numTrips == counts[stops[i].stopId]
  {
    seq(|stops|, i requires 0 <= i < |stops| => StopRow(stops[i], CountOrZero(counts, stops[i].stopId)))
  }

  /** The dates the computation converts, in the order it converts them: the
      start and the end dates of the calendar rules, the evaluated date, and
      the exception dates when the exceptions table has rows. */
  function ConvertedDates(feed: Feed, date: Date): seq<Date>
  {
    Map(feed.calendar, RuleStart) + Map(feed.calendar, RuleEnd) + [date]
      + (match feed.calendarDates
         case Some(rows) => if rows == [] then [] else Map(rows, ExceptionDate)
         case None => [])
  }

  /** Date `i` is the first that is not a calendar date. */
  predicate FirstInvalidAt(dates: seq<Date>, i: int)
  {
    0 <= i < |dates| && !ValidDate(dates[i]) && forall j :: 0 <= j < i ==> ValidDate(dates[j])
  }

  /** The first date that is not a calendar date, if any. */
  function FirstInvalidDate(dates: seq<Date>): (r: Option<Date>)
    ensures r.None? <==> forall i :: 0 <= i < |dates| ==> ValidDate(dates[i])
    ensures r.Some? ==> exists i :: FirstInvalidAt(dates, i) && r.value == dates[i]
    decreases |dates|
  {
    if dates == [] then None
    else if !ValidDate(dates[0]) then Some(dates[0])
    else
      var rest := FirstInvalidDate(dates[1..]);
      assert forall i :: 1 <= i < |dates| ==> dates[i] == dates[1..][i - 1];
      if rest.Some? then
        var i :| FirstInvalidAt(dates[1..], i) && rest.value == dates[1..][i];
        assert FirstInvalidAt(dates, i + 1);
        rest
      else rest
  }

  /** The active services of the feed on a valid date. */
  function ActiveOn(feed: Feed, date: Date): seq<ServiceId>
    requires ValidDate(date)
  {
    ActiveServices(feed.calendar, feed.calendarDates, date, Weekday(date))
  }

  /** The stop-times of the trips whose service is active on a valid date. */
  function ActiveStopTimes(feed: Feed, date: Date): seq<StopTime>
    requires ValidDate(date)
  {
    StopTimesOfTrips(feed.stopTimes, ActiveTripIds(feed.trips, ActiveOn(feed, date)))
  }

  /** The whole computation: the evaluated date, the active services, the
      stop-times of their trips in the window, the distinct trips per stop,
      joined onto the stop list. */
  function StopFrequencies(feed: Feed): Result<seq<StopRow>>
  {
    match ChooseDate(feed.dates)
    case Err(e) => Err(e)
    case Ok(date) =>
      match FirstInvalidDate(ConvertedDates(feed, date))
      case Some(bad) => Err(InvalidDate(bad))
      case None =>
        assert ConvertedDates(feed, date)[2 * |feed.calendar|] == date;
        match WithArrivalSeconds(ActiveStopTimes(feed, date))
        case Err(e) => Err(e)
        case Ok(timed) => Ok(LeftJoin(feed.stops, TripCounts(InWindow(timed))))
  }

  /** A stop-time counts for its stop: its trip's service is active, and its
      arrival parses to a time inside the window. */
  ghost predicate Qualifies(feed: Feed, active: seq<ServiceId>, st: StopTime)
  {
    && (exists t :: t in feed.trips && t.tripId == st.tripId && t.serviceId in active)
    && TimeToSeconds(st.arrivalTime).Ok?
    && WINDOW_START <= TimeToSeconds(st.arrivalTime).value <= WINDOW_END
  }

  /** The distinct trips of the qualifying stop-times at a stop. */
  ghost function QualifyingTrips(feed: Feed, active: seq<ServiceId>, stopId: StopId): set<TripId>
  {
    set st | st in feed.stopTimes && st.stopId == stopId && Qualifies(feed, active, st) :: st.tripId
  }

  /** The trips counted from the windowed stop-times are exactly the trips
      of the qualifying stop-times of the feed. */
  lemma WindowedTripsAreQualifyingTrips(feed: Feed, date: Date, timed: seq<TimedStopTime>, stopId: StopId)
    requires ValidDate(date)
    requires WithArrivalSeconds(ActiveStopTimes(feed, date)) == Ok(timed)
    ensures TripsAt(InWindow(timed), stopId) == QualifyingTrips(feed, ActiveOn(feed, date), stopId)
  {
    forall tid | tid in TripsAt(InWindow(timed), stopId)
      ensures tid in QualifyingTrips(feed, ActiveOn(feed, date), stopId)
    {
      WindowedTripQualifies(feed, date, timed, stopId, tid);
    }
    forall tid | tid in QualifyingTrips(feed, ActiveOn(feed, date), stopId)
      ensures tid in TripsAt(InWindow(timed), stopId)
    {
      QualifyingTripIsWindowed(feed, date, timed, stopId, tid);
    }
  }

  lemma WindowedTripQualifies(feed: Feed, date: Date, timed: seq<TimedStopTime>, stopId: StopId, tid: TripId)
    requires ValidDate(date)
    requires WithArrivalSeconds(ActiveStopTimes(feed, date)) == Ok(timed)
    requires tid in TripsAt(InWindow(timed), stopId)
    ensures tid in QualifyingTrips(feed, ActiveOn(feed, date), stopId)
  {
    var active := ActiveOn(feed, date);
    var rows := ActiveStopTimes(feed, date);
    var r :| r in InWindow(timed) && r.stopId == stopId && r.tripId == tid;
    var k :| 0 <= k < |timed| && timed[k] == r;
    var st := rows[k];
    assert st in rows;
    assert st in feed.stopTimes && st.tripId in ActiveTripIds(feed.trips, active);
    ActiveTripIdsMembership(feed.trips, active, st.tripId);
    assert Qualifies(feed, active, st);
  }

  lemma QualifyingTripIsWindowed(feed: Feed, date: Date, timed: seq<TimedStopTime>, stopId: StopId, tid: TripId)
    requires ValidDate(date)
    requires WithArrivalSeconds(ActiveStopTimes(feed, date)) == Ok(timed)
    requires tid in QualifyingTrips(feed, ActiveOn(feed, date), stopId)
    ensures tid in TripsAt(InWindow(timed), stopId)
  {
    var active := ActiveOn(feed, date);
    var rows := ActiveStopTimes(feed, date);
    var st :| st in feed.stopTimes && st.stopId == stopId && Qualifies(feed, active, st) && st.tripId == tid;
    var tids := ActiveTripIds(feed.trips, active);
    ActiveTripIdsMembership(feed.trips, active, st.tripId);
    assert st.tripId in tids;
    assert rows == Filter(feed.stopTimes, TripIn(tids));
    assert st in rows;
    var k :| 0 <= k < |rows| && rows[k] == st;
    var r := timed[k];
    assert TimeToSeconds(st.arrivalTime) == Ok(r.arrivalSec);
    assert InsideWindow(r);
    assert r in InWindow(timed);
  }

  /** The output has one row per stop, in stop order, and each stop's count
      is the number of distinct trips among its qualifying stop-times on the
      first service date. */
  lemma StopFrequenciesCountDistinctTrips(feed: Feed)
    requires StopFrequencies(feed).Ok?
    ensures |feed.dates| > 0 && ValidDate(feed.dates[0])
    ensures |StopFrequencies(feed).value| == |feed.stops|
    ensures forall i :: 0 <= i < |feed.stops| ==>
      StopFrequencies(feed).value[i]
        == StopRow(feed.stops[i], |QualifyingTrips(feed, ActiveOn(feed, feed.dates[0]), feed.stops[i].stopId)|)
  {
    var date := feed.dates[0];
    assert ConvertedDates(feed, date)[2 * |feed.calendar|] == date;
    var timed := WithArrivalSeconds(ActiveStopTimes(feed, date)).value;
    var counts := TripCounts(InWindow(timed));
    forall i | 0 <= i < |feed.stops|
      ensures StopFrequencies(feed).value[i]
        == StopRow(feed.stops[i], |QualifyingTrips(feed, ActiveOn(feed, date), feed.stops[i].stopId)|)
    {
      var sid := feed.stops[i].stopId;
      WindowedTripsAreQualifyingTrips(feed, date, timed, sid);
      if sid !in counts {
        assert TripsAt(InWindow(timed), sid) == {};
      }
    }
  }

  /** A stop's count is 0 exactly when none of its stop-times qualifies. */
  lemma ZeroExactlyWithoutQualifyingStopTime(feed: Feed, i: int)
    requires StopFrequencies(feed).Ok? && 0 <= i < |feed.stops|
    ensures |feed.dates| > 0 && ValidDate(feed.dates[0])
    ensures |StopFrequencies(feed).value| == |feed.stops|
    ensures StopFrequencies(feed).value[i].numTrips == 0 <==>
      !exists st :: st in feed.stopTimes && st.stopId == feed.stops[i].stopId
                  && Qualifies(feed, ActiveOn(feed, feed.dates[0]), st)
  {
    StopFrequenciesCountDistinctTrips(feed);
    var active := ActiveOn(feed, feed.dates[0]);
    var sid := feed.stops[i].stopId;
    if st :| st in feed.stopTimes && st.stopId == sid && Qualifies(feed, active, st) {
      assert st.tripId in QualifyingTrips(feed, active, sid);
    }
  }

  /** A stop served only by trips of a service that an exception removes on
      the evaluated date gets 0, whatever the calendar says of the weekday. */
  lemma RemovedServiceZeroesItsStops(feed: Feed, i: int, sid: ServiceId)
    requires StopFrequencies(feed).Ok? && 0 <= i < |feed.stops| && |feed.dates| > 0
    requires feed.calendarDates.Some?
    requires CalendarException(sid, feed.dates[0], REMOVED) in feed.calendarDates.value
    requires ServedOnlyBy(feed, feed.stops[i].stopId, sid)
    ensures ValidDate(feed.dates[0]) && |StopFrequencies(feed).value| == |feed.stops|
    ensures StopFrequencies(feed).value[i].numTrips == 0
  {
    ZeroExactlyWithoutQualifyingStopTime(feed, i);
    var date := feed.dates[0];
    RemovedServiceIsInactive(feed.calendar, feed.calendarDates.value, date, Weekday(date), sid);
  }

  /** Every trip of every stop-time at `stopId` belongs to service `sid`. */
  predicate ServedOnlyBy(feed: Feed, stopId: StopId, sid: ServiceId)
  {
    forall st, t :: st in feed.stopTimes && st.stopId == stopId && t in feed.trips && t.tripId == st.tripId
      ==> t.serviceId == sid
  }

  /** Without service dates the computation fails with that error, and only then. */
  lemma NoDatesIsAnError(feed: Feed)
    ensures StopFrequencies(feed) == Err(NoServiceDates) <==> feed.dates == []
  {
  }

  /** With dates that all convert, the computation fails exactly when a
      stop-time of an active trip has an arrival that does not parse, and
      then with the text of one such arrival; stop-times of inactive trips
      are never read. */
  lemma MalformedArrivalIsAnError(feed: Feed)
    requires |feed.dates| > 0
    requires FirstInvalidDate(ConvertedDates(feed, feed.dates[0])).None?
    ensures ValidDate(feed.dates[0])
    ensures StopFrequencies(feed).Err? <==>
      exists st :: st in ActiveStopTimes(feed, feed.dates[0]) && TimeToSeconds(st.arrivalTime).Err?
    ensures StopFrequencies(feed).Err? ==>
      exists st :: st in ActiveStopTimes(feed, feed.dates[0]) && StopFrequencies(feed).error == MalformedTime(st.arrivalTime)
  {
    var date := feed.dates[0];
    assert ConvertedDates(feed, date)[2 * |feed.calendar|] == date;
    var rows := ActiveStopTimes(feed, date);
    if st :| st in rows && TimeToSeconds(st.arrivalTime).Err? {
      var k :| 0 <= k < |rows| && rows[k] == st;
    }
  }

  /** A date that is not a calendar date, among those converted, is an error. */
  lemma InvalidDateIsAnError(feed: Feed)
    requires |feed.dates| > 0
    ensures StopFrequencies(feed).Err? && StopFrequencies(feed).error.InvalidDate? <==>
      exists d :: d in ConvertedDates(feed, feed.dates[0]) && !ValidDate(d)
  {
    var dates := ConvertedDates(feed, feed.dates[0]);
    if d :| d in dates && !ValidDate(d) {
      var k :| 0 <= k < |dates| && dates[k] == d;
    }
  }

  /** The points of the heat layer: the stops with at least one trip, in
      stop order, weighted by their trips. */
  function HeatPoints(rows: seq<StopRow>): (points: seq<HeatPoint>)
    ensures |points| <= |rows|
    ensures forall p :: p in points ==> p.weight > 0
    ensures forall row :: row in rows && row.numTrips > 0 ==> ToHeatPoint(row) in points
    ensures forall p :: p in points ==> exists row :: row in rows && row.numTrips > 0 && p == ToHeatPoint(row)
  {
    var kept := Filter(rows, HasTrips);
    assert forall p :: p in Map(kept, ToHeatPoint) <==> exists row :: row in kept && ToHeatPoint(row) == p by {
      forall p ensures p in Map(kept, ToHeatPoint) <==> exists row :: row in kept && ToHeatPoint(row) == p {
        MapMembership(kept, ToHeatPoint, p);
      }
    }
    Map(kept, ToHeatPoint)
  }

  /** The heat points of consecutive stop lists are consecutive: the points
      keep the order of the stops. */
  lemma HeatPointsAppend(a: seq<StopRow>, b: seq<StopRow>)
    ensures HeatPoints(a + b) == HeatPoints(a) + HeatPoints(b)
  {
    FilterAppend(a, b, HasTrips);
    MapAppend(Filter(a, HasTrips), Filter(b, HasTrips), ToHeatPoint);
  }

  /** A single stop gives its point when it has trips, and nothing otherwise. */
  lemma HeatPointOfOneStop(row: StopRow)
    ensures HeatPoints([row]) == if row.numTrips > 0 then [ToHeatPoint(row)] else []
  {
    assert [row][..0] == [];
  }
}
