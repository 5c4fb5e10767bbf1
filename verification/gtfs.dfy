/** The records of a static GTFS schedule feed that the stop-frequency
    computation reads, and the errors it can stop with. */
module Gtfs {

  type ServiceId = string
  type TripId = string
  type StopId = string

  /** A calendar date written as the integer YYYYMMDD, as calendar.txt and
      calendar_dates.txt write it. */
  type Date = int

  /** A day of the week, Monday = 0 through Sunday = 6. */
  type DayOfWeek = wd: int | 0 <= wd < 7

  /** A row of calendar.txt: the dates a service is valid for and, per
      weekday, whether it runs (the value 1) or not. */
  datatype CalendarRule = CalendarRule(
    serviceId: ServiceId,
    startDate: Date,
    endDate: Date,
    monday: int,
    tuesday: int,
    wednesday: int,
    thursday: int,
    friday: int,
    saturday: int,
    sunday: int)
  {
    /** The weekday column for weekday `wd`, Monday being 0. */
    function DayFlag(wd: DayOfWeek): int
    {
      match wd
      case 0 => monday
      case 1 => tuesday
      case 2 => wednesday
      case 3 => thursday
      case 4 => friday
      case 5 => saturday
      case _ => sunday
    }
  }

  /** A row of calendar_dates.txt: `exceptionType` 1 adds the service on
      `date`, 2 removes it; other values are ignored. */
  datatype CalendarException = CalendarException(serviceId: ServiceId, date: Date, exceptionType: int)

  /** A row of trips.txt. */
  datatype Trip = Trip(tripId: TripId, serviceId: ServiceId, routeId: string)

  /** A row of stop_times.txt; `arrivalTime` is the text "H:M:S" as stored,
      the empty string when the feed leaves it blank. */
  datatype StopTime = StopTime(tripId: TripId, stopId: StopId, arrivalTime: string, stopSequence: int)

  /** A row of stops.txt. */
  datatype Stop = Stop(stopId: StopId, name: string, lat: real, lon: real)

  /** The feed as loaded: its service dates, in the order the loader gives
      them, and its tables. `calendarDates` is `None` when the feed has no
      calendar_dates.txt. */
  datatype Feed = Feed(
    dates: seq<Date>,
    calendar: seq<CalendarRule>,
    calendarDates: Option<seq<CalendarException>>,
    trips: seq<Trip>,
    stopTimes: seq<StopTime>,
    stops: seq<Stop>)

  /** The ways the computation stops: no service date at all, a date that
      is not a calendar date, an arrival time that is not "H:M:S". */
  datatype Error =
    | NoServiceDates
    | InvalidDate(date: Date)
    | MalformedTime(text: string)

  datatype Option<+T> = None | Some(value: T)

  datatype Result<+T> = Ok(value: T) | Err(error: Error)
}
