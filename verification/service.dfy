/** Which date the frequencies are computed for, and which services run on
    it: the calendar.txt rules matching the date and its weekday, plus the
    services calendar_dates.txt adds on that date, minus those it removes. */
module Service {
  import opened Gtfs
  import opened Seqs

  /** `exception_type` of a calendar_dates.txt row that adds a service. */
  const ADDED := 1
  /** `exception_type` of a calendar_dates.txt row that removes a service. */
  const REMOVED := 2

  /** The evaluated date: the first of the feed's service dates; a feed
      without service dates is an error. No weekday search is made. */
  function ChooseDate(dates: seq<Date>): (r: Result<Date>)
    ensures r.Ok? <==> |dates| > 0
    ensures r.Ok? ==> r.value == dates[0] && r.value in dates
    ensures r.Err? ==> r.error == NoServiceDates
  {
    if dates == [] then Err(NoServiceDates) else Ok(dates[0])
  }

  /** The calendar rule covers `date` and runs on weekday `wd`. */
  predicate RuleMatches(rule: CalendarRule, date: Date, wd: DayOfWeek)
  {
    rule.startDate <= date <= rule.endDate && rule.DayFlag(wd) == 1
  }

  function MatchesOn(date: Date, wd: DayOfWeek): CalendarRule -> bool
  {
    (rule: CalendarRule) => RuleMatches(rule, date, wd)
  }

  function IsExceptionOn(date: Date, kind: int): CalendarException -> bool
  {
    (e: CalendarException) => e.date == date && e.exceptionType == kind
  }

  function NotIn(removed: seq<ServiceId>): ServiceId -> bool
  {
    (sid: ServiceId) => sid !in removed
  }

  function RuleService(rule: CalendarRule): ServiceId { rule.serviceId }

  function ExceptionService(e: CalendarException): ServiceId { e.serviceId }

  /** The services of the calendar rules matching the date, in calendar order. */
  function BaseActive(calendar: seq<CalendarRule>, date: Date, wd: DayOfWeek): seq<ServiceId>
  {
    Map(Filter(calendar, MatchesOn(date, wd)), RuleService)
  }

  /** The services of the exception rows of the given kind on `date`, in row order. */
  function ExceptionIds(rows: seq<CalendarException>, date: Date, kind: int): seq<ServiceId>
  {
    Map(Filter(rows, IsExceptionOn(date, kind)), ExceptionService)
  }

  /** Some calendar rule for `sid` matches the date and weekday. */
  ghost predicate BaseMatch(calendar: seq<CalendarRule>, sid: ServiceId, date: Date, wd: DayOfWeek)
  {
    exists rule :: rule in calendar && rule.serviceId == sid && RuleMatches(rule, date, wd)
  }

  /** The exceptions table exists and has a row of the given kind for `sid` on `date`. */
  ghost predicate HasException(calendarDates: Option<seq<CalendarException>>, sid: ServiceId, date: Date, kind: int)
  {
    calendarDates.Some? &&
    exists e :: e in calendarDates.value && e.serviceId == sid && e.date == date && e.exceptionType == kind
  }

  lemma BaseActiveMembership(calendar: seq<CalendarRule>, date: Date, wd: DayOfWeek, sid: ServiceId)
    ensures sid in BaseActive(calendar, date, wd) <==> BaseMatch(calendar, sid, date, wd)
  {
    MapMembership(Filter(calendar, MatchesOn(date, wd)), RuleService, sid);
  }

  lemma ExceptionIdsMembership(rows: seq<CalendarException>, date: Date, kind: int, sid: ServiceId)
    ensures sid in ExceptionIds(rows, date, kind) <==> HasException(Some(rows), sid, date, kind)
  {
    MapMembership(Filter(rows, IsExceptionOn(date, kind)), ExceptionService, sid);
  }

  /** The active services on `date`, whose weekday is `wd`: the base list,
      then, when the exceptions table is present and not empty, the added
      services appended and every removed service dropped. */
  function ActiveServices(calendar: seq<CalendarRule>, calendarDates: Option<seq<CalendarException>>,
                          date: Date, wd: DayOfWeek): seq<ServiceId>
  {
    var base := BaseActive(calendar, date, wd);
    match calendarDates
    case None => base
    case Some(rows) =>
      if rows == [] then base
      else Filter(base + ExceptionIds(rows, date, ADDED), NotIn(ExceptionIds(rows, date, REMOVED)))
  }

  /** A service is active exactly when a calendar rule matches it or an
      exception adds it on the date, and no exception removes it on the date. */
  lemma ActiveServicesMembership(calendar: seq<CalendarRule>, calendarDates: Option<seq<CalendarException>>,
                                 date: Date, wd: DayOfWeek, sid: ServiceId)
    ensures sid in ActiveServices(calendar, calendarDates, date, wd) <==>
      (BaseMatch(calendar, sid, date, wd) || HasException(calendarDates, sid, date, ADDED))
      && !HasException(calendarDates, sid, date, REMOVED)
  {
    BaseActiveMembership(calendar, date, wd, sid);
    if calendarDates.Some? {
      var rows := calendarDates.value;
      ExceptionIdsMembership(rows, date, ADDED, sid);
      ExceptionIdsMembership(rows, date, REMOVED, sid);
      if rows == [] {
        assert !HasException(calendarDates, sid, date, ADDED);
        assert !HasException(calendarDates, sid, date, REMOVED);
      }
    }
  }

  /** The step-by-step computation: take the base list, extend it with the
      added services, then keep only the services not removed. */
  method ResolveActiveServices(calendar: seq<CalendarRule>, calendarDates: Option<seq<CalendarException>>,
                               date: Date, wd: DayOfWeek) returns (active: seq<ServiceId>)
    ensures active == ActiveServices(calendar, calendarDates, date, wd)
  {
    active := BaseActive(calendar, date, wd);
    if calendarDates.Some? && calendarDates.value != [] {
      var rows := calendarDates.value;
      active := active + ExceptionIds(rows, date, ADDED);
      var removed := ExceptionIds(rows, date, REMOVED);
      active := DropRemoved(active, removed);
    }
  }

  /** Walks the list once, keeping in order each service that is not among
      the removed ones. */
  method DropRemoved(active: seq<ServiceId>, removed: seq<ServiceId>) returns (kept: seq<ServiceId>)
    ensures kept == Filter(active, NotIn(removed))
  {
    kept := [];
    for i := 0 to |active|
      invariant kept == Filter(active[..i], NotIn(removed))
    {
      FilterSnoc(active[..i], active[i], NotIn(removed));
      assert active[..i + 1] == active[..i] + [active[i]];
      if active[i] !in removed {
        kept := kept + [active[i]];
      }
    }
    assert active[..|active|] == active;
  }

  /** A service added on the date runs even when no calendar rule matches,
      unless it is also removed on that date. */
  lemma AddedServiceIsActive(calendar: seq<CalendarRule>, rows: seq<CalendarException>,
                             date: Date, wd: DayOfWeek, sid: ServiceId)
    requires CalendarException(sid, date, ADDED) in rows
    requires CalendarException(sid, date, REMOVED) !in rows
    ensures sid in ActiveServices(calendar, Some(rows), date, wd)
  {
    ActiveServicesMembership(calendar, Some(rows), date, wd, sid);
    assert HasException(Some(rows), sid, date, ADDED);
  }

  /** A service removed on the date never runs: removal wins over both a
      matching calendar rule and an added exception. */
  lemma RemovedServiceIsInactive(calendar: seq<CalendarRule>, rows: seq<CalendarException>,
                                 date: Date, wd: DayOfWeek, sid: ServiceId)
    requires CalendarException(sid, date, REMOVED) in rows
    ensures sid !in ActiveServices(calendar, Some(rows), date, wd)
  {
    ActiveServicesMembership(calendar, Some(rows), date, wd, sid);
    assert HasException(Some(rows), sid, date, REMOVED);
  }

  /** Exception rows dated on other days change nothing, not even order. */
  lemma OtherDatesAreIgnored(calendar: seq<CalendarRule>, rows: seq<CalendarException>,
                             extra: seq<CalendarException>, date: Date, wd: DayOfWeek)
    requires forall e :: e in extra ==> e.date != date
    ensures ActiveServices(calendar, Some(rows + extra), date, wd) == ActiveServices(calendar, Some(rows), date, wd)
  {
    NoExceptionIdsOn(extra, date, ADDED);
    NoExceptionIdsOn(extra, date, REMOVED);
    ExceptionIdsAppend(rows, extra, date, ADDED);
    ExceptionIdsAppend(rows, extra, date, REMOVED);
    var base := BaseActive(calendar, date, wd);
    if rows == [] {
      if extra != [] {
        assert rows + extra == extra;
        assert ExceptionIds(extra, date, ADDED) == [] && ExceptionIds(extra, date, REMOVED) == [];
        assert base + [] == base;
        FilterKeepsAll(base, NotIn([]));
      }
    } else {
      assert rows + extra != [];
      assert ExceptionIds(rows + extra, date, ADDED) == ExceptionIds(rows, date, ADDED);
      assert ExceptionIds(rows + extra, date, REMOVED) == ExceptionIds(rows, date, REMOVED);
    }
  }

  /** When no exception row is dated on the evaluated date (in particular
      when the table is absent or empty), the active services are the base ones. */
  lemma NoExceptionsOnDate(calendar: seq<CalendarRule>, calendarDates: Option<seq<CalendarException>>,
                           date: Date, wd: DayOfWeek)
    requires calendarDates.Some? ==> forall e :: e in calendarDates.value ==> e.date != date
    ensures ActiveServices(calendar, calendarDates, date, wd) == BaseActive(calendar, date, wd)
  {
    if calendarDates.Some? {
      OtherDatesAreIgnored(calendar, [], calendarDates.value, date, wd);
      assert [] + calendarDates.value == calendarDates.value;
    }
  }

  /** Which services are active does not depend on the order of the
      exception rows. */
  lemma ExceptionOrderIrrelevant(calendar: seq<CalendarRule>, rows1: seq<CalendarException>,
                                 rows2: seq<CalendarException>, date: Date, wd: DayOfWeek, sid: ServiceId)
    requires multiset(rows1) == multiset(rows2)
    ensures sid in ActiveServices(calendar, Some(rows1), date, wd)
        <==> sid in ActiveServices(calendar, Some(rows2), date, wd)
  {
    ActiveServicesMembership(calendar, Some(rows1), date, wd, sid);
    ActiveServicesMembership(calendar, Some(rows2), date, wd, sid);
    assert forall e :: e in rows1 <==> e in rows2 by {
      forall e ensures e in rows1 <==> e in rows2 {
        assert e in rows1 <==> e in multiset(rows1);
        assert e in rows2 <==> e in multiset(rows2);
      }
    }
  }

  lemma {:induction false} NoExceptionIdsOn(rows: seq<CalendarException>, date: Date, kind: int)
    requires forall e :: e in rows ==> e.date != date
    ensures ExceptionIds(rows, date, kind) == []
  {
    if ExceptionIds(rows, date, kind) != [] {
      var sid := ExceptionIds(rows, date, kind)[0];
      ExceptionIdsMembership(rows, date, kind, sid);
    }
  }

  lemma ExceptionIdsAppend(a: seq<CalendarException>, b: seq<CalendarException>, date: Date, kind: int)
    ensures ExceptionIds(a + b, date, kind) == ExceptionIds(a, date, kind) + ExceptionIds(b, date, kind)
  {
    FilterAppend(a, b, IsExceptionOn(date, kind));
    MapAppend(Filter(a, IsExceptionOn(date, kind)), Filter(b, IsExceptionOn(date, kind)), ExceptionService);
  }
}
