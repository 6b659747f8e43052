/**
  The published timetable tables and the instants they denote.

  Dates are proleptic Gregorian day numbers (1 is Monday 1 January of year 1), instants are
  wall-clock microseconds since day 0, and service-day offsets are seconds.
*/
module Timetable {
  import opened Wrappers

  const SECOND := 1_000_000
  const DAY := 86_400 * SECOND
  const MAX_DEPARTURE_SECONDS := 72 * 3600 - 1

  datatype CalendarRow = CalendarRow(service: string, weekdays: string, start: int, end: int)

  datatype ExceptionRow = ExceptionRow(service: string, date: int, kind: int)

  datatype Stop = Stop(id: string, name: string, lat: Option<real>, lon: Option<real>)

  datatype Trip = Trip(route: string, service: string, headsign: string)

  datatype Route = Route(line: string, name: string)

  datatype StopTime = StopTime(trip: string, stop: string, sequence: int, departure: Option<int>, timepoint: int, pickup: int)

  /** Primary keys with one further column group are maps; tables that are scanned are sequences. */
  datatype Tables = Tables(
    calendar: seq<CalendarRow>,
    dates: seq<ExceptionRow>,
    routes: map<string, Route>,
    stops: seq<Stop>,
    trips: map<string, Trip>,
    stopTimes: seq<StopTime>)

  ghost predicate UniqueStopTimes(rows: seq<StopTime>) {
    forall i, j | 0 <= i < j < |rows| :: rows[i].trip != rows[j].trip || rows[i].sequence != rows[j].sequence
  }

  ghost predicate UniqueExceptions(rows: seq<ExceptionRow>) {
    forall i, j | 0 <= i < j < |rows| :: rows[i].service != rows[j].service || rows[i].date != rows[j].date
  }

  ghost predicate UniqueStops(rows: seq<Stop>) {
    forall i, j | 0 <= i < j < |rows| :: rows[i].id != rows[j].id
  }

  /** What ingestion stores: times of at most 71:59:59. */
  ghost predicate TimesInServiceDay(rows: seq<StopTime>) {
    forall s | s in rows && s.departure.Some? :: 0 <= s.departure.value <= MAX_DEPARTURE_SECONDS
  }

  /** The schema's primary keys and the value ranges that ingestion enforces. */
  ghost predicate Published(t: Tables) {
    && UniqueStopTimes(t.stopTimes)
    && UniqueExceptions(t.dates)
    && UniqueStops(t.stops)
    && TimesInServiceDay(t.stopTimes)
    && forall c | c in t.calendar :: |c.weekdays| == 7
  }

  /** Monday is 0, as in Python's date.weekday(). */
  function Weekday(date: int): (d: int)
    ensures 0 <= d < 7
  {
    (date + 6) % 7
  }

  predicate Runs(c: CalendarRow, date: int)
    requires |c.weekdays| == 7
  {
    c.start <= date <= c.end && c.weekdays[Weekday(date)] == '1'
  }

  /**
    GTFS Schedule Reference, calendar.txt and calendar_dates.txt: an exception for the date
    decides (1 adds, anything else removes), otherwise the weekly calendar does.
  */
  ghost predicate ActiveOn(t: Tables, service: string, date: int)
    requires Published(t)
  {
    if exists e :: e in t.dates && e.service == service && e.date == date
    then ExceptionRow(service, date, 1) in t.dates
    else exists c :: c in t.calendar && c.service == service && Runs(c, date)
  }

  function MaxOf(xs: seq<int>): Option<int> {
    if xs == [] then None
    else match MaxOf(xs[1..])
      case None => Some(xs[0])
      case Some(m) => Some(if xs[0] > m then xs[0] else m)
  }

  function MinOf(xs: seq<int>): Option<int> {
    if xs == [] then None
    else match MinOf(xs[1..])
      case None => Some(xs[0])
      case Some(m) => Some(if xs[0] < m then xs[0] else m)
  }

  lemma {:induction false} MaxOfBounds(xs: seq<int>)
    ensures MaxOf(xs).None? <==> xs == []
    ensures MaxOf(xs).Some? ==> MaxOf(xs).value in xs && forall x | x in xs :: x <= MaxOf(xs).value
  {
    if xs != [] {
      MaxOfBounds(xs[1..]);
      assert xs == [xs[0]] + xs[1..];
    }
  }

  lemma {:induction false} MinOfBounds(xs: seq<int>)
    ensures MinOf(xs).None? <==> xs == []
    ensures MinOf(xs).Some? ==> MinOf(xs).value in xs && forall x | x in xs :: x >= MinOf(xs).value
  {
    if xs != [] {
      MinOfBounds(xs[1..]);
      assert xs == [xs[0]] + xs[1..];
    }
  }

  function Starts(rows: seq<CalendarRow>): seq<int> {
    seq(|rows|, i requires 0 <= i < |rows| => rows[i].start)
  }

  function Ends(rows: seq<CalendarRow>): seq<int> {
    seq(|rows|, i requires 0 <= i < |rows| => rows[i].end)
  }

  function Added(rows: seq<ExceptionRow>): seq<int> {
    if rows == [] then [] else (if rows[0].kind == 1 then [rows[0].date] else []) + Added(rows[1..])
  }


  function Timed(rows: seq<StopTime>): seq<int> {
    if rows == [] then [] else (if rows[0].departure.Some? then [rows[0].departure.value] else []) + Timed(rows[1..])
  }


  /** The calendar's bounds: every calendar row and every added date. */
  function FirstDay(t: Tables): Option<int> { MinOf(Starts(t.calendar) + Added(t.dates)) }

  function LastDay(t: Tables): Option<int> { MaxOf(Ends(t.calendar) + Added(t.dates)) }

  /** MAX(departure_seconds), which the load returns as snapshot metadata. */
  function MaxDeparture(t: Tables): Option<int> { MaxOf(Timed(t.stopTimes)) }

  lemma {:induction false} AddedExact(rows: seq<ExceptionRow>, d: int)
    ensures d in Added(rows) <==> exists e :: e in rows && e.kind == 1 && e.date == d
  {
    if rows != [] {
      AddedExact(rows[1..], d);
      assert rows == [rows[0]] + rows[1..];
    }
  }

  lemma {:induction false} TimedExact(rows: seq<StopTime>, s: int)
    ensures s in Timed(rows) <==> exists r :: r in rows && r.departure == Some(s)
  {
    if rows != [] {
      TimedExact(rows[1..], s);
      assert rows == [rows[0]] + rows[1..];
    }
  }

  /** A calendar row begins on `d`, or `d` is an added date. */
  ghost predicate Begins(t: Tables, d: int) {
    (exists c :: c in t.calendar && c.start == d) || exists e :: e in t.dates && e.kind == 1 && e.date == d
  }

  /** A calendar row ends on `d`, or `d` is an added date. */
  ghost predicate Closes(t: Tables, d: int) {
    (exists c :: c in t.calendar && c.end == d) || exists e :: e in t.dates && e.kind == 1 && e.date == d
  }

  /** The bounds are the earliest beginning and the latest end, and there are bounds when there is any. */
  lemma CalendarBoundsExact(t: Tables)
    ensures match FirstDay(t)
            case None => forall d :: !Begins(t, d)
            case Some(first) => Begins(t, first) && forall d | Begins(t, d) :: first <= d
    ensures match LastDay(t)
            case None => forall d :: !Closes(t, d)
            case Some(last) => Closes(t, last) && forall d | Closes(t, d) :: d <= last
  {
    var starts, ends := Starts(t.calendar) + Added(t.dates), Ends(t.calendar) + Added(t.dates);
    MinOfBounds(starts);
    MaxOfBounds(ends);
    forall d ensures d in starts <==> Begins(t, d) {
      AddedExact(t.dates, d);
      if c :| c in t.calendar && c.start == d {
        var i :| 0 <= i < |t.calendar| && t.calendar[i] == c;
        assert Starts(t.calendar)[i] == d;
      }
    }
    forall d ensures d in ends <==> Closes(t, d) {
      AddedExact(t.dates, d);
      if c :| c in t.calendar && c.end == d {
        var i :| 0 <= i < |t.calendar| && t.calendar[i] == c;
        assert Ends(t.calendar)[i] == d;
      }
    }
  }

  /** The largest departure time is that of some row, and none is later. */
  lemma MaxDepartureExact(t: Tables)
    ensures match MaxDeparture(t)
            case None => forall r | r in t.stopTimes :: r.departure.None?
            case Some(m) => (exists r :: r in t.stopTimes && r.departure == Some(m)) &&
                            forall r | r in t.stopTimes && r.departure.Some? :: r.departure.value <= m
  {
    var times := Timed(t.stopTimes);
    MaxOfBounds(times);
    forall r | r in t.stopTimes && r.departure.Some? ensures r.departure.value in times { TimedExact(t.stopTimes, r.departure.value); }
    if times != [] { TimedExact(t.stopTimes, MaxDeparture(t).value); }
  }

  lemma ActiveDatesWithinBounds(t: Tables, service: string, date: int)
    requires Published(t) && ActiveOn(t, service, date)
    ensures FirstDay(t).Some? && LastDay(t).Some?
    ensures FirstDay(t).value <= date <= LastDay(t).value
  {
    var ends := Ends(t.calendar) + Added(t.dates);
    var starts := Starts(t.calendar) + Added(t.dates);
    MaxOfBounds(ends);
    MinOfBounds(starts);
    if exists e :: e in t.dates && e.service == service && e.date == date {
      AddedExact(t.dates, date);
      assert date in ends && date in starts;
    } else {
      var c :| c in t.calendar && c.service == service && Runs(c, date);
      var i :| 0 <= i < |t.calendar| && t.calendar[i] == c;
      assert starts[i] == c.start && ends[i] == c.end;
      assert c.start in starts && c.end in ends;
    }
  }
}
