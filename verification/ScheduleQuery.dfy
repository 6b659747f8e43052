/**
  "Scheduled departures in the next 24 hours": four service days are read, each cut at the
  limit, merged with a stable sort on (time, stop, trip) and cut again.  The main result is that
  this is the answer over all service days.
*/
module ScheduleQuery {
  import opened Wrappers
  import opened Orders
  import opened Timetable

  /** One joined row of the answer, on one service day. */
  datatype Departure = Departure(day: int, at: StopTime, stop: Stop, trip: Trip, route: Route)

  datatype QueryError = UnknownStop | NoValidity | OutsideCalendar

  /** A stop by identifier, or the nearest five; distances are computed elsewhere. */
  datatype StopFilter = ById(id: string) | Nearby(near: Nearness)

  datatype Nearness = Nearness(inBox: Stop -> bool, distance: Stop -> real, rounded: Stop -> real, radius: real)

  const NEAREST_STOPS := 5

  function Seconds(s: StopTime): int {
    if s.departure.Some? then s.departure.value else 0
  }

  /** Seconds of wall-clock time since day 0. */
  function Time(x: Departure): int { x.day * 86_400 + Seconds(x.at) }

  function Instant(x: Departure): int { Time(x) * SECOND }

  // Orders ---------------------------------------------------------------------------------

  /** The merged list's sort key: (scheduled_departure, stop_id, trip_id). */
  predicate CoarseLt(a: Departure, b: Departure) {
    Time(a) < Time(b) || (Time(a) == Time(b) &&
      (StrLt(a.at.stop, b.at.stop) || (a.at.stop == b.at.stop && StrLt(a.at.trip, b.at.trip))))
  }

  predicate CoarseLe(a: Departure, b: Departure) { !CoarseLt(b, a) }

  /** The SQL order of one service day: (departure_seconds, stop_id, trip_id, stop_sequence). */
  predicate DayLt(a: Departure, b: Departure) {
    Seconds(a.at) < Seconds(b.at) || (Seconds(a.at) == Seconds(b.at) &&
      (StrLt(a.at.stop, b.at.stop) || (a.at.stop == b.at.stop &&
        (StrLt(a.at.trip, b.at.trip) || (a.at.trip == b.at.trip && a.at.sequence < b.at.sequence)))))
  }

  predicate DayLe(a: Departure, b: Departure) { !DayLt(b, a) }

  /** The order of the answer: (time, stop, trip, service day, stop_sequence). */
  predicate KeyLt(a: Departure, b: Departure) {
    CoarseLt(a, b) || (!CoarseLt(b, a) && (a.day < b.day || (a.day == b.day && a.at.sequence < b.at.sequence)))
  }

  ghost predicate SameKey(a: Departure, b: Departure) {
    Time(a) == Time(b) && a.at.stop == b.at.stop && a.at.trip == b.at.trip && a.day == b.day && a.at.sequence == b.at.sequence
  }

  lemma CoarseTransitive(a: Departure, b: Departure, c: Departure)
    ensures CoarseLt(a, b) && CoarseLt(b, c) ==> CoarseLt(a, c)
    ensures CoarseLe(a, b) && CoarseLe(b, c) ==> CoarseLe(a, c)
  {
    StrLtTotal(a.at.stop, b.at.stop); StrLtTotal(b.at.stop, c.at.stop); StrLtTotal(a.at.stop, c.at.stop);
    StrLtTotal(a.at.trip, b.at.trip); StrLtTotal(b.at.trip, c.at.trip); StrLtTotal(a.at.trip, c.at.trip);
    ChainText(a.at.stop, b.at.stop, c.at.stop);
    ChainText(a.at.trip, b.at.trip, c.at.trip);
  }

  lemma ChainText(a: string, b: string, c: string)
    ensures StrLt(a, b) && StrLt(b, c) ==> StrLt(a, c)
    ensures StrLt(c, b) && StrLt(b, a) ==> StrLt(c, a)
  {
    if StrLt(a, b) && StrLt(b, c) { StrLtTransitive(a, b, c); }
    if StrLt(c, b) && StrLt(b, a) { StrLtTransitive(c, b, a); }
  }

  lemma CoarseTies(a: Departure, b: Departure)
    ensures !(CoarseLt(a, b) && CoarseLt(b, a))
    ensures CoarseLt(a, b) || CoarseLt(b, a) ||
      (Time(a) == Time(b) && a.at.stop == b.at.stop && a.at.trip == b.at.trip)
  {
    StrLtTotal(a.at.stop, b.at.stop);
    StrLtTotal(a.at.trip, b.at.trip);
  }

  lemma KeyOrder(a: Departure, b: Departure)
    ensures !KeyLt(a, a)
    ensures KeyLt(a, b) || KeyLt(b, a) || SameKey(a, b)
    ensures a.day == b.day ==> KeyLt(a, b) == DayLt(a, b)
  {
    CoarseTies(a, b);
    CoarseTies(a, a);
    StrLtTotal(a.at.stop, b.at.stop);
    StrLtTotal(a.at.trip, b.at.trip);
  }

  lemma KeyTransitive(a: Departure, b: Departure, c: Departure)
    requires KeyLt(a, b) && KeyLt(b, c)
    ensures KeyLt(a, c)
  {
    CoarseTransitive(a, b, c);
    CoarseTransitive(b, c, a);
    CoarseTransitive(c, a, b);
    CoarseTies(a, b); CoarseTies(b, c); CoarseTies(a, c);
  }

  // The question ---------------------------------------------------------------------------

  function UpperChar(c: char): char {
    if 'a' <= c <= 'z' then (c as int - 32) as char else c
  }

  /** SQLite's UPPER changes ASCII letters only. */
  function Upper(s: string): string { seq(|s|, i requires 0 <= i < |s| => UpperChar(s[i])) }

  predicate LineMatches(line: Option<string>, r: Route) {
    line.Some? ==> Upper(r.line) == line.value
  }

  /** A departure a passenger can board: published, timed, with pickup, on an active service date. */
  ghost predicate Boardable(t: Tables, stops: seq<Stop>, line: Option<string>, x: Departure)
    requires Published(t)
  {
    && x.at in t.stopTimes && x.at.departure.Some? && x.at.pickup != 1
    && x.stop in stops && x.stop.id == x.at.stop
    && x.at.trip in t.trips && x.trip == t.trips[x.at.trip]
    && x.trip.route in t.routes && x.route == t.routes[x.trip.route]
    && LineMatches(line, x.route)
    && ActiveOn(t, x.trip.service, x.day)
  }

  /** Every boardable departure in [when, when + 24h), over every service date there is. */
  ghost function Answer(t: Tables, stops: seq<Stop>, line: Option<string>, when: int): iset<Departure>
    requires Published(t)
  {
    iset x: Departure | Boardable(t, stops, line, x) && when <= Instant(x) < when + DAY
  }

  ghost function DayAnswer(t: Tables, stops: seq<Stop>, line: Option<string>, when: int, date: int): iset<Departure>
    requires Published(t)
  {
    iset x: Departure | x in Answer(t, stops, line, when) && x.day == date
  }

  /** The primary keys make the five-part key unique. */
  lemma SameKeySameRow(t: Tables, stops: seq<Stop>, line: Option<string>, when: int, x: Departure, y: Departure)
    requires Published(t) && UniqueStops(stops)
    requires x in Answer(t, stops, line, when) && y in Answer(t, stops, line, when) && SameKey(x, y)
    ensures x == y
  {
    var i :| 0 <= i < |t.stopTimes| && t.stopTimes[i] == x.at;
    var j :| 0 <= j < |t.stopTimes| && t.stopTimes[j] == y.at;
    assert i == j;
    var k :| 0 <= k < |stops| && stops[k] == x.stop;
    var l :| 0 <= l < |stops| && stops[l] == y.stop;
    assert k == l;
  }

  lemma AnswerOrdered(t: Tables, stops: seq<Stop>, line: Option<string>, when: int)
    requires Published(t) && UniqueStops(stops)
    ensures StrictTotalOn(KeyLt, Answer(t, stops, line, when))
  {
    var all := Answer(t, stops, line, when);
    forall x, y | x in all && y in all && !KeyLt(x, y) && !KeyLt(y, x) ensures x == y {
      KeyOrder(x, y);
      SameKeySameRow(t, stops, line, when, x, y);
    }
    forall x, y, z | KeyLt(x, y) && KeyLt(y, z) ensures KeyLt(x, z) {
      KeyTransitive(x, y, z);
    }
    forall x ensures !KeyLt(x, x) { KeyOrder(x, x); }
  }

  /** The 72-hour bound on service days leaves only the four days the query reads. */
  lemma OnlyFourServiceDays(t: Tables, stops: seq<Stop>, line: Option<string>, when: int, x: Departure)
    requires Published(t) && x in Answer(t, stops, line, when)
    ensures when / DAY - 2 <= x.day <= when / DAY + 1
  {
    var today := when / DAY;
    assert today * DAY <= when < (today + 1) * DAY;
    assert 0 <= Seconds(x.at) * SECOND < 3 * DAY;
  }

  // Choosing stops ---------------------------------------------------------------------------

  predicate NearLt(n: Nearness, a: Stop, b: Stop) {
    n.rounded(a) < n.rounded(b) || (n.rounded(a) == n.rounded(b) && StrLt(a.id, b.id))
  }

  predicate IsNear(n: Nearness, s: Stop) {
    s.lat.Some? && s.lon.Some? && n.inBox(s) && n.distance(s) <= n.radius
  }

  function Near(n: Nearness, stops: seq<Stop>): seq<Stop> {
    if stops == [] then [] else (if IsNear(n, stops[0]) then [stops[0]] else []) + Near(n, stops[1..])
  }

  ghost function AllNear(n: Nearness, stops: seq<Stop>): iset<Stop> {
    iset s: Stop | s in stops && IsNear(n, s)
  }

  function NearestStops(n: Nearness, stops: seq<Stop>): seq<Stop> {
    Take(StableSort((a, b) => !NearLt(n, b, a), Near(n, stops)), NEAREST_STOPS)
  }

  function WithId(id: string, stops: seq<Stop>): seq<Stop> {
    if stops == [] then [] else (if stops[0].id == id then [stops[0]] else []) + WithId(id, stops[1..])
  }

  function SelectedStops(t: Tables, f: StopFilter): Result<seq<Stop>, QueryError> {
    match f
    case ById(id) => if WithId(id, t.stops) == [] then Err(UnknownStop) else Ok(WithId(id, t.stops))
    case Nearby(near) => Ok(NearestStops(near, t.stops))
  }

  lemma {:induction false} NearExact(n: Nearness, stops: seq<Stop>)
    requires UniqueStops(stops)
    ensures forall s :: s in Near(n, stops) <==> s in stops && IsNear(n, s)
    ensures UniqueStops(Near(n, stops))
  {
    if stops != [] {
      NearExact(n, stops[1..]);
      var rest := Near(n, stops[1..]);
      forall j | 0 <= j < |rest| ensures rest[j].id != stops[0].id {
        assert rest[j] in rest;
        assert rest[j] in stops[1..];
      }
    }
  }

  lemma {:induction false} WithIdExact(id: string, stops: seq<Stop>)
    requires UniqueStops(stops)
    ensures forall s :: s in WithId(id, stops) <==> s in stops && s.id == id
    ensures |WithId(id, stops)| <= 1
  {
    if stops != [] {
      WithIdExact(id, stops[1..]);
      var rest := WithId(id, stops[1..]);
      assert rest != [] ==> rest[0] in rest && rest[0] in stops[1..];
    }
  }

  /** A coordinate query uses exactly the five nearest stops within the radius. */
  lemma NearestFive(n: Nearness, stops: seq<Stop>)
    requires UniqueStops(stops)
    ensures IsFirstK((a, b) => NearLt(n, a, b), AllNear(n, stops), NEAREST_STOPS, NearestStops(n, stops))
    ensures UniqueStops(NearestStops(n, stops))
  {
    var near := Near(n, stops);
    var all := AllNear(n, stops);
    var lt := (a, b) => NearLt(n, a, b);
    var le := (a, b) => !NearLt(n, b, a);
    NearExact(n, stops);
    forall x, y | x in all && y in all && x != y ensures lt(x, y) || lt(y, x) {
      var i :| 0 <= i < |stops| && stops[i] == x;
      var j :| 0 <= j < |stops| && stops[j] == y;
      StrLtTotal(x.id, y.id);
    }
    forall x, y, z | lt(x, y) && lt(y, z) ensures lt(x, z) { ChainText(x.id, y.id, z.id); }
    forall x ensures !lt(x, x) { StrLtTotal(x.id, x.id); }
    forall i, j | 0 <= i < j < |near| ensures if le(near[i], near[j]) then lt(near[i], near[j]) else lt(near[j], near[i]) {
      assert near[i] in near && near[j] in near;
    }
    SortRefines(le, lt, all, near);
    SortContents(le, near);
    FirstKOfCover(lt, all, NEAREST_STOPS, near, StableSort(le, near));
    AscendingDistinct(lt, all, NearestStops(n, stops));
    DistinctStops(stops, NearestStops(n, stops));
  }

  lemma DistinctStops(stops: seq<Stop>, chosen: seq<Stop>)
    requires UniqueStops(stops) && (forall s | s in chosen :: s in stops)
    requires forall i, j | 0 <= i < j < |chosen| :: chosen[i] != chosen[j]
    ensures UniqueStops(chosen)
  {
    forall i, j | 0 <= i < j < |chosen| ensures chosen[i].id != chosen[j].id {
      assert chosen[i] in stops && chosen[j] in stops;
      var k :| 0 <= k < |stops| && stops[k] == chosen[i];
      var l :| 0 <= l < |stops| && stops[l] == chosen[j];
    }
  }

  lemma SelectedUnique(t: Tables, f: StopFilter)
    requires Published(t)
    ensures SelectedStops(t, f).Ok? ==> UniqueStops(SelectedStops(t, f).value)
  {
    match f
    case ById(id) => WithIdExact(id, t.stops);
    case Nearby(near) => NearestFive(near, t.stops);
  }

  // One service day ---------------------------------------------------------------------------

  /** The joined row, when it passes the WHERE clause for this service day. */
  function Joined(t: Tables, stops: seq<Stop>, line: Option<string>, active: set<string>, date: int, when: int, s: StopTime): Option<Departure>
  {
    var found := WithId(s.stop, stops);
    if found != [] && s.departure.Some? && s.pickup != 1 && s.trip in t.trips
       && t.trips[s.trip].service in active && t.trips[s.trip].route in t.routes
       && LineMatches(line, t.routes[t.trips[s.trip].route])
       && when - date * DAY <= s.departure.value * SECOND < when + DAY - date * DAY
    then Some(Departure(date, s, found[0], t.trips[s.trip], t.routes[t.trips[s.trip].route]))
    else None
  }

  function DayRows(t: Tables, stops: seq<Stop>, line: Option<string>, active: set<string>, date: int, when: int, rows: seq<StopTime>): seq<Departure>
  {
    if rows == [] then [] else
      var x := Joined(t, stops, line, active, date, when, rows[0]);
      (if x.Some? then [x.value] else []) + DayRows(t, stops, line, active, date, when, rows[1..])
  }

  /** One service day's SELECT ... ORDER BY ... LIMIT. */
  function SelectDay(t: Tables, stops: seq<Stop>, line: Option<string>, active: set<string>, date: int, when: int, limit: nat): seq<Departure>
  {
    Take(StableSort(DayLe, DayRows(t, stops, line, active, date, when, t.stopTimes)), limit)
  }

  lemma JoinedAt(t: Tables, stops: seq<Stop>, line: Option<string>, active: set<string>, date: int, when: int, s: StopTime)
    ensures var x := Joined(t, stops, line, active, date, when, s); x.Some? ==> x.value.at == s && x.value.day == date
  {
  }

  /** No two rows are the same call of the same trip. */
  ghost predicate DistinctCalls(d: seq<Departure>) {
    forall i, j | 0 <= i < j < |d| :: d[i].at.trip != d[j].at.trip || d[i].at.sequence != d[j].at.sequence
  }

  lemma {:induction false} DayRowsExact(t: Tables, stops: seq<Stop>, line: Option<string>, active: set<string>, date: int, when: int, rows: seq<StopTime>)
    ensures forall x :: x in DayRows(t, stops, line, active, date, when, rows) <==>
              x.at in rows && Joined(t, stops, line, active, date, when, x.at) == Some(x)
  {
    hide Joined;
    if rows != [] {
      DayRowsExact(t, stops, line, active, date, when, rows[1..]);
      JoinedAt(t, stops, line, active, date, when, rows[0]);
      assert forall s :: s in rows <==> s == rows[0] || s in rows[1..];
    }
  }

  lemma DistinctCallsPrepended(x: Departure, rest: seq<Departure>)
    requires DistinctCalls(rest)
    requires forall y | y in rest :: y.at.trip != x.at.trip || y.at.sequence != x.at.sequence
    ensures DistinctCalls([x] + rest)
  {
    var d := [x] + rest;
    forall i, j | 0 <= i < j < |d| ensures d[i].at.trip != d[j].at.trip || d[i].at.sequence != d[j].at.sequence {
      assert d[j] == rest[j - 1] && d[j] in rest;
    }
  }

  lemma {:induction false} DayRowsDistinct(t: Tables, stops: seq<Stop>, line: Option<string>, active: set<string>, date: int, when: int, rows: seq<StopTime>)
    requires UniqueStopTimes(rows)
    ensures DistinctCalls(DayRows(t, stops, line, active, date, when, rows))
  {
    hide Joined;
    if rows != [] {
      var rest := DayRows(t, stops, line, active, date, when, rows[1..]);
      var x := Joined(t, stops, line, active, date, when, rows[0]);
      DayRowsDistinct(t, stops, line, active, date, when, rows[1..]);
      DayRowsExact(t, stops, line, active, date, when, rows[1..]);
      JoinedAt(t, stops, line, active, date, when, rows[0]);
      if x.Some? { DistinctCallsPrepended(x.value, rest); } else { assert [] + rest == rest; }
    }
  }

  ghost predicate ExactlyActive(t: Tables, date: int, active: set<string>)
    requires Published(t)
  {
    forall s :: s in active <==> ActiveOn(t, s, date)
  }

  lemma JoinedExact(t: Tables, stops: seq<Stop>, line: Option<string>, active: set<string>, date: int, when: int, x: Departure)
    requires Published(t) && UniqueStops(stops) && ExactlyActive(t, date, active)
    ensures x in DayAnswer(t, stops, line, when, date) <==>
              x.at in t.stopTimes && Joined(t, stops, line, active, date, when, x.at) == Some(x)
  {
    WithIdExact(x.at.stop, stops);
    var found := WithId(x.at.stop, stops);
    if found != [] { assert found[0] in found; }
    if x.stop in found { assert found == [x.stop]; }
  }

  /** The per-day SELECT returns the first `limit` departures of that service day. */
  lemma SelectDayIsFirstK(t: Tables, stops: seq<Stop>, line: Option<string>, active: set<string>, date: int, when: int, limit: nat)
    requires Published(t) && UniqueStops(stops) && ExactlyActive(t, date, active)
    ensures IsFirstK(KeyLt, DayAnswer(t, stops, line, when, date), limit, SelectDay(t, stops, line, active, date, when, limit))
  {
    var rows := DayRows(t, stops, line, active, date, when, t.stopTimes);
    var all := DayAnswer(t, stops, line, when, date);
    DayRowsExact(t, stops, line, active, date, when, t.stopTimes);
    DayRowsDistinct(t, stops, line, active, date, when, t.stopTimes);
    forall x ensures x in rows <==> x in all { JoinedExact(t, stops, line, active, date, when, x); }
    AnswerOrdered(t, stops, line, when);
    forall i, j | 0 <= i < j < |rows|
      ensures if DayLe(rows[i], rows[j]) then KeyLt(rows[i], rows[j]) else KeyLt(rows[j], rows[i])
    {
      assert rows[i] in all && rows[j] in all;
      assert rows[i].day == date && rows[j].day == date;
      assert !SameKey(rows[i], rows[j]);
      KeyOrder(rows[i], rows[j]);
      KeyOrder(rows[j], rows[i]);
    }
    SortRefines(DayLe, KeyLt, all, rows);
    SortContents(DayLe, rows);
    FirstKOfCover(KeyLt, all, limit, rows, StableSort(DayLe, rows));
  }

  /**
    A service runs on a date when an exception adds it, or when there is no exception and a
    calendar row covers the date with a 1 for its weekday; day 1 is a Monday.
  */
  ghost predicate RunsPlainly(t: Tables, service: string, date: int)
    requires Published(t)
  {
    if exists e :: e in t.dates && e.service == service && e.date == date
    then ExceptionRow(service, date, 1) in t.dates
    else exists c :: c in t.calendar && c.service == service && c.start <= date <= c.end && c.weekdays[(date - 1) % 7] == '1'
  }

  lemma ActivePlainly(t: Tables, service: string, date: int)
    requires Published(t)
    ensures ActiveOn(t, service, date) <==> RunsPlainly(t, service, date)
  {
    assert (date + 6) % 7 == (date - 1) % 7;
    forall c | c in t.calendar ensures Runs(c, date) <==> c.start <= date <= c.end && c.weekdays[(date - 1) % 7] == '1' {}
  }

  /** The services running on a date: the weekly calendar, then the date's exceptions in turn. */
  method ActiveServices(t: Tables, date: int) returns (active: set<string>)
    requires Published(t)
    ensures ExactlyActive(t, date, active)
    ensures forall s :: s in active <==>
      if exists e :: e in t.dates && e.service == s && e.date == date
      then ExceptionRow(s, date, 1) in t.dates
      else exists c :: c in t.calendar && c.service == s && c.start <= date <= c.end && c.weekdays[(date - 1) % 7] == '1'
  {
    forall s ensures ActiveOn(t, s, date) <==> RunsPlainly(t, s, date) { ActivePlainly(t, s, date); }
    active := set c | c in t.calendar && Runs(c, date) :: c.service;
    for i := 0 to |t.dates|
      invariant forall s :: s in active <==>
        if exists e :: e in t.dates[..i] && e.service == s && e.date == date
        then ExceptionRow(s, date, 1) in t.dates[..i]
        else exists c :: c in t.calendar && c.service == s && Runs(c, date)
    {
      var e := t.dates[i];
      assert t.dates[..i + 1] == t.dates[..i] + [e];
      if e.date == date {
        if e.kind == 1 {
          active := active + {e.service};
        } else {
          active := active - {e.service};
        }
        assert e.service !in (set d | d in t.dates[..i] && d.date == date :: d.service);
      }
    }
    assert t.dates[..|t.dates|] == t.dates;
  }

  // The query ----------------------------------------------------------------------------------

  predicate InCalendar(t: Tables, when: int, maxSeconds: int)
    requires FirstDay(t).Some? && LastDay(t).Some?
  {
    var tail := if maxSeconds + 1 > 86_400 then maxSeconds + 1 else 86_400;
    FirstDay(t).value * DAY <= when < LastDay(t).value * DAY + tail * SECOND
  }

  lemma BoundsTogether(t: Tables)
    ensures FirstDay(t).Some? <==> LastDay(t).Some?
  {
    MaxOfBounds(Ends(t.calendar) + Added(t.dates));
    MinOfBounds(Starts(t.calendar) + Added(t.dates));
  }

  /** The four service days read so far, up to and including the one before `upTo`. */
  ghost function DaysAnswer(t: Tables, stops: seq<Stop>, line: Option<string>, when: int, upTo: int): iset<Departure>
    requires Published(t)
  {
    iset x: Departure | x in Answer(t, stops, line, when) && when / DAY - 2 <= x.day < upTo
  }

  /** What the loop over service days has gathered before it reads day `upTo`. */
  ghost predicate Gathered(t: Tables, stops: seq<Stop>, line: Option<string>, when: int, limit: nat, upTo: int, data: seq<Departure>)
    requires Published(t)
  {
    && Covers(KeyLt, DaysAnswer(t, stops, line, when, upTo), limit, data)
    && InDayOrder(data)
    && forall x | x in data :: x.day < upTo
  }

  ghost predicate InDayOrder(data: seq<Departure>) {
    forall i, j | 0 <= i < j < |data| :: data[i].day < data[j].day || KeyLt(data[i], data[j])
  }

  lemma GatherDay(t: Tables, stops: seq<Stop>, line: Option<string>, when: int, limit: nat, date: int, data: seq<Departure>, found: seq<Departure>)
    requires Published(t) && Gathered(t, stops, line, when, limit, date, data) && date >= when / DAY - 2
    requires IsFirstK(KeyLt, DayAnswer(t, stops, line, when, date), limit, found)
    ensures Gathered(t, stops, line, when, limit, date + 1, data + found)
  {
    assert DaysAnswer(t, stops, line, when, date + 1) ==
      DaysAnswer(t, stops, line, when, date) + DayAnswer(t, stops, line, when, date);
    CoversUnion(KeyLt, DaysAnswer(t, stops, line, when, date), DayAnswer(t, stops, line, when, date), limit, data, found);
    forall x | x in found ensures x.day == date { assert x in DayAnswer(t, stops, line, when, date); }
  }

  /** The final stable sort on (time, stop, trip) restores the full five-part order. */
  lemma MergeSorts(t: Tables, stops: seq<Stop>, line: Option<string>, when: int, data: seq<Departure>)
    requires Published(t) && UniqueStops(stops)
    requires InDayOrder(data) && Within(data, Answer(t, stops, line, when))
    ensures Ascending(KeyLt, StableSort(CoarseLe, data))
  {
    AnswerOrdered(t, stops, line, when);
    forall i, j | 0 <= i < j < |data|
      ensures if CoarseLe(data[i], data[j]) then KeyLt(data[i], data[j]) else KeyLt(data[j], data[i])
    {
      CoarseTies(data[i], data[j]);
    }
    SortRefines(CoarseLe, KeyLt, Answer(t, stops, line, when), data);
  }

  /** Sorting and cutting what the four days gave is the answer over all days. */
  lemma FourDaysSuffice(t: Tables, stops: seq<Stop>, line: Option<string>, when: int, limit: nat, data: seq<Departure>)
    requires Published(t) && UniqueStops(stops)
    requires Gathered(t, stops, line, when, limit, when / DAY + 2, data)
    ensures IsFirstK(KeyLt, Answer(t, stops, line, when), limit, Take(StableSort(CoarseLe, data), limit))
  {
    var all := Answer(t, stops, line, when);
    forall x | x in all ensures x in DaysAnswer(t, stops, line, when, when / DAY + 2) {
      OnlyFourServiceDays(t, stops, line, when, x);
    }
    assert DaysAnswer(t, stops, line, when, when / DAY + 2) == all;
    MergeSorts(t, stops, line, when, data);
    AnswerOrdered(t, stops, line, when);
    SortContents(CoarseLe, data);
    FirstKOfCover(KeyLt, all, limit, data, StableSort(CoarseLe, data));
  }

  lemma NothingToSelect(t: Tables, stops: seq<Stop>, line: Option<string>, active: set<string>, date: int, when: int, limit: nat)
    requires Published(t) && UniqueStops(stops) && ExactlyActive(t, date, active)
    requires stops == [] || active == {}
    ensures IsFirstK(KeyLt, DayAnswer(t, stops, line, when, date), limit, [])
  {
    forall x ensures x !in DayAnswer(t, stops, line, when, date) {
      JoinedExact(t, stops, line, active, date, when, x);
    }
  }

  /** When the query fails, and how; the first reason counts. */
  function Refusal(t: Tables, f: StopFilter, when: int, maxSeconds: Option<int>): Option<QueryError> {
    if SelectedStops(t, f).Err? then Some(SelectedStops(t, f).error)
    else if FirstDay(t).None? || LastDay(t).None? || maxSeconds.None? then Some(NoValidity)
    else if !InCalendar(t, when, maxSeconds.value) then Some(OutsideCalendar)
    else None
  }

  /**
    The query.  Whenever it answers, the answer is the first `limit` of all boardable
    departures in the window, over all service dates.
  */
  method Query(t: Tables, f: StopFilter, line: Option<string>, when: int, limit: nat, maxSeconds: Option<int>)
    returns (r: Result<seq<Departure>, QueryError>)
    requires Published(t)
    ensures match Refusal(t, f, when, maxSeconds)
            case Some(error) => r == Err(error)
            case None => r.Ok? && IsFirstK(KeyLt, Answer(t, SelectedStops(t, f).value, line, when), limit, r.value)
  {
    var chosen := SelectedStops(t, f);
    if chosen.Err? { return Err(chosen.error); }
    var stops := chosen.value;
    SelectedUnique(t, f);
    BoundsTogether(t);
    if FirstDay(t).None? || maxSeconds.None? { return Err(NoValidity); }
    if !InCalendar(t, when, maxSeconds.value) { return Err(OutsideCalendar); }

    var today := when / DAY;
    var data: seq<Departure> := [];
    for offset := -2 to 2
      invariant Gathered(t, stops, line, when, limit, today + offset, data)
    {
      var date := today + offset;
      var active := ActiveServices(t, date);
      var found: seq<Departure> := [];
      if stops != [] && active != {} {
        found := SelectDay(t, stops, line, active, date, when, limit);
        SelectDayIsFirstK(t, stops, line, active, date, when, limit);
      } else {
        NothingToSelect(t, stops, line, active, date, when, limit);
      }
      GatherDay(t, stops, line, when, limit, date, data, found);
      data := data + found;
    }
    FourDaysSuffice(t, stops, line, when, limit, data);
    data := StableSort(CoarseLe, data);
    return Ok(Take(data, limit));
  }

  /** Whatever the query returns is determined by its contract. */
  lemma AnswerDetermined(t: Tables, stops: seq<Stop>, line: Option<string>, when: int, limit: nat, r: seq<Departure>, s: seq<Departure>)
    requires Published(t) && UniqueStops(stops)
    requires IsFirstK(KeyLt, Answer(t, stops, line, when), limit, r)
    requires IsFirstK(KeyLt, Answer(t, stops, line, when), limit, s)
    ensures r == s
  {
    AnswerOrdered(t, stops, line, when);
    FirstKUnique(KeyLt, Answer(t, stops, line, when), limit, r, s);
  }

  /** A query refused for lying past the end of the calendar hides no departure at all. */
  lemma RefusedPastTheEndHidesNothing(t: Tables, stops: seq<Stop>, line: Option<string>, when: int, x: Departure)
    requires Published(t) && FirstDay(t).Some? && LastDay(t).Some? && MaxDeparture(t).Some?
    requires !InCalendar(t, when, MaxDeparture(t).value) && when >= FirstDay(t).value * DAY
    requires Boardable(t, stops, line, x)
    ensures Instant(x) < when
  {
    ActiveDatesWithinBounds(t, x.trip.service, x.day);
    MaxDepartureExact(t);
    assert Seconds(x.at) <= MaxDeparture(t).value;
    assert x.day * 86_400 <= LastDay(t).value * 86_400;
  }

  /**
    All that a refusal for lying outside the calendar can hide: the first service day's
    departures, from a query made less than a day before it.
  */
  lemma RefusalHidesOnlyTheEve(t: Tables, stops: seq<Stop>, line: Option<string>, when: int, x: Departure)
    requires Published(t) && FirstDay(t).Some? && LastDay(t).Some? && MaxDeparture(t).Some?
    requires !InCalendar(t, when, MaxDeparture(t).value) && x in Answer(t, stops, line, when)
    ensures FirstDay(t).value * DAY - DAY < when < FirstDay(t).value * DAY <= Instant(x)
  {
    ActiveDatesWithinBounds(t, x.trip.service, x.day);
    if when >= FirstDay(t).value * DAY { RefusedPastTheEndHidesNothing(t, stops, line, when, x); }
    assert FirstDay(t).value * DAY <= x.day * DAY <= Instant(x);
  }

  /** `x` leaves on the calendar's first service day, before the window of a query at `when` closes. */
  ghost predicate LeavesOnFirstDay(t: Tables, stops: seq<Stop>, line: Option<string>, when: int, x: Departure)
    requires Published(t) && FirstDay(t).Some?
  {
    Boardable(t, stops, line, x) && x.day == FirstDay(t).value && Instant(x) < when + DAY
  }

  /**
    Exactly when a refusal for lying outside the calendar hides an answer: the query came before
    the first service day, and a boardable departure of that day leaves within its 24 hours.
  */
  lemma RefusalHidesExactly(t: Tables, stops: seq<Stop>, line: Option<string>, when: int)
    requires Published(t) && FirstDay(t).Some? && LastDay(t).Some? && MaxDeparture(t).Some?
    requires !InCalendar(t, when, MaxDeparture(t).value)
    ensures (exists x :: x in Answer(t, stops, line, when)) <==>
              when < FirstDay(t).value * DAY && exists x :: LeavesOnFirstDay(t, stops, line, when, x)
  {
    var first := FirstDay(t).value;
    forall x | x in Answer(t, stops, line, when)
      ensures when < first * DAY && LeavesOnFirstDay(t, stops, line, when, x)
    {
      RefusalHidesOnlyTheEve(t, stops, line, when, x);
      ActiveDatesWithinBounds(t, x.trip.service, x.day);
      assert x.day * DAY <= Instant(x) < (first + 1) * DAY;
    }
    forall x | when < first * DAY && LeavesOnFirstDay(t, stops, line, when, x) ensures x in Answer(t, stops, line, when) {
      assert when < first * DAY <= x.day * DAY <= Instant(x);
    }
  }

  /** A timetable with one trip, which leaves at midnight of its only service day `d`. */
  function OneTrip(d: int): Tables {
    Tables([CalendarRow("daily", "1111111", d, d)], [], map["r" := Route("34", "")], [Stop("s", "", None, None)],
           map["t" := Trip("r", "daily", "")], [StopTime("t", "s", 1, Some(0), 1, 0)])
  }

  function MidnightTrip(d: int): Departure {
    Departure(d, StopTime("t", "s", 1, Some(0), 1, 0), Stop("s", "", None, None), Trip("r", "daily", ""), Route("34", ""))
  }

  /**
    At every moment of the last 24 hours before a first service day a query can be refused
    although it has an answer; by `RefusalHidesOnlyTheEve` at no other moment.
  */
  lemma EveCanLoseADeparture(d: int, when: int)
    requires d * DAY - DAY < when < d * DAY
    ensures var t := OneTrip(d);
      && Published(t) && FirstDay(t) == Some(d) && LastDay(t) == Some(d) && MaxDeparture(t) == Some(0)
      && SelectedStops(t, ById("s")) == Ok(t.stops)
      && !InCalendar(t, when, 0)
      && MidnightTrip(d) in Answer(t, t.stops, None, when)
  {
    var t, x := OneTrip(d), MidnightTrip(d);
    OneTripBounds(d);
    assert Runs(t.calendar[0], d);
    assert t.calendar[0] in t.calendar && t.stopTimes[0] in t.stopTimes && t.stops[0] in t.stops;
    assert ActiveOn(t, "daily", d);
    assert Boardable(t, t.stops, None, x);
    assert Instant(x) == d * DAY;
  }

  lemma OneTripBounds(d: int)
    ensures var t := OneTrip(d);
      FirstDay(t) == Some(d) && LastDay(t) == Some(d) && MaxDeparture(t) == Some(0) && SelectedStops(t, ById("s")) == Ok(t.stops)
  {
    var t := OneTrip(d);
    assert Starts(t.calendar) + Added(t.dates) == [d] && Ends(t.calendar) + Added(t.dates) == [d];
    assert [d][1..] == [] && MaxOf([]) == None && MinOf([]) == None;
    assert t.stopTimes[1..] == [] && Timed(t.stopTimes) == [0] && [0][1..] == [];
    assert t.stops[1..] == [] && WithId("s", t.stops) == [t.stops[0]];
  }

  // The same in plain terms ------------------------------------------------------------------------------

  /** Line names are compared after turning their ASCII letters into capitals. */
  ghost predicate LineIs(name: string, wanted: string) {
    && |name| == |wanted|
    && forall i | 0 <= i < |name| ::
         wanted[i] as int == if 'a' <= name[i] <= 'z' then name[i] as int - 'a' as int + 'A' as int else name[i] as int
  }

  /** What the answer holds, in terms of the rows themselves; times are seconds, `when` microseconds. */
  lemma AnswerPlainly(t: Tables, stops: seq<Stop>, line: Option<string>, when: int, x: Departure)
    requires Published(t)
    ensures x in Answer(t, stops, line, when) <==>
      && x.at in t.stopTimes && x.at.departure.Some? && x.at.pickup != 1
      && x.stop in stops && x.stop.id == x.at.stop
      && x.at.trip in t.trips && x.trip == t.trips[x.at.trip]
      && x.trip.route in t.routes && x.route == t.routes[x.trip.route]
      && (line.Some? ==> LineIs(x.route.line, line.value))
      && RunsPlainly(t, x.trip.service, x.day)
      && when <= (x.day * 86_400 + x.at.departure.value) * 1_000_000 < when + 86_400_000_000
  {
    ActivePlainly(t, x.trip.service, x.day);
    hide ActiveOn; hide RunsPlainly; hide Published;
    if line.Some? {
      var name := x.route.line;
      assert Upper(name) == line.value <==> LineIs(name, line.value);
    }
  }

  /** The order of the answer, key by key. */
  lemma OrderPlainly(a: Departure, b: Departure)
    requires a.at.departure.Some? && b.at.departure.Some?
    ensures var s, u := a.day * 86_400 + a.at.departure.value, b.day * 86_400 + b.at.departure.value;
      KeyLt(a, b) <==>
        || s < u
        || (s == u && StrLt(a.at.stop, b.at.stop))
        || (s == u && a.at.stop == b.at.stop && StrLt(a.at.trip, b.at.trip))
        || (s == u && a.at.stop == b.at.stop && a.at.trip == b.at.trip && a.day < b.day)
        || (s == u && a.at.stop == b.at.stop && a.at.trip == b.at.trip && a.day == b.day && a.at.sequence < b.at.sequence)
  {
    CoarseTies(a, b);
    StrLtTotal(a.at.stop, b.at.stop);
    StrLtTotal(a.at.trip, b.at.trip);
  }

  /**
    Of the rows a query answers with, on a date without exceptions for their service some calendar
    row of the service covers the date and has a 1 for its weekday; and a departure that qualifies
    and is not among them comes after a full answer.
  */
  lemma AnsweredRowsRun(t: Tables, stops: seq<Stop>, line: Option<string>, when: int, limit: nat, r: seq<Departure>)
    requires Published(t) && IsFirstK(KeyLt, Answer(t, stops, line, when), limit, r)
    ensures forall x | x in r && !exists e :: e in t.dates && e.service == x.trip.service && e.date == x.day ::
      exists c :: c in t.calendar && c.service == x.trip.service && c.start <= x.day <= c.end && c.weekdays[(x.day - 1) % 7] == '1'
    ensures forall x | x in Answer(t, stops, line, when) && x !in r :: |r| == limit && forall y | y in r :: KeyLt(y, x)
  {
    forall x | x in r && !exists e :: e in t.dates && e.service == x.trip.service && e.date == x.day
      ensures exists c :: c in t.calendar && c.service == x.trip.service && c.start <= x.day <= c.end && c.weekdays[(x.day - 1) % 7] == '1'
    {
      assert x in Answer(t, stops, line, when);
      AnswerPlainly(t, stops, line, when, x);
    }
  }

  /**
    A time lies within the calendar when it is no earlier than the start of some beginning of
    service, and before the end of some closing day, counted as long as the latest departure.
  */
  lemma CalendarPlainly(t: Tables, when: int, maxSeconds: int)
    requires FirstDay(t).Some? && LastDay(t).Some?
    ensures InCalendar(t, when, maxSeconds) <==>
      && (exists d :: Begins(t, d) && d * 86_400_000_000 <= when)
      && (exists d :: Closes(t, d) && (when < (d + 1) * 86_400_000_000 || when < d * 86_400_000_000 + (maxSeconds + 1) * 1_000_000))
  {
    CalendarBoundsExact(t);
  }

  /** The errors of the query, in the order of its checks. */
  lemma RefusalPlainly(t: Tables, f: StopFilter, when: int, maxSeconds: Option<int>)
    requires Published(t)
    ensures var unknown := f.ById? && !exists s :: s in t.stops && s.id == f.id;
      var empty := (forall d :: !Begins(t, d)) || maxSeconds.None?;
      && (Refusal(t, f, when, maxSeconds) == Some(UnknownStop) <==> unknown)
      && (Refusal(t, f, when, maxSeconds) == Some(NoValidity) <==> !unknown && empty)
      && (Refusal(t, f, when, maxSeconds) == Some(OutsideCalendar) <==>
            !unknown && !empty && FirstDay(t).Some? && LastDay(t).Some? && !InCalendar(t, when, maxSeconds.value))
  {
    CalendarBoundsExact(t);
    BoundsTogether(t);
    if f.ById? {
      var found := WithId(f.id, t.stops);
      WithIdExact(f.id, t.stops);
      if found != [] { assert found[0] in found; }
    }
    hide FirstDay; hide LastDay; hide InCalendar;
  }

  /**
    The stops of a coordinate query: at most five, all within the radius, by rounded distance and
    then identifier; and a stop within the radius is missing only when five come before it.
  */
  lemma NearestPlainly(n: Nearness, stops: seq<Stop>)
    requires UniqueStops(stops)
    ensures var r := NearestStops(n, stops);
      && |r| <= 5
      && (forall s | s in r :: s in stops && s.lat.Some? && s.lon.Some? && n.inBox(s) && n.distance(s) <= n.radius)
      && (forall i, j | 0 <= i < j < |r| ::
            n.rounded(r[i]) < n.rounded(r[j]) || (n.rounded(r[i]) == n.rounded(r[j]) && StrLt(r[i].id, r[j].id)))
      && forall s | s in stops && s !in r && s.lat.Some? && s.lon.Some? && n.inBox(s) && n.distance(s) <= n.radius ::
           |r| == 5 && forall y | y in r :: n.rounded(y) < n.rounded(s) || (n.rounded(y) == n.rounded(s) && StrLt(y.id, s.id))
  {
    NearestFive(n, stops);
    hide NearestStops;
    var r := NearestStops(n, stops);
    forall s | s in r ensures IsNear(n, s) && s in stops { assert s in AllNear(n, stops); }
    forall i, j | 0 <= i < j < |r| ensures NearLt(n, r[i], r[j]) {}
    forall s | s in stops && s !in r && IsNear(n, s) ensures |r| == 5 && forall y | y in r :: NearLt(n, y, s) {
      assert s in AllNear(n, stops);
    }
  }

  /** A query by identifier uses exactly the stop that has it. */
  lemma SelectedById(t: Tables, id: string, s: Stop)
    requires Published(t) && s in t.stops && s.id == id
    ensures SelectedStops(t, ById(id)) == Ok([s])
  {
    WithIdExact(id, t.stops);
    var found := WithId(id, t.stops);
    assert s in found;
    assert found == [s];
  }

  datatype Page = Page(rows: seq<Departure>, truncated: bool)

  /** The tool asks for one row more than it shows, and reports truncation from it. */
  method NextDepartures(t: Tables, f: StopFilter, line: Option<string>, when: int, limit: nat, maxSeconds: Option<int>)
    returns (r: Result<Page, QueryError>)
    requires Published(t)
    ensures match Refusal(t, f, when, maxSeconds)
            case Some(error) => r == Err(error)
            case None =>
              && r.Ok?
              && var all := Answer(t, SelectedStops(t, f).value, line, when);
                 && IsFirstK(KeyLt, all, limit, r.value.rows)
                 && (r.value.truncated <==> exists x :: x in all && x !in r.value.rows)
  {
    var found := Query(t, f, line, when, limit + 1, maxSeconds);
    BoundsTogether(t);
    if found.Err? { return Err(found.error); }
    var data := found.value;
    ghost var stops := SelectedStops(t, f).value;
    SelectedUnique(t, f);
    AnswerOrdered(t, stops, line, when);
    FirstKPlusOne(KeyLt, Answer(t, stops, line, when), limit, data);
    return Ok(Page(Take(data, limit), |data| > limit));
  }
}
