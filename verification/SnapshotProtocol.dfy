/**
  Publication of a timetable snapshot to a database that several workers share.

  A publishing worker rewrites the tables one by one inside one transaction, which SQLite lets
  a single connection hold; a reading worker sees the database as it was at its first read.
*/
module SnapshotProtocol {
  import opened Wrappers
  import T = Timetable

  datatype Table = Calendar | CalendarDates | Routes | Stops | Trips | StopTimes

  const TABLES := [Calendar, CalendarDates, Routes, Stops, Trips, StopTimes]

  /** Stop columns that older volumes lack. */
  const NEW_COLUMNS := ["stop_code", "stop_desc", "location_type"]

  /**
    A row of one of the tables.  Stop and stop-time rows have a validation column in staging,
    which the published tables lack; `more` stands for stop columns that no query looks at.
  */
  datatype Row =
    | CalendarRecord(calendar: T.CalendarRow)
    | DateRecord(date: T.ExceptionRow)
    | RouteRecord(routeId: string, route: T.Route)
    | StopRecord(stop: T.Stop, more: seq<string>, locationText: Option<string>)
    | TripRecord(tripId: string, trip: T.Trip)
    | StopTimeRecord(at: T.StopTime, arrival: Option<int>)

  datatype Meta = Meta(id: string, profile: string)

  datatype Database = Database(tables: map<Table, seq<Row>>, columns: set<string>, meta: Option<Meta>)

  /**
    One load: the staged tables, what it will be known by, and the largest departure time, which
    the worker keeps beside the identifier.
  */
  datatype Publication = Publication(stage: map<Table, seq<Row>>, id: string, profile: string, maxDeparture: Option<int>)

  predicate Complete(p: Publication) { forall t: Table :: t in p.stage }

  /** Staging's validation columns are not published. */
  function Selected(r: Row): Row {
    match r
    case StopTimeRecord(at, _) => StopTimeRecord(at, None)
    case StopRecord(stop, more, _) => StopRecord(stop, more, None)
    case _ => r
  }

  function SelectedRows(rows: seq<Row>): seq<Row> {
    seq(|rows|, i requires 0 <= i < |rows| => Selected(rows[i]))
  }

  // What the departure query finds in the tables ---------------------------------------------------

  function Pick<T>(rows: seq<Row>, f: Row -> Option<T>): seq<T> {
    if rows == [] then []
    else Pick(rows[..|rows| - 1], f) + (if f(rows[|rows| - 1]).Some? then [f(rows[|rows| - 1]).value] else [])
  }

  /** A table by its primary key. */
  function ByKey<V>(pairs: seq<(string, V)>): map<string, V> {
    if pairs == [] then map[] else ByKey(pairs[..|pairs| - 1])[pairs[|pairs| - 1].0 := pairs[|pairs| - 1].1]
  }

  function AsCalendar(r: Row): Option<T.CalendarRow> { if r.CalendarRecord? then Some(r.calendar) else None }
  function AsDate(r: Row): Option<T.ExceptionRow> { if r.DateRecord? then Some(r.date) else None }
  function AsRoute(r: Row): Option<(string, T.Route)> { if r.RouteRecord? then Some((r.routeId, r.route)) else None }
  function AsStop(r: Row): Option<T.Stop> { if r.StopRecord? then Some(r.stop) else None }
  function AsTrip(r: Row): Option<(string, T.Trip)> { if r.TripRecord? then Some((r.tripId, r.trip)) else None }
  function AsStopTime(r: Row): Option<T.StopTime> { if r.StopTimeRecord? then Some(r.at) else None }

  function Content(tables: map<Table, seq<Row>>): T.Tables
    requires forall t: Table :: t in tables
  {
    T.Tables(Pick(tables[Calendar], AsCalendar), Pick(tables[CalendarDates], AsDate), ByKey(Pick(tables[Routes], AsRoute)),
             Pick(tables[Stops], AsStop), ByKey(Pick(tables[Trips], AsTrip)), Pick(tables[StopTimes], AsStopTime))
  }

  lemma {:induction false} PickSelected<T>(rows: seq<Row>, f: Row -> Option<T>)
    requires forall r :: f(Selected(r)) == f(r)
    ensures Pick(SelectedRows(rows), f) == Pick(rows, f)
  {
    if rows != [] {
      var front := rows[..|rows| - 1];
      PickSelected(front, f);
      assert SelectedRows(rows)[..|rows| - 1] == SelectedRows(front);
    }
  }

  lemma PublishedTable(p: Publication, base: Database, t: Table)
    requires Complete(p)
    ensures t in Published(p, base).tables && Published(p, base).tables[t] == SelectedRows(p.stage[t])
  {
    var j := TableIndex(t);
    assert t in TABLES;
  }

  lemma ColumnsKept(r: Row)
    ensures AsCalendar(Selected(r)) == AsCalendar(r) && AsDate(Selected(r)) == AsDate(r)
    ensures AsRoute(Selected(r)) == AsRoute(r) && AsStop(Selected(r)) == AsStop(r)
    ensures AsTrip(Selected(r)) == AsTrip(r) && AsStopTime(Selected(r)) == AsStopTime(r)
  {
  }

  lemma ContentOfSelected(staged: map<Table, seq<Row>>, published: map<Table, seq<Row>>)
    requires forall t: Table :: t in staged && t in published && published[t] == SelectedRows(staged[t])
    ensures Content(published) == Content(staged)
  {
    forall r ensures AsCalendar(Selected(r)) == AsCalendar(r) && AsDate(Selected(r)) == AsDate(r) { ColumnsKept(r); }
    forall r ensures AsRoute(Selected(r)) == AsRoute(r) && AsStop(Selected(r)) == AsStop(r) { ColumnsKept(r); }
    forall r ensures AsTrip(Selected(r)) == AsTrip(r) && AsStopTime(Selected(r)) == AsStopTime(r) { ColumnsKept(r); }
    hide Selected; hide SelectedRows; hide Pick; hide ByKey;
    hide AsCalendar; hide AsDate; hide AsRoute; hide AsStop; hide AsTrip; hide AsStopTime;
    PickSelected(staged[Calendar], AsCalendar);
    PickSelected(staged[CalendarDates], AsDate);
    PickSelected(staged[Routes], AsRoute);
    PickSelected(staged[Stops], AsStop);
    PickSelected(staged[Trips], AsTrip);
    PickSelected(staged[StopTimes], AsStopTime);
  }

  /** Dropping the validation columns changes nothing that the query looks at. */
  lemma ContentSurvives(p: Publication, base: Database)
    requires Complete(p)
    ensures forall t: Table :: t in Published(p, base).tables
    ensures Content(Published(p, base).tables) == Content(p.stage)
  {
    hide Content; hide SelectedRows;
    forall t: Table ensures t in Published(p, base).tables && Published(p, base).tables[t] == SelectedRows(p.stage[t]) {
      PublishedTable(p, base, t);
    }
    ContentOfSelected(p.stage, Published(p, base).tables);
  }

  /** What ingestion hands over: tables the query can rely on, and their largest departure time. */
  ghost predicate Ingested(p: Publication) {
    Complete(p) && T.Published(Content(p.stage)) && p.maxDeparture == T.MaxDeparture(Content(p.stage))
  }

  /** The database after publishing `p` over `base`. */
  function Published(p: Publication, base: Database): Database
    requires Complete(p)
  {
    Database(map t | t in TABLES :: SelectedRows(p.stage[t]),
             base.columns + {NEW_COLUMNS[0], NEW_COLUMNS[1], NEW_COLUMNS[2]},
             Some(Meta(p.id, p.profile)))
  }

  // The statements of one publication ----------------------------------------------------------

  const STATEMENTS := 17

  /** Statement `n`: three column upgrades, a delete and an insert per table, then the metadata row. */
  function Execute(p: Publication, n: nat, db: Database): Database
    requires Complete(p) && n < STATEMENTS
  {
    if n < 3 then db.(columns := db.columns + {NEW_COLUMNS[n]})
    else if n < 15 then
      var t := TABLES[(n - 3) / 2];
      if n % 2 == 1 then db.(tables := db.tables[t := []])
      else
        var kept := if t in db.tables then db.tables[t] else [];
        db.(tables := db.tables[t := kept + SelectedRows(p.stage[t])])
    else if n == 15 then db.(meta := None)
    else db.(meta := Some(Meta(p.id, p.profile)))
  }

  function ExecuteFirst(p: Publication, n: nat, db: Database): Database
    requires Complete(p) && n <= STATEMENTS
  {
    if n == 0 then db else Execute(p, n - 1, ExecuteFirst(p, n - 1, db))
  }

  lemma TableCleared(p: Publication, k: nat, db: Database)
    requires Complete(p) && k < 6
    ensures Execute(p, 2 * k + 3, db) == db.(tables := db.tables[TABLES[k] := []])
  {
    assert (2 * k + 3 - 3) / 2 == k;
  }

  lemma TableFilled(p: Publication, k: nat, db: Database)
    requires Complete(p) && k < 6 && TABLES[k] in db.tables
    ensures Execute(p, 2 * k + 4, db) == db.(tables := db.tables[TABLES[k] := db.tables[TABLES[k]] + SelectedRows(p.stage[TABLES[k]])])
  {
    assert (2 * k + 4 - 3) / 2 == k;
  }

  lemma TableDone(p: Publication, k: nat, db: Database)
    requires Complete(p) && k < 6
    ensures ExecuteFirst(p, 2 * k + 5, db) ==
      var before := ExecuteFirst(p, 2 * k + 3, db);
      before.(tables := before.tables[TABLES[k] := SelectedRows(p.stage[TABLES[k]])])
  {
    hide SelectedRows; hide Execute;
    var before, t := ExecuteFirst(p, 2 * k + 3, db), TABLES[k];
    TableCleared(p, k, before);
    TableFilled(p, k, before.(tables := before.tables[t := []]));
    assert [] + SelectedRows(p.stage[t]) == SelectedRows(p.stage[t]);
    assert before.tables[t := []][t := SelectedRows(p.stage[t])] == before.tables[t := SelectedRows(p.stage[t])];
  }

  lemma ColumnsDone(p: Publication, db: Database)
    requires Complete(p)
    ensures ExecuteFirst(p, 3, db) == db.(columns := db.columns + {NEW_COLUMNS[0], NEW_COLUMNS[1], NEW_COLUMNS[2]})
  {
    var one, two := ExecuteFirst(p, 1, db), ExecuteFirst(p, 2, db);
    assert ExecuteFirst(p, 0, db) == db;
    assert one == Execute(p, 0, db) && two == Execute(p, 1, one);
    assert db.columns + {NEW_COLUMNS[0]} + {NEW_COLUMNS[1]} + {NEW_COLUMNS[2]} ==
      db.columns + {NEW_COLUMNS[0], NEW_COLUMNS[1], NEW_COLUMNS[2]};
  }

  lemma ColumnDone(p: Publication, n: nat, db: Database)
    requires Complete(p) && n < 3
    ensures ExecuteFirst(p, n + 1, db) ==
      var before := ExecuteFirst(p, n, db); before.(columns := before.columns + {NEW_COLUMNS[n]})
  {
  }

  lemma MetaDone(p: Publication, db: Database)
    requires Complete(p)
    ensures ExecuteFirst(p, STATEMENTS, db) == ExecuteFirst(p, 15, db).(meta := Some(Meta(p.id, p.profile)))
  {
    assert ExecuteFirst(p, 17, db) == Execute(p, 16, Execute(p, 15, ExecuteFirst(p, 15, db)));
  }

  lemma {:induction false} TablesDone(p: Publication, k: nat, db: Database)
    requires Complete(p) && k <= 6
    ensures var after := ExecuteFirst(p, 2 * k + 3, db);
      && after.columns == ExecuteFirst(p, 3, db).columns
      && forall j | 0 <= j < k :: TABLES[j] in after.tables && after.tables[TABLES[j]] == SelectedRows(p.stage[TABLES[j]])
  {
    hide Execute; hide SelectedRows;
    if k > 0 {
      TablesDone(p, k - 1, db);
      TableDone(p, k - 1, db);
    }
  }

  lemma TableIndex(t: Table) returns (j: nat)
    ensures j < 6 && TABLES[j] == t
  {
    j := match t case Calendar => 0 case CalendarDates => 1 case Routes => 2 case Stops => 3 case Trips => 4 case StopTimes => 5;
  }

  /** All statements together leave exactly one publication, whatever was there before. */
  lemma AllStatementsPublish(p: Publication, db: Database)
    requires Complete(p)
    ensures ExecuteFirst(p, STATEMENTS, db) == Published(p, db)
  {
    ColumnsDone(p, db);
    TablesDone(p, 6, db);
    var full := ExecuteFirst(p, 15, db);
    forall t: Table ensures t in TABLES && t in full.tables && full.tables[t] == SelectedRows(p.stage[t]) {
      var j := TableIndex(t);
    }
    assert full.tables == Published(p, db).tables;
    MetaDone(p, db);
  }

  class ScheduleDatabase {
    var committed: Database

    /** `publish_schedule`; `failAt` is the statement at which anything at all goes wrong. */
    method Publish(p: Publication, failAt: nat) returns (ok: bool)
      requires Complete(p)
      modifies this
      ensures ok <==> failAt > STATEMENTS
      ensures committed == if ok then Published(p, old(committed)) else old(committed)
    {
      hide Execute; hide SelectedRows;
      var working := committed;  // BEGIN IMMEDIATE
      for i := 0 to |NEW_COLUMNS|
        invariant working == ExecuteFirst(p, i, committed) && committed == old(committed)
        invariant failAt >= i
      {
        if failAt == i { return false; }
        if NEW_COLUMNS[i] !in working.columns {
          working := working.(columns := working.columns + {NEW_COLUMNS[i]});
        }
        ColumnDone(p, i, committed);
      }
      for i := 0 to |TABLES|
        invariant working == ExecuteFirst(p, 3 + 2 * i, committed) && committed == old(committed)
        invariant failAt >= 3 + 2 * i
      {
        var t := TABLES[i];
        if failAt == 3 + 2 * i { return false; }
        working := working.(tables := working.tables[t := []]);
        if failAt == 4 + 2 * i { return false; }
        working := working.(tables := working.tables[t := working.tables[t] + SelectedRows(p.stage[t])]);
        TableDone(p, i, committed);
        assert [] + SelectedRows(p.stage[t]) == SelectedRows(p.stage[t]);
      }
      if failAt == 15 { return false; }
      working := working.(meta := None);
      if failAt == 16 { return false; }
      working := working.(meta := Some(Meta(p.id, p.profile)));
      if failAt == 17 { return false; }
      MetaDone(p, committed);
      AllStatementsPublish(p, committed);
      committed := working;  // COMMIT
      return true;
    }

    /** `require_snapshot`. */
    method RequireSnapshot(id: string, profile: string) returns (ok: bool)
      ensures ok <==> Matches(committed, id, profile)
    {
      ok := committed.meta.Some? && committed.meta.value.id == id && committed.meta.value.profile == profile;
    }
  }

  // Interleavings of workers ---------------------------------------------------------------------

  predicate Matches(db: Database, id: string, profile: string) { db.meta == Some(Meta(id, profile)) }

  /** A transaction in progress, `done` statements in. */
  datatype Writer = Writer(p: Publication, done: nat, working: Database)

  /**
    `initial` is what earlier processes left; `published` lists the committed publications in
    order; `begun` all that ever started.  Readers are open read transactions.
  */
  datatype State = State(
    initial: Database, committed: Database, writer: Option<Writer>, readers: map<nat, Database>,
    published: seq<Publication>, begun: set<Publication>)

  datatype Step =
    | Begin(p: Publication)
    | Statement
    | Commit
    | Rollback
    | OpenReader(r: nat)
    | CloseReader(r: nat)

  predicate Start(s: State) {
    s.committed == s.initial && s.writer.None? && s.readers == map[] && s.published == [] && s.begun == {}
  }

  /** A load gives its publication an identifier never seen before. */
  ghost predicate FreshId(s: State, p: Publication) {
    && (forall q | q in s.begun :: q.id != p.id)
    && (s.initial.meta.Some? ==> s.initial.meta.value.id != p.id)
  }

  ghost predicate Next(s: State, step: Step, t: State) {
    match step
    case Begin(p) =>
      s.writer.None? && Ingested(p) && FreshId(s, p) &&
      t == s.(writer := Some(Writer(p, 0, s.committed)), begun := s.begun + {p})
    case Statement =>
      s.writer.Some? && s.writer.value.done < STATEMENTS && Complete(s.writer.value.p) &&
      (var w := s.writer.value;
       t == s.(writer := Some(w.(done := w.done + 1, working := Execute(w.p, w.done, w.working)))))
    case Commit =>
      s.writer.Some? && s.writer.value.done == STATEMENTS &&
      t == s.(committed := s.writer.value.working, writer := None, published := s.published + [s.writer.value.p])
    case Rollback =>
      s.writer.Some? && t == s.(writer := None)
    case OpenReader(r) =>
      r !in s.readers && t == s.(readers := s.readers[r := s.committed])
    case CloseReader(r) =>
      t == s.(readers := s.readers - {r})
  }

  /** The database is what was there at the start, or all of one committed publication. */
  ghost predicate AllOfOne(s: State, db: Database) {
    db == s.initial || exists p :: p in s.published && HoldsAll(p, db)
  }

  ghost predicate HoldsAll(p: Publication, db: Database) {
    Complete(p) && db == Published(p, db)
  }

  ghost predicate Invariant(s: State) {
    && AllOfOne(s, s.committed)
    && (forall r | r in s.readers :: AllOfOne(s, s.readers[r]))
    && (forall p | p in s.published :: p in s.begun)
    && (forall p | p in s.begun :: Ingested(p))
    && (forall p, q | p in s.begun && q in s.begun && p.id == q.id :: p == q)
    && (forall p | p in s.begun :: s.initial.meta.Some? ==> s.initial.meta.value.id != p.id)
    && (s.writer.Some? ==>
          && Complete(s.writer.value.p) && s.writer.value.p in s.begun && s.writer.value.done <= STATEMENTS
          && s.writer.value.working == ExecuteFirst(s.writer.value.p, s.writer.value.done, s.committed))
  }

  lemma PublishedHoldsAll(p: Publication, base: Database)
    requires Complete(p)
    ensures HoldsAll(p, Published(p, base))
  {
  }

  lemma CompleteWhenIngested(p: Publication)
    requires Ingested(p)
    ensures Complete(p)
  {
  }

  lemma StepKeepsInvariant(s: State, step: Step, t: State)
    requires Invariant(s) && Next(s, step, t)
    ensures Invariant(t)
  {
    hide Ingested;
    if step.Begin? { assert Complete(step.p) by { CompleteWhenIngested(step.p); } }
    if step.Commit? {
      var p := s.writer.value.p;
      AllStatementsPublish(p, s.committed);
      PublishedHoldsAll(p, s.committed);
      assert p in t.published && HoldsAll(p, t.committed);
    }
    forall db | AllOfOne(s, db) ensures AllOfOne(t, db) {
      if db != s.initial {
        var p :| p in s.published && HoldsAll(p, db);
        assert p in t.published;
      }
    }
  }

  ghost predicate Run(states: seq<State>, steps: seq<Step>) {
    && |states| == |steps| + 1
    && Start(states[0])
    && forall i | 0 <= i < |steps| :: Next(states[i], steps[i], states[i + 1])
  }

  lemma {:induction false} RunKeepsInvariant(states: seq<State>, steps: seq<Step>, n: nat)
    requires Run(states, steps) && n < |states|
    ensures Invariant(states[n])
  {
    if n > 0 {
      RunKeepsInvariant(states, steps, n - 1);
      StepKeepsInvariant(states[n - 1], steps[n - 1], states[n]);
    }
  }

  /** In every interleaving the committed database is all of one publication, or untouched. */
  lemma CommittedIsAllOfOne(states: seq<State>, steps: seq<Step>, n: nat)
    requires Run(states, steps) && n < |states|
    ensures AllOfOne(states[n], states[n].committed)
  {
    RunKeepsInvariant(states, steps, n);
  }

  /**
    A read transaction that passes the check for a publication its worker has loaded sees that
    publication's tables and no others, whatever the other workers do meanwhile.
  */
  lemma CheckedReadSeesItsPublication(states: seq<State>, steps: seq<Step>, n: nat, r: nat, p: Publication)
    requires Run(states, steps) && n < |states|
    requires r in states[n].readers && p in states[n].begun
    requires Matches(states[n].readers[r], p.id, p.profile)
    ensures p in states[n].published && HoldsAll(p, states[n].readers[r])
  {
    RunKeepsInvariant(states, steps, n);
    var s := states[n];
    var db := s.readers[r];
    assert db != s.initial;
    var q :| q in s.published && HoldsAll(q, db);
    assert q.id == p.id;
  }

  /**
    What a database holds that is all of one publication: for every table as many rows as were
    staged, each with the published columns as staged; the columns of an upgraded volume; and the
    publication's identifier and profile.
  */
  lemma HeldRows(p: Publication, db: Database, t: Table, i: nat)
    requires HoldsAll(p, db)
    ensures db.meta.Some? && db.meta.value.id == p.id && db.meta.value.profile == p.profile
    ensures {"stop_code", "stop_desc", "location_type"} <= db.columns
    ensures t in db.tables && |db.tables[t]| == |p.stage[t]|
    ensures i < |p.stage[t]| ==>
      match p.stage[t][i]
      case StopRecord(stop, more, _) => db.tables[t][i] == StopRecord(stop, more, None)
      case StopTimeRecord(at, _) => db.tables[t][i] == StopTimeRecord(at, None)
      case other => db.tables[t][i] == other
  {
    PublishedTable(p, db, t);
  }

  lemma {:induction false} PickExact<T>(rows: seq<Row>, f: Row -> Option<T>, x: T)
    ensures x in Pick(rows, f) <==> exists i: nat :: i < |rows| && f(rows[i]) == Some(x)
  {
    if rows != [] {
      PickExact(rows[..|rows| - 1], f, x);
      assert forall i: nat | i < |rows| - 1 :: rows[..|rows| - 1][i] == rows[i];
    }
  }

  lemma {:induction false} ByKeyExact<V>(pairs: seq<(string, V)>, k: string)
    ensures k in ByKey(pairs) <==> exists i: nat :: i < |pairs| && pairs[i].0 == k
    ensures k in ByKey(pairs) ==> exists i: nat :: i < |pairs| && pairs[i] == (k, ByKey(pairs)[k])
  {
    if pairs != [] {
      ByKeyExact(pairs[..|pairs| - 1], k);
      assert forall i: nat | i < |pairs| - 1 :: pairs[..|pairs| - 1][i] == pairs[i];
    }
  }

  /** The query's tables are the rows of the database, column by column. */
  lemma ContentPlainly(tables: map<Table, seq<Row>>)
    requires forall t: Table :: t in tables
    ensures forall c :: c in Content(tables).calendar <==> CalendarRecord(c) in tables[Calendar]
    ensures forall e :: e in Content(tables).dates <==> DateRecord(e) in tables[CalendarDates]
    ensures forall s :: s in Content(tables).stops <==> exists more, text :: StopRecord(s, more, text) in tables[Stops]
    ensures forall s :: s in Content(tables).stopTimes <==> exists arrival :: StopTimeRecord(s, arrival) in tables[StopTimes]
    ensures forall k | k in Content(tables).trips :: TripRecord(k, Content(tables).trips[k]) in tables[Trips]
    ensures forall k | k in Content(tables).routes :: RouteRecord(k, Content(tables).routes[k]) in tables[Routes]
    ensures forall k, v :: TripRecord(k, v) in tables[Trips] ==> k in Content(tables).trips
    ensures forall k, v :: RouteRecord(k, v) in tables[Routes] ==> k in Content(tables).routes
  {
    forall c ensures c in Content(tables).calendar <==> CalendarRecord(c) in tables[Calendar] { PickExact(tables[Calendar], AsCalendar, c); }
    forall e ensures e in Content(tables).dates <==> DateRecord(e) in tables[CalendarDates] { PickExact(tables[CalendarDates], AsDate, e); }
    forall s ensures s in Content(tables).stops <==> exists more, text :: StopRecord(s, more, text) in tables[Stops] {
      PickExact(tables[Stops], AsStop, s);
    }
    forall s ensures s in Content(tables).stopTimes <==> exists arrival :: StopTimeRecord(s, arrival) in tables[StopTimes] {
      PickExact(tables[StopTimes], AsStopTime, s);
    }
    forall k, v ensures (k, v) in Pick(tables[Trips], AsTrip) <==> TripRecord(k, v) in tables[Trips] { PickExact(tables[Trips], AsTrip, (k, v)); }
    forall k, v ensures (k, v) in Pick(tables[Routes], AsRoute) <==> RouteRecord(k, v) in tables[Routes] { PickExact(tables[Routes], AsRoute, (k, v)); }
    hide Pick;
    forall k ensures k in Content(tables).trips <==> exists v :: (k, v) in Pick(tables[Trips], AsTrip)
      ensures k in Content(tables).trips ==> (k, Content(tables).trips[k]) in Pick(tables[Trips], AsTrip)
    {
      ByKeyExact(Pick(tables[Trips], AsTrip), k);
    }
    forall k ensures k in Content(tables).routes <==> exists v :: (k, v) in Pick(tables[Routes], AsRoute)
      ensures k in Content(tables).routes ==> (k, Content(tables).routes[k]) in Pick(tables[Routes], AsRoute)
    {
      ByKeyExact(Pick(tables[Routes], AsRoute), k);
    }
  }

  /** So the largest departure time that the worker holds is that of the tables it reads. */
  lemma CheckedReadMatchesItsMetadata(states: seq<State>, steps: seq<Step>, n: nat, r: nat, p: Publication)
    requires Run(states, steps) && n < |states|
    requires r in states[n].readers && p in states[n].begun
    requires Matches(states[n].readers[r], p.id, p.profile)
    ensures forall t: Table :: t in states[n].readers[r].tables
    ensures var content := Content(states[n].readers[r].tables);
      T.Published(content) && p.maxDeparture == T.MaxDeparture(content)
  {
    RunKeepsInvariant(states, steps, n);
    CheckedReadSeesItsPublication(states, steps, n, r, p);
    ContentSurvives(p, states[n].readers[r]);
    hide Content; hide T.Published;
  }
}
