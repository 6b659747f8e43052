/**
  A worker's departure query on the shared database: the snapshot check and the query in one read
  transaction, with the identifier and the largest departure time the worker keeps of its load.
*/
module SnapshotQuery {
  import opened Wrappers
  import opened Orders
  import opened Timetable
  import opened ScheduleQuery
  import P = SnapshotProtocol

  datatype ReadError = Replaced | NotAnswered(error: QueryError)

  /** Tables on which the query may be asked. */
  ghost predicate Readable(db: P.Database) {
    (forall t: P.Table :: t in db.tables) && Published(P.Content(db.tables))
  }

  function TablesOf(db: P.Database): Tables
    requires Readable(db)
  {
    P.Content(db.tables)
  }

  /** `_snapshot_query`, in the transaction that sees `db`. */
  method Departures(db: P.Database, id: string, profile: string, maxDeparture: Option<int>, f: StopFilter, line: Option<string>, when: int, limit: nat)
    returns (r: Result<Page, ReadError>)
    requires P.Matches(db, id, profile) ==> Readable(db)
    ensures !P.Matches(db, id, profile) ==> r == Err(Replaced)
    ensures P.Matches(db, id, profile) ==>
      match Refusal(TablesOf(db), f, when, maxDeparture)
      case Some(error) => r == Err(NotAnswered(error))
      case None =>
        && r.Ok?
        && var all := Answer(TablesOf(db), SelectedStops(TablesOf(db), f).value, line, when);
           && IsFirstK(KeyLt, all, limit, r.value.rows)
           && (r.value.truncated <==> exists x :: x in all && x !in r.value.rows)
  {
    if !(db.meta.Some? && db.meta.value.id == id && db.meta.value.profile == profile) { return Err(Replaced); }
    hide Published; hide P.Content; hide Answer; hide IsFirstK; hide Refusal;
    var found := NextDepartures(TablesOf(db), f, line, when, limit, maxDeparture);
    if found.Err? { return Err(NotAnswered(found.error)); }
    return Ok(found.value);
  }

  /** A worker whose check passes may ask. */
  lemma CheckedReadIsReadable(states: seq<P.State>, steps: seq<P.Step>, n: nat, r: nat, p: P.Publication)
    requires P.Run(states, steps) && n < |states|
    requires r in states[n].readers && p in states[n].begun && P.Matches(states[n].readers[r], p.id, p.profile)
    ensures Readable(states[n].readers[r]) && p.maxDeparture == MaxDeparture(TablesOf(states[n].readers[r]))
  {
    P.CheckedReadMatchesItsMetadata(states, steps, n, r, p);
  }

  /**
    In every interleaving of workers, a query refused with the metadata of a publication, after
    passing the check for it, hides no departure of the tables it reads, unless it was made
    before the first service day.
  */
  lemma RefusedReadHidesNothing(states: seq<P.State>, steps: seq<P.Step>, n: nat, r: nat, p: P.Publication,
                                f: StopFilter, stops: seq<Stop>, line: Option<string>, when: int)
    requires P.Run(states, steps) && n < |states|
    requires r in states[n].readers && p in states[n].begun && P.Matches(states[n].readers[r], p.id, p.profile)
    ensures Readable(states[n].readers[r])
    ensures var t := TablesOf(states[n].readers[r]);
      Refusal(t, f, when, p.maxDeparture) == Some(OutsideCalendar) ==>
        && FirstDay(t).Some?
        && (when >= FirstDay(t).value * DAY ==> forall x | Boardable(t, stops, line, x) :: Instant(x) < when)
  {
    CheckedReadIsReadable(states, steps, n, r, p);
    var t := TablesOf(states[n].readers[r]);
    hide P.Run; hide P.Content; hide Boardable; hide Published; hide MaxDeparture; hide SelectedStops;
    if Refusal(t, f, when, p.maxDeparture) == Some(OutsideCalendar) {
      assert SelectedStops(t, f).Ok?;
      if when >= FirstDay(t).value * DAY {
        forall x | Boardable(t, stops, line, x) ensures Instant(x) < when {
          RefusedPastTheEndHidesNothing(t, stops, line, when, x);
        }
      }
    }
  }
}
