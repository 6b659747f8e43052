/**
  The check that a trip's times never run backwards: a running maximum over the rows with a
  known time, in stop_sequence order, against each row's arrival.
*/
module TripTimes {
  import opened Wrappers
  import opened Orders
  import opened ScheduleIngest

  predicate HasTime(r: StagedRow) { r.arrival.Some? || r.departure.Some? }

  /** COALESCE(departure_seconds, arrival_seconds). */
  function Leaves(r: StagedRow): int
    requires HasTime(r)
  {
    if r.departure.Some? then r.departure.value else r.arrival.value
  }

  /** COALESCE(arrival_seconds, departure_seconds). */
  function Arrives(r: StagedRow): int
    requires HasTime(r)
  {
    if r.arrival.Some? then r.arrival.value else r.departure.value
  }

  function TimedRows(rows: seq<StagedRow>, trip: string): seq<StagedRow> {
    if rows == [] then []
    else (if rows[0].trip == trip && HasTime(rows[0]) then [rows[0]] else []) + TimedRows(rows[1..], trip)
  }

  predicate SequenceLt(a: StagedRow, b: StagedRow) { a.sequence < b.sequence }

  predicate SequenceLe(a: StagedRow, b: StagedRow) { a.sequence <= b.sequence }

  /** One partition of the window: the trip's timed rows by stop_sequence. */
  function Partition(rows: seq<StagedRow>, trip: string): seq<StagedRow> {
    StableSort(SequenceLe, TimedRows(rows, trip))
  }

  /** MAX(...) OVER (ROWS BETWEEN UNBOUNDED PRECEDING AND 1 PRECEDING), carried along. */
  predicate RunsBackwards(part: seq<StagedRow>, previous: Option<int>)
    requires forall r | r in part :: HasTime(r)
  {
    part != [] &&
    ((previous.Some? && Arrives(part[0]) < previous.value) ||
     RunsBackwards(part[1..], Some(if previous.Some? && previous.value > Leaves(part[0]) then previous.value else Leaves(part[0]))))
  }

  lemma {:induction false} TimedRowsExact(rows: seq<StagedRow>, trip: string)
    ensures forall r :: r in TimedRows(rows, trip) <==> r in rows && r.trip == trip && HasTime(r)
    ensures forall r :: r in Partition(rows, trip) <==> r in rows && r.trip == trip && HasTime(r)
  {
    if rows != [] { TimedRowsExact(rows[1..], trip); }
    SortContents(SequenceLe, TimedRows(rows, trip));
  }

  /** SELECT 1 ... LIMIT 1 over all partitions. */
  ghost predicate SomeTripBackwards(rows: seq<StagedRow>) {
    exists r :: r in rows && PartitionBackwards(rows, r.trip)
  }

  predicate PartitionBackwards(rows: seq<StagedRow>, trip: string) {
    TimedRowsExact(rows, trip);
    RunsBackwards(Partition(rows, trip), None)
  }

  ghost predicate UniqueKeys(rows: seq<StagedRow>) {
    forall i, j | 0 <= i < j < |rows| :: KeyOf(rows[i]) != KeyOf(rows[j])
  }

  lemma {:induction false} TimedRowsUnique(rows: seq<StagedRow>, trip: string)
    requires UniqueKeys(rows)
    ensures UniqueKeys(TimedRows(rows, trip))
  {
    if rows != [] {
      var rest := TimedRows(rows[1..], trip);
      TimedRowsUnique(rows[1..], trip);
      TimedRowsExact(rows[1..], trip);
      forall j | 0 <= j < |rest| ensures KeyOf(rest[j]) != KeyOf(rows[0]) {
        assert rest[j] in rest && rest[j] in rows[1..];
      }
    }
  }

  lemma PartitionInSequence(rows: seq<StagedRow>, trip: string)
    requires UniqueKeys(rows)
    ensures Ascending(SequenceLt, Partition(rows, trip))
  {
    var timed := TimedRows(rows, trip);
    TimedRowsExact(rows, trip);
    TimedRowsUnique(rows, trip);
    var all := iset r: StagedRow | r in timed;
    forall a, b | a in all && b in all && a != b ensures SequenceLt(a, b) || SequenceLt(b, a) {
      var i :| 0 <= i < |timed| && timed[i] == a;
      var j :| 0 <= j < |timed| && timed[j] == b;
    }
    forall i, j | 0 <= i < j < |timed|
      ensures if SequenceLe(timed[i], timed[j]) then SequenceLt(timed[i], timed[j]) else SequenceLt(timed[j], timed[i])
    {
      assert timed[i] in timed && timed[j] in timed;
    }
    SortRefines(SequenceLe, SequenceLt, all, timed);
  }

  /** The running maximum against every earlier row at once. */
  lemma {:induction false} RunningMaximumIsAllPairs(part: seq<StagedRow>, previous: Option<int>)
    requires forall r | r in part :: HasTime(r)
    ensures !RunsBackwards(part, previous) <==>
      && (forall i, j | 0 <= i < j < |part| :: Leaves(part[i]) <= Arrives(part[j]))
      && (forall j | 0 <= j < |part| :: previous.Some? ==> previous.value <= Arrives(part[j]))
  {
    if part != [] {
      var rest := part[1..];
      var next := Some(if previous.Some? && previous.value > Leaves(part[0]) then previous.value else Leaves(part[0]));
      RunningMaximumIsAllPairs(rest, next);
      assert forall j | 0 < j < |part| :: part[j] == rest[j - 1];
      assert forall j | 0 <= j < |rest| :: rest[j] == part[j + 1];
    }
  }

  /** Leaving an earlier stop never comes after reaching a later one. */
  ghost predicate NoneBackwards(rows: seq<StagedRow>) {
    forall a, b | a in rows && b in rows && a.trip == b.trip && a.sequence < b.sequence && HasTime(a) && HasTime(b)
      :: Leaves(a) <= Arrives(b)
  }

  /** The check on a staged table accepts exactly the tables in which no pair runs backwards. */
  lemma CheckIsAllPairs(rows: seq<StagedRow>)
    requires UniqueKeys(rows)
    ensures !SomeTripBackwards(rows) <==> NoneBackwards(rows)
    ensures !SomeTripBackwards(rows) <==>
      forall a, b | a in rows && b in rows && a.trip == b.trip && a.sequence < b.sequence
                    && (a.arrival.Some? || a.departure.Some?) && (b.arrival.Some? || b.departure.Some?) ::
        (if a.departure.Some? then a.departure.value else a.arrival.value) <= (if b.arrival.Some? then b.arrival.value else b.departure.value)
  {
    assert NoneBackwards(rows) <==>
      forall a, b | a in rows && b in rows && a.trip == b.trip && a.sequence < b.sequence
                    && (a.arrival.Some? || a.departure.Some?) && (b.arrival.Some? || b.departure.Some?) ::
        (if a.departure.Some? then a.departure.value else a.arrival.value) <= (if b.arrival.Some? then b.arrival.value else b.departure.value);
    forall r | r in rows ensures PartitionBackwards(rows, r.trip) <==> !TripForwards(rows, r.trip) {
      TripCheck(rows, r.trip);
    }
    if NoneBackwards(rows) {
      assert forall r | r in rows :: TripForwards(rows, r.trip);
    }
    if !SomeTripBackwards(rows) {
      assert forall r | r in rows :: TripForwards(rows, r.trip);
    }
  }

  ghost predicate TripForwards(rows: seq<StagedRow>, trip: string) {
    forall a, b | a in rows && b in rows && a.trip == trip && b.trip == trip && a.sequence < b.sequence && HasTime(a) && HasTime(b)
      :: Leaves(a) <= Arrives(b)
  }

  lemma TripCheck(rows: seq<StagedRow>, trip: string)
    requires UniqueKeys(rows)
    ensures PartitionBackwards(rows, trip) <==> !TripForwards(rows, trip)
  {
    var part := Partition(rows, trip);
    TimedRowsExact(rows, trip);
    PartitionInSequence(rows, trip);
    RunningMaximumIsAllPairs(part, None);
    if !PartitionBackwards(rows, trip) {
      forall a, b | a in rows && b in rows && a.trip == trip && b.trip == trip && a.sequence < b.sequence && HasTime(a) && HasTime(b)
        ensures Leaves(a) <= Arrives(b)
      {
        var i :| 0 <= i < |part| && part[i] == a;
        var j :| 0 <= j < |part| && part[j] == b;
        assert i < j || SequenceLt(part[j], part[i]);
      }
    }
    if TripForwards(rows, trip) {
      forall i, j | 0 <= i < j < |part| ensures Leaves(part[i]) <= Arrives(part[j]) {
        assert part[i] in part && part[j] in part && SequenceLt(part[i], part[j]);
      }
    }
  }

  ghost predicate KnownTime(r: StagedRow, t: int) { r.arrival == Some(t) || r.departure == Some(t) }

  /** With each row's arrival <= departure, accepted known times never decrease, across untimed gaps too. */
  lemma AcceptedTimesNeverDecrease(rows: seq<StagedRow>, a: StagedRow, b: StagedRow, s: int, t: int)
    requires UniqueKeys(rows) && !SomeTripBackwards(rows) && (forall r | r in rows :: RowRules(r))
    requires a in rows && b in rows && a.trip == b.trip && a.sequence < b.sequence
    requires KnownTime(a, s) && KnownTime(b, t)
    ensures s <= t
  {
    CheckIsAllPairs(rows);
    assert Leaves(a) <= Arrives(b);
  }
}
