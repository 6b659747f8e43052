/**
  Ingestion of the timetable tables into the staging database: row rules, the trigger that
  rejects conflicting stop times, batched insertion and the aggregate row budget.
*/
module ScheduleIngest {
  import opened Wrappers
  import opened Numbers
  import opened Timetable
  import opened TimeCodec
  import opened CoordinateCodec

  // One stop-time row ------------------------------------------------------------------------

  /** The named cells of a stop_times row as the CSV reader gives them. */
  datatype RawStopTime = RawStopTime(trip: string, stop: string, sequence: string, arrival: string, departure: string, timepoint: string, pickup: string)

  datatype StagedRow = StagedRow(trip: string, stop: string, sequence: int, departure: Option<int>, timepoint: int, pickup: int, arrival: Option<int>)

  const TEXT_CAP := 500

  function CellText(value: string, required: bool): Option<string> {
    var text := Strip(value);
    if (required && text == "") || |text| > TEXT_CAP || '\0' in text then None else Some(text)
  }

  /** An enumeration cell holding one digit up to `last`; an empty cell means `default`. */
  function EnumCell(text: string, last: char, default: int): Option<int> {
    if text == "" then Some(default)
    else if |text| == 1 && IsDigit(text[0]) && text[0] <= last then Some(DigitValue(text[0]))
    else None
  }

  predicate IsSequence(text: string) { 1 <= |text| <= 8 && AllDigits(text) }

  function Known(t: ParsedTime): Option<int>
    requires !t.Invalid?
  {
    if t.At? then Some(t.seconds) else None
  }

  /** `_values` for stop_times; None is a rejected feed. */
  function StopTimeValues(raw: RawStopTime): Option<StagedRow> {
    var trip, stop := CellText(raw.trip, true), CellText(raw.stop, true);
    var sequence := CellText(raw.sequence, true);
    var arrivalText, departureText := CellText(raw.arrival, false), CellText(raw.departure, false);
    var timepointText, pickupText := CellText(raw.timepoint, false), CellText(raw.pickup, false);
    if trip.None? || stop.None? || sequence.None? || arrivalText.None? || departureText.None? || timepointText.None? || pickupText.None? then None
    else
      var arrival, departure := ParseScheduleTime(arrivalText.value), ParseScheduleTime(departureText.value);
      var timepoint, pickup := EnumCell(timepointText.value, '1', 1), EnumCell(pickupText.value, '3', 0);
      if arrival.Invalid? || departure.Invalid? || timepoint.None? || pickup.None? || !IsSequence(sequence.value) then None
      else if arrival.At? && departure.At? && arrival.seconds > departure.seconds then None
      else if timepoint.value == 1 && (arrival.Untimed? || departure.Untimed?) then None
      else Some(StagedRow(trip.value, stop.value, Natural(sequence.value), Known(departure), timepoint.value, pickup.value, Known(arrival)))
  }

  predicate InServiceDay(t: Option<int>) { t.Some? ==> 0 <= t.value <= MAX_DEPARTURE_SECONDS }

  /** What every staged row obeys. */
  predicate RowRules(r: StagedRow) {
    && InServiceDay(r.arrival) && InServiceDay(r.departure)
    && (r.arrival.Some? && r.departure.Some? ==> r.arrival.value <= r.departure.value)
    && 0 <= r.timepoint <= 1 && (r.timepoint == 1 ==> r.arrival.Some? && r.departure.Some?)
    && 0 <= r.pickup <= 3 && 0 <= r.sequence < 100_000_000
    && 0 < |r.trip| <= TEXT_CAP && 0 < |r.stop| <= TEXT_CAP
  }

  lemma {:induction false} NaturalBound(s: string)
    requires AllDigits(s)
    ensures 0 <= Natural(s) < PowerOfTen(|s|)
  {
    if s != "" {
      assert forall c :: c in s[..|s| - 1] ==> c in s;
      NaturalBound(s[..|s| - 1]);
    }
  }

  lemma {:induction false} PowerGrows(m: nat, n: nat)
    requires m <= n
    ensures PowerOfTen(m) <= PowerOfTen(n)
    decreases n - m
  {
    if m < n { PowerGrows(m + 1, n); }
  }

  lemma ParsedTimeInServiceDay(v: string)
    ensures ParseScheduleTime(v).At? ==> 0 <= ParseScheduleTime(v).seconds <= MAX_DEPARTURE_SECONDS
  {
    if ParseScheduleTime(v).At? { ParsedExactly(v, ParseScheduleTime(v).seconds); }
  }

  /** No row enters staging outside the rules the query depends on. */
  lemma AcceptedRowsObeyRules(raw: RawStopTime)
    ensures StopTimeValues(raw).Some? ==> RowRules(StopTimeValues(raw).value)
  {
    if StopTimeValues(raw).Some? {
      var sequence := CellText(raw.sequence, true).value;
      NaturalBound(sequence);
      PowerGrows(|sequence|, 8);
      assert PowerOfTen(8) == 100_000_000;
      ParsedTimeInServiceDay(CellText(raw.arrival, false).value);
      ParsedTimeInServiceDay(CellText(raw.departure, false).value);
    }
  }

  // What the cells of a row denote ---------------------------------------------------------------

  ghost predicate TextCell(cell: string, text: string) {
    Strip(cell) == text && 1 <= |text| <= 500 && '\0' !in text
  }

  /** Up to eight digits, read in base ten. */
  ghost predicate NumberCell(cell: string, n: int) {
    1 <= |Strip(cell)| <= 8 && AllDigits(Strip(cell)) && n == Natural(Strip(cell))
  }

  /** Empty, or the printed form of a time of at most 71:59:59, with or without its leading zero. */
  ghost predicate TimeCell(cell: string, time: Option<int>) {
    match time
    case None => Strip(cell) == ""
    case Some(t) => 0 <= t <= 259_199 && (Strip(cell) == PrintScheduleTime(t) || (t < 36_000 && Strip(cell) == PrintScheduleTime(t)[1..]))
  }

  /** One digit up to `last`, or empty for the default. */
  ghost predicate DigitCell(cell: string, value: int, last: int, default: int) {
    (Strip(cell) == "" && value == default) || (0 <= value <= last && |Strip(cell)| == 1 && Strip(cell)[0] as int == '0' as int + value)
  }

  lemma TimeCellExactly(cell: string, time: Option<int>)
    ensures TimeCell(cell, time) <==>
      CellText(cell, false).Some? && !ParseScheduleTime(CellText(cell, false).value).Invalid? &&
      Known(ParseScheduleTime(CellText(cell, false).value)) == time
  {
    var text := Strip(cell);
    UntimedExactly(text);
    if time.Some? {
      ParsedExactly(text, time.value);
      if 0 <= time.value <= 259_199 { PrintedPlainly(time.value); }
    }
    hide ParseScheduleTime; hide PrintScheduleTime; hide Strip;
  }

  lemma DigitCellExactly(cell: string, value: int, last: char, default: int)
    requires IsDigit(last)
    ensures DigitCell(cell, value, DigitValue(last), default) <==>
      CellText(cell, false).Some? && EnumCell(CellText(cell, false).value, last, default) == Some(value)
  {
    hide Strip;
  }

  lemma NumberCellExactly(cell: string, n: int)
    ensures NumberCell(cell, n) <==>
      CellText(cell, true).Some? && IsSequence(CellText(cell, true).value) && Natural(CellText(cell, true).value) == n
  {
    hide Strip;
  }

  /**
    A line's cells become a staged row exactly when each denotes the row's value in its column,
    the row does not leave before it arrives, and an exact row has both times.
  */
  lemma StopTimeValuesExactly(raw: RawStopTime, r: StagedRow)
    ensures StopTimeValues(raw) == Some(r) <==>
      && TextCell(raw.trip, r.trip) && TextCell(raw.stop, r.stop) && NumberCell(raw.sequence, r.sequence)
      && TimeCell(raw.arrival, r.arrival) && TimeCell(raw.departure, r.departure)
      && DigitCell(raw.timepoint, r.timepoint, 1, 1) && DigitCell(raw.pickup, r.pickup, 3, 0)
      && (r.arrival.Some? && r.departure.Some? ==> r.arrival.value <= r.departure.value)
      && (r.timepoint == 1 ==> r.arrival.Some? && r.departure.Some?)
  {
    assert TextCell(raw.trip, r.trip) <==> CellText(raw.trip, true) == Some(r.trip);
    assert TextCell(raw.stop, r.stop) <==> CellText(raw.stop, true) == Some(r.stop);
    NumberCellExactly(raw.sequence, r.sequence);
    TimeCellExactly(raw.arrival, r.arrival);
    TimeCellExactly(raw.departure, r.departure);
    DigitCellExactly(raw.timepoint, r.timepoint, '1', 1);
    DigitCellExactly(raw.pickup, r.pickup, '3', 0);
    hide TextCell; hide NumberCell; hide TimeCell; hide DigitCell;
    hide CellText; hide ParseScheduleTime; hide EnumCell; hide IsSequence; hide Natural;
  }

  function PrintNatural(n: nat): string {
    (if n < 10 then "" else PrintNatural(n / 10)) + [Digit(n % 10)]
  }

  lemma {:induction false} PrintedNatural(n: nat, digits: nat)
    requires digits >= 1 && n < PowerOfTen(digits)
    ensures var s := PrintNatural(n); 1 <= |s| <= digits && AllDigits(s) && Natural(s) == n
  {
    if n >= 10 {
      PrintedNatural(n / 10, digits - 1);
      NaturalLast(PrintNatural(n / 10), Digit(n % 10));
    } else {
      assert "" + [Digit(n)] == [Digit(n)] && AllDigits("") && Natural("") == 0;
      NaturalLast("", Digit(n));
    }
  }

  function PrintTime(t: Option<int>): string
    requires InServiceDay(t)
  {
    if t.None? then "" else PrintScheduleTime(t.value)
  }

  /** The cells of a row, printed. */
  function PrintRow(r: StagedRow): RawStopTime
    requires RowRules(r)
  {
    RawStopTime(r.trip, r.stop, PrintNatural(r.sequence), PrintTime(r.arrival), PrintTime(r.departure), [Digit(r.timepoint)], [Digit(r.pickup)])
  }

  lemma NothingToStrip(s: string)
    requires NoOuterSpace(s)
    ensures Strip(s) == s
  {
    assert "" + s + "" == s;
    StripPadded("", s, "");
  }

  lemma PrintedTimeCell(t: Option<int>)
    requires InServiceDay(t)
    ensures TimeCell(PrintTime(t), t)
  {
    if t.Some? {
      PrintedPlainly(t.value);
      var s := PrintScheduleTime(t.value);
      SpacePlainly(s[0]);
      SpacePlainly(s[7]);
      NothingToStrip(s);
    }
  }

  lemma PrintedDigitCell(d: int, last: int, default: int)
    requires 0 <= d <= last <= 9
    ensures DigitCell([Digit(d)], d, last, default)
  {
    SpacePlainly(Digit(d));
    NothingToStrip([Digit(d)]);
  }

  /** Every row that obeys the rules, with texts that have nothing to strip, is what its printed cells are staged as. */
  lemma PrintedRowAccepted(r: StagedRow)
    requires RowRules(r) && NoOuterSpace(r.trip) && NoOuterSpace(r.stop) && '\0' !in r.trip && '\0' !in r.stop
    ensures StopTimeValues(PrintRow(r)) == Some(r)
  {
    NothingToStrip(r.trip);
    NothingToStrip(r.stop);
    EightDigits();
    PrintedNatural(r.sequence, 8);
    var s := PrintNatural(r.sequence);
    assert s[0] in s && s[|s| - 1] in s;
    SpacePlainly(s[0]);
    SpacePlainly(s[|s| - 1]);
    NothingToStrip(s);
    PrintedTimeCell(r.arrival);
    PrintedTimeCell(r.departure);
    PrintedDigitCell(r.timepoint, 1, 1);
    PrintedDigitCell(r.pickup, 3, 0);
    hide DigitCell; hide TimeCell; hide StopTimeValues; hide Strip; hide PrintNatural; hide PrintTime;
    StopTimeValuesExactly(PrintRow(r), r);
  }

  lemma EightDigits()
    ensures PowerOfTen(8) == 100_000_000
  {
    assert PowerOfTen(4) == 10_000;
  }

  // The trigger --------------------------------------------------------------------------------

  type Key = (string, int)

  function KeyOf(r: StagedRow): Key { (r.trip, r.sequence) }

  predicate Untimed(r: StagedRow) { r.arrival.None? && r.departure.None? }

  /** A second row for a key is let through only when this holds of the stored row and it. */
  predicate Compatible(stored: StagedRow, row: StagedRow) {
    stored.timepoint == row.timepoint && stored.pickup == row.pickup &&
    ((stored.stop == row.stop && stored.arrival == row.arrival && stored.departure == row.departure) ||
     (stored.timepoint == 0 && Untimed(stored) && Untimed(row)))
  }

  /** The trigger's test is an equivalence relation; on timed rows of one key it is equality. */
  lemma CompatibleIsEquivalence(a: StagedRow, b: StagedRow, c: StagedRow)
    ensures Compatible(a, a)
    ensures Compatible(a, b) ==> Compatible(b, a)
    ensures Compatible(a, b) && Compatible(b, c) ==> Compatible(a, c)
    ensures KeyOf(a) == KeyOf(b) && !Untimed(a) ==> (Compatible(a, b) <==> a == b)
  {
  }

  /** Every two rows of one key are compatible; a statement that does not mention any order. */
  ghost predicate Consistent(rows: seq<StagedRow>) {
    forall a, b | a in rows && b in rows && KeyOf(a) == KeyOf(b) :: Compatible(a, b)
  }

  // The staging database ------------------------------------------------------------------------

  /** Tables other than stop_times are kept as their primary keys. */
  datatype Record = AgencyRow | KeyedRow(table: string, key: seq<string>) | StopTimeRow(row: StagedRow)

  datatype Staged = Staged(keys: set<(string, seq<string>)>, stopTimes: map<Key, StagedRow>)

  /** The state after inserts and the rows they added, or an integrity error. */
  datatype Outcome = Refused | Inserted(state: Staged, added: nat)

  function InsertOne(s: Staged, rec: Record): Outcome {
    match rec
    case AgencyRow => Inserted(s, 1)
    case KeyedRow(table, key) =>
      if (table, key) in s.keys then Refused else Inserted(s.(keys := s.keys + {(table, key)}), 1)
    case StopTimeRow(row) =>
      if KeyOf(row) !in s.stopTimes then Inserted(s.(stopTimes := s.stopTimes[KeyOf(row) := row]), 1)
      else if Compatible(s.stopTimes[KeyOf(row)], row) then Inserted(s, 0)
      else Refused
  }

  function InsertAll(s: Staged, recs: seq<Record>): Outcome {
    if recs == [] then Inserted(s, 0)
    else
      var before := InsertAll(s, recs[..|recs| - 1]);
      if before.Refused? then Refused
      else
        var last := InsertOne(before.state, recs[|recs| - 1]);
        if last.Refused? then Refused else Inserted(last.state, before.added + last.added)
  }

  function Continue(before: Outcome, recs: seq<Record>): Outcome {
    if before.Refused? then Refused
    else
      var rest := InsertAll(before.state, recs);
      if rest.Refused? then Refused else Inserted(rest.state, before.added + rest.added)
  }

  /** Inserting in two batches is inserting in one. */
  lemma {:induction false} InsertAllConcat(s: Staged, a: seq<Record>, b: seq<Record>)
    ensures InsertAll(s, a + b) == Continue(InsertAll(s, a), b)
  {
    if b == [] {
      assert a + b == a;
    } else {
      assert (a + b)[..|a + b| - 1] == a + b[..|b| - 1];
      InsertAllConcat(s, a, b[..|b| - 1]);
    }
  }

  lemma {:induction false} InsertAllCount(s: Staged, recs: seq<Record>)
    ensures InsertAll(s, recs).Inserted? ==> InsertAll(s, recs).added <= |recs|
  {
    if recs != [] { InsertAllCount(s, recs[..|recs| - 1]); }
  }

  class StagingDatabase {
    var keys: set<(string, seq<string>)>
    var stopTimes: map<Key, StagedRow>

    constructor ()
      ensures View() == Staged({}, map[])
    {
      keys := {};
      stopTimes := map[];
    }

    function View(): Staged
      reads this
    {
      Staged(keys, stopTimes)
    }

    /** `_insert`: one executemany; None is an integrity error, which discards the staging file. */
    method Insert(batch: seq<Record>) returns (inserted: Option<nat>)
      modifies this
      ensures InsertAll(old(View()), batch) == if inserted.None? then Refused else Inserted(View(), inserted.value)
    {
      var n := 0;
      for i := 0 to |batch|
        invariant InsertAll(old(View()), batch[..i]) == Inserted(View(), n)
      {
        var rec := batch[i];
        assert batch[..i + 1][..i] == batch[..i];
        match rec {
          case AgencyRow => n := n + 1;
          case KeyedRow(table, key) =>
            if (table, key) in keys {
              RejectedPrefix(old(View()), batch, i + 1);
              return None;
            }
            keys := keys + {(table, key)};
            n := n + 1;
          case StopTimeRow(row) =>
            if KeyOf(row) !in stopTimes {
              stopTimes := stopTimes[KeyOf(row) := row];
              n := n + 1;
            } else if !Compatible(stopTimes[KeyOf(row)], row) {
              RejectedPrefix(old(View()), batch, i + 1);
              return None;
            }
        }
      }
      assert batch[..|batch|] == batch;
      return Some(n);
    }
  }

  lemma RejectedPrefix(s: Staged, recs: seq<Record>, i: nat)
    requires i <= |recs| && InsertAll(s, recs[..i]).Refused?
    ensures InsertAll(s, recs).Refused?
  {
    InsertAllConcat(s, recs[..i], recs[i..]);
    assert recs == recs[..i] + recs[i..];
  }

  // One table -------------------------------------------------------------------------------------

  /**
    A CSV line: empty, of the wrong width or refused by its row rules, a route without an
    identifier, or a record to insert.
  */
  datatype Line = Blank | Malformed | NoRouteId | Good(rec: Record)

  function Records(lines: seq<Line>): seq<Record> {
    if lines == [] then []
    else Records(lines[..|lines| - 1]) + (if lines[|lines| - 1].Good? then [lines[|lines| - 1].rec] else [])
  }

  function Scanned(lines: seq<Line>): nat {
    if lines == [] then 0 else Scanned(lines[..|lines| - 1]) + (if lines[|lines| - 1].Blank? then 0 else 1)
  }

  datatype Tally = Tally(count: nat, skipped: nat)

  /** A table is taken exactly when this holds; batches play no part. */
  predicate Accepts(s: Staged, lines: seq<Line>, remaining: int) {
    && Malformed !in lines
    && Scanned(lines) <= remaining
    && InsertAll(s, Records(lines)).Inserted?
    && InsertAll(s, Records(lines)).added > 0
  }

  lemma {:induction false} LinesConcat(a: seq<Line>, b: seq<Line>)
    ensures Records(a + b) == Records(a) + Records(b)
    ensures Scanned(a + b) == Scanned(a) + Scanned(b)
  {
    if b == [] {
      assert a + b == a;
    } else {
      assert (a + b)[..|a + b| - 1] == a + b[..|b| - 1];
      LinesConcat(a, b[..|b| - 1]);
    }
  }

  lemma RejectedLines(s: Staged, lines: seq<Line>, i: nat, remaining: int)
    requires i <= |lines|
    requires Malformed in lines[..i] || Scanned(lines[..i]) > remaining || InsertAll(s, Records(lines[..i])).Refused?
    ensures !Accepts(s, lines, remaining)
  {
    LinesConcat(lines[..i], lines[i..]);
    assert lines == lines[..i] + lines[i..];
    InsertAllConcat(s, Records(lines[..i]), Records(lines[i..]));
  }

  /** The state of the reading loop: lines seen, records inserted and records still in the batch. */
  ghost predicate Progress(start: Staged, seen: seq<Line>, flushed: seq<Record>, batch: seq<Record>, now: Staged,
                           count: nat, skipped: nat, scanned: nat) {
    && Malformed !in seen
    && Records(seen) == flushed + batch
    && InsertAll(start, flushed) == Inserted(now, count)
    && scanned == Scanned(seen)
    && count + skipped + |batch| == scanned
  }

  lemma OneMoreLine(lines: seq<Line>, i: nat)
    requires i < |lines|
    ensures Records(lines[..i + 1]) == Records(lines[..i]) + if lines[i].Good? then [lines[i].rec] else []
    ensures Scanned(lines[..i + 1]) == Scanned(lines[..i]) + if lines[i].Blank? then 0 else 1
    ensures lines[..i + 1] == lines[..i] + [lines[i]]
  {
    assert lines[..i + 1][..i] == lines[..i];
  }

  lemma BatchRefused(start: Staged, lines: seq<Line>, i: nat, flushed: seq<Record>, batch: seq<Record>, now: Staged,
                     count: nat, skipped: nat, scanned: nat, remaining: int)
    requires i <= |lines| && Progress(start, lines[..i], flushed, batch, now, count, skipped, scanned)
    requires InsertAll(now, batch).Refused?
    ensures !Accepts(start, lines, remaining)
  {
    InsertAllConcat(start, flushed, batch);
    RejectedLines(start, lines, i, remaining);
  }

  lemma BatchInserted(start: Staged, seen: seq<Line>, flushed: seq<Record>, batch: seq<Record>, now: Staged,
                      count: nat, skipped: nat, scanned: nat, after: Staged, inserted: nat)
    requires Progress(start, seen, flushed, batch, now, count, skipped, scanned)
    requires InsertAll(now, batch) == Inserted(after, inserted)
    ensures inserted <= |batch|
    ensures Progress(start, seen, flushed + batch, [], after, count + inserted, skipped + |batch| - inserted, scanned)
  {
    InsertAllCount(now, batch);
    InsertAllConcat(start, flushed, batch);
  }

  lemma AllLinesSeen(start: Staged, lines: seq<Line>, flushed: seq<Record>, now: Staged,
                     count: nat, skipped: nat, scanned: nat, remaining: int)
    requires Progress(start, lines, flushed, [], now, count, skipped, scanned) && (scanned == 0 || scanned <= remaining)
    ensures Accepts(start, lines, remaining) <==> count > 0
    ensures InsertAll(start, Records(lines)) == Inserted(now, count) && count + skipped == Scanned(lines)
  {
    assert Records(lines) == flushed;
  }

  /** `_ingest`, for any batch size (the source uses 1000). */
  method Ingest(db: StagingDatabase, lines: seq<Line>, budget: int, cap: nat, batchSize: nat) returns (r: Option<Tally>)
    requires batchSize > 0
    modifies db
    ensures r.Some? <==> Accepts(old(db.View()), lines, Min(budget, cap))
    ensures r.Some? ==>
      && InsertAll(old(db.View()), Records(lines)) == Inserted(db.View(), r.value.count)
      && r.value.count + r.value.skipped == Scanned(lines)
  {
    ghost var start := db.View();
    var remaining := Min(budget, cap);
    var count: nat, skipped: nat, scanned: nat := 0, 0, 0;
    var batch: seq<Record> := [];
    ghost var flushed: seq<Record> := [];
    assert InsertAll(start, []) == Inserted(start, 0);
    hide InsertAll; hide Records; hide Scanned; hide Accepts;
    for i := 0 to |lines|
      invariant Progress(start, lines[..i], flushed, batch, db.View(), count, skipped, scanned)
      invariant |batch| < batchSize && (scanned == 0 || scanned <= remaining)
    {
      var line := lines[i];
      OneMoreLine(lines, i);
      if line.Blank? { continue; }
      scanned := scanned + 1;
      if line.Malformed? || scanned > remaining {
        RejectedLines(start, lines, i + 1, remaining);
        return None;
      }
      if line.NoRouteId? {
        skipped := skipped + 1;
        continue;
      }
      batch := batch + [line.rec];
      if |batch| >= batchSize {
        ghost var now := db.View();
        var inserted := db.Insert(batch);
        if inserted.None? {
          BatchRefused(start, lines, i + 1, flushed, batch, now, count, skipped, scanned, remaining);
          return None;
        }
        BatchInserted(start, lines[..i + 1], flushed, batch, now, count, skipped, scanned, db.View(), inserted.value);
        count := count + inserted.value;
        skipped := skipped + |batch| - inserted.value;
        flushed, batch := flushed + batch, [];
      }
    }
    assert lines[..|lines|] == lines;
    if batch != [] {
      ghost var now := db.View();
      var inserted := db.Insert(batch);
      if inserted.None? {
        BatchRefused(start, lines, |lines|, flushed, batch, now, count, skipped, scanned, remaining);
        return None;
      }
      BatchInserted(start, lines, flushed, batch, now, count, skipped, scanned, db.View(), inserted.value);
      count := count + inserted.value;
      skipped := skipped + |batch| - inserted.value;
      flushed, batch := flushed + batch, [];
    }
    AllLinesSeen(start, lines, flushed, db.View(), count, skipped, scanned, remaining);
    if count == 0 { return None; }
    return Some(Tally(count, skipped));
  }

  // Order does not matter ---------------------------------------------------------------------------

  function StopTimeRecords(rows: seq<StagedRow>): seq<Record> {
    seq(|rows|, i requires 0 <= i < |rows| => StopTimeRow(rows[i]))
  }

  /** What staging holds after a file's rows: one compatible representative of every key. */
  ghost predicate Represents(m: map<Key, StagedRow>, rows: seq<StagedRow>) {
    && (forall k | k in m :: m[k] in rows && KeyOf(m[k]) == k)
    && (forall a | a in rows :: KeyOf(a) in m && Compatible(m[KeyOf(a)], a))
  }

  /** The trigger accepts a file exactly when its rows are pairwise consistent. */
  lemma {:induction false} TriggerDecidesConsistency(keys: set<(string, seq<string>)>, rows: seq<StagedRow>)
    ensures var r := InsertAll(Staged(keys, map[]), StopTimeRecords(rows));
      && (r.Inserted? <==> Consistent(rows))
      && (r.Inserted? ==> r.state.keys == keys && Represents(r.state.stopTimes, rows) && r.added == |r.state.stopTimes|)
  {
    var recs := StopTimeRecords(rows);
    if rows != [] {
      var front, last := rows[..|rows| - 1], rows[|rows| - 1];
      assert recs[..|recs| - 1] == StopTimeRecords(front) && recs[|recs| - 1] == StopTimeRow(last);
      TriggerDecidesConsistency(keys, front);
      assert forall x :: x in rows <==> x in front || x == last;
      var before := InsertAll(Staged(keys, map[]), StopTimeRecords(front));
      if before.Inserted? {
        var m := before.state.stopTimes;
        ConsistentStep(m, front, last);
        if KeyOf(last) !in m {
          assert |m[KeyOf(last) := last]| == |m| + 1;
        }
      } else {
        assert Consistent(rows) ==> Consistent(front);
      }
    }
  }

  /** Which files pass, by their columns: no two rows of one trip and sequence differ, but for the stops of untimed rows. */
  lemma AcceptedPlainly(keys: set<(string, seq<string>)>, rows: seq<StagedRow>)
    ensures InsertAll(Staged(keys, map[]), StopTimeRecords(rows)).Inserted? <==>
      forall a, b | a in rows && b in rows && a.trip == b.trip && a.sequence == b.sequence ::
        && a.timepoint == b.timepoint && a.pickup == b.pickup && a.arrival == b.arrival && a.departure == b.departure
        && (a.stop == b.stop || (a.timepoint == 0 && a.arrival.None? && a.departure.None?))
  {
    TriggerDecidesConsistency(keys, rows);
    hide InsertAll;
    forall a, b | KeyOf(a) == KeyOf(b)
      ensures Compatible(a, b) <==>
        && a.timepoint == b.timepoint && a.pickup == b.pickup && a.arrival == b.arrival && a.departure == b.departure
        && (a.stop == b.stop || (a.timepoint == 0 && a.arrival.None? && a.departure.None?))
    {}
    hide Compatible;
  }

  function KeyedRecords(keys: seq<(string, seq<string>)>): seq<Record> {
    seq(|keys|, i requires 0 <= i < |keys| => KeyedRow(keys[i].0, keys[i].1))
  }

  lemma KeyedStep(s: Staged, front: seq<(string, seq<string>)>, last: (string, seq<string>))
    ensures var before := InsertAll(s, KeyedRecords(front));
      InsertAll(s, KeyedRecords(front + [last])) ==
        if before.Refused? || last in before.state.keys then Refused
        else Inserted(before.state.(keys := before.state.keys + {last}), before.added + 1)
  {
    var recs := KeyedRecords(front + [last]);
    assert recs[..|recs| - 1] == KeyedRecords(front) && recs[|recs| - 1] == KeyedRow(last.0, last.1);
  }

  /** The other tables pass exactly when no primary key is there already or comes twice. */
  lemma {:induction false} KeysDecide(s: Staged, keys: seq<(string, seq<string>)>)
    ensures var r := InsertAll(s, KeyedRecords(keys));
      && (r.Inserted? <==> (forall k | k in keys :: k !in s.keys) && forall i, j | 0 <= i < j < |keys| :: keys[i] != keys[j])
      && (r.Inserted? ==> r.added == |keys| && r.state == s.(keys := s.keys + set k | k in keys))
  {
    if keys != [] {
      var front, last := keys[..|keys| - 1], keys[|keys| - 1];
      assert keys == front + [last];
      KeyedStep(s, front, last);
      KeysDecide(s, front);
      hide InsertAll;
      assert s.keys + (set k | k in front) + {last} == s.keys + set k | k in keys;
    } else {
      assert s.keys + (set k | k in keys) == s.keys;
    }
  }

  /** `r` is the first row of its key. */
  ghost predicate IsFirstOfKey(rows: seq<StagedRow>, r: StagedRow) {
    exists i: nat :: i < |rows| && rows[i] == r && forall j | 0 <= j < i :: KeyOf(rows[j]) != KeyOf(r)
  }

  lemma LastInsert(keys: set<(string, seq<string>)>, front: seq<StagedRow>, last: StagedRow)
    requires InsertAll(Staged(keys, map[]), StopTimeRecords(front + [last])).Inserted?
    ensures var before := InsertAll(Staged(keys, map[]), StopTimeRecords(front));
      && before.Inserted?
      && InsertAll(Staged(keys, map[]), StopTimeRecords(front + [last])).state.stopTimes ==
           if KeyOf(last) in before.state.stopTimes then before.state.stopTimes else before.state.stopTimes[KeyOf(last) := last]
  {
    hide Compatible;
    var recs := StopTimeRecords(front + [last]);
    assert recs[..|recs| - 1] == StopTimeRecords(front) && recs[|recs| - 1] == StopTimeRow(last);
  }

  lemma FirstAppended(front: seq<StagedRow>, last: StagedRow, r: StagedRow)
    requires IsFirstOfKey(front, r) || (r == last && forall a | a in front :: KeyOf(a) != KeyOf(last))
    ensures IsFirstOfKey(front + [last], r)
  {
    var rows := front + [last];
    if IsFirstOfKey(front, r) {
      var i: nat :| i < |front| && front[i] == r && forall j | 0 <= j < i :: KeyOf(front[j]) != KeyOf(r);
      assert rows[i] == r;
    } else {
      assert rows[|front|] == last;
    }
  }

  /** Of every key, the first row is the one that stays. */
  lemma {:induction false} FirstRowKept(keys: set<(string, seq<string>)>, rows: seq<StagedRow>, k: Key)
    requires var r := InsertAll(Staged(keys, map[]), StopTimeRecords(rows)); r.Inserted? && k in r.state.stopTimes
    ensures IsFirstOfKey(rows, InsertAll(Staged(keys, map[]), StopTimeRecords(rows)).state.stopTimes[k])
  {
    TriggerDecidesConsistency(keys, rows);
    hide Compatible; hide StopTimeRecords; hide InsertAll; hide IsFirstOfKey;
    var front, last := rows[..|rows| - 1], rows[|rows| - 1];
    assert rows == front + [last];
    LastInsert(keys, front, last);
    TriggerDecidesConsistency(keys, front);
    if k in InsertAll(Staged(keys, map[]), StopTimeRecords(front)).state.stopTimes { FirstRowKept(keys, front, k); }
    FirstAppended(front, last, InsertAll(Staged(keys, map[]), StopTimeRecords(rows)).state.stopTimes[k]);
  }

  lemma ConsistentStep(m: map<Key, StagedRow>, front: seq<StagedRow>, last: StagedRow)
    requires Consistent(front) && Represents(m, front)
    ensures Consistent(front + [last]) <==> (KeyOf(last) in m ==> Compatible(m[KeyOf(last)], last))
  {
    var rows := front + [last];
    if KeyOf(last) in m {
      var s := m[KeyOf(last)];
      assert s in rows && last in rows;
      if Compatible(s, last) {
        forall a | a in front && KeyOf(a) == KeyOf(last) ensures Compatible(a, last) && Compatible(last, a) {
          CompatibleIsEquivalence(a, s, last);
          CompatibleIsEquivalence(s, a, last);
          CompatibleIsEquivalence(a, last, last);
        }
        CompatibleIsEquivalence(last, last, last);
      }
    } else {
      CompatibleIsEquivalence(last, last, last);
    }
  }

  /** The same keys, the same timed rows, and for every untimed key an untimed row with the same values. */
  ghost predicate SameTimetable(a: map<Key, StagedRow>, b: map<Key, StagedRow>) {
    && a.Keys == b.Keys
    && forall k | k in a :: Compatible(a[k], b[k]) && (Untimed(a[k]) <==> Untimed(b[k])) && (!Untimed(a[k]) ==> a[k] == b[k])
  }

  /**
    Two files with the same rows, in whatever order and however often repeated: the same verdict,
    the same number of stored rows, the same timed rows; an untimed key may keep another of its
    untimed duplicates.
  */
  lemma OrderDoesNotMatter(keys: set<(string, seq<string>)>, a: seq<StagedRow>, b: seq<StagedRow>)
    requires forall x :: x in a <==> x in b
    ensures var ra, rb := InsertAll(Staged(keys, map[]), StopTimeRecords(a)), InsertAll(Staged(keys, map[]), StopTimeRecords(b));
      && (ra.Inserted? <==> rb.Inserted?)
      && (ra.Inserted? ==>
           var ma, mb := ra.state.stopTimes, rb.state.stopTimes;
           ra.added == rb.added && SameTimetable(ma, mb))
  {
    TriggerDecidesConsistency(keys, a);
    TriggerDecidesConsistency(keys, b);
    var ra, rb := InsertAll(Staged(keys, map[]), StopTimeRecords(a)), InsertAll(Staged(keys, map[]), StopTimeRecords(b));
    if ra.Inserted? {
      var ma, mb := ra.state.stopTimes, rb.state.stopTimes;
      forall k ensures k in ma <==> k in mb {
        if k in ma { assert ma[k] in b; }
        if k in mb { assert mb[k] in a; }
      }
      assert ma.Keys == mb.Keys;
      forall k | k in ma ensures Compatible(ma[k], mb[k]) && (!Untimed(ma[k]) ==> ma[k] == mb[k]) {
        assert ma[k] in b;
        CompatibleIsEquivalence(ma[k], mb[k], mb[k]);
        CompatibleIsEquivalence(mb[k], ma[k], ma[k]);
      }
      assert |ma| == |ma.Keys| && |mb| == |mb.Keys|;
    }
  }

  /** The rows of a stop_times file. */
  function RowsOf(lines: seq<Line>): seq<StagedRow> {
    if lines == [] then []
    else
      var last := lines[|lines| - 1];
      RowsOf(lines[..|lines| - 1]) + (if last.Good? && last.rec.StopTimeRow? then [last.rec.row] else [])
  }

  ghost predicate IsStopTimesFile(lines: seq<Line>) { forall l | l in lines && l.Good? :: l.rec.StopTimeRow? }

  lemma {:induction false} StopTimesFileRows(lines: seq<Line>)
    requires IsStopTimesFile(lines)
    ensures Records(lines) == StopTimeRecords(RowsOf(lines))
    ensures forall x :: x in RowsOf(lines) <==> Good(StopTimeRow(x)) in lines
    ensures Scanned(lines) == |lines| - multiset(lines)[Blank]
  {
    if lines != [] {
      var front, last := lines[..|lines| - 1], lines[|lines| - 1];
      assert lines == front + [last];
      assert forall l :: l in front ==> l in lines;
      assert last in lines;
      StopTimesFileRows(front);
    }
  }

  /** Every permutation of a stop_times file gets the same verdict, the same tally and the same timetable. */
  lemma FileOrderDoesNotMatter(keys: set<(string, seq<string>)>, a: seq<Line>, b: seq<Line>, remaining: int)
    requires IsStopTimesFile(a) && multiset(a) == multiset(b)
    ensures var s := Staged(keys, map[]);
      && (Accepts(s, a, remaining) <==> Accepts(s, b, remaining))
      && (Accepts(s, a, remaining) ==>
            var ra, rb := InsertAll(s, Records(a)), InsertAll(s, Records(b));
            && ra.added == rb.added && Scanned(a) == Scanned(b)
            && ra.state.keys == rb.state.keys == keys && SameTimetable(ra.state.stopTimes, rb.state.stopTimes))
  {
    forall l ensures l in a <==> l in b {
      assert l in a <==> l in multiset(a);
      assert l in b <==> l in multiset(b);
    }
    assert |multiset(a)| == |a| && |multiset(b)| == |b|;
    StopTimesFileRows(a);
    StopTimesFileRows(b);
    TriggerDecidesConsistency(keys, RowsOf(a));
    TriggerDecidesConsistency(keys, RowsOf(b));
    OrderDoesNotMatter(keys, RowsOf(a), RowsOf(b));
    hide InsertAll; hide SameTimetable; hide Represents; hide Consistent;
  }

  // All tables ---------------------------------------------------------------------------------------

  datatype TableSource = TableSource(lines: seq<Line>, cap: nat)

  function TotalScanned(sources: seq<TableSource>): nat {
    if sources == [] then 0 else TotalScanned(sources[..|sources| - 1]) + Scanned(sources[|sources| - 1].lines)
  }

  function AllRecords(sources: seq<TableSource>): seq<Record> {
    if sources == [] then [] else AllRecords(sources[..|sources| - 1]) + Records(sources[|sources| - 1].lines)
  }

  function Total(tallies: seq<Tally>): nat {
    if tallies == [] then 0 else Total(tallies[..|tallies| - 1]) + tallies[|tallies| - 1].count + tallies[|tallies| - 1].skipped
  }

  /** Table `i` can be taken, with the tables before it already staged. */
  ghost predicate TakenAt(s: Staged, sources: seq<TableSource>, maxRows: nat, i: nat)
    requires i < |sources|
  {
    && InsertAll(s, AllRecords(sources[..i])).Inserted?
    && Accepts(InsertAll(s, AllRecords(sources[..i])).state, sources[i].lines,
               Min(maxRows - TotalScanned(sources[..i]), sources[i].cap))
  }

  /** Every table within its own cap and not empty, and all rows within the budget. */
  ghost predicate WithinBudget(sources: seq<TableSource>, tallies: seq<Tally>, maxRows: nat) {
    && |tallies| == |sources|
    && (forall i | 0 <= i < |sources| ::
          tallies[i].count + tallies[i].skipped == Scanned(sources[i].lines) <= sources[i].cap && tallies[i].count > 0)
    && Total(tallies) == TotalScanned(sources) <= maxRows
  }

  /** What the loop over tables has established after the tables in `done`. */
  ghost predicate Loaded(start: Staged, done: seq<TableSource>, tallies: seq<Tally>, maxRows: nat, used: nat, now: Staged) {
    && WithinBudget(done, tallies, maxRows)
    && used == Total(tallies)
    && InsertAll(start, AllRecords(done)).Inserted?
    && InsertAll(start, AllRecords(done)).state == now
  }

  lemma LoadStep(start: Staged, done: seq<TableSource>, tallies: seq<Tally>, maxRows: nat, used: nat, before: Staged,
                 source: TableSource, tally: Tally, after: Staged)
    requires Loaded(start, done, tallies, maxRows, used, before)
    requires Accepts(before, source.lines, Min(maxRows - used, source.cap))
    requires InsertAll(before, Records(source.lines)) == Inserted(after, tally.count)
    requires tally.count + tally.skipped == Scanned(source.lines)
    ensures Loaded(start, done + [source], tallies + [tally], maxRows, used + tally.count + tally.skipped, after)
  {
    hide TotalScanned; hide AllRecords; hide Total; hide InsertAll; hide Records; hide Scanned;
    SourceAppended(done, source);
    TallyAppended(tallies, tally);
    InsertAllConcat(start, AllRecords(done), Records(source.lines));
    var all := tallies + [tally];
    assert forall i | 0 <= i < |tallies| :: all[i] == tallies[i] && (done + [source])[i] == done[i];
  }

  lemma SourceAppended(done: seq<TableSource>, source: TableSource)
    ensures TotalScanned(done + [source]) == TotalScanned(done) + Scanned(source.lines)
    ensures AllRecords(done + [source]) == AllRecords(done) + Records(source.lines)
  {
    assert (done + [source])[..|done|] == done;
  }

  lemma TallyAppended(tallies: seq<Tally>, tally: Tally)
    ensures Total(tallies + [tally]) == Total(tallies) + tally.count + tally.skipped
  {
    assert (tallies + [tally])[..|tallies|] == tallies;
  }

  /** The loop over tables in `load`: every scanned row, kept or skipped, counts against one budget. */
  method LoadTables(db: StagingDatabase, sources: seq<TableSource>, maxRows: nat) returns (r: Option<seq<Tally>>)
    modifies db
    ensures r.Some? <==> forall i | 0 <= i < |sources| :: TakenAt(old(db.View()), sources, maxRows, i)
    ensures r.Some? ==> WithinBudget(sources, r.value, maxRows)
    ensures r.Some? ==> InsertAll(old(db.View()), AllRecords(sources)).Inserted?
                        && InsertAll(old(db.View()), AllRecords(sources)).state == db.View()
  {
    ghost var start := db.View();
    var tallies: seq<Tally> := [];
    var used: nat := 0;
    assert Loaded(start, sources[..0], tallies, maxRows, used, start);
    hide InsertAll; hide AllRecords; hide TotalScanned; hide Total; hide Accepts; hide Records; hide Scanned;
    for i := 0 to |sources|
      invariant Loaded(start, sources[..i], tallies, maxRows, used, db.View())
      invariant forall j | 0 <= j < i :: TakenAt(start, sources, maxRows, j)
    {
      ghost var before := db.View();
      var tally := Ingest(db, sources[i].lines, maxRows - used, sources[i].cap, 1000);
      if tally.None? {
        assert !TakenAt(start, sources, maxRows, i);
        return None;
      }
      assert TakenAt(start, sources, maxRows, i);
      assert sources[..i + 1] == sources[..i] + [sources[i]];
      LoadStep(start, sources[..i], tallies, maxRows, used, before, sources[i], tally.value, db.View());
      used := used + tally.value.count + tally.value.skipped;
      tallies := tallies + [tally.value];
    }
    assert sources[..|sources|] == sources;
    return Some(tallies);
  }

  // Publication ---------------------------------------------------------------------------------------

  /** The six published columns. */
  function PublishedRow(r: StagedRow): StopTime {
    StopTime(r.trip, r.stop, r.sequence, r.departure, r.timepoint, r.pickup)
  }

  /** A line of a stop_times file as the CSV reader gives it: its number of cells, and those with a name. */
  datatype CsvLine = CsvLine(width: nat, cells: RawStopTime)

  function StopTimeLine(columns: nat, line: CsvLine): Line {
    if line.width == 0 then Blank
    else if line.width != columns || StopTimeValues(line.cells).None? then Malformed
    else Good(StopTimeRow(StopTimeValues(line.cells).value))
  }

  function StopTimeLines(columns: nat, file: seq<CsvLine>): seq<Line> {
    seq(|file|, i requires 0 <= i < |file| => StopTimeLine(columns, file[i]))
  }

  lemma LinesAreStopTimes(columns: nat, file: seq<CsvLine>)
    ensures IsStopTimesFile(StopTimeLines(columns, file))
  {
    hide StopTimeValues;
  }

  lemma StagedFrom(keys: set<(string, seq<string>)>, lines: seq<Line>, k: Key) returns (i: nat)
    requires IsStopTimesFile(lines)
    requires var r := InsertAll(Staged(keys, map[]), Records(lines)); r.Inserted? && k in r.state.stopTimes
    ensures var row := InsertAll(Staged(keys, map[]), Records(lines)).state.stopTimes[k];
      i < |lines| && lines[i] == Good(StopTimeRow(row)) && KeyOf(row) == k
  {
    StopTimesFileRows(lines);
    TriggerDecidesConsistency(keys, RowsOf(lines));
    var row := InsertAll(Staged(keys, map[]), Records(lines)).state.stopTimes[k];
    hide InsertAll; hide Compatible; hide Consistent;
    assert Good(StopTimeRow(row)) in lines;
    i :| 0 <= i < |lines| && lines[i] == Good(StopTimeRow(row));
  }

  /** Every row that a stop_times file puts into staging comes from a line of the right width whose cells denote it. */
  lemma StagedRowHasItsLine(keys: set<(string, seq<string>)>, columns: nat, file: seq<CsvLine>, k: Key) returns (i: nat)
    requires var r := InsertAll(Staged(keys, map[]), Records(StopTimeLines(columns, file))); r.Inserted? && k in r.state.stopTimes
    ensures var row := InsertAll(Staged(keys, map[]), Records(StopTimeLines(columns, file))).state.stopTimes[k];
      && i < |file| && file[i].width == columns
      && row.trip == k.0 && row.sequence == k.1
      && var cells := file[i].cells;
      && TextCell(cells.trip, row.trip) && TextCell(cells.stop, row.stop) && NumberCell(cells.sequence, row.sequence)
      && TimeCell(cells.arrival, row.arrival) && TimeCell(cells.departure, row.departure)
      && DigitCell(cells.timepoint, row.timepoint, 1, 1) && DigitCell(cells.pickup, row.pickup, 3, 0)
  {
    LinesAreStopTimes(columns, file);
    i := StagedFrom(keys, StopTimeLines(columns, file), k);
    hide InsertAll; hide TextCell; hide NumberCell; hide TimeCell; hide DigitCell; hide StopTimeValues; hide Records;
    StopTimeValuesExactly(file[i].cells, InsertAll(Staged(keys, map[]), Records(StopTimeLines(columns, file))).state.stopTimes[k]);
  }

  /** The line printed from a row that obeys the rules is accepted as that row. */
  lemma PrintedLineAccepted(columns: nat, r: StagedRow)
    requires columns > 0 && RowRules(r) && NoOuterSpace(r.trip) && NoOuterSpace(r.stop) && '\0' !in r.trip && '\0' !in r.stop
    ensures StopTimeLine(columns, CsvLine(columns, PrintRow(r))) == Good(StopTimeRow(r))
  {
    PrintedRowAccepted(r);
  }

  /** Every row that a stop_times file puts into staging obeys the row rules. */
  lemma StagedRowsObeyRules(keys: set<(string, seq<string>)>, columns: nat, file: seq<CsvLine>, k: Key)
    requires var r := InsertAll(Staged(keys, map[]), Records(StopTimeLines(columns, file))); r.Inserted? && k in r.state.stopTimes
    ensures var row := InsertAll(Staged(keys, map[]), Records(StopTimeLines(columns, file))).state.stopTimes[k];
      RowRules(row) && KeyOf(row) == k
  {
    LinesAreStopTimes(columns, file);
    var i := StagedFrom(keys, StopTimeLines(columns, file), k);
    hide InsertAll; hide StopTimeValues; hide Records; hide RowRules;
    AcceptedRowsObeyRules(file[i].cells);
  }

  /**
    From the feed to the query: whatever a stop_times file holds, once `Ingest` has taken it and
    its rows are published in any storage order, they meet what the departure query requires.
  */
  lemma AcceptedFileIsQueryable(keys: set<(string, seq<string>)>, columns: nat, file: seq<CsvLine>, remaining: int, order: seq<Key>)
    requires Accepts(Staged(keys, map[]), StopTimeLines(columns, file), remaining)
    requires forall i, j | 0 <= i < j < |order| :: order[i] != order[j]
    requires forall k | k in order :: k in InsertAll(Staged(keys, map[]), Records(StopTimeLines(columns, file))).state.stopTimes
    ensures var m := InsertAll(Staged(keys, map[]), Records(StopTimeLines(columns, file))).state.stopTimes;
      var rows := seq(|order|, i requires 0 <= i < |order| => PublishedRow(m[order[i]]));
      && UniqueStopTimes(rows) && TimesInServiceDay(rows)
      && forall i | 0 <= i < |order| ::
           var r := m[order[i]];
           && rows[i].trip == r.trip && rows[i].stop == r.stop && rows[i].sequence == r.sequence
           && rows[i].departure == r.departure && rows[i].timepoint == r.timepoint && rows[i].pickup == r.pickup
  {
    hide InsertAll; hide Records; hide StopTimeLines; hide RowRules;
    var m := InsertAll(Staged(keys, map[]), Records(StopTimeLines(columns, file))).state.stopTimes;
    var rows := seq(|order|, i requires 0 <= i < |order| => PublishedRow(m[order[i]]));
    forall i | 0 <= i < |rows|
      ensures rows[i].trip == order[i].0 && rows[i].sequence == order[i].1
      ensures rows[i].departure.Some? ==> 0 <= rows[i].departure.value <= MAX_DEPARTURE_SECONDS
    {
      assert order[i] in order;
      StagedRowsObeyRules(keys, columns, file, order[i]);
      RulesBoundDeparture(m[order[i]]);
    }
  }

  lemma RulesBoundDeparture(r: StagedRow)
    requires RowRules(r)
    ensures InServiceDay(r.departure)
  {
  }
}
