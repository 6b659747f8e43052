/**
  The water utility's dam and fault sources: live sources in order, then a stale relay answer,
  then a configured snapshot that must be within its age window.

  A load clears the client's report fields before its first await and writes them in the segment
  after its last one, in which its caller also reads them.  Other loads of the same client may
  run in between.
*/
module IskiFallback {
  import opened Wrappers
  import opened Rates
  import opened SourceCache

  /** The date a source's answer reports; the official and the direct fault sources report none. */
  datatype Date = Sets(at: Option<string>) | Leaves

  /** What one configured live source does: fail, or answer; only a relay's answer can be stale. */
  datatype Answer = Failed | Answered(body: string, stale: bool, date: Date)

  /** A configured snapshot, as far as it could be decoded. */
  datatype Configured = Undecodable | Dated(body: string, capturedText: string, capture: Capture)

  datatype Failure = SourceFailed(source: nat) | BadSnapshot

  /** Where the last answer came from. */
  datatype Mode = FromSource(i: nat) | FromSnapshot

  /** The client's `last_*` fields. */
  datatype Report = Report(source: Option<Mode>, updatedAt: Option<string>, stale: bool, maxAge: Option<real>)

  const CLEARED := Report(None, None, false, None)

  function WithDate(r: Report, d: Date): Report { if d.Sets? then r.(updatedAt := d.at) else r }

  predicate IsLive(a: Answer) { a.Answered? && !a.stale }

  predicate IsOutdated(a: Answer) { a.Answered? && a.stale }

  ghost predicate FirstWhere(sources: seq<Answer>, p: Answer -> bool, i: nat) {
    i < |sources| && p(sources[i]) && forall j | 0 <= j < i :: !p(sources[j])
  }

  ghost predicate NoneWhere(sources: seq<Answer>, p: Answer -> bool) { forall i | 0 <= i < |sources| :: !p(sources[i]) }

  /** Whether a load ends with the snapshot as its answer, and the age then left. */
  function UsableSnapshot(snapshot: Option<Configured>, now: real): Option<real> {
    if snapshot.Some? && snapshot.value.Dated? then RemainingAge(snapshot.value.capture, now) else None
  }

  /** The first position that passes the test. */
  function First(p: Answer -> bool, sources: seq<Answer>): Option<nat> {
    if sources == [] then None
    else
      var last := |sources| - 1;
      var before := First(p, sources[..last]);
      if before.Some? then before else if p(sources[last]) then Some(last) else None
  }

  lemma {:induction false} FirstExact(p: Answer -> bool, sources: seq<Answer>)
    ensures match First(p, sources) case Some(i) => FirstWhere(sources, p, i) case None => NoneWhere(sources, p)
  {
    if sources != [] {
      var front := sources[..|sources| - 1];
      FirstExact(p, front);
      assert forall j | 0 <= j < |front| :: front[j] == sources[j];
    }
  }

  lemma {:induction false} FirstOfPrefix(p: Answer -> bool, sources: seq<Answer>, n: nat)
    requires n <= |sources| && First(p, sources[..n]).Some?
    ensures First(p, sources) == First(p, sources[..n])
  {
    if n < |sources| {
      var front := sources[..|sources| - 1];
      assert front[..n] == sources[..n];
      FirstOfPrefix(p, front, n);
    } else {
      assert sources[..n] == sources;
    }
  }

  lemma OutdatedInRange(sources: seq<Answer>)
    ensures First(IsOutdated, sources).Some? ==> First(IsOutdated, sources).value < |sources| && sources[First(IsOutdated, sources).value].Answered?
  {
    FirstExact(IsOutdated, sources);
  }

  lemma FirstOfNone(p: Answer -> bool)
    ensures First(p, []).None?
  {
  }

  lemma FirstStep(p: Answer -> bool, sources: seq<Answer>, i: nat)
    requires i < |sources|
    ensures First(p, sources[..i + 1]) ==
      if First(p, sources[..i]).Some? then First(p, sources[..i]) else if p(sources[i]) then Some(i) else None
  {
    assert sources[..i + 1][..i] == sources[..i];
  }

  datatype Ending = Ending(report: Report, result: Result<string, Failure>)

  /** The end of a load that finds the report as `before`. */
  function Ended(before: Report, sources: seq<Answer>, snapshot: Option<Configured>, now: real): Ending
    requires sources != []
  {
    FirstExact(IsLive, sources);
    FirstExact(IsOutdated, sources);
    match (First(IsLive, sources), First(IsOutdated, sources))
    case (Some(i), _) =>
      Ending(WithDate(before.(source := Some(FromSource(i))), sources[i].date), Ok(sources[i].body))
    case (None, Some(i)) =>
      Ending(WithDate(before.(source := Some(FromSource(i)), stale := true), sources[i].date), Ok(sources[i].body))
    case (None, None) =>
      var left := UsableSnapshot(snapshot, now);
      if left.Some? then
        Ending(before.(source := Some(FromSnapshot), updatedAt := Some(snapshot.value.capturedText), maxAge := left), Ok(snapshot.value.body))
      else
        Ending(before, Err(if snapshot.None? then SourceFailed(|sources| - 1) else BadSnapshot))
  }

  /**
    The answer is the first fresh source's; failing that the first stale one's; failing that the
    snapshot's, if it is dated and within its window, and only then does the end of the load set
    an age.  What is not set stays as the report was found.
  */
  lemma EndedExactly(before: Report, sources: seq<Answer>, snapshot: Option<Configured>, now: real)
    requires sources != []
    ensures var e := Ended(before, sources, snapshot, now);
      && (forall i: nat | i < |sources| && sources[i].Answered? && !sources[i].stale && (forall j | 0 <= j < i :: sources[j].Failed? || sources[j].stale) ::
            && e.result == Ok(sources[i].body)
            && e.report == Report(Some(FromSource(i)), if sources[i].date.Sets? then sources[i].date.at else before.updatedAt, before.stale, before.maxAge))
      && ((forall j | 0 <= j < |sources| :: sources[j].Failed? || sources[j].stale) ==>
            forall i: nat | i < |sources| && sources[i].Answered? && (forall j | 0 <= j < i :: sources[j].Failed?) ::
              && e.result == Ok(sources[i].body)
              && e.report == Report(Some(FromSource(i)), if sources[i].date.Sets? then sources[i].date.at else before.updatedAt, true, before.maxAge))
      && ((forall j | 0 <= j < |sources| :: sources[j].Failed?) ==>
            match snapshot
            case None => e == Ending(before, Err(SourceFailed(|sources| - 1)))
            case Some(Undecodable) => e == Ending(before, Err(BadSnapshot))
            case Some(Dated(body, text, capture)) =>
              e == if capture.capturedAt <= now <= capture.capturedAt + capture.window
                   then Ending(Report(Some(FromSnapshot), Some(text), before.stale, Some(capture.capturedAt + capture.window - now)), Ok(body))
                   else Ending(before, Err(BadSnapshot)))
  {
    FirstExact(IsLive, sources);
    FirstExact(IsOutdated, sources);
  }

  class IskiClient {
    var lastSource: Option<Mode>
    var lastUpdatedAt: Option<string>
    var lastStale: bool
    var lastCacheMaxAge: Option<real>

    constructor ()
      ensures View() == CLEARED
    {
      lastSource, lastUpdatedAt, lastStale, lastCacheMaxAge := None, None, false, None;
    }

    function View(): Report
      reads this
    {
      Report(lastSource, lastUpdatedAt, lastStale, lastCacheMaxAge)
    }

    /** The segment before the first await. */
    method Clear()
      modifies this
      ensures View() == Report(None, None, false, None)
    {
      lastSource, lastUpdatedAt, lastStale, lastCacheMaxAge := None, None, false, None;
    }

    /**
      The rest of `dams`, and of `active_faults` when only the first source may be stale, once
      the sources' answers are in: the loop over them, and the writes to the report.
    */
    method Conclude(sources: seq<Answer>, snapshot: Option<Configured>, now: real) returns (r: Result<string, Failure>)
      requires sources != []
      modifies this
      ensures Ending(View(), r) == Ended(old(View()), sources, snapshot, now)
    {
      hide First; hide RemainingAge; hide FirstWhere; hide NoneWhere;
      assert sources[..0] == [];
      FirstOfNone(IsLive);
      FirstOfNone(IsOutdated);
      var staleRelay: Option<nat> := None;
      for i := 0 to |sources|
        invariant First(IsLive, sources[..i]).None? && staleRelay == First(IsOutdated, sources[..i])
        invariant View() == old(View())
      {
        FirstStep(IsLive, sources, i);
        FirstStep(IsOutdated, sources, i);
        if sources[i].Answered? {
          if sources[i].stale {
            if staleRelay.None? { staleRelay := Some(i); }
          } else {
            FirstOfPrefix(IsLive, sources, i + 1);
            lastSource := Some(FromSource(i));
            if sources[i].date.Sets? { lastUpdatedAt := sources[i].date.at; }
            return Ok(sources[i].body);
          }
        }
      }
      assert sources[..|sources|] == sources;
      OutdatedInRange(sources);
      if staleRelay.Some? {
        var k := staleRelay.value;
        lastSource, lastStale := Some(FromSource(k)), true;
        if sources[k].date.Sets? { lastUpdatedAt := sources[k].date.at; }
        return Ok(sources[k].body);
      }
      if snapshot.Some? {
        if snapshot.value.Undecodable? { return Err(BadSnapshot); }
        var remaining := RemainingAge(snapshot.value.capture, now);
        if remaining.None? { return Err(BadSnapshot); }
        lastSource, lastUpdatedAt, lastCacheMaxAge := Some(FromSnapshot), Some(snapshot.value.capturedText), remaining;
        return Ok(snapshot.value.body);
      }
      return Err(SourceFailed(|sources| - 1));
    }
  }

  // Overlapping loads --------------------------------------------------------------------------------

  /** The segments of any number of loads, in the order in which they run. */
  datatype Segment = Begin | End(sources: seq<Answer>, snapshot: Option<Configured>, now: real)

  ghost predicate SegmentAt(reports: seq<Report>, segments: seq<Segment>, i: nat)
    requires i < |segments| && |reports| == |segments| + 1
  {
    match segments[i]
    case Begin => reports[i + 1] == CLEARED
    case End(sources, snapshot, now) => sources != [] && reports[i + 1] == Ended(reports[i], sources, snapshot, now).report
  }

  ghost predicate IsRun(reports: seq<Report>, segments: seq<Segment>) {
    && |reports| == |segments| + 1 && reports[0] == CLEARED
    && forall i | 0 <= i < |segments| :: SegmentAt(reports, segments, i)
  }

  /** The age left, when the load that ends here answers from its snapshot. */
  function SnapshotAge(s: Segment): Option<real> {
    if s.End? && First(IsLive, s.sources).None? && First(IsOutdated, s.sources).None? then UsableSnapshot(s.snapshot, s.now) else None
  }

  /** What one segment does to the reported age. */
  lemma AgeAcrossSegment(reports: seq<Report>, segments: seq<Segment>, i: nat)
    requires IsRun(reports, segments) && i < |segments|
    ensures reports[i + 1].maxAge ==
      if segments[i].Begin? then None else if SnapshotAge(segments[i]).Some? then SnapshotAge(segments[i]) else reports[i].maxAge
  {
    hide First;
    assert SegmentAt(reports, segments, i);
  }

  /** After segment `b` some load answered from its snapshot with this age, and nothing has replaced it since. */
  ghost predicate AgeLeftBehind(segments: seq<Segment>, b: nat, n: nat, age: real)
    requires n <= |segments|
  {
    exists m: nat :: b < m < n && SnapshotAge(segments[m]) == Some(age) && Untouched(segments, m, n)
  }

  ghost predicate Untouched(segments: seq<Segment>, m: nat, n: nat)
    requires n <= |segments|
  {
    forall k | m < k < n :: segments[k].End? && SnapshotAge(segments[k]).None?
  }

  lemma {:induction false} AgeWhileLoading(reports: seq<Report>, segments: seq<Segment>, b: nat, n: nat, age: real)
    requires IsRun(reports, segments) && b < n <= |segments| && segments[b].Begin?
    ensures reports[n].maxAge == Some(age) <==> AgeLeftBehind(segments, b, n, age)
  {
    AgeAcrossSegment(reports, segments, n - 1);
    hide SnapshotAge; hide IsRun;
    if b < n - 1 {
      AgeWhileLoading(reports, segments, b, n - 1, age);
      var last := segments[n - 1];
      if reports[n].maxAge == Some(age) {
        if SnapshotAge(last) == Some(age) {
          assert Untouched(segments, n - 1, n);
        } else {
          var m: nat :| b < m < n - 1 && SnapshotAge(segments[m]) == Some(age) && Untouched(segments, m, n - 1);
          assert Untouched(segments, m, n);
        }
      }
      if AgeLeftBehind(segments, b, n, age) {
        var m: nat :| b < m < n && SnapshotAge(segments[m]) == Some(age) && Untouched(segments, m, n);
        if m < n - 1 { assert Untouched(segments, m, n - 1) && segments[n - 1].End?; }
      }
    }
  }

  /**
    However loads overlap, a load that answers from its snapshot reports the age left of that
    snapshot; any other reports an age exactly when a load that ended meanwhile left one behind.
  */
  lemma ReportedAges(reports: seq<Report>, segments: seq<Segment>, b: nat, n: nat, age: real)
    requires IsRun(reports, segments) && b < n < |segments| && segments[b].Begin? && segments[n].End?
    ensures reports[n + 1].maxAge == Some(age) <==>
      if SnapshotAge(segments[n]).Some? then SnapshotAge(segments[n]) == Some(age) else AgeLeftBehind(segments, b, n, age)
  {
    hide SnapshotAge;
    AgeAcrossSegment(reports, segments, n);
    AgeWhileLoading(reports, segments, b, n, age);
  }

  /**
    A snapshot is reported usable exactly while its age is within the window, and the cache's
    hard limit on the entry then leaves it no more time than was left at the reading, however
    early the cache took its own time.
  */
  lemma ReportedAgeRespectsWindow(reading: Reading, l: Load)
    requires l.maxAge == RemainingAge(reading.capture, reading.wall) && l.since <= reading.clock
    ensures var end := reading.capture.capturedAt + reading.capture.window;
      && (l.maxAge.Some? ==> l.maxAge.value == end - reading.wall)
      && (l.maxAge.Some? <==> reading.capture.capturedAt <= reading.wall <= end)
      && (l.maxAge.Some? ==> MaxAgeAt(l).value - reading.clock <= end - reading.wall)
  {
  }
}
