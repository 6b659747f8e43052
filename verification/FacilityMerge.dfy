/**
  Merging the live list of social facilities with the spreadsheet fallback, and the two
  accounting stages.  Name and address normalisation, identity and nearness are parameters.
*/
module FacilityMerge {
  import opened Wrappers
  import opened CoordinateCodec

  datatype Facility = Facility(name: Option<string>, address: Option<string>, district: Option<string>,
                               latitude: Option<real>, longitude: Option<real>, rest: string, enriched: bool)

  datatype Rules = Rules(name: Facility -> string, address: Facility -> string, near: (Facility, Facility) -> bool, identity: Facility -> string)

  // Matching ---------------------------------------------------------------------------------------

  predicate SameName(m: Rules, row: Facility, other: Facility) { m.name(row) != "" && m.name(other) == m.name(row) }

  predicate Exact(m: Rules, row: Facility, other: Facility) {
    SameName(m, row, other) && m.address(row) != "" && m.address(other) == m.address(row)
  }

  predicate Nearby(m: Rules, row: Facility, other: Facility) { SameName(m, row, other) && m.near(row, other) }

  /** The positions of a list that pass a test. */
  function Where(p: Facility -> bool, rows: seq<Facility>): (r: seq<nat>)
    ensures forall i | i in r :: i < |rows|
  {
    if rows == [] then []
    else Where(p, rows[..|rows| - 1]) + (if p(rows[|rows| - 1]) then [|rows| - 1] else [])
  }

  /** `_match_fallback`: the only exact match, or without exact ones the only nearby one. */
  function Match(m: Rules, row: Facility, rows: seq<Facility>): (r: Option<nat>)
    ensures r.Some? ==> r.value < |rows|
  {
    var exact := Where(o => Exact(m, row, o), rows);
    var nearby := Where(o => Nearby(m, row, o), rows);
    if exact != [] then (if |exact| == 1 then assert exact[0] in exact; Some(exact[0]) else None)
    else if |nearby| == 1 then assert nearby[0] in nearby; Some(nearby[0]) else None
  }

  lemma {:induction false} WhereExact(p: Facility -> bool, rows: seq<Facility>)
    ensures forall i: nat :: i in Where(p, rows) <==> i < |rows| && p(rows[i])
    ensures forall i, j | 0 <= i < j < |Where(p, rows)| :: Where(p, rows)[i] < Where(p, rows)[j]
  {
    if rows != [] {
      var before := Where(p, rows[..|rows| - 1]);
      WhereExact(p, rows[..|rows| - 1]);
      forall i | 0 <= i < |before| ensures before[i] < |rows| - 1 { assert before[i] in before; }
    }
  }

  ghost predicate OnlyOne(p: Facility -> bool, rows: seq<Facility>, i: nat) {
    i < |rows| && p(rows[i]) && forall j | 0 <= j < |rows| && p(rows[j]) :: j == i
  }

  lemma SingleMeansOnly(p: Facility -> bool, rows: seq<Facility>)
    ensures |Where(p, rows)| == 1 <==> exists i: nat :: OnlyOne(p, rows, i)
    ensures |Where(p, rows)| == 1 ==> OnlyOne(p, rows, Where(p, rows)[0])
    ensures Where(p, rows) == [] <==> forall i | 0 <= i < |rows| :: !p(rows[i])
  {
    WhereExact(p, rows);
    var w := Where(p, rows);
    if w != [] { assert w[0] in w; }
    if |w| > 1 { assert w[1] in w; }
    if |w| == 1 { assert OnlyOne(p, rows, w[0]); }
    if i: nat :| OnlyOne(p, rows, i) {
      assert i in w;
      forall k | 0 <= k < |w| ensures w[k] == i { assert w[k] in w; }
    }
  }

  /** In plain terms: a row matches another only when their names are the same and not empty. */
  lemma MatchPlainly(m: Rules, row: Facility, rows: seq<Facility>, i: nat)
    requires i < |rows|
    ensures Match(m, row, rows) == Some(i) <==>
      var named := m.name(row) != "" && m.name(rows[i]) == m.name(row);
      var exact := named && m.address(row) != "" && m.address(rows[i]) == m.address(row);
      var noOtherExact := forall j | 0 <= j < |rows| && j != i ::
        m.name(rows[j]) != m.name(row) || m.address(row) == "" || m.address(rows[j]) != m.address(row);
      var noOtherNear := forall j | 0 <= j < |rows| && j != i :: m.name(rows[j]) != m.name(row) || !m.near(row, rows[j]);
      (exact && noOtherExact) || (named && !exact && noOtherExact && m.near(row, rows[i]) && noOtherNear)
  {
    MatchExactly(m, row, rows, i);
    hide Match;
  }

  /** A match is unambiguous: unique among exact matches, or among nearby ones when there is no exact one. */
  lemma MatchExactly(m: Rules, row: Facility, rows: seq<Facility>, i: nat)
    ensures Match(m, row, rows) == Some(i) <==>
      OnlyOne(o => Exact(m, row, o), rows, i) ||
      ((forall j | 0 <= j < |rows| :: !Exact(m, row, rows[j])) && OnlyOne(o => Nearby(m, row, o), rows, i))
  {
    var exact, nearby := (o: Facility) => Exact(m, row, o), (o: Facility) => Nearby(m, row, o);
    SingleMeansOnly(exact, rows);
    SingleMeansOnly(nearby, rows);
  }

  // Enrichment ---------------------------------------------------------------------------------------

  predicate ValidText(t: Option<string>) { t.Some? && Strip(t.value) != "" }

  predicate ValidDegrees(d: Option<real>, bound: real) { d.Some? && -bound <= d.value <= bound }

  function Filled<T>(current: Option<T>, candidate: Option<T>, valid: Option<T> -> bool): Option<T> {
    if !valid(current) && valid(candidate) then candidate else current
  }

  function Enriched(row: Facility, other: Facility): Facility {
    Facility(Filled(row.name, other.name, ValidText),
             Filled(row.address, other.address, ValidText),
             Filled(row.district, other.district, ValidText),
             Filled(row.latitude, other.latitude, d => ValidDegrees(d, 90.0)),
             Filled(row.longitude, other.longitude, d => ValidDegrees(d, 180.0)),
             row.rest, true)
  }

  /**
    A valid live field is kept; an invalid one takes the other row's value when that is valid, and
    stays as it is otherwise.  Text is valid when it is not blank, degrees within the bounds of the
    globe.
  */
  lemma LiveFieldsKept(row: Facility, other: Facility)
    ensures var e := Enriched(row, other);
      var text := (t: Option<string>) => t.Some? && Strip(t.value) != "";
      var lat := (d: Option<real>) => d.Some? && -90.0 <= d.value <= 90.0;
      var lon := (d: Option<real>) => d.Some? && -180.0 <= d.value <= 180.0;
      && e.name == (if !text(row.name) && text(other.name) then other.name else row.name)
      && e.address == (if !text(row.address) && text(other.address) then other.address else row.address)
      && e.district == (if !text(row.district) && text(other.district) then other.district else row.district)
      && e.latitude == (if !lat(row.latitude) && lat(other.latitude) then other.latitude else row.latitude)
      && e.longitude == (if !lon(row.longitude) && lon(other.longitude) then other.longitude else row.longitude)
      && e.rest == row.rest && e.enriched
  {
  }

  // The merge ------------------------------------------------------------------------------------------

  /** Live row `i` and fallback row `j` choose each other. */
  predicate Mutual(m: Rules, live: seq<Facility>, fallback: seq<Facility>, i: nat, j: nat) {
    i < |live| && j < |fallback| && Match(m, live[i], fallback) == Some(j) && Match(m, fallback[j], live) == Some(i)
  }

  /** Mutual choice pairs rows off: a partial injection in both directions. */
  lemma PairingIsInjective(m: Rules, live: seq<Facility>, fallback: seq<Facility>, i: nat, j: nat, k: nat, l: nat)
    requires Mutual(m, live, fallback, i, j) && Mutual(m, live, fallback, k, l)
    ensures i == k <==> j == l
  {
  }

  predicate Matched(m: Rules, live: seq<Facility>, fallback: seq<Facility>, j: nat)
    requires j < |fallback|
  {
    var i := Match(m, fallback[j], live);
    i.Some? && Mutual(m, live, fallback, i.value, j)
  }

  function MergedLive(m: Rules, live: seq<Facility>, fallback: seq<Facility>, i: nat): Facility
    requires i < |live|
  {
    var j := Match(m, live[i], fallback);
    if j.Some? && Mutual(m, live, fallback, i, j.value) then Enriched(live[i], fallback[j.value]) else live[i]
  }

  function AllLive(m: Rules, live: seq<Facility>, fallback: seq<Facility>): seq<Facility> {
    seq(|live|, i requires 0 <= i < |live| => MergedLive(m, live, fallback, i))
  }

  function Unmatched(m: Rules, live: seq<Facility>, fallback: seq<Facility>, n: nat): seq<Facility>
    requires n <= |fallback|
  {
    if n == 0 then []
    else Unmatched(m, live, fallback, n - 1) + (if Matched(m, live, fallback, n - 1) then [] else [fallback[n - 1]])
  }

  function Merged(m: Rules, live: seq<Facility>, fallback: seq<Facility>): seq<Facility> {
    AllLive(m, live, fallback) + Unmatched(m, live, fallback, |fallback|)
  }

  function Identities(m: Rules, rows: seq<Facility>): set<string> { set r | r in rows :: m.identity(r) }

  /** Keeps the first row of every identity. */
  function Deduplicated(m: Rules, rows: seq<Facility>): seq<Facility> {
    if rows == [] then []
    else
      var before := Deduplicated(m, rows[..|rows| - 1]);
      if m.identity(rows[|rows| - 1]) in Identities(m, before) then before else before + [rows[|rows| - 1]]
  }

  /** The first row of its identity. */
  ghost predicate IsFirst(m: Rules, rows: seq<Facility>, i: nat) {
    i < |rows| && forall j | 0 <= j < i :: m.identity(rows[j]) != m.identity(rows[i])
  }

  ghost predicate ComesFirst(m: Rules, rows: seq<Facility>, r: Facility) {
    exists i: nat :: IsFirst(m, rows, i) && rows[i] == r
  }

  /** One row per identity, none lost. */
  lemma {:induction false} DeduplicatedExact(m: Rules, rows: seq<Facility>)
    ensures var d := Deduplicated(m, rows);
      && (forall i, j | 0 <= i < j < |d| :: m.identity(d[i]) != m.identity(d[j]))
      && Identities(m, d) == Identities(m, rows)
  {
    if rows != [] {
      var front, last := rows[..|rows| - 1], rows[|rows| - 1];
      DeduplicatedExact(m, front);
      var before := Deduplicated(m, front);
      assert rows == front + [last];
      assert Identities(m, rows) == Identities(m, front) + {m.identity(last)};
      assert Identities(m, before + [last]) == Identities(m, before) + {m.identity(last)};
      forall i | 0 <= i < |before| ensures m.identity(before[i]) in Identities(m, before) { assert before[i] in before; }
    }
  }

  lemma FirstAppended(m: Rules, front: seq<Facility>, last: Facility, r: Facility)
    requires ComesFirst(m, front, r) || (r == last && m.identity(last) !in Identities(m, front))
    ensures ComesFirst(m, front + [last], r)
  {
    var rows := front + [last];
    if ComesFirst(m, front, r) {
      var i: nat :| IsFirst(m, front, i) && front[i] == r;
      assert IsFirst(m, rows, i) && rows[i] == r;
    } else {
      forall j | 0 <= j < |front| ensures m.identity(rows[j]) != m.identity(last) { assert front[j] in front; }
      assert IsFirst(m, rows, |front|);
    }
  }

  /** Every row kept is the first of its identity. */
  lemma {:induction false} DeduplicatedKeepsFirst(m: Rules, rows: seq<Facility>, r: Facility)
    requires r in Deduplicated(m, rows)
    ensures ComesFirst(m, rows, r)
  {
    hide ComesFirst; hide Identities;
    var front, last := rows[..|rows| - 1], rows[|rows| - 1];
    assert rows == front + [last];
    if r in Deduplicated(m, front) { DeduplicatedKeepsFirst(m, front, r); } else { DeduplicatedExact(m, front); }
    FirstAppended(m, front, last, r);
  }

  /** The first loop of `merge_rows`: mutual pairs, and the fallback rows they use up. */
  method PairUp(m: Rules, live: seq<Facility>, fallback: seq<Facility>) returns (pairs: map<nat, nat>, matched: set<nat>)
    ensures forall i: nat :: i in pairs <==> exists j: nat :: Mutual(m, live, fallback, i, j)
    ensures forall i: nat | i in pairs :: Mutual(m, live, fallback, i, pairs[i])
    ensures forall j: nat :: j in matched <==> j < |fallback| && Matched(m, live, fallback, j)
  {
    hide Match;
    pairs, matched := map[], {};
    for i := 0 to |live|
      invariant forall k: nat | k in pairs :: k < i && Mutual(m, live, fallback, k, pairs[k])
      invariant forall k: nat, j: nat | k < i && Mutual(m, live, fallback, k, j) :: k in pairs && j in matched
      invariant forall j: nat | j in matched :: j < |fallback| && Matched(m, live, fallback, j)
    {
      var j := Match(m, live[i], fallback);
      if j.Some? && Match(m, fallback[j.value], live) == Some(i) {
        pairs := pairs[i := j.value];
        matched := matched + {j.value};
      }
    }
    forall j: nat | j < |fallback| && Matched(m, live, fallback, j) ensures j in matched {
      assert Mutual(m, live, fallback, Match(m, fallback[j], live).value, j);
    }
  }

  /** The last loop of `merge_rows`. */
  method Deduplicate(m: Rules, rows: seq<Facility>) returns (result: seq<Facility>)
    ensures result == Deduplicated(m, rows)
  {
    var identities: set<string> := {};
    result := [];
    for i := 0 to |rows|
      invariant result == Deduplicated(m, rows[..i]) && identities == Identities(m, result)
    {
      assert rows[..i + 1][..i] == rows[..i];
      var identity := m.identity(rows[i]);
      if identity !in identities {
        identities := identities + {identity};
        result := result + [rows[i]];
      }
    }
    assert rows[..|rows|] == rows;
  }

  lemma PairedOrNot(m: Rules, live: seq<Facility>, fallback: seq<Facility>, pairs: map<nat, nat>, i: nat)
    requires i < |live| && (i in pairs <==> exists j: nat :: Mutual(m, live, fallback, i, j))
    requires i in pairs ==> Mutual(m, live, fallback, i, pairs[i])
    ensures MergedLive(m, live, fallback, i) ==
      if i in pairs then assert Mutual(m, live, fallback, i, pairs[i]); Enriched(live[i], fallback[pairs[i]]) else live[i]
  {
    hide Match; hide Enriched;
  }

  /** `merge_rows`. */
  method MergeRows(m: Rules, live: seq<Facility>, fallback: seq<Facility>) returns (result: seq<Facility>)
    ensures result == if live == [] then fallback else Deduplicated(m, Merged(m, live, fallback))
  {
    hide Match; hide Enriched; hide MergedLive; hide Matched; hide Deduplicated;
    if live == [] { return fallback; }
    var pairs, matched := PairUp(m, live, fallback);
    forall i: nat | i in pairs ensures Mutual(m, live, fallback, i, pairs[i]) {}
    var rows: seq<Facility> := [];
    for i := 0 to |live|
      invariant rows == AllLive(m, live, fallback)[..i]
    {
      PairedOrNot(m, live, fallback, pairs, i);
      rows := rows + [if i in pairs then Enriched(live[i], fallback[pairs[i]]) else live[i]];
      assert AllLive(m, live, fallback)[i] == MergedLive(m, live, fallback, i);
    }
    for j := 0 to |fallback|
      invariant rows == AllLive(m, live, fallback) + Unmatched(m, live, fallback, j)
    {
      if j !in matched { rows := rows + [fallback[j]]; }
    }
    result := Deduplicate(m, rows);
  }

  lemma {:induction false} UnmatchedContains(m: Rules, live: seq<Facility>, fallback: seq<Facility>, n: nat, j: nat)
    requires j < n <= |fallback| && !Matched(m, live, fallback, j)
    ensures fallback[j] in Unmatched(m, live, fallback, n)
  {
    hide Matched;
    if j < n - 1 { UnmatchedContains(m, live, fallback, n - 1, j); }
  }

  lemma {:induction false} UnmatchedOnly(m: Rules, live: seq<Facility>, fallback: seq<Facility>, n: nat, r: Facility)
    requires n <= |fallback| && r in Unmatched(m, live, fallback, n)
    ensures exists j: nat :: j < n && fallback[j] == r && !Matched(m, live, fallback, j)
  {
    hide Matched;
    if r in Unmatched(m, live, fallback, n - 1) { UnmatchedOnly(m, live, fallback, n - 1, r); }
  }

  /** `r` is a live row, enriched or not. */
  ghost predicate IsLive(m: Rules, live: seq<Facility>, fallback: seq<Facility>, r: Facility) {
    exists i: nat :: i < |live| && r == MergedLive(m, live, fallback, i)
  }

  /** `r` is an unmatched fallback row whose identity no live row has. */
  ghost predicate IsAddition(m: Rules, live: seq<Facility>, fallback: seq<Facility>, r: Facility) {
    && (exists j: nat :: j < |fallback| && r == fallback[j] && !Matched(m, live, fallback, j))
    && forall i | 0 <= i < |live| :: m.identity(MergedLive(m, live, fallback, i)) != m.identity(r)
  }

  lemma MergedOrigin(m: Rules, live: seq<Facility>, fallback: seq<Facility>, r: Facility)
    requires r in Deduplicated(m, Merged(m, live, fallback))
    ensures IsLive(m, live, fallback, r) || IsAddition(m, live, fallback, r)
  {
    hide Deduplicated; hide MergedLive; hide Matched; hide Unmatched;
    var all := Merged(m, live, fallback);
    DeduplicatedKeepsFirst(m, all, r);
    var p: nat :| IsFirst(m, all, p) && all[p] == r;
    if p < |live| {
      assert r == MergedLive(m, live, fallback, p);
    } else {
      assert r == Unmatched(m, live, fallback, |fallback|)[p - |live|];
      UnmatchedOnly(m, live, fallback, |fallback|, r);
      forall i | 0 <= i < |live| ensures m.identity(MergedLive(m, live, fallback, i)) != m.identity(r) {
        assert all[i] == MergedLive(m, live, fallback, i);
      }
    }
  }

  /**
    With live rows present: one row per identity, covering every live and every unmatched
    fallback row; a fallback row never stands in for a live one.
  */
  lemma MergeCovers(m: Rules, live: seq<Facility>, fallback: seq<Facility>)
    ensures var result := Deduplicated(m, Merged(m, live, fallback));
      && (forall i, j | 0 <= i < j < |result| :: m.identity(result[i]) != m.identity(result[j]))
      && (forall i | 0 <= i < |live| :: m.identity(MergedLive(m, live, fallback, i)) in Identities(m, result))
      && (forall j | 0 <= j < |fallback| && !Matched(m, live, fallback, j) :: m.identity(fallback[j]) in Identities(m, result))
      && (forall r | r in result :: IsLive(m, live, fallback, r) || IsAddition(m, live, fallback, r))
  {
    hide Deduplicated; hide MergedLive; hide Matched; hide Unmatched; hide IsLive; hide IsAddition;
    var all := Merged(m, live, fallback);
    DeduplicatedExact(m, all);
    forall i | 0 <= i < |live| ensures MergedLive(m, live, fallback, i) in all { assert all[i] == MergedLive(m, live, fallback, i); }
    forall j | 0 <= j < |fallback| && !Matched(m, live, fallback, j) ensures fallback[j] in all {
      UnmatchedContains(m, live, fallback, |fallback|, j);
    }
    forall r | r in Deduplicated(m, all) ensures IsLive(m, live, fallback, r) || IsAddition(m, live, fallback, r) {
      MergedOrigin(m, live, fallback, r);
    }
  }

  /** Every valid field of `before`, and all that is never merged, stands unchanged in `after`. */
  predicate KeepsLive(before: Facility, after: Facility) {
    && (before.name.Some? && Strip(before.name.value) != "" ==> after.name == before.name)
    && (before.address.Some? && Strip(before.address.value) != "" ==> after.address == before.address)
    && (before.district.Some? && Strip(before.district.value) != "" ==> after.district == before.district)
    && (before.latitude.Some? && -90.0 <= before.latitude.value <= 90.0 ==> after.latitude == before.latitude)
    && (before.longitude.Some? && -180.0 <= before.longitude.value <= 180.0 ==> after.longitude == before.longitude)
    && after.rest == before.rest
  }

  lemma FirstsDeduplicated(m: Rules, rows: seq<Facility>, i: nat)
    requires IsFirst(m, rows, i)
    ensures rows[i] in Deduplicated(m, rows)
  {
    DeduplicatedExact(m, rows);
    hide Deduplicated;
    assert m.identity(rows[i]) in Identities(m, Deduplicated(m, rows));
    var r :| r in Deduplicated(m, rows) && m.identity(r) == m.identity(rows[i]);
    DeduplicatedKeepsFirst(m, rows, r);
    var j: nat :| IsFirst(m, rows, j) && rows[j] == r;
    assert i == j;
  }

  /** In the result of a merge every live row that is the first of its identity stands, with all it validly said. */
  lemma LiveRowsStand(m: Rules, live: seq<Facility>, fallback: seq<Facility>, i: nat)
    requires IsFirst(m, AllLive(m, live, fallback), i)
    ensures MergedLive(m, live, fallback, i) in Deduplicated(m, Merged(m, live, fallback))
    ensures KeepsLive(live[i], MergedLive(m, live, fallback, i))
  {
    var j := Match(m, live[i], fallback);
    if j.Some? { LiveFieldsKept(live[i], fallback[j.value]); }
    hide MergedLive; hide Unmatched; hide Deduplicated; hide KeepsLive; hide Match;
    var rows, all := AllLive(m, live, fallback), Merged(m, live, fallback);
    assert all[i] == rows[i] == MergedLive(m, live, fallback, i);
    assert IsFirst(m, all, i) by {
      assert forall k | 0 <= k <= i :: all[k] == rows[k];
    }
    FirstsDeduplicated(m, all, i);
  }

  // Accounting ---------------------------------------------------------------------------------------------

  datatype Account = Account(reported: int, accepted: nat, skipped: int, duplicates: nat) {
    predicate Balances() { reported == accepted + skipped + duplicates }
  }

  /** The end of `fetch`. */
  method FirstStage(catalogued: Option<nat>, fallbackRows: nat, accepted: nat, primarySkipped: nat, duplicates: nat) returns (a: Account)
    ensures a.Balances() && a.accepted == accepted && a.duplicates == duplicates
    ensures a.skipped >= primarySkipped
    ensures var told := if catalogued.Some? then catalogued.value else fallbackRows;
      a.reported == if told >= accepted + primarySkipped + duplicates then told else accepted + primarySkipped + duplicates
  {
    var reported := if catalogued.Some? then catalogued.value else fallbackRows;
    var skipped := if reported - accepted - duplicates > 0 then reported - accepted - duplicates else 0;
    if primarySkipped > 0 && primarySkipped > skipped { skipped := primarySkipped; }
    if reported < accepted + skipped + duplicates { reported := accepted + skipped + duplicates; }
    return Account(reported, accepted, skipped, duplicates);
  }

  /** An accepted row, and whether it was kept beside a conflicting row of its identity. */
  datatype Accepted = Accepted(row: Facility, conflict: bool)

  /** A row is refused (None), or normalised. */
  datatype Second = Second(normalize: Facility -> Option<Facility>, identity: Facility -> string, conflict: (Facility, Facility) -> bool)

  datatype Tally = Tally(accepted: seq<Accepted>, invalid: nat, duplicates: nat)

  function IdentityOf(s: Second, row: Facility): Option<string> {
    if s.normalize(row).Some? then Some(s.identity(s.normalize(row).value)) else None
  }

  /** Row `f` is the first of its identity. */
  ghost predicate FirstOf(s: Second, rows: seq<Facility>, f: nat) {
    && f < |rows| && IdentityOf(s, rows[f]).Some?
    && forall j | 0 <= j < f :: IdentityOf(s, rows[j]) != IdentityOf(s, rows[f])
  }

  /** The normalised row an identity first came with. */
  function FirstRow(s: Second, rows: seq<Facility>, d: string): Option<Facility> {
    if rows == [] then None
    else
      var before := FirstRow(s, rows[..|rows| - 1], d);
      if before.None? && IdentityOf(s, rows[|rows| - 1]) == Some(d) then s.normalize(rows[|rows| - 1]) else before
  }

  /** How a row is accepted after those in `front`, if it is. */
  function Added(s: Second, front: seq<Facility>, last: Facility): seq<Accepted> {
    var row := s.normalize(last);
    if row.None? then []
    else
      var first := FirstRow(s, front, s.identity(row.value));
      if first.None? then [Accepted(row.value, false)]
      else if s.conflict(first.value, row.value) then [Accepted(row.value, true)] else []
  }

  function Tallied(s: Second, rows: seq<Facility>): Tally {
    if rows == [] then Tally([], 0, 0)
    else
      var front, last := rows[..|rows| - 1], rows[|rows| - 1];
      var t, added := Tallied(s, front), Added(s, front, last);
      Tally(t.accepted + added,
            t.invalid + (if s.normalize(last).None? then 1 else 0),
            t.duplicates + (if s.normalize(last).Some? && added == [] then 1 else 0))
  }

  lemma FirstInFront(s: Second, rows: seq<Facility>, f: nat)
    requires f < |rows| - 1
    ensures FirstOf(s, rows[..|rows| - 1], f) <==> FirstOf(s, rows, f)
  {
    var front := rows[..|rows| - 1];
    assert forall j | 0 <= j <= f :: front[j] == rows[j];
  }

  lemma FirstAtEnd(s: Second, front: seq<Facility>, last: Facility)
    requires IdentityOf(s, last).Some? && forall j | 0 <= j < |front| :: IdentityOf(s, front[j]) != IdentityOf(s, last)
    ensures FirstOf(s, front + [last], |front|)
  {
  }

  ghost predicate IsFirstRow(s: Second, rows: seq<Facility>, d: string, x: Facility) {
    exists f: nat :: f < |rows| && FirstOf(s, rows, f) && IdentityOf(s, rows[f]) == Some(d) && s.normalize(rows[f]) == Some(x)
  }

  /** `FirstRow` against the positions themselves. */
  lemma {:induction false} FirstRowExact(s: Second, rows: seq<Facility>, d: string)
    ensures match FirstRow(s, rows, d)
            case None => forall i | 0 <= i < |rows| :: IdentityOf(s, rows[i]) != Some(d)
            case Some(x) => IsFirstRow(s, rows, d, x)
  {
    if rows != [] {
      hide FirstOf;
      var front := rows[..|rows| - 1];
      FirstRowExact(s, front, d);
      if FirstRow(s, front, d).Some? {
        var x := FirstRow(s, front, d).value;
        var f: nat :| f < |front| && FirstOf(s, front, f) && IdentityOf(s, front[f]) == Some(d) && s.normalize(front[f]) == Some(x);
        FirstInFront(s, rows, f);
        assert rows[f] == front[f];
      } else if IdentityOf(s, rows[|front|]) == Some(d) {
        assert rows == front + [rows[|front|]];
        FirstAtEnd(s, front, rows[|front|]);
      }
    }
  }

  /** `p` is an earlier first row of row `i`'s identity. */
  ghost predicate FollowsFirst(s: Second, rows: seq<Facility>, i: nat, p: nat) {
    p < i < |rows| && FirstOf(s, rows, p) && IdentityOf(s, rows[p]) == IdentityOf(s, rows[i]) && s.normalize(rows[p]).Some?
  }

  /** Row `i` is to be kept: as the first of its identity, or in conflict with that first. */
  ghost predicate KeptAs(s: Second, rows: seq<Facility>, i: nat, a: Accepted) {
    && i < |rows| && s.normalize(rows[i]) == Some(a.row)
    && if a.conflict
       then exists p: nat :: FollowsFirst(s, rows, i, p) && s.conflict(s.normalize(rows[p]).value, a.row)
       else FirstOf(s, rows, i)
  }

  lemma KeptInFront(s: Second, rows: seq<Facility>, i: nat, a: Accepted)
    requires i < |rows| - 1
    ensures KeptAs(s, rows[..|rows| - 1], i, a) <==> KeptAs(s, rows, i, a)
  {
    hide FirstOf;
    var front := rows[..|rows| - 1];
    FirstInFront(s, rows, i);
    forall p: nat | p < i ensures FollowsFirst(s, front, i, p) <==> FollowsFirst(s, rows, i, p) {
      FirstInFront(s, rows, p);
    }
    if KeptAs(s, front, i, a) && a.conflict {
      var p: nat :| FollowsFirst(s, front, i, p) && s.conflict(s.normalize(front[p]).value, a.row);
      assert FollowsFirst(s, rows, i, p);
    }
    if KeptAs(s, rows, i, a) && a.conflict {
      var p: nat :| FollowsFirst(s, rows, i, p) && s.conflict(s.normalize(rows[p]).value, a.row);
      assert FollowsFirst(s, front, i, p);
    }
  }

  lemma OnlyOneFirst(s: Second, rows: seq<Facility>, p: nat, q: nat)
    requires p < |rows| && q < |rows| && FirstOf(s, rows, p) && FirstOf(s, rows, q) && IdentityOf(s, rows[p]) == IdentityOf(s, rows[q])
    ensures p == q
  {
  }

  lemma LastKept(s: Second, rows: seq<Facility>, a: Accepted)
    requires rows != []
    ensures a in Added(s, rows[..|rows| - 1], rows[|rows| - 1]) <==> KeptAs(s, rows, |rows| - 1, a)
  {
    hide FirstOf; hide FirstRow;
    var front, n := rows[..|rows| - 1], |rows| - 1;
    var row := s.normalize(rows[n]);
    if row.Some? {
      var d := s.identity(row.value);
      FirstRowExact(s, front, d);
      if FirstRow(s, front, d).None? {
        assert rows == front + [rows[|front|]];
        FirstAtEnd(s, front, rows[|front|]);
        forall p: nat ensures !FollowsFirst(s, rows, n, p) {
          if p < n { assert front[p] == rows[p]; }
        }
      } else {
        var x := FirstRow(s, front, d).value;
        var f: nat :| f < |front| && FirstOf(s, front, f) && IdentityOf(s, front[f]) == Some(d) && s.normalize(front[f]) == Some(x);
        FirstInFront(s, rows, f);
        assert rows[f] == front[f];
        assert FollowsFirst(s, rows, n, f);
        if FirstOf(s, rows, n) { OnlyOneFirst(s, rows, f, n); }
        forall p: nat | FollowsFirst(s, rows, n, p) ensures p == f { OnlyOneFirst(s, rows, f, p); }
      }
    }
  }

  /** The first row of every identity is kept, and besides it exactly the rows in conflict with it. */
  lemma {:induction false} KeptExactly(s: Second, rows: seq<Facility>, a: Accepted)
    ensures a in Tallied(s, rows).accepted <==> exists i: nat :: KeptAs(s, rows, i, a)
  {
    if rows != [] {
      hide KeptAs;
      var front, n := rows[..|rows| - 1], |rows| - 1;
      KeptExactly(s, front, a);
      LastKept(s, rows, a);
      forall i: nat | i < n ensures KeptAs(s, front, i, a) <==> KeptAs(s, rows, i, a) { KeptInFront(s, rows, i, a); }
      KeptBelow(s, front, a);
      KeptBelow(s, rows, a);
    }
  }

  lemma KeptBelow(s: Second, rows: seq<Facility>, a: Accepted)
    ensures forall i: nat :: KeptAs(s, rows, i, a) ==> i < |rows|
  {
  }

  /** No two rows are kept as the first of one identity. */
  lemma {:induction false} FirstsDiffer(s: Second, rows: seq<Facility>)
    ensures forall x, y | 0 <= x < y < |Tallied(s, rows).accepted| && !Tallied(s, rows).accepted[x].conflict && !Tallied(s, rows).accepted[y].conflict ::
      s.identity(Tallied(s, rows).accepted[x].row) != s.identity(Tallied(s, rows).accepted[y].row)
  {
    if rows != [] {
      hide FirstRow;
      var front, last := rows[..|rows| - 1], rows[|rows| - 1];
      var before := Tallied(s, front).accepted;
      FirstsDiffer(s, front);
      if IdentityOf(s, last).Some? && FirstRow(s, front, IdentityOf(s, last).value).None? {
        FirstRowExact(s, front, IdentityOf(s, last).value);
        forall x | 0 <= x < |before| && !before[x].conflict ensures s.identity(before[x].row) != IdentityOf(s, last).value {
          KeptExactly(s, front, before[x]);
          var i: nat :| KeptAs(s, front, i, before[x]);
          assert IdentityOf(s, front[i]) == Some(s.identity(before[x].row));
        }
      }
    }
  }

  /** Every row is accepted, refused or a duplicate. */
  lemma {:induction false} EveryRowCounted(s: Second, rows: seq<Facility>)
    ensures var t := Tallied(s, rows); |rows| == |t.accepted| + t.invalid + t.duplicates
    ensures Tallied(s, rows).invalid == |Where(r => s.normalize(r).None?, rows)|
  {
    if rows != [] {
      EveryRowCounted(s, rows[..|rows| - 1]);
    }
  }

  /** `_load_snapshot`. */
  method SecondStage(s: Second, rows: seq<Facility>, reported0: Option<nat>, skipped0: nat, duplicates0: nat) returns (t: Tally, a: Account)
    ensures t == Tallied(s, rows).(duplicates := duplicates0 + Tallied(s, rows).duplicates)
    ensures a.Balances() && a.accepted == |t.accepted| && a.duplicates == t.duplicates && a.skipped >= skipped0
    ensures var told := if reported0.Some? then reported0.value else |rows|;
      var least := |t.accepted| + skipped0 + t.duplicates;
      a.reported == if told >= least then told else least
  {
    var firsts: map<string, Facility> := map[];
    t := Tally([], 0, duplicates0);
    for i := 0 to |rows|
      invariant t == Tallied(s, rows[..i]).(duplicates := duplicates0 + Tallied(s, rows[..i]).duplicates)
      invariant forall d :: FirstRow(s, rows[..i], d) == if d in firsts then Some(firsts[d]) else None
    {
      assert rows[..i + 1][..i] == rows[..i];
      var normalized := s.normalize(rows[i]);
      if normalized.None? {
        t := t.(invalid := t.invalid + 1);
        continue;
      }
      var row := normalized.value;
      var identity := s.identity(row);
      if identity in firsts {
        if s.conflict(firsts[identity], row) {
          t := t.(accepted := t.accepted + [Accepted(row, true)]);
        } else {
          t := t.(duplicates := t.duplicates + 1);
        }
      } else {
        t := t.(accepted := t.accepted + [Accepted(row, false)]);
        firsts := firsts[identity := row];
      }
    }
    assert rows[..|rows|] == rows;
    var reported: int := if reported0.Some? then reported0.value else |rows|;
    var skipped: int := reported - |t.accepted| - t.duplicates;
    if skipped0 > skipped { skipped := skipped0; }
    if reported < |t.accepted| + skipped + t.duplicates { reported := |t.accepted| + skipped + t.duplicates; }
    a := Account(reported, |t.accepted|, skipped, t.duplicates);
  }
}
