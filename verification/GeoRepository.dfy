/**
  The feature table and the spatial index that shadows it by rowid.  Coordinates are reals: the
  index stores exact boxes.

  Replacing a layer takes two steps: the layer's rowids are read first, and only the first
  DELETE opens the transaction that uses them.  Several processes may share the database.
*/
module GeoRepository {
  import opened Wrappers

  /** `content` stands for the columns that no query looks at. */
  datatype Feature = Feature(id: string, source: string, kind: string, lat: real, lon: real, content: string)

  datatype Box = Box(minLon: real, maxLon: real, minLat: real, maxLat: real)

  type Rows = map<nat, Feature>

  type Index = map<nat, Box>

  function PointBox(f: Feature): Box { Box(f.lon, f.lon, f.lat, f.lat) }

  ghost predicate UniqueIds(rows: Rows) {
    forall r, s | r in rows && s in rows && rows[r].id == rows[s].id :: r == s
  }

  /** One index row per feature row, with its coordinates. */
  ghost predicate Shadows(rows: Rows, index: Index) {
    index.Keys == rows.Keys && forall r | r in rows :: index[r] == PointBox(rows[r])
  }

  // What the table holds, row numbers aside ------------------------------------------------------

  function Upserted(s: set<Feature>, f: Feature): set<Feature> { (set g | g in s && g.id != f.id) + {f} }

  function UpsertAll(s: set<Feature>, fs: seq<Feature>): set<Feature> {
    if fs == [] then s else Upserted(UpsertAll(s, fs[..|fs| - 1]), fs[|fs| - 1])
  }

  predicate InLayer(f: Feature, source: string, kind: string) { f.source == source && f.kind == kind }

  function OutsideLayer(s: set<Feature>, source: string, kind: string): set<Feature> {
    set g | g in s && !InLayer(g, source, kind)
  }

  /** `f` is the last feature of the list with its id. */
  ghost predicate IsLastOfId(fs: seq<Feature>, f: Feature) {
    exists i :: 0 <= i < |fs| && fs[i] == f && forall j | i < j < |fs| :: fs[j].id != f.id
  }

  ghost predicate Mentions(fs: seq<Feature>, id: string) { exists f :: f in fs && f.id == id }

  lemma LastOfIdAppended(front: seq<Feature>, last: Feature, g: Feature)
    ensures IsLastOfId(front + [last], g) <==> g == last || (g.id != last.id && IsLastOfId(front, g))
  {
    var fs := front + [last];
    if g == last { assert fs[|front|] == g; }
    if g != last && IsLastOfId(fs, g) {
      var i :| 0 <= i < |fs| && fs[i] == g && forall j | i < j < |fs| :: fs[j].id != g.id;
      assert fs[|front|].id != g.id && front[i] == g;
      assert forall j | i < j < |front| :: front[j] == fs[j];
    }
    if g.id != last.id && IsLastOfId(front, g) {
      var i :| 0 <= i < |front| && front[i] == g && forall j | i < j < |front| :: front[j].id != g.id;
      assert fs[i] == g && forall j | i < j < |front| :: fs[j] == front[j];
    }
  }

  /** After a list of upserts: the last of every id listed, and whatever has no id listed. */
  lemma {:induction false} UpsertAllExact(s: set<Feature>, fs: seq<Feature>, g: Feature)
    ensures g in UpsertAll(s, fs) <==> IsLastOfId(fs, g) || (g in s && !Mentions(fs, g.id))
  {
    hide IsLastOfId;
    if fs != [] {
      var front, last := fs[..|fs| - 1], fs[|fs| - 1];
      UpsertAllExact(s, front, g);
      LastOfIdAppended(front, last, g);
      assert fs == front + [last];
      assert Mentions(fs, g.id) <==> Mentions(front, g.id) || last.id == g.id;
    } else {
      NothingListed(g);
    }
  }

  lemma NothingListed(g: Feature)
    ensures !IsLastOfId([], g) && !Mentions([], g.id)
  {
  }

  /**
    Replacing a layer by a list leaves in it exactly the list's part of it, the last of each id,
    and leaves another layer's row alone unless its id is in the list.
  */
  lemma ReplacedLayerExact(before: set<Feature>, source: string, kind: string, fs: seq<Feature>, g: Feature)
    ensures var after := UpsertAll(OutsideLayer(before, source, kind), fs);
      && (g.source == source && g.kind == kind ==> (g in after <==> IsLastOfId(fs, g)))
      && (g.source != source || g.kind != kind ==> (g in after <==> IsLastOfId(fs, g) || (g in before && !Mentions(fs, g.id))))
  {
    UpsertAllExact(OutsideLayer(before, source, kind), fs, g);
    if IsLastOfId(fs, g) {
      assert g in fs;
    }
  }

  // Inserting ---------------------------------------------------------------------------------------

  /** SQLite's choice for a new row: one more than the largest rowid. */
  ghost predicate IsNextRowid(rows: Rows, w: nat) {
    w >= 1 && (forall r | r in rows :: r < w) && (w == 1 || w - 1 in rows)
  }

  /** Where feature `f` goes: an existing id keeps its rowid. */
  ghost predicate IsPlace(rows: Rows, f: Feature, w: nat) {
    (w in rows && rows[w].id == f.id) || (IsNextRowid(rows, w) && forall r | r in rows :: rows[r].id != f.id)
  }

  /** The tables after features are put at given places in turn; each place is written in both. */
  function PutRows(rows: Rows, fs: seq<Feature>, ws: seq<nat>): Rows
    requires |ws| == |fs|
  {
    if fs == [] then rows else PutRows(rows, fs[..|fs| - 1], ws[..|ws| - 1])[ws[|ws| - 1] := fs[|fs| - 1]]
  }

  function PutIndex(index: Index, fs: seq<Feature>, ws: seq<nat>): Index
    requires |ws| == |fs|
  {
    if fs == [] then index else PutIndex(index, fs[..|fs| - 1], ws[..|ws| - 1])[ws[|ws| - 1] := PointBox(fs[|fs| - 1])]
  }

  ghost predicate ArePlaces(rows: Rows, fs: seq<Feature>, ws: seq<nat>) {
    |ws| == |fs| &&
    (fs == [] || (ArePlaces(rows, fs[..|fs| - 1], ws[..|ws| - 1]) &&
                  IsPlace(PutRows(rows, fs[..|fs| - 1], ws[..|ws| - 1]), fs[|fs| - 1], ws[|ws| - 1])))
  }

  lemma UpsertedValues(rows: Rows, rowid: nat, f: Feature)
    requires UniqueIds(rows) && IsPlace(rows, f, rowid)
    ensures rows[rowid := f].Values == Upserted(rows.Values, f)
    ensures UniqueIds(rows[rowid := f])
  {
    var after := rows[rowid := f];
    forall g ensures g in after.Values <==> g in Upserted(rows.Values, f) {
      if g in after.Values {
        var r :| r in after && after[r] == g;
        if r != rowid { assert r in rows && rows[r] == g; }
      }
      if g in Upserted(rows.Values, f) {
        if g == f { assert after[rowid] == f; }
        else {
          var r :| r in rows && rows[r] == g;
          assert after[r] == g;
        }
      }
    }
  }

  lemma {:induction false} PutRowsUpserts(rows: Rows, fs: seq<Feature>, ws: seq<nat>)
    requires UniqueIds(rows) && ArePlaces(rows, fs, ws)
    ensures UniqueIds(PutRows(rows, fs, ws)) && PutRows(rows, fs, ws).Values == UpsertAll(rows.Values, fs)
  {
    hide UniqueIds; hide Upserted; hide IsPlace;
    if fs != [] {
      var front, places := fs[..|fs| - 1], ws[..|ws| - 1];
      PutRowsUpserts(rows, front, places);
      UpsertedValues(PutRows(rows, front, places), ws[|ws| - 1], fs[|fs| - 1]);
    }
  }

  /** Row `r` stands in neither table, or in both with the same coordinates. */
  ghost predicate InStep(rows: Rows, index: Index, r: nat) {
    (r in rows <==> r in index) && (r in rows ==> index[r] == PointBox(rows[r]))
  }

  lemma {:induction false} PutInStep(rows: Rows, index: Index, fs: seq<Feature>, ws: seq<nat>, r: nat)
    requires |ws| == |fs|
    ensures InStep(PutRows(rows, fs, ws), PutIndex(index, fs, ws), r) <==> r in ws || InStep(rows, index, r)
  {
    if fs != [] {
      PutInStep(rows, index, fs[..|fs| - 1], ws[..|ws| - 1], r);
      assert ws == ws[..|ws| - 1] + [ws[|ws| - 1]];
    }
  }

  lemma ShadowsIsInStep(rows: Rows, index: Index)
    ensures Shadows(rows, index) <==> forall r: nat :: InStep(rows, index, r)
  {
    if forall r: nat :: InStep(rows, index, r) {
      forall r ensures r in rows.Keys <==> r in index.Keys { if r in rows || r in index { assert InStep(rows, index, r); } }
      forall r | r in rows ensures r in index && index[r] == PointBox(rows[r]) { assert InStep(rows, index, r); }
    }
  }

  // Replacing a layer ---------------------------------------------------------------------------------

  function LayerRowids(rows: Rows, source: string, kind: string): set<nat> {
    set r | r in rows && InLayer(rows[r], source, kind)
  }

  lemma LayerRemoved(rows: Rows, source: string, kind: string)
    ensures (rows - LayerRowids(rows, source, kind)).Values == OutsideLayer(rows.Values, source, kind)
    ensures UniqueIds(rows) ==> UniqueIds(rows - LayerRowids(rows, source, kind))
  {
    var after := rows - LayerRowids(rows, source, kind);
    forall g ensures g in after.Values <==> g in OutsideLayer(rows.Values, source, kind) {
      if g in after.Values {
        var r :| r in after && after[r] == g;
        assert r in rows && rows[r] == g;
      }
      if g in OutsideLayer(rows.Values, source, kind) {
        var r :| r in rows && rows[r] == g;
        assert r in after && after[r] == g;
      }
    }
  }

  /** The transaction of a replacement, with the rowids read before it. */
  function ReplacedRows(rows: Rows, source: string, kind: string, fs: seq<Feature>, ws: seq<nat>): Rows
    requires |ws| == |fs|
  {
    PutRows(rows - LayerRowids(rows, source, kind), fs, ws)
  }

  function ReplacedIndex(index: Index, seen: set<nat>, fs: seq<Feature>, ws: seq<nat>): Index
    requires |ws| == |fs|
  {
    PutIndex(index - seen, fs, ws)
  }

  /** Whatever has happened since the rowids were read, the feature table itself is right. */
  lemma ReplacedRowsExact(rows: Rows, source: string, kind: string, fs: seq<Feature>, ws: seq<nat>)
    requires UniqueIds(rows) && ArePlaces(rows - LayerRowids(rows, source, kind), fs, ws)
    ensures UniqueIds(ReplacedRows(rows, source, kind, fs, ws))
    ensures ReplacedRows(rows, source, kind, fs, ws).Values == UpsertAll(OutsideLayer(rows.Values, source, kind), fs)
  {
    LayerRemoved(rows, source, kind);
    PutRowsUpserts(rows - LayerRowids(rows, source, kind), fs, ws);
  }

  /** The row was in the layer when the rowids were read if and only if it is now; or it is written anew. */
  ghost predicate StillRight(rows: Rows, source: string, kind: string, seen: set<nat>, ws: seq<nat>, r: nat) {
    (r in seen <==> r in LayerRowids(rows, source, kind)) || r in ws
  }

  /**
    Exactly when the index still shadows the table after a replacement: for every row, what was
    read of it is still right, or the replacement writes it anew.
  */
  lemma ReplacementKeepsIndexExactly(rows: Rows, index: Index, source: string, kind: string, seen: set<nat>, fs: seq<Feature>, ws: seq<nat>)
    requires Shadows(rows, index) && |ws| == |fs|
    ensures Shadows(ReplacedRows(rows, source, kind, fs, ws), ReplacedIndex(index, seen, fs, ws)) <==>
              forall r | r in rows :: StillRight(rows, source, kind, seen, ws, r)
  {
    var layer := LayerRowids(rows, source, kind);
    var after, index' := ReplacedRows(rows, source, kind, fs, ws), ReplacedIndex(index, seen, fs, ws);
    forall r: nat ensures InStep(after, index', r) <==> r !in rows || StillRight(rows, source, kind, seen, ws, r) {
      PutInStep(rows - layer, index - seen, fs, ws, r);
    }
    ShadowsIsInStep(after, index');
    hide Shadows; hide InStep; hide StillRight;
  }

  // The repository ------------------------------------------------------------------------------------

  /** `_insert_feature`. */
  method InsertFeature(rows: Rows, index: Index, f: Feature) returns (rows': Rows, index': Index, ghost w: nat)
    ensures IsPlace(rows, f, w) && rows' == rows[w := f] && index' == index[w := PointBox(f)]
    ensures UniqueIds(rows) && Shadows(rows, index) ==>
      UniqueIds(rows') && Shadows(rows', index') && rows'.Values == Upserted(rows.Values, f)
  {
    var rowid: nat;
    if r :| r in rows && rows[r].id == f.id {
      rowid := r;
    } else {
      rowid := NextRowid(rows);
    }
    rows' := rows[rowid := f];
    index' := index[rowid := PointBox(f)];
    w := rowid;
    if UniqueIds(rows) { UpsertedValues(rows, rowid, f); }
  }

  method NextRowid(rows: Rows) returns (w: nat)
    ensures IsNextRowid(rows, w)
  {
    w := 1;
    var rest := rows.Keys;
    while rest != {}
      invariant rest <= rows.Keys && w >= 1
      invariant forall k | k in rows && k !in rest :: k < w
      invariant w == 1 || w - 1 in rows
      decreases rest
    {
      var k :| k in rest;
      if k >= w { w := k + 1; }
      rest := rest - {k};
    }
  }

  function Values(fs: seq<Option<Feature>>): seq<Feature>
    requires forall f | f in fs :: f.Some?
  {
    seq(|fs|, i requires 0 <= i < |fs| => assert fs[i] in fs; fs[i].value)
  }

  predicate AllComplete(fs: seq<Option<Feature>>) { forall f | f in fs :: f.Some? }

  lemma OneMoreFeature(fs: seq<Option<Feature>>, i: nat)
    requires i < |fs| && AllComplete(fs[..i]) && fs[i].Some?
    ensures AllComplete(fs[..i + 1])
    ensures Values(fs[..i + 1]) == Values(fs[..i]) + [fs[i].value]
  {
    assert fs[..i + 1] == fs[..i] + [fs[i]];
  }

  lemma OnePut(rows: Rows, index: Index, fs: seq<Feature>, ws: seq<nat>, f: Feature, w: nat)
    requires ArePlaces(rows, fs, ws) && IsPlace(PutRows(rows, fs, ws), f, w)
    ensures ArePlaces(rows, fs + [f], ws + [w])
    ensures PutRows(rows, fs + [f], ws + [w]) == PutRows(rows, fs, ws)[w := f]
    ensures PutIndex(index, fs + [f], ws + [w]) == PutIndex(index, fs, ws)[w := PointBox(f)]
  {
    hide IsPlace;
    var fs', ws' := fs + [f], ws + [w];
    assert fs'[..|fs'| - 1] == fs && ws'[..|ws'| - 1] == ws;
    PutOne(rows, index, fs', ws');
  }

  lemma PutOne(rows: Rows, index: Index, fs: seq<Feature>, ws: seq<nat>)
    requires |ws| == |fs| > 0
    ensures PutRows(rows, fs, ws) == PutRows(rows, fs[..|fs| - 1], ws[..|ws| - 1])[ws[|ws| - 1] := fs[|fs| - 1]]
    ensures PutIndex(index, fs, ws) == PutIndex(index, fs[..|fs| - 1], ws[..|ws| - 1])[ws[|ws| - 1] := PointBox(fs[|fs| - 1])]
  {
  }

  /** The loop over the features; one that lacks a field (None) fails it. */
  method InsertAll(rows: Rows, index: Index, fs: seq<Option<Feature>>) returns (r: Option<(Rows, Index)>, ghost ws: seq<nat>)
    ensures r.Some? <==> AllComplete(fs)
    ensures r.Some? ==>
      && ArePlaces(rows, Values(fs), ws)
      && r.value == (PutRows(rows, Values(fs), ws), PutIndex(index, Values(fs), ws))
  {
    hide IsPlace; hide UniqueIds; hide Shadows; hide Upserted;
    var rows', index' := rows, index;
    ws := [];
    assert Values(fs[..0]) == [];
    for i := 0 to |fs|
      invariant AllComplete(fs[..i]) && ArePlaces(rows, Values(fs[..i]), ws)
      invariant rows' == PutRows(rows, Values(fs[..i]), ws) && index' == PutIndex(index, Values(fs[..i]), ws)
    {
      if fs[i].None? { return None, ws; }
      OneMoreFeature(fs, i);
      ghost var w: nat;
      ghost var before := Values(fs[..i]);
      rows', index', w := InsertFeature(rows', index', fs[i].value);
      OnePut(rows, index, before, ws, fs[i].value, w);
      ws := ws + [w];
    }
    assert fs[..|fs|] == fs;
    return Some((rows', index')), ws;
  }

  class Repository {
    var rows: Rows
    var index: Index

    constructor ()
      ensures Valid() && rows == map[]
    {
      rows, index := map[], map[];
    }

    ghost predicate Valid()
      reads this
    {
      UniqueIds(rows) && Shadows(rows, index)
    }

    /** `upsert_features`; its first statement opens the transaction. */
    method UpsertFeatures(fs: seq<Option<Feature>>) returns (ok: bool, ghost ws: seq<nat>)
      requires Valid()
      modifies this
      ensures Valid() && (ok <==> AllComplete(fs))
      ensures if ok then ArePlaces(old(rows), Values(fs), ws) && rows == PutRows(old(rows), Values(fs), ws) && index == PutIndex(old(index), Values(fs), ws)
              else rows == old(rows) && index == old(index)
      ensures ok ==> rows.Values == UpsertAll(old(rows).Values, Values(fs))
    {
      var done;
      done, ws := InsertAll(rows, index, fs);
      if done.None? { return false, ws; }
      PutKeepsValid(rows, index, Values(fs), ws);
      rows, index := done.value.0, done.value.1;
      return true, ws;
    }

    /** The first step of `replace_features`: the SELECT before the transaction. */
    method SelectLayer(source: string, kind: string) returns (seen: set<nat>)
      ensures seen == LayerRowids(rows, source, kind)
      ensures forall r :: r in seen <==> r in rows && rows[r].source == source && rows[r].kind == kind
    {
      seen := set r | r in rows && InLayer(rows[r], source, kind);
    }

    /** The second step: the transaction, all of it or nothing. */
    method ReplaceSelected(seen: set<nat>, source: string, kind: string, fs: seq<Option<Feature>>) returns (ok: bool, ghost ws: seq<nat>)
      modifies this
      ensures ok <==> AllComplete(fs)
      ensures if ok then
                && ArePlaces(old(rows) - LayerRowids(old(rows), source, kind), Values(fs), ws)
                && rows == ReplacedRows(old(rows), source, kind, Values(fs), ws)
                && index == ReplacedIndex(old(index), seen, Values(fs), ws)
              else rows == old(rows) && index == old(index)
    {
      var rest, kept := seen, index;
      while rest != {}
        invariant rest <= seen && kept == index - (seen - rest)
        decreases rest
      {
        var r :| r in rest;
        kept := kept - {r};
        rest := rest - {r};
        assert index - (seen - (rest + {r})) - {r} == index - (seen - rest);
      }
      assert kept == index - seen;
      var remaining := rows - LayerRowids(rows, source, kind);
      var done;
      done, ws := InsertAll(remaining, kept, fs);
      if done.None? { return false, ws; }
      rows, index := done.value.0, done.value.1;
      return true, ws;
    }

    /** `replace_features` when nothing else is committed in between. */
    method ReplaceFeatures(source: string, kind: string, fs: seq<Option<Feature>>) returns (ok: bool)
      requires Valid()
      modifies this
      ensures Valid() && (ok <==> AllComplete(fs))
      ensures if ok then rows.Values == UpsertAll(OutsideLayer(old(rows).Values, source, kind), Values(fs))
              else rows == old(rows) && index == old(index)
    {
      var seen := SelectLayer(source, kind);
      ghost var ws;
      ok, ws := ReplaceSelected(seen, source, kind, fs);
      if ok {
        ReplacedRowsExact(old(rows), source, kind, Values(fs), ws);
        ReplacementKeepsIndexExactly(old(rows), old(index), source, kind, seen, Values(fs), ws);
      }
    }

    /** `_bbox_rows`. */
    function BoxRows(b: Box, types: set<string>): set<nat>
      reads this
    {
      FoundInBox(rows, index, b, types)
    }

    /** The join finds what a plain scan of the features finds. */
    lemma BoxRowsIsScan(b: Box, types: set<string>)
      requires Valid()
      ensures BoxRows(b, types) == Scan(rows, b, types)
    {
    }
  }

  /** The join of the index with the table; no types means any type. */
  function FoundInBox(rows: Rows, index: Index, b: Box, types: set<string>): set<nat> {
    set r | r in index && r in rows
            && index[r].maxLon >= b.minLon && index[r].minLon <= b.maxLon
            && index[r].maxLat >= b.minLat && index[r].minLat <= b.maxLat
            && (types != {} ==> rows[r].kind in types)
  }

  function Scan(rows: Rows, b: Box, types: set<string>): set<nat> {
    set r | r in rows && b.minLon <= rows[r].lon <= b.maxLon && b.minLat <= rows[r].lat <= b.maxLat
            && (types == {} || rows[r].kind in types)
  }

  lemma PutKeepsValid(rows: Rows, index: Index, fs: seq<Feature>, ws: seq<nat>)
    requires UniqueIds(rows) && Shadows(rows, index) && ArePlaces(rows, fs, ws)
    ensures UniqueIds(PutRows(rows, fs, ws)) && Shadows(PutRows(rows, fs, ws), PutIndex(index, fs, ws))
    ensures PutRows(rows, fs, ws).Values == UpsertAll(rows.Values, fs)
  {
    PutRowsUpserts(rows, fs, ws);
    ShadowsIsInStep(rows, index);
    forall r: nat ensures InStep(PutRows(rows, fs, ws), PutIndex(index, fs, ws), r) { PutInStep(rows, index, fs, ws, r); }
    ShadowsIsInStep(PutRows(rows, fs, ws), PutIndex(index, fs, ws));
  }

  // Interleaved processes -------------------------------------------------------------------------------

  /** A replacement between its two steps; `asOf` numbers the commits before its SELECT. */
  datatype Pending = Pending(source: string, kind: string, seen: set<nat>, asOf: nat)

  datatype State = State(rows: Rows, index: Index, pending: map<nat, Pending>, commits: nat)

  datatype Step =
    | Upsert(fs: seq<Feature>, ws: seq<nat>)
    | Select(p: nat, source: string, kind: string)
    | Replace(p: nat, fs: seq<Feature>, ws: seq<nat>)
    | Abandon(p: nat)

  ghost predicate Next(s: State, step: Step, u: State) {
    match step
    case Upsert(fs, ws) =>
      ArePlaces(s.rows, fs, ws) &&
      u == s.(rows := PutRows(s.rows, fs, ws), index := PutIndex(s.index, fs, ws), commits := s.commits + 1)
    case Select(p, source, kind) =>
      p !in s.pending &&
      u == s.(pending := s.pending[p := Pending(source, kind, LayerRowids(s.rows, source, kind), s.commits)])
    case Replace(p, fs, ws) =>
      p in s.pending &&
      (var q := s.pending[p];
       ArePlaces(s.rows - LayerRowids(s.rows, q.source, q.kind), fs, ws) &&
       u == State(ReplacedRows(s.rows, q.source, q.kind, fs, ws), ReplacedIndex(s.index, q.seen, fs, ws), s.pending - {p}, s.commits + 1))
    case Abandon(p) =>
      p in s.pending && u == s.(pending := s.pending - {p})
  }

  const EMPTY := State(map[], map[], map[], 0)

  ghost predicate IsRun(states: seq<State>, steps: seq<Step>) {
    && |states| == |steps| + 1 && states[0] == EMPTY
    && forall i | 0 <= i < |steps| :: StepAt(states, steps, i)
  }

  ghost predicate StepAt(states: seq<State>, steps: seq<Step>, i: nat)
    requires i < |steps| && |states| == |steps| + 1
  {
    Next(states[i], steps[i], states[i + 1])
  }

  /** No other commit falls between the two steps of a replacement. */
  ghost predicate Undisturbed(s: State, step: Step) {
    step.Replace? && step.p in s.pending ==> s.pending[step.p].asOf == s.commits
  }

  ghost predicate Invariant(s: State) {
    && UniqueIds(s.rows) && Shadows(s.rows, s.index)
    && forall p | p in s.pending ::
         && s.pending[p].asOf <= s.commits
         && (s.pending[p].asOf == s.commits ==> s.pending[p].seen == LayerRowids(s.rows, s.pending[p].source, s.pending[p].kind))
  }

  lemma StepKeepsInvariant(s: State, step: Step, u: State)
    requires Invariant(s) && Next(s, step, u) && Undisturbed(s, step)
    ensures Invariant(u)
  {
    assert step.Replace? ==> |step.ws| == |step.fs|;
    hide UniqueIds; hide Shadows; hide PutRows; hide PutIndex; hide ArePlaces; hide LayerRowids;
    match step
    case Upsert(fs, ws) => PutKeepsValid(s.rows, s.index, fs, ws);
    case Replace(p, fs, ws) =>
      var q := s.pending[p];
      hide ReplacedRows; hide ReplacedIndex;
      ReplacedRowsExact(s.rows, q.source, q.kind, fs, ws);
      ReplacementKeepsIndexExactly(s.rows, s.index, q.source, q.kind, q.seen, fs, ws);
    case _ =>
  }

  /**
    In every interleaving in which no commit falls between the two steps of a replacement, the
    index shadows the table at every moment, so every box query finds what a scan would.
  */
  lemma {:induction false} UndisturbedRunsKeepIndex(states: seq<State>, steps: seq<Step>, n: nat)
    requires IsRun(states, steps) && n < |states|
    requires forall i | 0 <= i < n :: Undisturbed(states[i], steps[i])
    ensures Invariant(states[n])
  {
    if n > 0 {
      UndisturbedRunsKeepIndex(states, steps, n - 1);
      assert StepAt(states, steps, n - 1);
      StepKeepsInvariant(states[n - 1], steps[n - 1], states[n]);
    }
  }

  /**
    Whatever is committed between the two steps of a replacement, the index shadows the table
    afterwards if and only if every row that entered or left the layer meanwhile is written anew.
  */
  lemma DisturbedReplacementExactly(s: State, p: nat, fs: seq<Feature>, ws: seq<nat>, u: State)
    requires Shadows(s.rows, s.index) && Next(s, Replace(p, fs, ws), u)
    ensures Shadows(u.rows, u.index) <==>
              forall r | r in s.rows ::
                (r in s.pending[p].seen <==> s.rows[r].source == s.pending[p].source && s.rows[r].kind == s.pending[p].kind) || r in ws
  {
    var q := s.pending[p];
    ReplacementKeepsIndexExactly(s.rows, s.index, q.source, q.kind, q.seen, fs, ws);
  }

  // A feature lost from the index -------------------------------------------------------------------------

  function Stop(id: string): Feature { Feature(id, "gtfs", "stop", 41.0, 29.0, "") }

  function Park(): Feature { Feature("park", "ibb", "park", 41.0, 29.0, "") }

  const SPOT := PointBox(Park())
  const READ := Pending("gtfs", "stop", {1, 2}, 1)

  /** Two stops; a first process has read their rowids; a second one has, too. */
  const TWO_STOPS := State(map[1 := Stop("a"), 2 := Stop("b")], map[1 := SPOT, 2 := SPOT], map[], 1)
  const READ_ONCE := TWO_STOPS.(pending := map[0 := READ])
  const READ_TWICE := TWO_STOPS.(pending := map[0 := READ, 1 := READ])

  /** The second one has left one stop, a park has taken the free rowid, the first one replaces in its turn. */
  const ONE_STOP := State(map[1 := Stop("a")], map[1 := SPOT], map[0 := READ], 2)
  const STOP_AND_PARK := State(map[1 := Stop("a"), 2 := Park()], map[1 := SPOT, 2 := SPOT], map[0 := READ], 3)
  const PARK_LOST := State(map[2 := Park(), 3 := Stop("a")], map[3 := SPOT], map[], 4)

  function DisturbedSteps(): seq<Step> {
    [Upsert([Stop("a"), Stop("b")], [1, 2]), Select(0, "gtfs", "stop"), Select(1, "gtfs", "stop"),
     Replace(1, [Stop("a")], [1]), Upsert([Park()], [2]), Replace(0, [Stop("a")], [3])]
  }

  function DisturbedStates(): seq<State> {
    [EMPTY, TWO_STOPS, READ_ONCE, READ_TWICE, ONE_STOP, STOP_AND_PARK, PARK_LOST]
  }

  lemma StopsAndReads()
    ensures Next(EMPTY, DisturbedSteps()[0], TWO_STOPS)
    ensures Next(TWO_STOPS, DisturbedSteps()[1], READ_ONCE) && Next(READ_ONCE, DisturbedSteps()[2], READ_TWICE)
  {
    PlacesOfTwo(map[], Stop("a"), Stop("b"), 1, 2);
    assert LayerRowids(TWO_STOPS.rows, "gtfs", "stop") == {1, 2};
  }

  lemma SecondReplaces()
    ensures Next(READ_TWICE, DisturbedSteps()[3], ONE_STOP)
  {
    assert LayerRowids(READ_TWICE.rows, "gtfs", "stop") == {1, 2};
    assert READ_TWICE.rows - {1, 2} == map[] && READ_TWICE.index - {1, 2} == map[];
    PlaceOfOne(map[], Stop("a"), 1);
    assert READ_TWICE.pending - {1} == map[0 := READ];
  }

  lemma ParkAdded()
    ensures Next(ONE_STOP, DisturbedSteps()[4], STOP_AND_PARK)
  {
    PlaceOfOne(ONE_STOP.rows, Park(), 2);
  }

  lemma FirstReplaces()
    ensures Next(STOP_AND_PARK, DisturbedSteps()[5], PARK_LOST)
  {
    assert LayerRowids(STOP_AND_PARK.rows, "gtfs", "stop") == {1};
    assert STOP_AND_PARK.rows - {1} == map[2 := Park()] && STOP_AND_PARK.index - {1, 2} == map[];
    PlaceOfOne(map[2 := Park()], Stop("a"), 3);
    assert STOP_AND_PARK.pending - {0} == map[];
  }

  /** The run is possible, and leaves the park in the table but out of the index, where no box query finds it. */
  lemma DisturbedReplacementLosesAFeature()
    ensures IsRun(DisturbedStates(), DisturbedSteps())
    ensures PARK_LOST.rows[2] == Park() && !Shadows(PARK_LOST.rows, PARK_LOST.index)
    ensures var everywhere := Box(-180.0, 180.0, -90.0, 90.0);
      2 in Scan(PARK_LOST.rows, everywhere, {}) && 2 !in FoundInBox(PARK_LOST.rows, PARK_LOST.index, everywhere, {})
  {
    StopsAndReads();
    SecondReplaces();
    ParkAdded();
    FirstReplaces();
    hide Next;
    forall i | 0 <= i < |DisturbedSteps()| ensures StepAt(DisturbedStates(), DisturbedSteps(), i) {
      assert i == 0 || i == 1 || i == 2 || i == 3 || i == 4 || i == 5;
    }
  }

  lemma PlaceOfOne(rows: Rows, f: Feature, w: nat)
    requires IsPlace(rows, f, w)
    ensures ArePlaces(rows, [f], [w]) && PutRows(rows, [f], [w]) == rows[w := f]
    ensures forall index: Index :: PutIndex(index, [f], [w]) == index[w := PointBox(f)]
  {
    assert [f][..0] == [] && [w][..0] == [];
  }

  lemma PlacesOfTwo(rows: Rows, f: Feature, g: Feature, v: nat, w: nat)
    requires IsPlace(rows, f, v) && IsPlace(rows[v := f], g, w)
    ensures ArePlaces(rows, [f, g], [v, w]) && PutRows(rows, [f, g], [v, w]) == rows[v := f][w := g]
    ensures forall index: Index :: PutIndex(index, [f, g], [v, w]) == index[v := PointBox(f)][w := PointBox(g)]
  {
    PlaceOfOne(rows, f, v);
    assert [f, g][..1] == [f] && [v, w][..1] == [v];
  }
}
