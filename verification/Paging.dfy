/**
  Complete capture of a paged table.  The server is arbitrary: any function from the number of
  the request, its limit and its offset to a reply or a failure.  Every loop returns the whole
  table or fails.
*/
module Paging {
  import opened Wrappers
  import opened Numbers

  /** One record, or something that is not an object; `id` is its `_id` when that is an integer. */
  datatype Row = NotAnObject | Row(id: Option<int>, columns: set<string>, content: string)

  /** `fields`, `total` and `rows` are None when the page has them in no acceptable form. */
  datatype Page = Page(fields: Option<seq<string>>, total: Option<int>, estimated: bool, rows: Option<seq<Row>>)

  datatype Reply = Reply(page: Page, size: nat)

  type Server = (nat, nat, nat) -> Option<Reply>

  /** The bounded client reads at most `maxBytes` of a reply's body and fails beyond that. */
  function Bounded(server: Server, n: nat, limit: nat, offset: nat, maxBytes: int): Option<Reply> {
    if maxBytes < 1 then None
    else
      var reply := server(n, limit, offset);
      if reply.Some? && reply.value.size <= maxBytes then reply else None
  }

  // What was asked and answered ------------------------------------------------------------------

  datatype Request = Request(limit: nat, offset: nat, reply: Reply)

  function RowsOf(q: Request): seq<Row> { if q.reply.page.rows.Some? then q.reply.page.rows.value else [] }

  function End(q: Request): (e: nat)
    ensures e >= q.offset
  {
    q.offset + |RowsOf(q)|
  }

  /** The log's requests are the server's first, in order, each with its answer. */
  ghost predicate IsLog(server: Server, log: seq<Request>) {
    forall n | 0 <= n < |log| :: server(n, log[n].limit, log[n].offset) == Some(log[n].reply)
  }

  lemma LogAppend(server: Server, log: seq<Request>, q: Request)
    requires IsLog(server, log) && server(|log|, q.limit, q.offset) == Some(q.reply)
    ensures IsLog(server, log + [q])
  {
  }

  /** Each page starts where the one before it ended, and together they are exactly `rows`. */
  ghost predicate Tiles(pages: seq<Request>, rows: seq<Row>) {
    if pages == [] then rows == []
    else
      var last := pages[|pages| - 1];
      last.offset <= |rows| && rows[last.offset..] == RowsOf(last) && Tiles(pages[..|pages| - 1], rows[..last.offset])
  }

  lemma TilesAppend(pages: seq<Request>, rows: seq<Row>, q: Request)
    requires Tiles(pages, rows) && q.offset == |rows|
    ensures Tiles(pages + [q], rows + RowsOf(q))
  {
    hide RowsOf;
    assert (pages + [q])[..|pages|] == pages && (rows + RowsOf(q))[..|rows|] == rows;
  }

  /** Page by page: where it starts, and what it holds. */
  lemma {:induction false} TileAt(pages: seq<Request>, rows: seq<Row>, n: nat)
    requires Tiles(pages, rows) && n < |pages|
    ensures pages[n].offset == if n == 0 then 0 else End(pages[n - 1])
    ensures End(pages[n]) <= |rows| && rows[pages[n].offset..End(pages[n])] == RowsOf(pages[n])
    ensures End(pages[|pages| - 1]) == |rows|
  {
    hide RowsOf;
    var front, last := pages[..|pages| - 1], pages[|pages| - 1];
    if n < |front| {
      TileAt(front, rows[..last.offset], n);
      assert rows[..last.offset][pages[n].offset..End(pages[n])] == rows[pages[n].offset..End(pages[n])];
    } else {
      if n > 0 { TileAt(front, rows[..last.offset], n - 1); }
      assert rows[last.offset..|rows|] == rows[last.offset..];
    }
  }

  /** All bytes of the bodies read. */
  function Bytes(log: seq<Request>): nat {
    if log == [] then 0 else Bytes(log[..|log| - 1]) + log[|log| - 1].reply.size
  }

  lemma BytesAppend(log: seq<Request>, q: Request)
    ensures Bytes(log + [q]) == Bytes(log) + q.reply.size
  {
    assert (log + [q])[..|log|] == log;
  }

  // An honest server ----------------------------------------------------------------------------

  /** A page of `table` at `offset`: non-empty while rows remain, of any length up to `limit`. */
  ghost predicate IsSlice(table: seq<Row>, limit: nat, offset: nat, rows: seq<Row>) {
    && offset + |rows| <= |table| && |rows| <= limit
    && rows == table[offset..offset + |rows|]
    && (limit > 0 && offset < |table| ==> |rows| > 0)
  }

  /** A server over a fixed table: whatever it answers is true, and pages may be short. */
  ghost predicate Honest(server: Server, table: seq<Row>, fields: seq<string>) {
    forall n: nat, limit: nat, offset: nat | offset <= |table| && server(n, limit, offset).Some? ::
      HonestPage(server(n, limit, offset).value.page, table, fields, limit, offset)
  }

  ghost predicate HonestPage(page: Page, table: seq<Row>, fields: seq<string>, limit: nat, offset: nat) {
    && page.fields == Some(fields) && page.total == Some(|table|) && !page.estimated
    && page.rows.Some? && IsSlice(table, limit, offset, page.rows.value)
  }

  /** Also answers every request, with bodies of 1 to `bytes` bytes. */
  ghost predicate Reliable(server: Server, bytes: nat) {
    forall n: nat, limit: nat, offset: nat :: server(n, limit, offset).Some? && 0 < server(n, limit, offset).value.size <= bytes
  }

  ghost predicate Increasing(rows: seq<Row>) {
    && (forall r | r in rows :: r.Row? && r.id.Some?)
    && forall i, j | 0 <= i < j < |rows| :: rows[i].id.value < rows[j].id.value
  }

  predicate WithinColumns(rows: seq<Row>, fields: seq<string>) {
    forall r | r in rows :: r.Row? && r.columns <= (set f | f in fields)
  }

  // The SQL snapshot -------------------------------------------------------------------------------

  datatype Snapshot = Snapshot(fields: seq<string>, records: seq<Row>, size: nat)

  function IdOf(r: Row): Option<int> { if r.Row? then r.id else None }

  function LastId(rows: seq<Row>, before: Option<int>): Option<int> {
    if rows == [] then before else IdOf(rows[|rows| - 1])
  }

  /** The first key of `rows` is beyond `before`. */
  predicate Follows(before: Option<int>, rows: seq<Row>) {
    rows != [] && before.Some? && IdOf(rows[0]).Some? ==> before.value < IdOf(rows[0]).value
  }

  /** The checks on one page of records: objects of the known columns with a growing `_id`. */
  method CheckRows(rows: seq<Row>, fields: seq<string>, lastId: Option<int>) returns (last: Option<Option<int>>)
    ensures last.Some? <==>
      WithinColumns(rows, fields) && Increasing(rows) && Follows(lastId, rows)
    ensures last.Some? ==> last.value == LastId(rows, lastId)
  {
    var columns := set f | f in fields;
    var previous := lastId;
    for i := 0 to |rows|
      invariant WithinColumns(rows[..i], fields) && Increasing(rows[..i])
      invariant Follows(lastId, rows[..i]) && previous == LastId(rows[..i], lastId)
    {
      var row := rows[i];
      assert rows[i] in rows;
      assert rows[..i + 1] == rows[..i] + [row];
      if row.NotAnObject? || !(row.columns <= columns) { return None; }
      if row.id.None? || (previous.Some? && row.id.value <= previous.value) {
        assert i > 0 ==> rows[i - 1] in rows;
        return None;
      }
      previous := row.id;
    }
    assert rows[..|rows|] == rows;
    return Some(previous);
  }

  predicate IsMetadata(page: Page, total: int, fields: seq<string>) {
    page.total == Some(total) && !page.estimated && page.rows == Some([]) && page.fields == Some(fields)
  }

  lemma IncreasingAppend(a: seq<Row>, b: seq<Row>)
    requires Increasing(a) && Increasing(b)
    requires Follows(LastId(a, None), b)
    ensures Increasing(a + b)
  {
    assert a != [] ==> a[|a| - 1] in a;
    assert b != [] ==> b[0] in b;
    forall i, j | 0 <= i < j < |a + b| ensures (a + b)[i].id.value < (a + b)[j].id.value {
      if i < |a| <= j {
        assert a[i].id.value <= a[|a| - 1].id.value && b[0].id.value <= b[j - |a|].id.value;
      }
    }
  }

  lemma SliceAppend(table: seq<Row>, rows: seq<Row>, limit: nat, page: seq<Row>)
    requires |rows| <= |table| && rows == table[..|rows|] && IsSlice(table, limit, |rows|, page)
    ensures |rows + page| <= |table| && rows + page == table[..|rows + page|]
  {
  }

  /** A slice of a table with growing keys continues its prefix. */
  lemma SliceContinues(table: seq<Row>, fields: seq<string>, rows: seq<Row>, limit: nat, page: seq<Row>)
    requires Increasing(table) && WithinColumns(table, fields)
    requires |rows| <= |table| && rows == table[..|rows|] && IsSlice(table, limit, |rows|, page)
    ensures Increasing(page) && WithinColumns(page, fields)
    ensures Follows(LastId(rows, None), page)
  {
    var n := |rows|;
    forall i | 0 <= i < |page| ensures page[i] == table[n + i] && table[n + i] in table {}
    forall r | r in page ensures r in table {
      var i :| 0 <= i < |page| && page[i] == r;
    }
    if rows != [] && page != [] { assert rows[n - 1] == table[n - 1] && page[0] == table[n]; }
  }

  /** The most that `n` replies of `bytes` bytes take. */
  ghost function Spent(bytes: nat, n: nat): nat { bytes * n }

  lemma Affordable(bytes: nat, requests: nat, total: nat, maxBytes: nat)
    requires requests < total + 2 && Spent(bytes, total + 2) <= maxBytes
    ensures Spent(bytes, requests + 1) == Spent(bytes, requests) + bytes <= maxBytes
  {
    ProductMonotone(bytes, requests + 1, total + 2);
  }

  lemma ProductMonotone(c: nat, a: nat, b: nat)
    requires a <= b
    ensures c * a <= c * b
  {
    assert c * b == c * a + c * (b - a);
  }

  /** The budgets suffice for an honest and reliable server over `table`. */
  ghost predicate Serves(server: Server, table: seq<Row>, fields: seq<string>, bytes: nat, maxRows: nat, maxBytes: nat) {
    Honest(server, table, fields) && Reliable(server, bytes) && |table| <= maxRows && Spent(bytes, |table| + 2) <= maxBytes
  }

  /** What an honest server's next reply looks like, and that it is within the budget. */
  lemma NextReply(server: Server, table: seq<Row>, fields: seq<string>, bytes: nat, n: nat, limit: nat, offset: nat, maxRows: nat, maxBytes: nat, size: nat)
    requires Honest(server, table, fields) && offset <= |table|
    ensures server(n, limit, offset).Some? ==> HonestPage(server(n, limit, offset).value.page, table, fields, limit, offset)
    ensures Serves(server, table, fields, bytes, maxRows, maxBytes) && n < |table| + 2 && size <= Spent(bytes, n) ==>
      && Bounded(server, n, limit, offset, maxBytes - size) == server(n, limit, offset)
      && server(n, limit, offset).Some? && server(n, limit, offset).value.size > 0
      && size + server(n, limit, offset).value.size <= Spent(bytes, n + 1)
  {
    hide Spent; hide HonestPage;
    if Serves(server, table, fields, bytes, maxRows, maxBytes) && n < |table| + 2 { Affordable(bytes, n, |table|, maxBytes); }
  }

  /** Request `n` asked for metadata only and was told of `total` rows and these fields. */
  ghost predicate Reports(server: Server, n: nat, total: nat, fields: seq<string>) {
    server(n, 0, 0).Some? && IsMetadata(server(n, 0, 0).value.page, total, fields)
  }

  /**
    `_load_snapshot`.  `table`, `fields0` and `bytes` name an honest server's content for the
    last two clauses; the code does not see them.
  */
  method LoadSnapshot(server: Server, maxBytes: nat, maxRows: nat, pageSize: nat,
                      ghost table: seq<Row>, ghost fields0: seq<string>, ghost bytes: nat)
    returns (r: Option<Snapshot>, requests: nat, ghost log: seq<Request>)
    requires pageSize >= 1
    ensures requests <= maxRows + 2
    ensures forall total: nat | server(0, 0, 0).Some? && server(0, 0, 0).value.page.total == Some(total) :: requests <= total + 2
    ensures r.Some? ==>
      var s := r.value;
      && s.size <= maxBytes && |s.records| <= maxRows && requests <= |s.records| + 2
      && Increasing(s.records) && WithinColumns(s.records, s.fields)
      && requests >= 2 && Reports(server, 0, |s.records|, s.fields) && Reports(server, requests - 1, |s.records|, s.fields)
      && |log| == requests && Captured(server, log, pageSize, s)
    ensures r.Some? && Honest(server, table, fields0) ==> r.value.records == table && r.value.fields == fields0
    ensures Serves(server, table, fields0, bytes, maxRows, maxBytes) && Increasing(table) && WithinColumns(table, fields0) ==> r.Some?
  {
    hide Spent; hide Increasing; hide WithinColumns; hide Honest; hide Reliable; hide IsSlice; hide LastId; hide Follows; hide IdOf; hide Bounded; hide Tiles; hide Bytes; hide End; hide RowsOf; hide Logged; hide IsLog; hide IsPageOf; hide Captured;
    EmptyTable();
    requests := 1;
    log := [];
    var size: nat := 0;
    ghost var honest := Honest(server, table, fields0);
    ghost var serves := Serves(server, table, fields0, bytes, maxRows, maxBytes) && Increasing(table) && WithinColumns(table, fields0);
    if honest { NextReply(server, table, fields0, bytes, 0, 0, 0, maxRows, maxBytes, 0); EmptySlice(table, 0); }
    BoundedReply(server, 0, 0, 0, maxBytes);
    var metadata := Bounded(server, 0, 0, 0, maxBytes);
    if metadata.None? || metadata.value.size == 0 { return None, requests, log; }
    size := size + metadata.value.size;
    var first := metadata.value.page;
    if first.fields.None? || first.total.None? || first.total.value < 0 || first.total.value > maxRows
       || first.estimated || first.rows != Some([]) { return None, requests, log; }
    var fields, total := first.fields.value, first.total.value;
    EmptyWithin(fields);
    var records: seq<Row> := [];
    var lastId: Option<int> := None;
    ghost var pages: seq<Request> := [];
    StartLogged(server, metadata.value, pageSize, total, fields);
    while |records| < total
      invariant Logged(server, metadata.value, pages, pageSize, total, fields, records, requests, size)
      invariant |records| <= total <= maxRows && 1 <= requests <= |records| + 1 && size <= maxBytes
      invariant Increasing(records) && WithinColumns(records, fields)
      invariant lastId == LastId(records, None)
      invariant honest ==> total == |table| && fields == fields0 && records == table[..|records|]
      invariant serves ==> size <= Spent(bytes, requests)
      decreases total - |records|
    {
      var requested := Min(pageSize, total - |records|);
      if honest { NextReply(server, table, fields0, bytes, requests, requested, |records|, maxRows, maxBytes, size); }
      BoundedReply(server, requests, requested, |records|, maxBytes - size);
      var reply := Bounded(server, requests, requested, |records|, maxBytes - size);
      requests := requests + 1;
      if reply.None? || reply.value.size == 0 { return None, requests, log; }
      size := size + reply.value.size;
      var page := reply.value.page;
      if honest { SliceSize(table, requested, |records|, page.rows.value); }
      if page.total != Some(total) || page.estimated || page.fields != Some(fields)
         || page.rows.None? || !(0 < |page.rows.value| <= requested) { return None, requests, log; }
      var rows := page.rows.value;
      if serves { SliceContinues(table, fields, records, requested, rows); }
      var last := CheckRows(rows, fields, lastId);
      if last.None? { return None, requests, log; }
      lastId := last.value;
      RowsAppend(records, rows, fields);
      if honest { SliceAppend(table, records, requested, rows); }
      ghost var q := Request(requested, |records|, reply.value);
      PageLogged(server, metadata.value, pages, pageSize, total, fields, records, requests - 1, size - reply.value.size, q);
      pages := pages + [q];
      records := records + rows;
    }
    assert honest ==> table[..|records|] == table;
    if honest { NextReply(server, table, fields0, bytes, requests, 0, 0, maxRows, maxBytes, size); EmptySlice(table, 0); }
    BoundedReply(server, requests, 0, 0, maxBytes - size);
    var final := Bounded(server, requests, 0, 0, maxBytes - size);
    requests := requests + 1;
    if final.None? || final.value.size == 0 { return None, requests, log; }
    size := size + final.value.size;
    if !IsMetadata(final.value.page, total, fields) { return None, requests, log; }
    log := [Request(0, 0, metadata.value)] + pages + [Request(0, 0, final.value)];
    CaptureLogged(server, metadata.value, pages, pageSize, fields, records, requests - 1, size - final.value.size, final.value, log);
    return Some(Snapshot(fields, records, size)), requests, log;
  }

  /** A page of the loop, as the loop accepts it. */
  ghost predicate IsPageOf(q: Request, pageSize: nat, total: nat, fields: seq<string>) {
    && q.offset <= total && q.limit == Min(pageSize, total - q.offset) && 0 < |RowsOf(q)| <= q.limit
    && q.reply.page.total == Some(total) && !q.reply.page.estimated && q.reply.page.fields == Some(fields)
  }

  lemma PageTaken(q: Request, pageSize: nat, total: nat, fields: seq<string>)
    requires q.offset <= total && q.limit == Min(pageSize, total - q.offset)
    requires q.reply.page.total == Some(total) && !q.reply.page.estimated && q.reply.page.fields == Some(fields)
    requires q.reply.page.rows.Some? && 0 < |q.reply.page.rows.value| <= q.limit
    ensures IsPageOf(q, pageSize, total, fields) && RowsOf(q) == q.reply.page.rows.value
  {
  }

  /** The log so far: the metadata request, and the pages of the loop. */
  ghost predicate Logged(server: Server, first: Reply, pages: seq<Request>, pageSize: nat, total: nat, fields: seq<string>,
                         records: seq<Row>, requests: nat, size: nat) {
    var log := [Request(0, 0, first)] + pages;
    && IsLog(server, log) && |log| == requests && size == Bytes(log)
    && Tiles(pages, records)
    && forall q | q in pages :: IsPageOf(q, pageSize, total, fields)
  }

  lemma StartLogged(server: Server, first: Reply, pageSize: nat, total: nat, fields: seq<string>)
    requires server(0, 0, 0) == Some(first)
    ensures Logged(server, first, [], pageSize, total, fields, [], 1, first.size)
  {
    var log := [Request(0, 0, first)];
    assert log + [] == log && log[..0] == [];
  }

  lemma PageLogged(server: Server, first: Reply, pages: seq<Request>, pageSize: nat, total: nat, fields: seq<string>,
                   records: seq<Row>, requests: nat, size: nat, q: Request)
    requires Logged(server, first, pages, pageSize, total, fields, records, requests, size)
    requires server(requests, q.limit, q.offset) == Some(q.reply) && q.offset == |records| <= total && q.limit == Min(pageSize, total - q.offset)
    requires q.reply.page.total == Some(total) && !q.reply.page.estimated && q.reply.page.fields == Some(fields)
    requires q.reply.page.rows.Some? && 0 < |q.reply.page.rows.value| <= q.limit
    ensures Logged(server, first, pages + [q], pageSize, total, fields, records + q.reply.page.rows.value, requests + 1, size + q.reply.size)
  {
    var log := [Request(0, 0, first)] + pages;
    PageTaken(q, pageSize, total, fields);
    hide IsPageOf; hide Tiles; hide Bytes; hide RowsOf; hide IsLog;
    TilesAppend(pages, records, q);
    LogAppend(server, log, q);
    BytesAppend(log, q);
    assert [Request(0, 0, first)] + (pages + [q]) == log + [q];
  }

  /** The requests behind a snapshot: metadata, pages that tile the records, metadata again. */
  ghost predicate Captured(server: Server, log: seq<Request>, pageSize: nat, s: Snapshot) {
    && |log| >= 2 && IsLog(server, log) && s.size == Bytes(log)
    && Tiles(log[1..|log| - 1], s.records)
    && forall n | 1 <= n < |log| - 1 :: IsPageOf(log[n], pageSize, |s.records|, s.fields)
  }

  lemma CaptureLogged(server: Server, first: Reply, pages: seq<Request>, pageSize: nat, fields: seq<string>,
                      records: seq<Row>, requests: nat, size: nat, final: Reply, log: seq<Request>)
    requires Logged(server, first, pages, pageSize, |records|, fields, records, requests, size)
    requires server(requests, 0, 0) == Some(final) && log == [Request(0, 0, first)] + pages + [Request(0, 0, final)]
    ensures |log| == requests + 1 && Captured(server, log, pageSize, Snapshot(fields, records, size + final.size))
  {
    hide Tiles; hide Bytes; hide RowsOf; hide IsLog; hide End; hide IsPageOf;
    var front := [Request(0, 0, first)] + pages;
    BytesAppend(front, Request(0, 0, final));
    LogAppend(server, front, Request(0, 0, final));
    assert log[1..|log| - 1] == pages;
    forall n | 1 <= n < |log| - 1 ensures IsPageOf(log[n], pageSize, |records|, fields) { assert log[n] == pages[n - 1]; }
  }

  lemma InnerTile(log: seq<Request>, rows: seq<Row>, n: nat)
    requires 1 <= n < |log| - 1 && Tiles(log[1..|log| - 1], rows)
    ensures log[n].offset == if n == 1 then 0 else End(log[n - 1])
    ensures End(log[n]) <= |rows| && rows[log[n].offset..End(log[n])] == RowsOf(log[n])
    ensures n == |log| - 2 ==> End(log[n]) == |rows|
  {
    hide Tiles; hide RowsOf;
    var pages := log[1..|log| - 1];
    assert pages[n - 1] == log[n] && (n > 1 ==> pages[n - 2] == log[n - 1]);
    TileAt(pages, rows, n - 1);
  }

  lemma PagePlainly(q: Request, pageSize: nat, rows: seq<Row>, fields: seq<string>)
    requires IsPageOf(q, pageSize, |rows|, fields) && End(q) <= |rows| && rows[q.offset..End(q)] == RowsOf(q)
    ensures q.offset < End(q) == q.offset + |RowsOf(q)| && |RowsOf(q)| <= q.limit
    ensures q.limit == (if pageSize < |rows| - q.offset then pageSize else |rows| - q.offset)
    ensures q.reply.page.total == Some(|rows|) && !q.reply.page.estimated && q.reply.page.fields == Some(fields)
    ensures q.reply.page.rows == Some(rows[q.offset..q.offset + |RowsOf(q)|])
  {
  }

  /**
    Every request between the first and the last asked, where the one before had ended, for what
    was still missing up to the page size; it was told the final total, not estimated, and the
    same fields, and given exactly the records from there to its end.
  */
  lemma CapturedPages(server: Server, log: seq<Request>, pageSize: nat, s: Snapshot, n: nat)
    requires Captured(server, log, pageSize, s) && 1 <= n < |log| - 1
    ensures var q := log[n];
      && server(n, q.limit, q.offset) == Some(q.reply)
      && q.offset == (if n == 1 then 0 else End(log[n - 1])) && q.offset < End(q) <= |s.records|
      && (n == |log| - 2 ==> End(q) == |s.records|)
      && q.limit == (if pageSize < |s.records| - q.offset then pageSize else |s.records| - q.offset)
      && q.reply.page.total == Some(|s.records|) && !q.reply.page.estimated && q.reply.page.fields == Some(s.fields)
      && q.reply.page.rows == Some(s.records[q.offset..q.offset + |RowsOf(q)|]) && |RowsOf(q)| <= q.limit
  {
    var q := log[n];
    assert server(n, q.limit, q.offset) == Some(q.reply) && IsPageOf(q, pageSize, |s.records|, s.fields);
    assert Tiles(log[1..|log| - 1], s.records);
    hide Captured; hide IsLog; hide Bytes; hide Tiles; hide IsPageOf; hide RowsOf;
    InnerTile(log, s.records, n);
    PagePlainly(q, pageSize, s.records, s.fields);
  }

  lemma EmptyTable()
    ensures Increasing([]) && LastId([], None) == None
  {
  }

  lemma BoundedReply(server: Server, n: nat, limit: nat, offset: nat, maxBytes: int)
    ensures var reply := Bounded(server, n, limit, offset, maxBytes);
      reply.Some? ==> reply == server(n, limit, offset) && reply.value.size <= maxBytes
  {
  }

  lemma EmptyWithin(fields: seq<string>)
    ensures WithinColumns([], fields)
  {
  }

  lemma EmptySlice(table: seq<Row>, offset: nat)
    ensures forall rows :: IsSlice(table, 0, offset, rows) ==> rows == []
  {
  }

  lemma SliceSize(table: seq<Row>, limit: nat, offset: nat, rows: seq<Row>)
    requires IsSlice(table, limit, offset, rows)
    ensures |rows| <= limit && offset + |rows| <= |table| && (limit > 0 && offset < |table| ==> rows != [])
  {
  }

  lemma RowsAppend(a: seq<Row>, b: seq<Row>, fields: seq<string>)
    requires Increasing(a) && Increasing(b) && WithinColumns(a, fields) && WithinColumns(b, fields)
    requires Follows(LastId(a, None), b)
    ensures Increasing(a + b) && WithinColumns(a + b, fields)
    ensures LastId(a + b, None) == LastId(b, LastId(a, None))
  {
    IncreasingAppend(a, b);
  }

  // The bounded loops without keys ------------------------------------------------------------------

  predicate AllObjects(rows: seq<Row>) { forall r | r in rows :: r.Row? }

  predicate Covered(required: set<string>, fields: seq<string>) { required <= (set f | f in fields) }

  datatype Capture = Capture(rows: seq<Row>, size: nat)

  /**
    `_fetch_datastore` (a fixed page size of 100) and `market` (which refuses an empty table):
    the total must never change, pages must not overrun it, and an early empty page fails.
  */
  method CaptureBounded(server: Server, required: set<string>, maxBytes: nat, maxRows: nat, pageSize: nat, refuseEmpty: bool,
                        ghost table: seq<Row>, ghost fields: seq<string>, ghost bytes: nat)
    returns (r: Option<Capture>, requests: nat, ghost log: seq<Request>)
    requires pageSize >= 1
    ensures requests <= maxRows + 1
    ensures forall total: nat | server(0, pageSize, 0).Some? && server(0, pageSize, 0).value.page.total == Some(total) :: requests <= total + 1
    ensures r.Some? ==>
      && r.value.size <= maxBytes && |r.value.rows| <= maxRows && AllObjects(r.value.rows) && requests <= |r.value.rows| + 1
      && (refuseEmpty ==> r.value.rows != [])
      && |log| == requests && Paged(server, log, pageSize, r.value.rows, r.value.size)
      && (forall q | q in log :: q.reply.page.total == Some(|r.value.rows|) && q.reply.page.fields.Some? && forall c | c in required :: c in q.reply.page.fields.value)
      && exists reply: Reply :: server(0, pageSize, 0) == Some(reply) && reply.page.total == Some(|r.value.rows|)
    ensures r.Some? && Honest(server, table, fields) ==> r.value.rows == table
    ensures (&& Serves(server, table, fields, bytes, maxRows, maxBytes)
             && AllObjects(table) && Covered(required, fields) && (refuseEmpty ==> table != [])) ==> r.Some?
  {
    hide Spent; hide Honest; hide Reliable; hide IsSlice; hide AllObjects; hide Paged; hide RowsOf; hide Covered; hide TellsTotal;
    ghost var honest := Honest(server, table, fields);
    ghost var serves := Serves(server, table, fields, bytes, maxRows, maxBytes)
      && AllObjects(table) && Covered(required, fields) && (refuseEmpty ==> table != []);
    assert AllObjects([]) by { NoObjects(); }
    var rows: seq<Row> := [];
    var total: Option<nat> := None;
    var received: nat := 0;
    requests := 0;
    log := [];
    NothingPaged(server, pageSize);
    while total.None? || |rows| < total.value
      invariant received <= maxBytes && AllObjects(rows)
      invariant |log| == requests && Paged(server, log, pageSize, rows, received)
      invariant forall q | q in log :: total.Some? && TellsTotal(q, required, total.value)
      invariant total.None? ==> rows == [] && requests == 0
      invariant total.Some? ==> |rows| <= total.value <= maxRows && requests <= |rows| + 1
      invariant total.Some? && |rows| < total.value ==> requests <= |rows|
      invariant total.Some? ==> exists reply: Reply :: server(0, pageSize, 0) == Some(reply) && reply.page.total == Some(total.value)
      invariant honest ==> |rows| <= |table| && rows == table[..|rows|] && (total.Some? ==> total.value == |table|)
      invariant serves ==> received <= Spent(bytes, requests)
      decreases total.None?, if total.Some? then total.value - |rows| else 0
    {
      if honest { NextReply(server, table, fields, bytes, requests, pageSize, |rows|, maxRows, maxBytes, received); }
      var reply := Bounded(server, requests, pageSize, |rows|, maxBytes - received);
      requests := requests + 1;
      if reply.None? { return None, requests, log; }
      received := received + reply.value.size;
      var page := reply.value.page;
      if honest { SliceSize(table, pageSize, |rows|, page.rows.value); }
      if serves { SliceObjects(table, rows, pageSize, page.rows.value); }
      if page.fields.None? || !Covered(required, page.fields.value) { return None, requests, log; }
      if page.total.None? || page.total.value < 0 || page.total.value > maxRows { return None, requests, log; }
      if total.Some? && page.total.value != total.value { return None, requests, log; }
      total := Some(page.total.value);
      if page.rows.None? || !AllObjects(page.rows.value) { return None, requests, log; }
      var found := page.rows.value;
      if |found| > pageSize || |rows| + |found| > total.value { return None, requests, log; }
      if found == [] && |rows| < total.value { return None, requests, log; }
      if honest { SliceAppend(table, rows, pageSize, found); }
      ObjectsAppend(rows, found);
      ghost var q := Request(pageSize, |rows|, reply.value);
      BoundedReply(server, requests - 1, pageSize, |rows|, maxBytes - (received - reply.value.size));
      OnePaged(server, log, pageSize, rows, received - reply.value.size, q);
      TotalTold(q, required, total.value);
      log := log + [q];
      rows := rows + found;
    }
    assert honest ==> table[..|rows|] == table;
    forall q | q in log ensures q.reply.page.total == Some(|rows|) && q.reply.page.fields.Some? && forall c | c in required :: c in q.reply.page.fields.value {
      ToldPlainly(q, required, |rows|);
    }
    if refuseEmpty && rows == [] { return None, requests, log; }
    return Some(Capture(rows, received)), requests, log;
  }

  /** The requests of a loop with a fixed page size, and the rows and bytes they brought. */
  ghost predicate Paged(server: Server, log: seq<Request>, limit: nat, rows: seq<Row>, size: nat) {
    IsLog(server, log) && Tiles(log, rows) && size == Bytes(log) && forall q | q in log :: q.limit == limit && q.reply.page.rows.Some?
  }

  lemma NothingPaged(server: Server, limit: nat)
    ensures Paged(server, [], limit, [], 0)
  {
  }

  lemma OnePaged(server: Server, log: seq<Request>, limit: nat, rows: seq<Row>, size: nat, q: Request)
    requires Paged(server, log, limit, rows, size)
    requires server(|log|, limit, |rows|) == Some(q.reply) && q.limit == limit && q.offset == |rows| && q.reply.page.rows.Some?
    ensures Paged(server, log + [q], limit, rows + q.reply.page.rows.value, size + q.reply.size)
  {
    TilesAppend(log, rows, q);
    BytesAppend(log, q);
    LogAppend(server, log, q);
    assert RowsOf(q) == q.reply.page.rows.value;
    hide Tiles; hide Bytes; hide IsLog; hide RowsOf;
  }

  /** Every request of such a loop asked where the one before had ended, and was given exactly the rows from there to its end. */
  lemma PagedPages(server: Server, log: seq<Request>, limit: nat, rows: seq<Row>, size: nat, n: nat)
    requires Paged(server, log, limit, rows, size) && n < |log|
    ensures var q := log[n];
      && server(n, limit, q.offset) == Some(q.reply)
      && q.offset == (if n == 0 then 0 else End(log[n - 1])) && End(q) <= |rows|
      && (n == |log| - 1 ==> End(q) == |rows|)
      && q.reply.page.rows == Some(rows[q.offset..q.offset + |RowsOf(q)|])
  {
    TileAt(log, rows, n);
    hide Tiles;
  }

  ghost predicate TellsTotal(q: Request, required: set<string>, total: nat) {
    q.reply.page.total == Some(total) && q.reply.page.fields.Some? && Covered(required, q.reply.page.fields.value)
  }

  lemma TotalTold(q: Request, required: set<string>, total: nat)
    requires q.reply.page.total == Some(total) && q.reply.page.fields.Some? && Covered(required, q.reply.page.fields.value)
    ensures TellsTotal(q, required, total)
  {
  }

  lemma ToldPlainly(q: Request, required: set<string>, total: nat)
    requires TellsTotal(q, required, total)
    ensures q.reply.page.total == Some(total) && q.reply.page.fields.Some? && forall c | c in required :: c in q.reply.page.fields.value
  {
  }

  lemma NoObjects()
    ensures AllObjects([])
  {
  }

  lemma ObjectsAppend(a: seq<Row>, b: seq<Row>)
    requires AllObjects(a) && AllObjects(b)
    ensures AllObjects(a + b)
  {
  }

  lemma SliceObjects(table: seq<Row>, rows: seq<Row>, limit: nat, page: seq<Row>)
    requires AllObjects(table) && IsSlice(table, limit, |rows|, page)
    ensures AllObjects(page)
  {
    forall r | r in page ensures r in table {
      var i :| 0 <= i < |page| && page[i] == r;
      assert r == table[|rows| + i];
    }
  }

  ghost predicate Answering(server: Server) { forall n: nat, limit: nat, offset: nat :: server(n, limit, offset).Some? }

  // The loop that trusts its first total --------------------------------------------------------------

  /** `_fetch_resource` of the card statistics: no byte budget, the first page's total decides. */
  method CaptureUnbounded(server: Server, required: set<string>, pageSize: nat, ghost table: seq<Row>, ghost fields: seq<string>)
    returns (r: Option<seq<Row>>, requests: nat, ghost log: seq<Request>)
    requires pageSize >= 1
    ensures forall total: nat | server(0, pageSize, 0).Some? && server(0, pageSize, 0).value.page.total == Some(total) :: requests <= total + 1
    ensures r.Some? ==>
      && AllObjects(r.value)
      && |log| == requests > 0 && Paged(server, log, pageSize, r.value, Bytes(log))
      && log[0].reply.page.fields.Some? && (forall c | c in required :: c in log[0].reply.page.fields.value)
      && log[0].reply.page.total == Some(|r.value|)
      && requests <= |r.value| + 1
      && exists reply: Reply :: server(0, pageSize, 0) == Some(reply) && reply.page.total == Some(|r.value|)
    ensures r.Some? && Honest(server, table, fields) ==> r.value == table
    ensures Honest(server, table, fields) && AllObjects(table) && Covered(required, fields) && Answering(server) ==> r.Some?
  {
    ghost var honest := Honest(server, table, fields);
    ghost var serves := honest && AllObjects(table) && Covered(required, fields) && Answering(server);
    requests := 1;
    log := [];
    NothingPaged(server, pageSize);
    var first := server(0, pageSize, 0);
    assert honest && first.Some? ==> HonestPage(first.value.page, table, fields, pageSize, 0);
    if first.None? || first.value.page.fields.None? || !Covered(required, first.value.page.fields.value) { return None, requests, log; }
    if serves { SliceObjects(table, [], pageSize, first.value.page.rows.value); }
    if first.value.page.total.None? || first.value.page.total.value < 0 { return None, requests, log; }
    var total: nat := first.value.page.total.value;
    if first.value.page.rows.None? || !AllObjects(first.value.page.rows.value) { return None, requests, log; }
    var rows := first.value.page.rows.value;
    if honest { SliceAppend(table, [], pageSize, rows); assert [] + rows == rows; }
    OnePaged(server, log, pageSize, [], 0, Request(pageSize, 0, first.value));
    assert log + [Request(pageSize, 0, first.value)] == [Request(pageSize, 0, first.value)] && [] + rows == rows;
    log := [Request(pageSize, 0, first.value)];
    hide Paged; hide Bytes; hide HonestPage; hide IsSlice; hide Covered;
    while |rows| < total
      invariant |log| == requests && log[0] == Request(pageSize, 0, first.value) && Paged(server, log, pageSize, rows, Bytes(log))
      invariant AllObjects(rows) && requests <= |rows| + 1 && requests <= total + 1
      invariant honest ==> |rows| <= |table| == total && rows == table[..|rows|]
      decreases total - |rows|
    {
      var page := server(requests, pageSize, |rows|);
      assert honest && page.Some? ==> HonestPage(page.value.page, table, fields, pageSize, |rows|);
      requests := requests + 1;
      if page.None? { return None, requests, log; }
      if serves { SliceObjects(table, rows, pageSize, page.value.page.rows.value); }
      if page.value.page.rows.None? || !AllObjects(page.value.page.rows.value) || page.value.page.rows.value == [] { return None, requests, log; }
      if honest { SliceAppend(table, rows, pageSize, page.value.page.rows.value); }
      OnePaged(server, log, pageSize, rows, Bytes(log), Request(pageSize, |rows|, page.value));
      BytesAppend(log, Request(pageSize, |rows|, page.value));
      log := log + [Request(pageSize, |rows|, page.value)];
      rows := rows + page.value.page.rows.value;
      if |rows| > total { return None, requests, log; }
    }
    assert honest ==> table[..|rows|] == table;
    if |rows| != total { return None, requests, log; }
    return Some(rows), requests, log;
  }

  // Stop identifiers --------------------------------------------------------------------------------------

  /** `_validate_stop_ids` on the stripped identifiers; None is a missing or unusable one. */
  method ValidateStopIds(ids: seq<Option<string>>) returns (ok: bool)
    ensures ok <==>
      && ids != []
      && (forall i | 0 <= i < |ids| :: ids[i].Some? && ids[i].value != "")
      && forall i, j | 0 <= i < j < |ids| :: ids[i] != ids[j]
  {
    if ids == [] { return false; }
    var seen: set<string> := {};
    for i := 0 to |ids|
      invariant forall k | 0 <= k < i :: ids[k].Some? && ids[k].value != ""
      invariant forall k, l | 0 <= k < l < i :: ids[k] != ids[l]
      invariant forall s :: s in seen <==> Some(s) in ids[..i]
    {
      if ids[i].None? || ids[i].value == "" { return false; }
      if ids[i].value in seen {
        var k :| 0 <= k < i && ids[k] == ids[i];
        return false;
      }
      seen := seen + {ids[i].value};
      assert ids[..i + 1] == ids[..i] + [ids[i]];
    }
    return true;
  }
}
