/**
  The per-client token buckets in front of the service: a bounded table whose stale entries are
  pruned, and whose oldest entries are evicted when pruning is not enough.

  Time is real and comes with each call; the clock is the monotonic one.
*/
module ClientLimiter {
  import opened Rates

  datatype Bucket = Bucket(tokens: real, updatedAt: real, lastSeenAt: real)

  type Table = map<string, Bucket>

  datatype Config = Config(capacity: int, refill: real, maxClients: int) {
    predicate Valid() { capacity >= 1 && refill > 0.0 && maxClients >= 1 }
  }

  datatype Answer = Answer(allowed: bool, retryAfter: real)

  /** Tokens after the refill at `now`. */
  function Refilled(cfg: Config, b: Bucket, now: real): real {
    Min(cfg.capacity as real, b.tokens + Times(Max(0.0, now - b.updatedAt), cfg.refill))
  }

  function FreshBucket(cfg: Config, now: real): Bucket { Bucket(cfg.capacity as real, now, now) }

  /** What a call does once room has been made for its client. */
  function Answered(cfg: Config, m: Table, id: string, now: real): Answer
    requires cfg.Valid()
  {
    var tokens := Refilled(cfg, if id in m then m[id] else FreshBucket(cfg, now), now);
    if tokens >= 1.0 then Answer(true, 0.0) else Answer(false, Over(1.0 - tokens, cfg.refill))
  }

  function Charged(cfg: Config, m: Table, id: string, now: real): Table {
    var tokens := Refilled(cfg, if id in m then m[id] else FreshBucket(cfg, now), now);
    m[id := Bucket(if tokens >= 1.0 then tokens - 1.0 else tokens, now, now)]
  }

  // Pruning ------------------------------------------------------------------------------------

  predicate IsStale(cfg: Config, b: Bucket, now: real)
    requires cfg.Valid()
  {
    b.lastSeenAt < now - Max(60.0, Over(cfg.capacity as real, cfg.refill))
  }

  function WithoutStale(cfg: Config, m: Table, now: real): Table
    requires cfg.Valid()
  {
    map id | id in m && !IsStale(cfg, m[id], now) :: m[id]
  }

  /** Evicting oldest entries first until there is room; ties may go either way. */
  ghost predicate Evicted(cfg: Config, kept: Table, after: Table, out: set<string>) {
    && out == kept.Keys - after.Keys
    && (forall id | id in after :: id in kept && after[id] == kept[id])
    && (forall o, id | o in out && id in after :: kept[o].lastSeenAt <= after[id].lastSeenAt)
    && |after| == if |kept| < cfg.maxClients then |kept| else cfg.maxClients - 1
  }

  /** `_prune_locked`, where `out` are the clients evicted although not stale. */
  ghost predicate Pruned(cfg: Config, m: Table, now: real, after: Table, out: set<string>)
    requires cfg.Valid()
  {
    if |m| < cfg.maxClients then after == m && out == {}
    else Evicted(cfg, WithoutStale(cfg, m, now), after, out)
  }

  /** One call of `acquire`. */
  ghost predicate Step(cfg: Config, m: Table, id: string, now: real, after: Table, answer: Answer, out: set<string>)
    requires cfg.Valid()
  {
    exists room: Table ::
      && (if id in m then room == m && out == {} else Pruned(cfg, m, now, room, out))
      && answer == Answered(cfg, room, id, now)
      && after == Charged(cfg, room, id, now)
  }

  /** Which clients a call can remove: the long unseen, and of the others the longest unseen while there is no room. */
  lemma PrunedPlainly(cfg: Config, m: Table, now: real, after: Table, out: set<string>)
    requires cfg.Valid() && Pruned(cfg, m, now, after, out)
    ensures |after| < cfg.maxClients
    ensures |m| < cfg.maxClients ==> after == m
    ensures forall c | c in after :: c in m && after[c] == m[c]
    ensures |m| >= cfg.maxClients ==> forall c | c in after :: m[c].lastSeenAt >= now - 60.0 || m[c].lastSeenAt >= now - cfg.capacity as real / cfg.refill
    ensures forall c | c in m && c !in after && c !in out :: m[c].lastSeenAt < now - 60.0 && m[c].lastSeenAt < now - cfg.capacity as real / cfg.refill
    ensures forall c, d | c in out && d in after :: m[c].lastSeenAt <= m[d].lastSeenAt
    ensures out != {} ==> |after| == cfg.maxClients - 1
  {
    hide Times;
    if |m| >= cfg.maxClients {
      var kept := WithoutStale(cfg, m, now);
      if |kept| < cfg.maxClients {
        assert after.Keys <= kept.Keys && |after.Keys| == |kept.Keys|;
        SameSize(after.Keys, kept.Keys);
      }
    }
  }

  /** One call in numbers: a new client starts with a full bucket, a known one with what has flowed in since. */
  lemma StepPlainly(cfg: Config, m: Table, id: string, now: real, after: Table, answer: Answer, out: set<string>)
    requires cfg.Valid() && Step(cfg, m, id, now, after, answer, out)
    ensures id !in m ==> answer == Answer(true, 0.0) && id in after && after[id] == Bucket(cfg.capacity as real - 1.0, now, now)
    ensures id in m ==>
      var b := m[id];
      var flowed := b.tokens + (if now > b.updatedAt then now - b.updatedAt else 0.0) * cfg.refill;
      var tokens := if flowed < cfg.capacity as real then flowed else cfg.capacity as real;
      && answer == (if tokens >= 1.0 then Answer(true, 0.0) else Answer(false, (1.0 - tokens) / cfg.refill))
      && after == m[id := Bucket(if tokens >= 1.0 then tokens - 1.0 else tokens, now, now)]
  {
    hide Pruned;
    var room: Table :|
      && (if id in m then room == m && out == {} else Pruned(cfg, m, now, room, out))
      && answer == Answered(cfg, room, id, now) && after == Charged(cfg, room, id, now);
    if id in m {
      var b := m[id];
      assert Max(0.0, now - b.updatedAt) == if now > b.updatedAt then now - b.updatedAt else 0.0;
    } else {
      NewNotInRoom(cfg, m, id, now, room, out);
      TimesZero(cfg.refill);
    }
  }

  lemma NewNotInRoom(cfg: Config, m: Table, id: string, now: real, room: Table, out: set<string>)
    requires cfg.Valid() && id !in m && Pruned(cfg, m, now, room, out)
    ensures id !in room
  {
  }

  class ClientRateLimiter {
    const cfg: Config
    var clients: Table

    constructor (capacity: int, refillPerSecond: real, maxClients: int)
      ensures cfg.Valid() && clients == map[]
      ensures cfg.capacity == if capacity > 1 then capacity else 1
      ensures cfg.refill == Max(0.001, refillPerSecond)
      ensures cfg.maxClients == if maxClients > 1 then maxClients else 1
    {
      cfg := Config(if capacity > 1 then capacity else 1, Max(0.001, refillPerSecond), if maxClients > 1 then maxClients else 1);
      clients := map[];
    }

    method Acquire(id: string, now: real) returns (answer: Answer, ghost out: set<string>)
      requires cfg.Valid()
      modifies this
      ensures Step(cfg, old(clients), id, now, clients, answer, out)
    {
      hide Times; hide Over; hide Pruned;
      out := {};
      if id !in clients {
        out := Prune(now);
      }
      ghost var room := clients;
      if id !in clients {
        clients := clients[id := FreshBucket(cfg, now)];
      }
      var bucket := clients[id];
      var elapsed := Max(0.0, now - bucket.updatedAt);
      var tokens := Min(cfg.capacity as real, bucket.tokens + Times(elapsed, cfg.refill));
      if tokens >= 1.0 {
        clients := clients[id := Bucket(tokens - 1.0, now, now)];
        answer := Answer(true, 0.0);
      } else {
        clients := clients[id := Bucket(tokens, now, now)];
        answer := Answer(false, Over(1.0 - tokens, cfg.refill));
      }
      assert clients == Charged(cfg, room, id, now);
    }

    method Prune(now: real) returns (ghost out: set<string>)
      requires cfg.Valid()
      modifies this
      ensures Pruned(cfg, old(clients), now, clients, out)
    {
      hide Times; hide Over; hide WithoutStale;
      out := {};
      if |clients| < cfg.maxClients { return; }
      clients := WithoutStale(cfg, clients, now);
      ghost var kept := clients;
      while |clients| >= cfg.maxClients
        invariant out == kept.Keys - clients.Keys
        invariant forall id | id in clients :: id in kept && clients[id] == kept[id]
        invariant forall o, id | o in out && id in clients :: kept[o].lastSeenAt <= clients[id].lastSeenAt
        invariant |clients| <= |kept|
        invariant |clients| < |kept| ==> |clients| >= cfg.maxClients - 1 && |kept| >= cfg.maxClients
        decreases |clients|
      {
        var oldest := Oldest(clients);
        assert clients.Keys - {oldest} == (clients - {oldest}).Keys;
        out := out + {oldest};
        clients := clients - {oldest};
      }
      if |clients| == |kept| {
        assert clients.Keys <= kept.Keys;
        SameSize(clients.Keys, kept.Keys);
      }
    }
  }

  lemma SameSize<T>(a: set<T>, b: set<T>)
    requires a <= b && |a| == |b|
    ensures a == b
  {
    assert |b - a| == |b| - |a|;
  }

  /** A client seen no later than any other. */
  method Oldest(m: Table) returns (id: string)
    requires m != map[]
    ensures id in m && forall c | c in m :: m[id].lastSeenAt <= m[c].lastSeenAt
  {
    var rest := m.Keys;
    id :| id in m;
    while rest != {}
      invariant rest <= m.Keys && id in m
      invariant forall c | c in m && c !in rest :: m[id].lastSeenAt <= m[c].lastSeenAt
      decreases rest
    {
      var c :| c in rest;
      if m[c].lastSeenAt < m[id].lastSeenAt || c == id { id := c; }
      rest := rest - {c};
    }
  }

  // Whole runs -----------------------------------------------------------------------------------

  datatype Call = Call(id: string, now: real)

  datatype Trace = Trace(calls: seq<Call>, states: seq<Table>, answers: seq<Answer>, evicted: seq<set<string>>)

  predicate NonDecreasing(calls: seq<Call>) {
    forall i, j | 0 <= i <= j < |calls| :: calls[i].now <= calls[j].now
  }

  ghost predicate IsTrace(cfg: Config, tr: Trace)
    requires cfg.Valid()
  {
    && |tr.states| == |tr.calls| + 1 && |tr.answers| == |tr.calls| && |tr.evicted| == |tr.calls|
    && NonDecreasing(tr.calls)
    && tr.states[0] == map[]
    && forall i | 0 <= i < |tr.calls| :: StepAt(cfg, tr, i)
  }

  ghost predicate StepAt(cfg: Config, tr: Trace, i: nat)
    requires cfg.Valid()
    requires i < |tr.calls| && |tr.states| == |tr.calls| + 1 && |tr.answers| == |tr.calls| && |tr.evicted| == |tr.calls|
  {
    Step(cfg, tr.states[i], tr.calls[i].id, tr.calls[i].now, tr.states[i + 1], tr.answers[i], tr.evicted[i])
  }

  /** Bucket values within range. */
  ghost predicate Sound(cfg: Config, m: Table, now: real) {
    forall id | id in m :: 0.0 <= m[id].tokens <= cfg.capacity as real && m[id].updatedAt <= now
  }

  /** What every reachable table obeys at time `now`. */
  ghost predicate WellFormed(cfg: Config, m: Table, now: real) {
    && |m| <= cfg.maxClients
    && Sound(cfg, m, now)
    && forall id | id in m :: m[id].lastSeenAt == m[id].updatedAt
  }

  lemma PruneMakesRoom(cfg: Config, m: Table, now: real, after: Table, out: set<string>)
    requires cfg.Valid() && Pruned(cfg, m, now, after, out)
    ensures |after| < cfg.maxClients
    ensures forall id | id in after :: id in m && after[id] == m[id]
  {
  }

  lemma StepWellFormed(cfg: Config, m: Table, id: string, now: real, after: Table, answer: Answer, out: set<string>)
    requires cfg.Valid() && WellFormed(cfg, m, now) && Step(cfg, m, id, now, after, answer, out)
    ensures WellFormed(cfg, after, now)
  {
    hide Times; hide Over;
    var room: Table :|
      && (if id in m then room == m && out == {} else Pruned(cfg, m, now, room, out))
      && answer == Answered(cfg, room, id, now)
      && after == Charged(cfg, room, id, now);
    if id !in m { PruneMakesRoom(cfg, m, now, room, out); }
    TableGrowth(room, id, after[id]);
    var b := if id in room then room[id] else FreshBucket(cfg, now);
    TimesNonNegative(Max(0.0, now - b.updatedAt), cfg.refill);
  }

  lemma TableGrowth(m: Table, id: string, b: Bucket)
    ensures |m[id := b]| == |m| + if id in m then 0 else 1
  {
    assert m[id := b].Keys == m.Keys + {id};
    assert |m[id := b]| == |m[id := b].Keys| && |m| == |m.Keys|;
  }

  /** At every moment the table holds at most `max_clients` clients and every bucket 0..capacity tokens. */
  lemma {:induction false} TableStaysBounded(cfg: Config, tr: Trace, n: nat, now: real)
    requires cfg.Valid() && IsTrace(cfg, tr) && n < |tr.states|
    requires n > 0 ==> tr.calls[n - 1].now <= now
    ensures WellFormed(cfg, tr.states[n], now)
    ensures |tr.states[n]| <= cfg.maxClients && forall id | id in tr.states[n] :: 0.0 <= tr.states[n][id].tokens <= cfg.capacity as real
  {
    hide Times; hide Over;
    if n > 0 {
      var call := tr.calls[n - 1];
      assert StepAt(cfg, tr, n - 1);
      TableStaysBounded(cfg, tr, n - 1, call.now);
      StepWellFormed(cfg, tr.states[n - 1], call.id, call.now, tr.states[n], tr.answers[n - 1], tr.evicted[n - 1]);
    }
  }

  /** The tokens a client would find at `now`; a client without a bucket would find a full one. */
  function Available(cfg: Config, m: Table, id: string, now: real): real {
    if id in m then Refilled(cfg, m[id], now) else cfg.capacity as real
  }

  /** What is available after waiting, from what was available before. */
  function Waited(cfg: Config, tokens: real, wait: real): real {
    Min(cfg.capacity as real, tokens + Times(wait, cfg.refill))
  }

  lemma WaitedTwice(cfg: Config, tokens: real, x: real, y: real)
    requires cfg.Valid() && x >= 0.0 && y >= 0.0
    ensures Waited(cfg, Waited(cfg, tokens, x), y) == Waited(cfg, tokens, x + y)
  {
    hide Times;
    TimesAdd(x, y, cfg.refill);
    TimesNonNegative(y, cfg.refill);
  }

  lemma WaitedMonotone(cfg: Config, a: real, b: real, x: real)
    requires a <= b
    ensures Waited(cfg, a, x) <= Waited(cfg, b, x)
  {
    hide Times;
  }

  /** Waiting refills a bucket, whether or not anyone looks at it meanwhile. */
  lemma AvailableLater(cfg: Config, m: Table, id: string, now: real, later: real)
    requires cfg.Valid() && Sound(cfg, m, now) && now <= later
    ensures Available(cfg, m, id, later) == Waited(cfg, Available(cfg, m, id, now), later - now)
    ensures 0.0 <= Available(cfg, m, id, now) <= cfg.capacity as real
  {
    hide Times;
    if id in m {
      WaitedTwice(cfg, m[id].tokens, now - m[id].updatedAt, later - now);
      TimesNonNegative(now - m[id].updatedAt, cfg.refill);
    } else {
      TimesNonNegative(later - now, cfg.refill);
    }
  }

  /** A stale bucket is a full bucket. */
  lemma StaleIsFull(cfg: Config, b: Bucket, now: real)
    requires cfg.Valid() && 0.0 <= b.tokens && b.lastSeenAt == b.updatedAt && IsStale(cfg, b, now)
    ensures Refilled(cfg, b, now) == cfg.capacity as real
  {
    hide Times; hide Over;
    OverPositive(cfg.capacity as real, cfg.refill);
    OverTimes(cfg.capacity as real, cfg.refill);
    TimesMonotone(Over(cfg.capacity as real, cfg.refill), now - b.updatedAt, cfg.refill);
  }

  /** What one call does to the tokens available to client `c`. */
  lemma AvailableAfterStep(cfg: Config, m: Table, id: string, now: real, after: Table, answer: Answer, out: set<string>, c: string)
    requires cfg.Valid() && WellFormed(cfg, m, now) && Step(cfg, m, id, now, after, answer, out)
    ensures answer == if Available(cfg, m, id, now) >= 1.0 then Answer(true, 0.0)
                      else Answer(false, Over(1.0 - Available(cfg, m, id, now), cfg.refill))
    ensures id !in out
    ensures Available(cfg, after, c, now) ==
      if c in out then cfg.capacity as real
      else if c == id && answer.allowed then Available(cfg, m, c, now) - 1.0
      else Available(cfg, m, c, now)
  {
    hide Times; hide Over;
    TimesZero(cfg.refill);
    var room: Table :|
      && (if id in m then room == m && out == {} else Pruned(cfg, m, now, room, out))
      && answer == Answered(cfg, room, id, now)
      && after == Charged(cfg, room, id, now);
    if id !in m { PruneMakesRoom(cfg, m, now, room, out); }
    if c in m && c !in room && c !in out {
      assert c !in WithoutStale(cfg, m, now);
      StaleIsFull(cfg, m[c], now);
    }
    AvailableLater(cfg, m, id, now, now);
  }

  // The bound on grants -----------------------------------------------------------------------------

  function Grants(tr: Trace, c: string, i: nat, j: nat): nat
    requires i <= j <= |tr.calls| == |tr.answers|
  {
    if i == j then 0 else Grants(tr, c, i, j - 1) + if tr.calls[j - 1].id == c && tr.answers[j - 1].allowed then 1 else 0
  }

  function Evictions(tr: Trace, c: string, i: nat, j: nat): nat
    requires i <= j <= |tr.evicted|
  {
    if i == j then 0 else Evictions(tr, c, i, j - 1) + if c in tr.evicted[j - 1] then 1 else 0
  }

  /** capacity + refill * T + capacity * evictions. */
  function Bound(cfg: Config, T: real, evictions: nat): real {
    cfg.capacity as real + Times(T, cfg.refill) + Times(evictions as real, cfg.capacity as real)
  }

  lemma BoundGrows(cfg: Config, T: real, more: real, evictions: nat, evicted: bool)
    requires cfg.Valid()
    ensures Bound(cfg, T + more, evictions + if evicted then 1 else 0) ==
      Bound(cfg, T, evictions) + Times(more, cfg.refill) + if evicted then cfg.capacity as real else 0.0
  {
    hide Times;
    TimesAdd(T, more, cfg.refill);
    TimesAdd(evictions as real, 1.0, cfg.capacity as real);
    TimesOne(cfg.capacity as real);
  }

  /** The last call of a stretch: what was granted then, against the tokens before and after. */
  lemma CallPotential(cfg: Config, tr: Trace, c: string, j: nat)
    requires cfg.Valid() && IsTrace(cfg, tr) && 0 < j <= |tr.calls|
    ensures var now := tr.calls[j - 1].now;
      && 0.0 <= Available(cfg, tr.states[j - 1], c, now) <= cfg.capacity as real
      && 0.0 <= Available(cfg, tr.states[j], c, now)
      && (if tr.calls[j - 1].id == c && tr.answers[j - 1].allowed then 1.0 else 0.0) + Available(cfg, tr.states[j], c, now)
         <= Available(cfg, tr.states[j - 1], c, now) + (if c in tr.evicted[j - 1] then cfg.capacity as real else 0.0)
  {
    hide Times; hide Over;
    var call := tr.calls[j - 1];
    assert StepAt(cfg, tr, j - 1);
    TableStaysBounded(cfg, tr, j - 1, call.now);
    TableStaysBounded(cfg, tr, j, call.now);
    AvailableLater(cfg, tr.states[j - 1], c, call.now, call.now);
    AvailableLater(cfg, tr.states[j], c, call.now, call.now);
    AvailableAfterStep(cfg, tr.states[j - 1], call.id, call.now, tr.states[j], tr.answers[j - 1], tr.evicted[j - 1], c);
  }

  lemma BoundAtStart(cfg: Config)
    ensures Bound(cfg, 0.0, 0) == cfg.capacity as real
  {
    TimesZero(cfg.refill);
    TimesZero(cfg.capacity as real);
  }

  lemma {:induction false} GrantsPotential(cfg: Config, tr: Trace, c: string, i: nat, j: nat)
    requires cfg.Valid() && IsTrace(cfg, tr) && i < j <= |tr.calls|
    ensures Grants(tr, c, i, j) as real + Available(cfg, tr.states[j], c, tr.calls[j - 1].now) <=
      Bound(cfg, tr.calls[j - 1].now - tr.calls[i].now, Evictions(tr, c, i, j))
  {
    hide Times; hide Over; hide Bound;
    var now := tr.calls[j - 1].now;
    var evicted := c in tr.evicted[j - 1];
    CallPotential(cfg, tr, c, j);
    if i < j - 1 {
      GrantsPotential(cfg, tr, c, i, j - 1);
      var before := tr.calls[j - 2].now;
      WaitPotential(cfg, tr, c, j);
      BoundGrows(cfg, before - tr.calls[i].now, now - before, Evictions(tr, c, i, j - 1), evicted);
      assert before - tr.calls[i].now + (now - before) == now - tr.calls[i].now;
    } else {
      assert Grants(tr, c, i, i) == 0 && Evictions(tr, c, i, i) == 0;
      BoundGrows(cfg, 0.0, 0.0, 0, evicted);
      BoundAtStart(cfg);
      TimesZero(cfg.refill);
    }
  }

  /** Between two calls the tokens grow by at most what is refilled. */
  lemma WaitPotential(cfg: Config, tr: Trace, c: string, j: nat)
    requires cfg.Valid() && IsTrace(cfg, tr) && 1 < j <= |tr.calls|
    ensures var before, now := tr.calls[j - 2].now, tr.calls[j - 1].now;
      Available(cfg, tr.states[j - 1], c, now) <= Available(cfg, tr.states[j - 1], c, before) + Times(now - before, cfg.refill)
  {
    hide Times; hide Over;
    TableStaysBounded(cfg, tr, j - 1, tr.calls[j - 2].now);
    AvailableLater(cfg, tr.states[j - 1], c, tr.calls[j - 2].now, tr.calls[j - 1].now);
  }

  /**
    In any stretch of calls lasting T, a client is granted at most capacity + refill * T, plus
    one capacity for each time the full table forced it out.
  */
  lemma GrantsBounded(cfg: Config, tr: Trace, c: string, i: nat, j: nat, T: real)
    requires cfg.Valid() && IsTrace(cfg, tr) && i < j <= |tr.calls|
    requires tr.calls[j - 1].now - tr.calls[i].now <= T
    ensures Grants(tr, c, i, j) as real <= cfg.capacity as real + T * cfg.refill + Evictions(tr, c, i, j) as real * cfg.capacity as real
  {
    assert Bound(cfg, T, Evictions(tr, c, i, j)) == cfg.capacity as real + T * cfg.refill + Evictions(tr, c, i, j) as real * cfg.capacity as real;
    GrantsWithin(cfg, tr, c, i, j, T);
  }

  lemma GrantsWithin(cfg: Config, tr: Trace, c: string, i: nat, j: nat, T: real)
    requires cfg.Valid() && IsTrace(cfg, tr) && i < j <= |tr.calls|
    requires tr.calls[j - 1].now - tr.calls[i].now <= T
    ensures Grants(tr, c, i, j) as real <= Bound(cfg, T, Evictions(tr, c, i, j))
  {
    hide Times; hide Over;
    GrantsPotential(cfg, tr, c, i, j);
    CallPotential(cfg, tr, c, j);
    TimesMonotone(tr.calls[j - 1].now - tr.calls[i].now, T, cfg.refill);
  }

  /** The calls numbered `i` to `i + k` are one new client's, at one moment. */
  ghost predicate IsBurst(tr: Trace, i: nat, k: nat) {
    && i + k <= |tr.calls| && i < |tr.calls| && i < |tr.states|
    && tr.calls[i].id !in tr.states[i]
    && forall j | i <= j < i + k :: tr.calls[j] == tr.calls[i]
  }

  lemma {:induction false} BurstTokens(cfg: Config, tr: Trace, i: nat, k: nat)
    requires cfg.Valid() && IsTrace(cfg, tr) && IsBurst(tr, i, k)
    ensures Available(cfg, tr.states[i + k], tr.calls[i].id, tr.calls[i].now) == if k < cfg.capacity then (cfg.capacity - k) as real else 0.0
    ensures forall j | i <= j < i + k :: tr.answers[j] == if j - i < cfg.capacity then Answer(true, 0.0) else Answer(false, Over(1.0, cfg.refill))
  {
    hide Times; hide Over;
    if k > 0 {
      var id, now, n := tr.calls[i].id, tr.calls[i].now, i + k - 1;
      BurstTokens(cfg, tr, i, k - 1);
      hide Available;
      assert tr.calls[n] == tr.calls[i] && StepAt(cfg, tr, n);
      TableStaysBounded(cfg, tr, n, now);
      AvailableAfterStep(cfg, tr.states[n], id, now, tr.states[n + 1], tr.answers[n], tr.evicted[n], id);
    }
  }

  /**
    A new client that calls any number of times at one moment, with nobody else between, is
    granted exactly its first `capacity` calls; each further one is told to wait for one token.
  */
  lemma BurstExactly(cfg: Config, tr: Trace, i: nat, k: nat)
    requires cfg.Valid() && IsTrace(cfg, tr) && IsBurst(tr, i, k)
    ensures forall j | i <= j < i + k ::
      tr.answers[j] == if j - i < cfg.capacity then Answer(true, 0.0) else Answer(false, 1.0 / cfg.refill)
  {
    BurstTokens(cfg, tr, i, k);
  }

  /** A refused client that waits the returned delay, not calling meanwhile, is granted. */
  lemma WaitingIsRewarded(cfg: Config, tr: Trace, i: nat, j: nat)
    requires cfg.Valid() && IsTrace(cfg, tr) && i < j < |tr.calls|
    requires !tr.answers[i].allowed && tr.calls[j].id == tr.calls[i].id
    requires forall k | i < k < j :: tr.calls[k].id != tr.calls[i].id
    requires tr.calls[j].now >= tr.calls[i].now + tr.answers[i].retryAfter
    ensures tr.answers[j].allowed
  {
    hide Times; hide Over;
    var c, refused := tr.calls[i].id, tr.calls[i].now;
    assert StepAt(cfg, tr, i) && StepAt(cfg, tr, j);
    TableStaysBounded(cfg, tr, i, refused);
    AvailableAfterStep(cfg, tr.states[i], c, refused, tr.states[i + 1], tr.answers[i], tr.evicted[i], c);
    var had := Available(cfg, tr.states[i], c, refused);
    RivalsDoNotDrain(cfg, tr, i, j);
    TableStaysBounded(cfg, tr, j, tr.calls[j].now);
    AvailableAfterStep(cfg, tr.states[j], c, tr.calls[j].now, tr.states[j + 1], tr.answers[j], tr.evicted[j], c);
    TimesMonotone(tr.answers[i].retryAfter, tr.calls[j].now - refused, cfg.refill);
    OverTimes(1.0 - had, cfg.refill);
  }

  /** Another client's call leaves no fewer tokens available. */
  lemma RivalTakesNothing(cfg: Config, tr: Trace, c: string, j: nat)
    requires cfg.Valid() && IsTrace(cfg, tr) && j < |tr.calls| && tr.calls[j].id != c
    ensures var now := tr.calls[j].now;
      Available(cfg, tr.states[j + 1], c, now) >= Available(cfg, tr.states[j], c, now)
  {
    hide Times; hide Over; hide Available;
    var now := tr.calls[j].now;
    assert StepAt(cfg, tr, j);
    TableStaysBounded(cfg, tr, j, now);
    AvailableAfterStep(cfg, tr.states[j], tr.calls[j].id, now, tr.states[j + 1], tr.answers[j], tr.evicted[j], c);
    AvailableLater(cfg, tr.states[j], c, now, now);
  }

  /** What a client has at its next call's time, from what it had at the call before, whoever made that. */
  lemma WaitedBetween(cfg: Config, tr: Trace, c: string, j: nat)
    requires cfg.Valid() && IsTrace(cfg, tr) && 0 < j < |tr.calls|
    ensures var before, now := tr.calls[j - 1].now, tr.calls[j].now;
      && now >= before
      && Available(cfg, tr.states[j], c, now) == Waited(cfg, Available(cfg, tr.states[j], c, before), now - before)
  {
    hide Times; hide Over; hide Available;
    TableStaysBounded(cfg, tr, j, tr.calls[j - 1].now);
    AvailableLater(cfg, tr.states[j], c, tr.calls[j - 1].now, tr.calls[j].now);
  }

  lemma {:induction false} RivalsDoNotDrain(cfg: Config, tr: Trace, i: nat, j: nat)
    requires cfg.Valid() && IsTrace(cfg, tr) && i < j < |tr.calls|
    requires forall k | i < k < j :: tr.calls[k].id != tr.calls[i].id
    ensures var c := tr.calls[i].id;
      Available(cfg, tr.states[j], c, tr.calls[j].now) >=
        Waited(cfg, Available(cfg, tr.states[i + 1], c, tr.calls[i].now), tr.calls[j].now - tr.calls[i].now)
  {
    assert |tr.states| == |tr.calls| + 1;
    hide Times; hide Over; hide Available; hide Waited; hide IsTrace;
    var c, start := tr.calls[i].id, tr.calls[i].now;
    WaitedBetween(cfg, tr, c, j);
    if i < j - 1 {
      var before, now := tr.calls[j - 1].now, tr.calls[j].now;
      var had := Available(cfg, tr.states[i + 1], c, start);
      RivalsDoNotDrain(cfg, tr, i, j - 1);
      RivalTakesNothing(cfg, tr, c, j - 1);
      ClockForwards(cfg, tr, i, j - 1);
      WaitedTwice(cfg, had, before - start, now - before);
      WaitedMonotone(cfg, Waited(cfg, had, before - start), Available(cfg, tr.states[j], c, before), now - before);
      assert before - start + (now - before) == now - start;
    }
  }

  lemma ClockForwards(cfg: Config, tr: Trace, i: nat, j: nat)
    requires cfg.Valid() && IsTrace(cfg, tr) && i <= j < |tr.calls|
    ensures tr.calls[i].now <= tr.calls[j].now
  {
  }

  // Pruning is invisible -----------------------------------------------------------------------------

  /** A limiter that keeps every bucket forever. */
  ghost predicate IsUnboundedRun(cfg: Config, calls: seq<Call>, states: seq<Table>, answers: seq<Answer>)
    requires cfg.Valid()
  {
    && |states| == |calls| + 1 && |answers| == |calls| && states[0] == map[]
    && forall i | 0 <= i < |calls| ::
         answers[i] == Answered(cfg, states[i], calls[i].id, calls[i].now) &&
         states[i + 1] == Charged(cfg, states[i], calls[i].id, calls[i].now)
  }

  ghost predicate SameTokens(cfg: Config, m: Table, u: Table, now: real) {
    forall c :: Available(cfg, m, c, now) == Available(cfg, u, c, now)
  }

  lemma UnboundedStep(cfg: Config, u: Table, id: string, now: real, c: string)
    requires cfg.Valid() && Sound(cfg, u, now)
    ensures var answer := Answered(cfg, u, id, now);
      && Sound(cfg, Charged(cfg, u, id, now), now)
      && answer == (if Available(cfg, u, id, now) >= 1.0 then Answer(true, 0.0)
                    else Answer(false, Over(1.0 - Available(cfg, u, id, now), cfg.refill)))
      && Available(cfg, Charged(cfg, u, id, now), c, now) ==
           if c == id && answer.allowed then Available(cfg, u, c, now) - 1.0 else Available(cfg, u, c, now)
  {
    hide Times; hide Over;
    AvailableLater(cfg, u, id, now, now);
    TimesZero(cfg.refill);
  }

  lemma SameTokensStep(cfg: Config, tr: Trace, u: Table, n: nat, now: real)
    requires cfg.Valid() && IsTrace(cfg, tr) && n < |tr.calls| && tr.evicted[n] == {}
    requires Sound(cfg, u, tr.calls[n].now) && SameTokens(cfg, tr.states[n], u, tr.calls[n].now)
    requires tr.calls[n].now <= now
    ensures var call := tr.calls[n];
      && tr.answers[n] == Answered(cfg, u, call.id, call.now)
      && Sound(cfg, Charged(cfg, u, call.id, call.now), now)
      && SameTokens(cfg, tr.states[n + 1], Charged(cfg, u, call.id, call.now), now)
  {
    hide Times; hide Over;
    var call := tr.calls[n];
    assert StepAt(cfg, tr, n);
    var m, m', u' := tr.states[n], tr.states[n + 1], Charged(cfg, u, call.id, call.now);
    TableStaysBounded(cfg, tr, n, call.now);
    TableStaysBounded(cfg, tr, n + 1, call.now);
    AvailableAfterStep(cfg, m, call.id, call.now, m', tr.answers[n], tr.evicted[n], call.id);
    UnboundedStep(cfg, u, call.id, call.now, call.id);
    assert Available(cfg, m, call.id, call.now) == Available(cfg, u, call.id, call.now);
    forall c ensures Available(cfg, m', c, now) == Available(cfg, u', c, now) {
      AvailableAfterStep(cfg, m, call.id, call.now, m', tr.answers[n], tr.evicted[n], c);
      UnboundedStep(cfg, u, call.id, call.now, c);
      assert Available(cfg, m, c, call.now) == Available(cfg, u, c, call.now);
      AvailableLater(cfg, m', c, call.now, now);
      AvailableLater(cfg, u', c, call.now, now);
    }
  }

  lemma {:induction false} SameTokensThroughout(cfg: Config, tr: Trace, states: seq<Table>, answers: seq<Answer>, n: nat, now: real)
    requires cfg.Valid() && IsTrace(cfg, tr) && IsUnboundedRun(cfg, tr.calls, states, answers) && n <= |tr.calls|
    requires forall i | 0 <= i < |tr.calls| :: tr.evicted[i] == {}
    requires n > 0 ==> tr.calls[n - 1].now <= now
    ensures Sound(cfg, states[n], now) && SameTokens(cfg, tr.states[n], states[n], now)
    ensures forall i | 0 <= i < n :: tr.answers[i] == answers[i]
  {
    hide Times; hide Over;
    if n > 0 {
      SameTokensThroughout(cfg, tr, states, answers, n - 1, tr.calls[n - 1].now);
      SameTokensStep(cfg, tr, states[n - 1], n - 1, now);
    }
  }

  /**
    Stale pruning is invisible: as long as the full table never forces a client out, every
    decision and every delay is that of a limiter that forgets nobody.
  */
  lemma PruningIsInvisible(cfg: Config, tr: Trace, states: seq<Table>, answers: seq<Answer>)
    requires cfg.Valid() && IsTrace(cfg, tr) && IsUnboundedRun(cfg, tr.calls, states, answers)
    requires forall i | 0 <= i < |tr.calls| :: tr.evicted[i] == {}
    ensures tr.answers == answers
  {
    hide Times; hide Over;
    var now := if tr.calls == [] then 0.0 else tr.calls[|tr.calls| - 1].now;
    SameTokensThroughout(cfg, tr, states, answers, |tr.calls|, now);
  }
}
