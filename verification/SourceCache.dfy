/**
  The process-wide TTL cache with stale fallback, per-key single flight and bounded size.

  A call runs in atomic segments between awaits: asking, entering the key's lock, and storing or
  failing.  Calls of other tasks interleave between segments.  Locks are identified by numbers,
  so that a lock that was dropped and a new one for the same key differ.
*/
module SourceCache {
  import opened Wrappers
  import opened Rates

  datatype Entry = Entry(value: string, refreshedAt: real, expiresAt: real, maxAgeAt: Option<real>)

  datatype Cache = Cache(entries: map<string, Entry>, locks: map<string, nat>, nextLock: nat)

  /** A dated snapshot: captured then by the wall clock, usable for `window` seconds. */
  datatype Capture = Capture(capturedAt: real, window: real)

  /**
    A client's reading of a snapshot.  Ages are measured by the wall clock, the cache's limits by
    a monotonic clock: the one showed `wall` when the other showed `clock`.
  */
  datatype Reading = Reading(capture: Capture, wall: real, clock: real)

  /** A finished load: when it started, what it was given and what its source said. */
  datatype Load = Load(value: string, since: real, ttl: real, maxAge: Option<real>, reading: Option<Reading>)

  function MaxAgeAt(l: Load): Option<real> {
    if l.maxAge.Some? then Some(l.since + Max(0.0, l.maxAge.value)) else None
  }

  /** When the loaded value stops being fresh. */
  function FreshUntil(l: Load): real {
    if l.maxAge.Some? then Min(l.since + l.ttl, l.since + Max(0.0, l.maxAge.value)) else l.since + l.ttl
  }

  function EntryOf(l: Load): Entry { Entry(l.value, l.since, FreshUntil(l), MaxAgeAt(l)) }

  predicate IsFresh(c: Cache, key: string, now: real) { key in c.entries && now < c.entries[key].expiresAt }

  /** The last moment at which an entry may stand in for a failed load. */
  function StaleDeadline(e: Entry, window: real): real {
    if e.maxAgeAt.Some? then Min(e.expiresAt + window, e.maxAgeAt.value) else e.expiresAt + window
  }

  /** `_locks.setdefault`. */
  function WithLock(c: Cache, key: string): Cache {
    if key in c.locks then c else c.(locks := c.locks[key := c.nextLock], nextLock := c.nextLock + 1)
  }

  function Unexpired(c: Cache, now: real): map<string, Entry> {
    map k | k in c.entries && now < c.entries[k].expiresAt :: c.entries[k]
  }

  /** No later in (expiry, refresh) order. */
  predicate NoLater(a: Entry, b: Entry) {
    a.expiresAt < b.expiresAt || (a.expiresAt == b.expiresAt && a.refreshedAt <= b.refreshedAt)
  }

  function Capacity(maxEntries: int): int { if maxEntries > 1 then maxEntries else 1 }

  /** `_evict_before_insert`: expired entries go, then the oldest until one fits; locks go with them. */
  ghost predicate MadeRoom(c: Cache, maxEntries: int, now: real, room: Cache) {
    && (forall k | k in room.entries :: k in Unexpired(c, now) && room.entries[k] == c.entries[k])
    && (forall k, o | k in room.entries && o in Unexpired(c, now) && o !in room.entries :: NoLater(c.entries[o], c.entries[k]))
    && |room.entries| == (if |Unexpired(c, now)| < Capacity(maxEntries) then |Unexpired(c, now)| else Capacity(maxEntries) - 1)
    && room.locks == c.locks - (c.entries.Keys - room.entries.Keys)
    && room.nextLock == c.nextLock
  }

  ghost predicate Stored(c: Cache, key: string, load: Load, maxEntries: int, after: Cache) {
    exists room: Cache :: MadeRoom(c, maxEntries, load.since, room) && after == room.(entries := room.entries[key := EntryOf(load)])
  }

  predicate ServesStale(c: Cache, key: string, window: real, now: real) {
    key in c.entries && window > 0.0 && now <= StaleDeadline(c.entries[key], window)
  }

  /** A failed load forgets the lock of a key that has no entry. */
  function AfterFailure(c: Cache, key: string): Cache {
    if key in c.entries then c else c.(locks := c.locks - {key})
  }

  predicate Peekable(c: Cache, key: string, window: real, now: real) {
    key in c.entries && now < StaleDeadline(c.entries[key], window)
  }

  class SourceTTLCache {
    var entries: map<string, Entry>
    var locks: map<string, nat>
    var nextLock: nat

    constructor ()
      ensures View() == Cache(map[], map[], 0)
    {
      entries, locks, nextLock := map[], map[], 0;
    }

    function View(): Cache
      reads this
    {
      Cache(entries, locks, nextLock)
    }

    /** The check before and after waiting for the lock. */
    method Lookup(key: string, now: real) returns (hit: Option<string>)
      ensures hit == if key in entries && now < entries[key].expiresAt then Some(entries[key].value) else None
    {
      if key in entries && now < entries[key].expiresAt { return Some(entries[key].value); }
      return None;
    }

    method LockFor(key: string) returns (lock: nat)
      modifies this
      ensures View() == WithLock(old(View()), key)
      ensures key in locks && lock == locks[key]
    {
      if key !in locks {
        locks := locks[key := nextLock];
        nextLock := nextLock + 1;
      }
      return locks[key];
    }

    method EvictBeforeInsert(maxEntries: int, now: real)
      modifies this
      ensures MadeRoom(old(View()), maxEntries, now, View())
    {
      hide MadeRoom; hide NoLater; hide Unexpired; hide PartlyEvicted;
      var capacity := Capacity(maxEntries);
      ghost var before := View();
      var expired := set k | k in entries && now >= entries[k].expiresAt;
      entries := entries - expired;
      locks := locks - expired;
      ExpiredGone(before, now, capacity, expired);
      while |entries| >= capacity
        invariant PartlyEvicted(before, Unexpired(before, now), capacity, View())
        decreases |entries|
      {
        var oldest := OldestEntry(entries);
        EvictOne(before, Unexpired(before, now), capacity, View(), oldest);
        entries := entries - {oldest};
        locks := locks - {oldest};
      }
      RoomMade(before, maxEntries, now, View());
    }

    /** The end of a successful load. */
    method Store(key: string, load: Load, maxEntries: int)
      modifies this
      ensures Stored(old(View()), key, load, maxEntries, View())
      ensures key in entries && entries[key].value == load.value && entries[key].refreshedAt == load.since
      ensures load.maxAge.None? ==> entries[key].expiresAt == load.since + load.ttl && entries[key].maxAgeAt.None?
      ensures load.maxAge.Some? ==>
        var end := load.since + Max(0.0, load.maxAge.value);
        entries[key].maxAgeAt == Some(end) && entries[key].expiresAt == Min(load.since + load.ttl, end)
    {
      hide MadeRoom;
      EvictBeforeInsert(maxEntries, load.since);
      ghost var room := View();
      var maxAgeAt := if load.maxAge.Some? then Some(load.since + Max(0.0, load.maxAge.value)) else None;
      var expiresAt := load.since + load.ttl;
      if maxAgeAt.Some? { expiresAt := Min(expiresAt, maxAgeAt.value); }
      entries := entries[key := Entry(load.value, load.since, expiresAt, maxAgeAt)];
      assert View() == room.(entries := room.entries[key := EntryOf(load)]);
    }

    /** The end of a failed load; None re-raises. */
    method Fail(key: string, window: real, now: real) returns (stale: Option<string>)
      modifies this
      ensures View() == AfterFailure(old(View()), key)
      ensures stale == if ServesStale(old(View()), key, window, now) then Some(entries[key].value) else None
      ensures entries == old(entries) && locks == if key in entries then old(locks) else old(locks) - {key}
    {
      if key in entries {
        var deadline := entries[key].expiresAt + window;
        if entries[key].maxAgeAt.Some? { deadline := Min(deadline, entries[key].maxAgeAt.value); }
        if window > 0.0 && now <= deadline { return Some(entries[key].value); }
      } else {
        locks := locks - {key};
      }
      return None;
    }

    /** `peek_with_status`: the value and whether it is still fresh. */
    method Peek(key: string, window: real, now: real) returns (r: Option<(string, bool)>)
      ensures r == if Peekable(View(), key, window, now) then Some((entries[key].value, IsFresh(View(), key, now))) else None
    {
      if key !in entries { return None; }
      var deadline := entries[key].expiresAt + window;
      if entries[key].maxAgeAt.Some? { deadline := Min(deadline, entries[key].maxAgeAt.value); }
      if now >= deadline { return None; }
      return Some((entries[key].value, now < entries[key].expiresAt));
    }

    method Clear()
      modifies this
      ensures View() == old(View()).(entries := map[], locks := map[])
    {
      entries, locks := map[], map[];
    }
  }

  /** The eviction loop's state: what is left of the unexpired entries `kept`. */
  ghost predicate PartlyEvicted(before: Cache, kept: map<string, Entry>, capacity: int, now: Cache) {
    && now.entries.Keys <= kept.Keys <= before.entries.Keys
    && (forall k | k in now.entries :: now.entries[k] == before.entries[k])
    && (forall k, o | k in now.entries && o in kept && o !in now.entries :: NoLater(before.entries[o], before.entries[k]))
    && |now.entries| <= |kept| && (|now.entries| < |kept| ==> |now.entries| >= capacity - 1 && |kept| >= capacity)
    && now.locks == before.locks - (before.entries.Keys - now.entries.Keys)
    && now.nextLock == before.nextLock
  }

  lemma EvictOne(before: Cache, kept: map<string, Entry>, capacity: int, now: Cache, o: string)
    requires PartlyEvicted(before, kept, capacity, now) && |now.entries| >= capacity
    requires o in now.entries && forall k | k in now.entries :: NoLater(now.entries[o], now.entries[k])
    ensures |now.entries - {o}| < |now.entries|
    ensures PartlyEvicted(before, kept, capacity, now.(entries := now.entries - {o}, locks := now.locks - {o}))
  {
    hide NoLater;
    RemoveOne(before.entries.Keys, before.locks, now.entries, o);
  }

  lemma RemoveOne(all: set<string>, locks: map<string, nat>, m: map<string, Entry>, o: string)
    requires o in m && m.Keys <= all
    ensures (m - {o}).Keys == m.Keys - {o} && |m - {o}| == |m| - 1
    ensures locks - (all - m.Keys) - {o} == locks - (all - (m - {o}).Keys)
  {
    KeysWithout(m, o);
    var gone := all - m.Keys;
    assert all - (m.Keys - {o}) == gone + {o};
    RemovedTwice(locks, gone, {o});
  }

  lemma KeysWithout(m: map<string, Entry>, o: string)
    requires o in m
    ensures (m - {o}).Keys == m.Keys - {o} && |m - {o}| == |m| - 1
  {
    assert |m - {o}| == |(m - {o}).Keys| && |m| == |m.Keys|;
  }

  lemma RemovedTwice(m: map<string, nat>, a: set<string>, b: set<string>)
    ensures m - a - b == m - (a + b)
  {
  }

  lemma UnexpiredRemain(c: Cache, now: real, expired: set<string>)
    requires expired == set k | k in c.entries && now >= c.entries[k].expiresAt
    ensures c.entries - expired == Unexpired(c, now)
    ensures Unexpired(c, now).Keys <= c.entries.Keys && c.entries.Keys - Unexpired(c, now).Keys == expired
  {
    assert c.entries - expired == Unexpired(c, now);
  }

  lemma ExpiredGone(before: Cache, now: real, capacity: int, expired: set<string>)
    requires expired == set k | k in before.entries && now >= before.entries[k].expiresAt
    ensures PartlyEvicted(before, Unexpired(before, now), capacity,
                          before.(entries := before.entries - expired, locks := before.locks - expired))
  {
    UnexpiredRemain(before, now, expired);
    hide NoLater; hide Unexpired;
  }

  lemma RoomMade(before: Cache, maxEntries: int, now: real, room: Cache)
    requires PartlyEvicted(before, Unexpired(before, now), Capacity(maxEntries), room)
    requires |room.entries| < Capacity(maxEntries)
    ensures MadeRoom(before, maxEntries, now, room)
  {
    hide NoLater;
  }

  method OldestEntry(m: map<string, Entry>) returns (key: string)
    requires m != map[]
    ensures key in m && forall k | k in m :: NoLater(m[key], m[k])
  {
    var rest := m.Keys;
    key :| key in m;
    while rest != {}
      invariant rest <= m.Keys && key in m
      invariant forall k | k in m && k !in rest :: NoLater(m[key], m[k])
      decreases rest
    {
      var k :| k in rest;
      if !NoLater(m[key], m[k]) { key := k; }
      rest := rest - {k};
    }
  }

  // Interleaved calls --------------------------------------------------------------------------------

  datatype Call = Call(key: string, ttl: real, window: real, maxEntries: int)

  /**
    A call waiting for its lock, or loading since `since`.  `epoch` counts how often the key's
    lock had been dropped when it asked.
  */
  datatype Task = Task(call: Call, lock: nat, epoch: nat, since: Option<real>)

  /** `stored` remembers the last load stored for each key; `drops` counts dropped locks. */
  datatype State = State(cache: Cache, tasks: map<nat, Task>, clock: real, stored: map<string, Load>, drops: map<string, nat>)

  datatype Step =
    | Ask(t: nat, call: Call, now: real)
    | Enter(t: nat, now: real)
    | LoadOk(t: nat, now: real, value: string, maxAge: Option<real>, reading: Option<Reading>)
    | LoadFail(t: nat, now: real)
    | Cancel(t: nat, now: real)
    | PeekAt(key: string, window: real, now: real)
    | ClearAll(now: real)

  /** What a segment answers; a cached answer is fresh or stale. */
  datatype Reply = Silent | Cached(value: string, isFresh: bool) | Loaded(value: string) | Raised

  function Drops(s: State, key: string): nat { if key in s.drops then s.drops[key] else 0 }

  /** Keys that lose their lock between two cache states. */
  function DropCounts(s: State, after: Cache): map<string, nat> {
    map k | k in s.drops.Keys + s.cache.locks.Keys :: Drops(s, k) + if k in s.cache.locks && k !in after.locks then 1 else 0
  }

  ghost predicate LockFree(s: State, lock: nat) {
    forall t | t in s.tasks && s.tasks[t].since.Some? :: s.tasks[t].lock != lock
  }

  /** `_snapshot_payload`: the remaining age, or None when the capture is outside its window. */
  function RemainingAge(c: Capture, wall: real): Option<real> {
    var age := wall - c.capturedAt;
    if age < 0.0 || age > c.window then None else Some(c.window - age)
  }

  /** The age reported for a load is the one left at a reading made after the load began. */
  predicate AgeOfReading(since: real, maxAge: Option<real>, reading: Option<Reading>) {
    reading.Some? ==>
      since <= reading.value.clock && maxAge.Some? && maxAge == RemainingAge(reading.value.capture, reading.value.wall)
  }

  ghost predicate Next(s: State, step: Step, u: State, reply: Reply) {
    s.clock <= step.now == u.clock &&
    match step
    case Ask(t, call, now) =>
      t !in s.tasks && u.stored == s.stored && u.drops == s.drops &&
      if IsFresh(s.cache, call.key, now) then
        u.cache == s.cache && u.tasks == s.tasks && reply == Cached(s.cache.entries[call.key].value, true)
      else
        u.cache == WithLock(s.cache, call.key) && reply == Silent &&
        u.tasks == s.tasks[t := Task(call, u.cache.locks[call.key], Drops(s, call.key), None)]
    case Enter(t, now) =>
      t in s.tasks && s.tasks[t].since.None? && LockFree(s, s.tasks[t].lock) &&
      u.cache == s.cache && u.stored == s.stored && u.drops == s.drops &&
      var call := s.tasks[t].call;
      if IsFresh(s.cache, call.key, now) then
        u.tasks == s.tasks - {t} && reply == Cached(s.cache.entries[call.key].value, true)
      else
        u.tasks == s.tasks[t := s.tasks[t].(since := Some(now))] && reply == Silent
    case LoadOk(t, now, value, maxAge, reading) =>
      t in s.tasks && s.tasks[t].since.Some? &&
      var call := s.tasks[t].call;
      var load := Load(value, s.tasks[t].since.value, call.ttl, maxAge, reading);
      AgeOfReading(load.since, maxAge, reading) &&
      Stored(s.cache, call.key, load, call.maxEntries, u.cache) &&
      u.tasks == s.tasks - {t} && u.stored == s.stored[call.key := load] &&
      u.drops == DropCounts(s, u.cache) && reply == Loaded(value)
    case LoadFail(t, now) =>
      t in s.tasks && s.tasks[t].since.Some? &&
      var call := s.tasks[t].call;
      u.cache == AfterFailure(s.cache, call.key) &&
      u.tasks == s.tasks - {t} && u.stored == s.stored && u.drops == DropCounts(s, u.cache) &&
      reply == if ServesStale(s.cache, call.key, call.window, now) then Cached(s.cache.entries[call.key].value, false) else Raised
    case Cancel(t, now) =>
      t in s.tasks && u == s.(tasks := s.tasks - {t}, clock := now) && reply == Silent
    case PeekAt(key, window, now) =>
      u == s.(clock := now) &&
      reply == if Peekable(s.cache, key, window, now) then Cached(s.cache.entries[key].value, IsFresh(s.cache, key, now)) else Silent
    case ClearAll(now) =>
      u.cache == s.cache.(entries := map[], locks := map[]) && u.tasks == s.tasks && u.stored == s.stored &&
      u.drops == DropCounts(s, u.cache) && reply == Silent
  }

  /** Every entry is the last load stored for its key. */
  ghost predicate EntriesAreLastStored(s: State) {
    forall k | k in s.cache.entries :: k in s.stored && s.cache.entries[k] == EntryOf(s.stored[k])
  }

  /** What is stored of a dated snapshot has the age left at its reading. */
  ghost predicate CapturesRespected(s: State) {
    forall k | k in s.stored :: AgeOfReading(s.stored[k].since, s.stored[k].maxAge, s.stored[k].reading)
  }

  // Locks ----------------------------------------------------------------------------------------------

  ghost predicate LocksNumbered(s: State) {
    && (forall k | k in s.cache.locks :: s.cache.locks[k] < s.cache.nextLock)
    && (forall t | t in s.tasks :: s.tasks[t].lock < s.cache.nextLock && s.tasks[t].epoch <= Drops(s, s.tasks[t].call.key))
  }

  /** A task that asked since its key's last lock was dropped is queued on the present lock. */
  ghost predicate CurrentTasksQueue(s: State) {
    forall t | t in s.tasks && s.tasks[t].epoch == Drops(s, s.tasks[t].call.key) ::
      s.tasks[t].call.key in s.cache.locks && s.cache.locks[s.tasks[t].call.key] == s.tasks[t].lock
  }

  ghost predicate SameEpochSameLock(s: State) {
    forall t, v | t in s.tasks && v in s.tasks && s.tasks[t].call.key == s.tasks[v].call.key && s.tasks[t].epoch == s.tasks[v].epoch ::
      s.tasks[t].lock == s.tasks[v].lock
  }

  ghost predicate LoadersApart(s: State) {
    forall t, v | t in s.tasks && v in s.tasks && t != v && s.tasks[t].since.Some? && s.tasks[v].since.Some? ::
      s.tasks[t].lock != s.tasks[v].lock
  }

  ghost predicate LocksConsistent(s: State) {
    LocksNumbered(s) && CurrentTasksQueue(s) && SameEpochSameLock(s) && LoadersApart(s)
  }

  ghost predicate Invariant(s: State) { EntriesAreLastStored(s) && CapturesRespected(s) && LocksConsistent(s) }

  predicate Start(s: State) {
    s.cache == Cache(map[], map[], 0) && s.tasks == map[] && s.stored == map[] && s.drops == map[]
  }

  lemma StoreKeepsEntries(s: State, step: Step, u: State, reply: Reply)
    requires EntriesAreLastStored(s) && Next(s, step, u, reply)
    ensures EntriesAreLastStored(u)
  {
  }

  lemma StoreKeepsCaptures(s: State, step: Step, u: State, reply: Reply)
    requires CapturesRespected(s) && Next(s, step, u, reply)
    ensures CapturesRespected(u)
  {
  }

  /** Segments that only remove locks and tasks; the drop counts of the keys that lose theirs grow. */
  ghost predicate OnlyDrops(s: State, u: State) {
    && u.cache.nextLock == s.cache.nextLock
    && (forall k | k in u.cache.locks :: k in s.cache.locks && u.cache.locks[k] == s.cache.locks[k])
    && (forall t | t in u.tasks :: t in s.tasks && u.tasks[t] == s.tasks[t])
    && forall k :: Drops(u, k) == Drops(s, k) + if k in s.cache.locks && k !in u.cache.locks then 1 else 0
  }

  lemma DropsKeepLocks(s: State, u: State)
    requires LocksConsistent(s) && OnlyDrops(s, u)
    ensures LocksConsistent(u)
  {
    forall t | t in u.tasks && u.tasks[t].epoch == Drops(u, u.tasks[t].call.key)
      ensures u.tasks[t].call.key in u.cache.locks && u.cache.locks[u.tasks[t].call.key] == u.tasks[t].lock
    {
      assert s.tasks[t].epoch == Drops(s, s.tasks[t].call.key);
    }
  }

  ghost predicate AddsTask(s: State, t: nat, task: Task, u: State) {
    && t !in s.tasks && u.tasks == s.tasks[t := task] && task.since.None?
    && u.cache == WithLock(s.cache, task.call.key) && u.drops == s.drops
    && task.lock == u.cache.locks[task.call.key] && task.epoch == Drops(s, task.call.key)
  }

  lemma AddedTaskQueues(s: State, t: nat, task: Task, u: State)
    requires LocksNumbered(s) && CurrentTasksQueue(s) && AddsTask(s, t, task, u)
    ensures LocksNumbered(u) && CurrentTasksQueue(u)
  {
    forall k ensures Drops(u, k) == Drops(s, k) {}
    hide Drops;
  }

  lemma AddedTaskShares(s: State, t: nat, task: Task, u: State)
    requires CurrentTasksQueue(s) && SameEpochSameLock(s) && AddsTask(s, t, task, u)
    ensures SameEpochSameLock(u)
  {
    hide Drops;
    forall v | v in s.tasks && s.tasks[v].call.key == task.call.key && s.tasks[v].epoch == task.epoch
      ensures s.tasks[v].lock == task.lock
    {
      assert s.tasks[v].call.key in s.cache.locks;
    }
  }

  lemma AddedTaskKeepsLocks(s: State, t: nat, task: Task, u: State)
    requires LocksConsistent(s) && AddsTask(s, t, task, u)
    ensures LocksConsistent(u)
  {
    AddedTaskQueues(s, t, task, u);
    AddedTaskShares(s, t, task, u);
    hide LocksNumbered; hide CurrentTasksQueue; hide SameEpochSameLock;
  }

  lemma AskKeepsLocks(s: State, t: nat, call: Call, now: real, u: State, reply: Reply)
    requires LocksConsistent(s) && Next(s, Ask(t, call, now), u, reply)
    ensures LocksConsistent(u)
  {
    hide LocksConsistent;
    if IsFresh(s.cache, call.key, now) {
      FewerTasksKeepLocks(s, u);
    } else {
      hide WithLock;
      AddedTaskKeepsLocks(s, t, u.tasks[t], u);
    }
  }

  /** The same locks and no new task. */
  lemma FewerTasksKeepLocks(s: State, u: State)
    requires LocksConsistent(s) && u.cache == s.cache && u.drops == s.drops
    requires forall t | t in u.tasks :: t in s.tasks && u.tasks[t] == s.tasks[t]
    ensures LocksConsistent(u)
  {
    forall k ensures Drops(u, k) == Drops(s, k) {}
    hide Drops;
  }

  lemma EnteredTaskKeepsLocks(s: State, t: nat, now: real, u: State)
    requires LocksConsistent(s) && t in s.tasks && s.tasks[t].since.None? && LockFree(s, s.tasks[t].lock)
    requires u.cache == s.cache && u.drops == s.drops && u.tasks == s.tasks[t := s.tasks[t].(since := Some(now))]
    ensures LocksConsistent(u)
  {
    forall k ensures Drops(u, k) == Drops(s, k) {}
    hide Drops;
    assert forall v | v in u.tasks :: v in s.tasks && u.tasks[v].(since := None) == s.tasks[v].(since := None);
  }

  lemma EnterKeepsLocks(s: State, t: nat, now: real, u: State, reply: Reply)
    requires LocksConsistent(s) && Next(s, Enter(t, now), u, reply)
    ensures LocksConsistent(u)
  {
    hide LocksConsistent; hide LockFree;
    if IsFresh(s.cache, s.tasks[t].call.key, now) {
      FewerTasksKeepLocks(s, u);
    } else {
      EnteredTaskKeepsLocks(s, t, now, u);
    }
  }

  ghost predicate FewerLocks(a: Cache, b: Cache) {
    b.nextLock == a.nextLock && forall k | k in b.locks :: k in a.locks && b.locks[k] == a.locks[k]
  }

  lemma StoringOnlyDrops(a: Cache, key: string, load: Load, maxEntries: int, b: Cache)
    requires Stored(a, key, load, maxEntries, b)
    ensures FewerLocks(a, b)
  {
    hide NoLater; hide Unexpired; hide Capacity; hide EntryOf;
  }

  lemma DropsCounted(s: State, u: State)
    requires u.drops == DropCounts(s, u.cache)
    ensures forall k :: Drops(u, k) == Drops(s, k) + if k in s.cache.locks && k !in u.cache.locks then 1 else 0
  {
  }

  lemma LoadsOnlyDrop(s: State, step: Step, u: State, reply: Reply)
    requires Next(s, step, u, reply) && (step.LoadOk? || step.LoadFail? || step.ClearAll?)
    ensures OnlyDrops(s, u)
  {
    DropsCounted(s, u);
    hide Stored; hide Drops; hide DropCounts; hide ServesStale;
    if step.LoadOk? {
      var task := s.tasks[step.t];
      StoringOnlyDrops(s.cache, task.call.key, Load(step.value, task.since.value, task.call.ttl, step.maxAge, step.reading), task.call.maxEntries, u.cache);
    }
    assert FewerLocks(s.cache, u.cache);
  }

  lemma LocksKept(s: State, step: Step, u: State, reply: Reply)
    requires LocksConsistent(s) && Next(s, step, u, reply)
    ensures LocksConsistent(u)
  {
    match step
    case Ask(t, call, now) => AskKeepsLocks(s, t, call, now, u, reply);
    case Enter(t, now) => EnterKeepsLocks(s, t, now, u, reply);
    case Cancel(_, _) => FewerTasksKeepLocks(s, u);
    case PeekAt(_, _, _) => FewerTasksKeepLocks(s, u);
    case _ =>
      hide Next; hide LocksConsistent; hide OnlyDrops;
      LoadsOnlyDrop(s, step, u, reply);
      DropsKeepLocks(s, u);
  }

  lemma StepKeepsInvariant(s: State, step: Step, u: State, reply: Reply)
    requires Invariant(s) && Next(s, step, u, reply)
    ensures Invariant(u)
  {
    StoreKeepsEntries(s, step, u, reply);
    StoreKeepsCaptures(s, step, u, reply);
    LocksKept(s, step, u, reply);
  }

  datatype Run = Run(states: seq<State>, steps: seq<Step>, replies: seq<Reply>)

  ghost predicate StepAt(r: Run, i: nat)
    requires i < |r.steps| && |r.states| == |r.steps| + 1 && |r.replies| == |r.steps|
  {
    Next(r.states[i], r.steps[i], r.states[i + 1], r.replies[i])
  }

  ghost predicate IsRun(r: Run) {
    && |r.states| == |r.steps| + 1 && |r.replies| == |r.steps|
    && Start(r.states[0])
    && forall i | 0 <= i < |r.steps| :: StepAt(r, i)
  }

  lemma {:induction false} RunKeepsInvariant(r: Run, n: nat)
    requires IsRun(r) && n < |r.states|
    ensures Invariant(r.states[n])
  {
    if n > 0 {
      RunKeepsInvariant(r, n - 1);
      assert StepAt(r, n - 1);
      StepKeepsInvariant(r.states[n - 1], r.steps[n - 1], r.states[n], r.replies[n - 1]);
    }
  }

  /** Whether the task a step continues is there. */
  predicate Acts(s: State, step: Step) {
    match step
    case Enter(t, _) => t in s.tasks
    case LoadOk(t, _, _, _, _) => t in s.tasks
    case LoadFail(t, _) => t in s.tasks
    case Cancel(t, _) => t in s.tasks
    case _ => true
  }

  /** The key a step is about. */
  function KeyOf(s: State, step: Step): string
    requires Acts(s, step)
  {
    match step
    case Ask(_, call, _) => call.key
    case Enter(t, _) => s.tasks[t].call.key
    case LoadOk(t, _, _, _, _) => s.tasks[t].call.key
    case LoadFail(t, _) => s.tasks[t].call.key
    case Cancel(t, _) => s.tasks[t].call.key
    case PeekAt(key, _, _) => key
    case ClearAll(_) => ""
  }

  /** The stale window a step brings. */
  function WindowOf(s: State, step: Step): real
    requires Acts(s, step)
  {
    match step
    case PeekAt(_, window, _) => window
    case LoadFail(t, _) => s.tasks[t].call.window
    case _ => 0.0
  }

  /**
    In every interleaving, a cached answer is the last value stored for its key.  It is marked
    fresh only before min(load start + ttl, maximum age); a get serves stale only where a load
    has just failed, and nothing is served past min(expiry + stale window, maximum age).
  */
  lemma CachedAnswers(r: Run, n: nat)
    requires IsRun(r) && n < |r.steps| && r.replies[n].Cached?
    ensures var s, step := r.states[n], r.steps[n];
      && Acts(s, step)
      && var key := KeyOf(s, step);
      && key in s.stored && r.replies[n].value == s.stored[key].value
      && var load := s.stored[key];
      && (r.replies[n].isFresh ==> step.now < load.since + load.ttl)
      && (r.replies[n].isFresh && load.maxAge.Some? ==> step.now < load.since + Max(0.0, load.maxAge.value))
      && (!r.replies[n].isFresh ==> step.LoadFail? || step.PeekAt?)
      && (!r.replies[n].isFresh ==> step.now <= load.since + load.ttl + WindowOf(s, step))
      && (load.maxAge.Some? ==> step.now <= load.since + Max(0.0, load.maxAge.value))
  {
    RunKeepsInvariant(r, n);
    assert StepAt(r, n);
  }

  /** Before both limits of a load, its time to live and its maximum age. */
  predicate BeforeLimits(load: Load, now: real) {
    now < load.since + load.ttl && (load.maxAge.Some? ==> now < load.since + Max(0.0, load.maxAge.value))
  }

  /** When each kind of segment answers from the cache: all cases, in both directions. */
  lemma AnsweredExactly(r: Run, n: nat)
    requires IsRun(r) && n < |r.steps|
    ensures var s, step, reply := r.states[n], r.steps[n], r.replies[n];
      && Acts(s, step)
      && var key := KeyOf(s, step);
      && (key in s.cache.entries ==> key in s.stored)
      && (step.Ask? || step.Enter? ==>
            reply == if key in s.cache.entries && BeforeLimits(s.stored[key], step.now) then Cached(s.stored[key].value, true) else Silent)
      && (step.LoadFail? ==>
            var load, window := if key in s.stored then s.stored[key] else Load("", 0.0, 0.0, None, None), s.tasks[step.t].call.window;
            reply == if && key in s.cache.entries && window > 0.0 && step.now <= load.since + load.ttl + window
                        && (load.maxAge.Some? ==> step.now <= load.since + Max(0.0, load.maxAge.value))
                     then Cached(load.value, false) else Raised)
  {
    RunKeepsInvariant(r, n);
    assert StepAt(r, n);
    hide Stored; hide DropCounts; hide WithLock; hide AgeOfReading; hide LockFree; hide LocksConsistent; hide AfterFailure;
  }

  /** A peek answers within the stale window and the maximum age, and says whether the value is fresh. */
  lemma PeekedExactly(r: Run, n: nat)
    requires IsRun(r) && n < |r.steps| && r.steps[n].PeekAt? && r.steps[n].window >= 0.0
    ensures var s, step := r.states[n], r.steps[n];
      r.replies[n] ==
        if && step.key in s.cache.entries && step.key in s.stored
           && step.now < s.stored[step.key].since + s.stored[step.key].ttl + step.window
           && (s.stored[step.key].maxAge.Some? ==> step.now < s.stored[step.key].since + Max(0.0, s.stored[step.key].maxAge.value))
        then Cached(s.stored[step.key].value, BeforeLimits(s.stored[step.key], step.now)) else Silent
  {
    RunKeepsInvariant(r, n);
    assert StepAt(r, n);
    hide LocksConsistent;
  }

  /** From the end of step `m`'s load to step `n` the key has its entry, and no other load stores one. */
  ghost predicate Kept(r: Run, m: nat, n: nat, key: string)
    requires n < |r.states| && |r.states| == |r.steps| + 1
  {
    && (forall k | m < k <= n :: key in r.states[k].cache.entries)
    && forall k | m < k < n :: r.steps[k].LoadOk? && r.steps[k].t in r.states[k].tasks ==> r.states[k].tasks[r.steps[k].t].call.key != key
  }

  /** What step `m` stores. */
  function LoadOfStep(s: State, step: Step): Load
    requires step.LoadOk? && step.t in s.tasks && s.tasks[step.t].since.Some?
  {
    Load(step.value, s.tasks[step.t].since.value, s.tasks[step.t].call.ttl, step.maxAge, step.reading)
  }

  lemma {:induction false} StoredWhileKept(r: Run, m: nat, n: nat, key: string)
    requires IsRun(r) && m < n < |r.states| && r.steps[m].LoadOk? && Kept(r, m, n, key)
    requires r.steps[m].t in r.states[m].tasks && r.states[m].tasks[r.steps[m].t].call.key == key
    ensures r.states[m].tasks[r.steps[m].t].since.Some?
    ensures key in r.states[n].stored && r.states[n].stored[key] == LoadOfStep(r.states[m], r.steps[m])
  {
    hide Next;
    assert StepAt(r, m) && StepAt(r, n - 1);
    LoadStores(r.states[m], r.steps[m], r.states[m + 1], r.replies[m]);
    if m < n - 1 {
      StoredWhileKept(r, m, n - 1, key);
      StoredAcrossStep(r.states[n - 1], r.steps[n - 1], r.states[n], r.replies[n - 1], key);
    }
  }

  lemma LoadStores(s: State, step: Step, u: State, reply: Reply)
    requires Next(s, step, u, reply) && step.LoadOk?
    ensures step.t in s.tasks && s.tasks[step.t].since.Some?
    ensures s.tasks[step.t].call.key in u.stored && u.stored[s.tasks[step.t].call.key] == LoadOfStep(s, step)
  {
    hide Stored; hide DropCounts; hide AgeOfReading;
  }

  lemma StoredAcrossStep(s: State, step: Step, u: State, reply: Reply, key: string)
    requires Next(s, step, u, reply) && key in s.stored
    requires step.LoadOk? && step.t in s.tasks ==> s.tasks[step.t].call.key != key
    ensures key in u.stored && u.stored[key] == s.stored[key]
  {
    hide Stored; hide DropCounts; hide WithLock; hide AgeOfReading; hide LockFree;
  }

  /**
    The other direction: after a load that began at `since`, and while the key's entry is neither
    evicted nor cleared nor replaced, every call before since + ttl and before the maximum age is
    answered from the cache with what was loaded, marked fresh.
  */
  lemma FreshWhileKept(r: Run, m: nat, n: nat)
    requires IsRun(r) && m < n < |r.steps| && r.steps[m].LoadOk? && (r.steps[n].Ask? || r.steps[n].Enter?)
    requires Acts(r.states[m], r.steps[m]) && Acts(r.states[n], r.steps[n])
    requires KeyOf(r.states[n], r.steps[n]) == KeyOf(r.states[m], r.steps[m]) && Kept(r, m, n, KeyOf(r.states[m], r.steps[m]))
    ensures r.states[m].tasks[r.steps[m].t].since.Some?
    ensures var since, ttl := r.states[m].tasks[r.steps[m].t].since.value, r.states[m].tasks[r.steps[m].t].call.ttl;
      r.steps[n].now < since + ttl && (r.steps[m].maxAge.Some? ==> r.steps[n].now < since + Max(0.0, r.steps[m].maxAge.value)) ==>
        r.replies[n] == Cached(r.steps[m].value, true)
  {
    StoredWhileKept(r, m, n, KeyOf(r.states[m], r.steps[m]));
    AnsweredExactly(r, n);
    hide IsRun;
  }

  /** Making room leaves less than the bound, keeps nothing expired, changes nothing, and drops exactly the locks of what goes. */
  lemma RoomPlainly(c: Cache, maxEntries: int, now: real, room: Cache, k: string)
    requires MadeRoom(c, maxEntries, now, room)
    ensures |room.entries| < (if maxEntries > 1 then maxEntries else 1)
    ensures k in room.entries ==> k in c.entries && room.entries[k] == c.entries[k] && now < c.entries[k].expiresAt
    ensures k in room.locks <==> k in c.locks && (k in c.entries ==> k in room.entries)
  {
    hide NoLater;
  }

  /** What goes although it has not expired goes before what stays, by expiry and then by refresh. */
  lemma EvictedFirst(c: Cache, maxEntries: int, now: real, room: Cache, o: string, k: string)
    requires MadeRoom(c, maxEntries, now, room)
    requires o in c.entries && now < c.entries[o].expiresAt && o !in room.entries && k in room.entries
    ensures k in c.entries
    ensures c.entries[o].expiresAt < c.entries[k].expiresAt ||
            (c.entries[o].expiresAt == c.entries[k].expiresAt && c.entries[o].refreshedAt <= c.entries[k].refreshedAt)
  {
    assert o in Unexpired(c, now) && k in Unexpired(c, now);
    hide Unexpired;
  }

  /** And it goes only while there is no room. */
  lemma RoomNotWasted(c: Cache, maxEntries: int, now: real, room: Cache, o: string)
    requires MadeRoom(c, maxEntries, now, room)
    requires o in c.entries && now < c.entries[o].expiresAt && o !in room.entries
    ensures |room.entries| == (if maxEntries > 1 then maxEntries else 1) - 1
  {
    hide NoLater;
    var unexpired := Unexpired(c, now);
    assert o in unexpired && room.entries.Keys <= unexpired.Keys - {o};
    hide Unexpired;
    SmallerDomain(room.entries, unexpired, o);
  }

  lemma SmallerDomain(a: map<string, Entry>, b: map<string, Entry>, o: string)
    requires a.Keys <= b.Keys - {o} && o in b
    ensures |a| < |b|
  {
    KeysWithout(b, o);
    assert |b.Keys - {o}| == |b.Keys| - 1 && |a| == |a.Keys| && |b| == |b.Keys|;
    assert b.Keys - {o} == a.Keys + ((b.Keys - {o}) - a.Keys);
  }

  /**
    A snapshot is never answered from the cache, fresh or stale, once more time has passed since
    its reading than was left of its window, however long loading took.  So as long as the wall
    clock has not run ahead of the monotonic one, no answer comes after capture plus window.
  */
  lemma SnapshotsNeverOutliveTheirWindow(r: Run, n: nat, wall: real)
    requires IsRun(r) && n < |r.steps| && r.replies[n].Cached?
    requires Acts(r.states[n], r.steps[n]) && KeyOf(r.states[n], r.steps[n]) in r.states[n].stored
    requires r.states[n].stored[KeyOf(r.states[n], r.steps[n])].reading.Some?
    ensures var reading := r.states[n].stored[KeyOf(r.states[n], r.steps[n])].reading.value;
      var end := reading.capture.capturedAt + reading.capture.window;
      && r.steps[n].now - reading.clock <= end - reading.wall
      && (wall - reading.wall <= r.steps[n].now - reading.clock ==> wall <= end)
  {
    RunKeepsInvariant(r, n);
    CachedAnswers(r, n);
  }

  lemma AtMostOneMore(m: map<string, Entry>, key: string, e: Entry)
    ensures |m[key := e]| <= |m| + 1
  {
    assert m[key := e].Keys == m.Keys + {key};
    assert |m[key := e]| == |m[key := e].Keys| && |m| == |m.Keys|;
  }

  /** After every insert the number of entries is within the configured bound. */
  lemma EntriesWithinBound(r: Run, n: nat)
    requires IsRun(r) && n < |r.steps| && r.steps[n].LoadOk?
    ensures r.steps[n].t in r.states[n].tasks
    ensures |r.states[n + 1].cache.entries| <= Capacity(r.states[n].tasks[r.steps[n].t].call.maxEntries)
  {
    assert StepAt(r, n);
    hide NoLater; hide Unexpired; hide EntryOf; hide AgeOfReading; hide DropCounts;
    var s, u, t := r.states[n], r.states[n + 1], r.steps[n].t;
    var call := s.tasks[t].call;
    var load := Load(r.steps[n].value, s.tasks[t].since.value, call.ttl, r.steps[n].maxAge, r.steps[n].reading);
    var room: Cache :| MadeRoom(s.cache, call.maxEntries, load.since, room)
      && u.cache == room.(entries := room.entries[call.key := EntryOf(load)]);
    AtMostOneMore(room.entries, call.key, EntryOf(load));
  }

  // Single flight ---------------------------------------------------------------------------------------

  /** Task `t`, present before step `n`, is the one that asked at step `i`. */
  ghost predicate IsAskOf(r: Run, n: nat, t: nat, i: nat)
    requires n < |r.states| && |r.states| == |r.steps| + 1
  {
    i < n && r.steps[i].Ask? && r.steps[i].t == t && forall m | i < m <= n :: t in r.states[m].tasks
  }

  /** Step `m` drops the key's lock: an eviction at the end of a load, a failed load, or a clear. */
  ghost predicate LosesLock(r: Run, m: nat, key: string)
    requires m < |r.steps| && |r.states| == |r.steps| + 1
  {
    && key in r.states[m].cache.locks && key !in r.states[m + 1].cache.locks
    && (r.steps[m].LoadOk? || r.steps[m].LoadFail? || r.steps[m].ClearAll?)
  }

  /** What one step does to a task that is still there after it. */
  lemma TaskAcrossStep(s: State, step: Step, u: State, reply: Reply, t: nat)
    requires Next(s, step, u, reply) && t in u.tasks
    ensures t in s.tasks ==> u.tasks[t].call == s.tasks[t].call && u.tasks[t].epoch == s.tasks[t].epoch
    ensures t !in s.tasks ==> step.Ask? && step.t == t && u.tasks[t].call == step.call && u.tasks[t].epoch == Drops(s, step.call.key)
  {
    hide Stored; hide DropCounts; hide ServesStale; hide Peekable; hide WithLock; hide AgeOfReading; hide LockFree;
  }

  /** What one step does to a key's count of drops. */
  lemma DropsAcrossStep(s: State, step: Step, u: State, reply: Reply, key: string)
    requires Next(s, step, u, reply)
    ensures Drops(u, key) >= Drops(s, key)
    ensures Drops(u, key) > Drops(s, key) ==>
      key in s.cache.locks && key !in u.cache.locks && (step.LoadOk? || step.LoadFail? || step.ClearAll?)
  {
    if step.LoadOk? || step.LoadFail? || step.ClearAll? { LoadsOnlyDrop(s, step, u, reply); }
    hide Stored; hide DropCounts; hide ServesStale; hide Peekable; hide WithLock; hide AgeOfReading; hide LockFree;
  }

  /** Every task present has asked, and still carries its call and the drops counted when it asked. */
  lemma {:induction false} TaskHasAsked(r: Run, n: nat, t: nat) returns (i: nat)
    requires IsRun(r) && n < |r.states| && t in r.states[n].tasks
    ensures IsAskOf(r, n, t, i)
    ensures r.states[n].tasks[t].call == r.steps[i].call
    ensures r.states[n].tasks[t].epoch == Drops(r.states[i], r.steps[i].call.key)
  {
    hide Next; hide Drops;
    assert StepAt(r, n - 1);
    TaskAcrossStep(r.states[n - 1], r.steps[n - 1], r.states[n], r.replies[n - 1], t);
    if t in r.states[n - 1].tasks { i := TaskHasAsked(r, n - 1, t); } else { i := n - 1; }
  }

  /** Between two moments a key's drops grow only by a step that drops its lock. */
  lemma {:induction false} DropsGrow(r: Run, a: nat, b: nat, key: string)
    requires IsRun(r) && a <= b < |r.states|
    ensures Drops(r.states[a], key) <= Drops(r.states[b], key)
    ensures Drops(r.states[a], key) < Drops(r.states[b], key) ==> exists m: nat :: a <= m < b && LosesLock(r, m, key)
  {
    hide Next; hide Drops;
    if a < b {
      DropsGrow(r, a, b - 1, key);
      assert StepAt(r, b - 1);
      DropsAcrossStep(r.states[b - 1], r.steps[b - 1], r.states[b], r.replies[b - 1], key);
      if Drops(r.states[b - 1], key) < Drops(r.states[b], key) { assert LosesLock(r, b - 1, key); }
    }
  }

  /** Task `t` asked, then the key's lock was dropped, then task `v` asked. */
  ghost predicate AskedAcrossADrop(r: Run, n: nat, t: nat, v: nat, key: string)
    requires n < |r.states| && |r.states| == |r.steps| + 1
  {
    exists i: nat, m: nat, j: nat :: IsAskOf(r, n, t, i) && IsAskOf(r, n, v, j) && i < m < j && LosesLock(r, m, key)
  }

  /**
    Single flight: whenever two tasks load the same key at once, the key's lock was dropped after
    the one had asked and before the other did.
  */
  lemma SingleFlightUnlessDropped(r: Run, n: nat, t: nat, v: nat)
    requires IsRun(r) && n < |r.states| && t != v
    requires t in r.states[n].tasks && v in r.states[n].tasks
    requires r.states[n].tasks[t].since.Some? && r.states[n].tasks[v].since.Some?
    requires r.states[n].tasks[t].call.key == r.states[n].tasks[v].call.key
    ensures var key := r.states[n].tasks[t].call.key;
      AskedAcrossADrop(r, n, t, v, key) || AskedAcrossADrop(r, n, v, t, key)
  {
    var key := r.states[n].tasks[t].call.key;
    RunKeepsInvariant(r, n);
    assert r.states[n].tasks[t].epoch != r.states[n].tasks[v].epoch;
    var i := TaskHasAsked(r, n, t);
    var j := TaskHasAsked(r, n, v);
    if i < j {
      DropsGrow(r, i, j, key);
      DropBetween(r, n, t, v, key, i, j);
    } else {
      DropsGrow(r, j, i, key);
      DropBetween(r, n, v, t, key, j, i);
    }
  }

  lemma DropBetween(r: Run, n: nat, t: nat, v: nat, key: string, i: nat, j: nat)
    requires IsRun(r) && n < |r.states| && IsAskOf(r, n, t, i) && IsAskOf(r, n, v, j)
    requires exists m: nat :: i <= m < j && LosesLock(r, m, key)
    ensures AskedAcrossADrop(r, n, t, v, key)
  {
    var m: nat :| i <= m < j && LosesLock(r, m, key);
    assert i < m;
  }
}
