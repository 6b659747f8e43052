/**
  The token bucket in front of each upstream source, with penalties imposed by the source.

  `acquire` sleeps and tries again; every try is one event of a trace, so that other tasks may
  try, or be penalised, between a task's tries.
*/
module TokenBucket {
  import opened Wrappers
  import opened Rates

  datatype Config = Config(capacity: real, refill: real, maxWait: real) {
    predicate Valid() { capacity >= 1.0 && refill > 0.0 }
  }

  datatype State = State(tokens: real, updatedAt: real, blockedUntil: real)

  datatype Outcome = Granted | Sleep(delay: real) | Exceeded(retryAfter: real)

  function Refreshed(cfg: Config, s: State, now: real): State {
    s.(tokens := Min(cfg.capacity, s.tokens + Times(Max(0.0, now - s.updatedAt), cfg.refill)), updatedAt := now)
  }

  /** The delay announced from a refreshed state; zero or less grants. */
  function RetryAfter(cfg: Config, s: State, now: real): real
    requires cfg.Valid()
  {
    if now < s.blockedUntil then s.blockedUntil - now
    else if s.tokens >= 1.0 then 0.0
    else Over(1.0 - s.tokens, cfg.refill)
  }

  /** What one try reports. */
  function Tried(cfg: Config, s: State, now: real): Outcome
    requires cfg.Valid()
  {
    var delay := RetryAfter(cfg, Refreshed(cfg, s, now), now);
    if delay <= 0.0 then Granted else if delay > cfg.maxWait then Exceeded(Max(0.0, delay)) else Sleep(delay)
  }

  function AfterTry(cfg: Config, s: State, now: real): State
    requires cfg.Valid()
  {
    var r := Refreshed(cfg, s, now);
    if Tried(cfg, s, now).Granted? then r.(tokens := r.tokens - 1.0) else r
  }

  function Penalized(s: State, now: real, seconds: real): State {
    s.(blockedUntil := Max(s.blockedUntil, now + Max(0.0, seconds)))
  }

  class AsyncTokenBucket {
    const cfg: Config
    var tokens: real
    var updatedAt: real
    var blockedUntil: real

    constructor (cfg: Config, now: real)
      ensures this.cfg == cfg && View() == State(cfg.capacity, now, 0.0)
    {
      this.cfg := cfg;
      tokens, updatedAt, blockedUntil := cfg.capacity, now, 0.0;
    }

    function View(): State
      reads this
    {
      State(tokens, updatedAt, blockedUntil)
    }

    /** A capacity below one or a rate that is not positive is refused. */
    static method Create(capacity: int, refillPerSecond: real, maxWait: real, now: real) returns (r: Result<AsyncTokenBucket, string>)
      ensures r.Err? <==> capacity < 1 || refillPerSecond <= 0.0
      ensures r.Ok? ==> fresh(r.value) && r.value.cfg == Config(capacity as real, refillPerSecond, maxWait) && r.value.cfg.Valid()
                        && r.value.View() == State(capacity as real, now, 0.0)
    {
      if capacity < 1 { return Err("capacity must be at least 1"); }
      if refillPerSecond <= 0.0 { return Err("refill_per_second must be positive"); }
      var bucket := new AsyncTokenBucket(Config(capacity as real, refillPerSecond, maxWait), now);
      return Ok(bucket);
    }

    /** `_retry_after_locked`. */
    method RetryAfterLocked(now: real) returns (delay: real)
      requires cfg.Valid()
      modifies this
      ensures View() == Refreshed(cfg, old(View()), now)
      ensures delay == RetryAfter(cfg, View(), now)
    {
      var elapsed := Max(0.0, now - updatedAt);
      tokens := Min(cfg.capacity, tokens + Times(elapsed, cfg.refill));
      updatedAt := now;
      if now < blockedUntil { return blockedUntil - now; }
      if tokens >= 1.0 { return 0.0; }
      return Over(1.0 - tokens, cfg.refill);
    }

    /** One try of `acquire`. */
    method Try(now: real) returns (outcome: Outcome)
      requires cfg.Valid()
      modifies this
      ensures outcome == Tried(cfg, old(View()), now)
      ensures View() == AfterTry(cfg, old(View()), now)
    {
      var delay := RetryAfterLocked(now);
      if delay <= 0.0 {
        tokens := tokens - 1.0;
        return Granted;
      }
      if delay > cfg.maxWait { return Exceeded(Max(0.0, delay)); }
      return Sleep(delay);
    }

    method Penalize(now: real, seconds: real)
      modifies this
      ensures View() == Penalized(old(View()), now, seconds)
    {
      blockedUntil := Max(blockedUntil, now + Max(0.0, seconds));
    }
  }

  // Whole runs ---------------------------------------------------------------------------------

  datatype Event = Try(now: real) | Penalty(now: real, seconds: real)

  /** `states[i]` is the bucket before event `i`, in a run that starts at time `start`. */
  datatype Trace = Trace(start: real, events: seq<Event>, states: seq<State>)

  function After(cfg: Config, s: State, e: Event): State
    requires cfg.Valid()
  {
    match e
    case Try(now) => AfterTry(cfg, s, now)
    case Penalty(now, seconds) => Penalized(s, now, seconds)
  }

  /** The time just before event `i`. */
  function Clock(tr: Trace, i: nat): real
    requires i <= |tr.events|
  {
    if i == 0 then tr.start else tr.events[i - 1].now
  }

  ghost predicate StepAt(cfg: Config, tr: Trace, i: nat)
    requires cfg.Valid() && i < |tr.events| && |tr.states| == |tr.events| + 1
  {
    tr.states[i + 1] == After(cfg, tr.states[i], tr.events[i]) && Clock(tr, i) <= tr.events[i].now
  }

  ghost predicate IsTrace(cfg: Config, tr: Trace)
    requires cfg.Valid()
  {
    && |tr.states| == |tr.events| + 1
    && tr.states[0] == State(cfg.capacity, tr.start, 0.0)
    && forall i | 0 <= i < |tr.events| :: StepAt(cfg, tr, i)
  }

  predicate IsGrant(cfg: Config, tr: Trace, i: nat)
    requires cfg.Valid() && i < |tr.events| && |tr.states| == |tr.events| + 1
  {
    tr.events[i].Try? && Tried(cfg, tr.states[i], tr.events[i].now).Granted?
  }

  /** A grant happens exactly when no penalty is pending and a whole token is there. */
  lemma GrantExactly(cfg: Config, s: State, now: real)
    requires cfg.Valid()
    ensures Tried(cfg, s, now).Granted? <==> now >= s.blockedUntil && Refreshed(cfg, s, now).tokens >= 1.0
    ensures !Tried(cfg, s, now).Granted? ==> RetryAfter(cfg, Refreshed(cfg, s, now), now) > 0.0
  {
    hide Times; hide Over;
    var r := Refreshed(cfg, s, now);
    if r.tokens < 1.0 { OverPositive(1.0 - r.tokens, cfg.refill); }
  }

  lemma RefreshedPlainly(cfg: Config, s: State, now: real)
    ensures var flowed := s.tokens + (if now > s.updatedAt then now - s.updatedAt else 0.0) * cfg.refill;
      Refreshed(cfg, s, now) == State(if flowed < cfg.capacity then flowed else cfg.capacity, now, s.blockedUntil)
  {
    var elapsed := if now > s.updatedAt then now - s.updatedAt else 0.0;
    assert Max(0.0, now - s.updatedAt) == elapsed;
    assert Times(elapsed, cfg.refill) == elapsed * cfg.refill;
  }

  /**
    One try in numbers.  It is granted when no penalty is pending and a token is there; otherwise
    the delay is what is left of the penalty, or else the time until a token is there, and the try
    fails exactly when that is longer than the task may wait, and sleeps if not.
  */
  lemma TriedPlainly(cfg: Config, s: State, now: real)
    requires cfg.Valid()
    ensures var flowed := s.tokens + (if now > s.updatedAt then now - s.updatedAt else 0.0) * cfg.refill;
      var tokens := if flowed < cfg.capacity then flowed else cfg.capacity;
      var delay := if now < s.blockedUntil then s.blockedUntil - now else (1.0 - tokens) / cfg.refill;
      var granted := now >= s.blockedUntil && tokens >= 1.0;
      && Tried(cfg, s, now) == (if granted then Granted else if delay > cfg.maxWait then Exceeded(delay) else Sleep(delay))
      && AfterTry(cfg, s, now) == State(if granted then tokens - 1.0 else tokens, now, s.blockedUntil)
  {
    var r := Refreshed(cfg, s, now);
    RefreshedPlainly(cfg, s, now);
    assert Over(1.0 - r.tokens, cfg.refill) == (1.0 - r.tokens) / cfg.refill;
    hide Times; hide Over; hide Refreshed;
    if r.tokens < 1.0 { OverPositive(1.0 - r.tokens, cfg.refill); }
  }

  /** A penalty moves the deadline to the later of the old one and its own; a negative one counts as none. */
  lemma PenaltyPlainly(s: State, now: real, seconds: real)
    ensures var deadline := if seconds > 0.0 then now + seconds else now;
      Penalized(s, now, seconds) == State(s.tokens, s.updatedAt, if deadline > s.blockedUntil then deadline else s.blockedUntil)
  {
  }

  /** Tokens stay between zero and the capacity throughout every run. */
  lemma {:induction false} TokensInRange(cfg: Config, tr: Trace, i: nat)
    requires cfg.Valid() && IsTrace(cfg, tr) && i <= |tr.events|
    ensures 0.0 <= tr.states[i].tokens <= cfg.capacity
    ensures tr.states[i].updatedAt <= Clock(tr, i)
  {
    hide Times; hide Over;
    if i > 0 {
      TokensInRange(cfg, tr, i - 1);
      assert StepAt(cfg, tr, i - 1);
      var s, e := tr.states[i - 1], tr.events[i - 1];
      TimesNonNegative(Max(0.0, e.now - s.updatedAt), cfg.refill);
      GrantExactly(cfg, s, e.now);
    }
  }

  /** What the bucket would hold at `now`. */
  function Holds(cfg: Config, s: State, now: real): real { Refreshed(cfg, s, now).tokens }

  lemma HoldsLater(cfg: Config, s: State, now: real, later: real)
    requires cfg.Valid() && s.updatedAt <= now <= later && 0.0 <= s.tokens <= cfg.capacity
    ensures Holds(cfg, s, later) == Min(cfg.capacity, Holds(cfg, s, now) + Times(later - now, cfg.refill))
    ensures 0.0 <= Holds(cfg, s, now) <= cfg.capacity
  {
    hide Times;
    var x, y := now - s.updatedAt, later - now;
    TimesAdd(x, y, cfg.refill);
    TimesNonNegative(x, cfg.refill);
    TimesNonNegative(y, cfg.refill);
  }

  function Grants(cfg: Config, tr: Trace, i: nat, j: nat): nat
    requires cfg.Valid() && i <= j <= |tr.events| && |tr.states| == |tr.events| + 1
  {
    if i == j then 0 else Grants(cfg, tr, i, j - 1) + if IsGrant(cfg, tr, j - 1) then 1 else 0
  }

  /** One event: what it grants, against the tokens before and after. */
  lemma EventPotential(cfg: Config, tr: Trace, j: nat)
    requires cfg.Valid() && IsTrace(cfg, tr) && 0 < j <= |tr.events|
    ensures var now := tr.events[j - 1].now;
      && Clock(tr, j - 1) <= now
      && (if IsGrant(cfg, tr, j - 1) then 1.0 else 0.0) + Holds(cfg, tr.states[j], now) == Holds(cfg, tr.states[j - 1], now)
      && 0.0 <= Holds(cfg, tr.states[j], now)
      && 0.0 <= Holds(cfg, tr.states[j - 1], now) <= cfg.capacity
      && Holds(cfg, tr.states[j - 1], now) <= Holds(cfg, tr.states[j - 1], Clock(tr, j - 1)) + Times(now - Clock(tr, j - 1), cfg.refill)
  {
    hide Times; hide Over;
    assert StepAt(cfg, tr, j - 1);
    var s, e := tr.states[j - 1], tr.events[j - 1];
    TokensInRange(cfg, tr, j - 1);
    TokensInRange(cfg, tr, j);
    HoldsLater(cfg, s, Clock(tr, j - 1), e.now);
    HoldsLater(cfg, s, e.now, e.now);
    HoldsLater(cfg, tr.states[j], e.now, e.now);
    TimesZero(cfg.refill);
  }

  lemma {:induction false} GrantsPotential(cfg: Config, tr: Trace, i: nat, j: nat)
    requires cfg.Valid() && IsTrace(cfg, tr) && i < j <= |tr.events|
    ensures Grants(cfg, tr, i, j) as real + Holds(cfg, tr.states[j], tr.events[j - 1].now) <=
      cfg.capacity + Times(tr.events[j - 1].now - tr.events[i].now, cfg.refill)
  {
    hide Times; hide Over; hide Refreshed; hide After;
    EventPotential(cfg, tr, j);
    if i < j - 1 {
      GrantsPotential(cfg, tr, i, j - 1);
      var before, now := tr.events[j - 2].now, tr.events[j - 1].now;
      TimesAdd(before - tr.events[i].now, now - before, cfg.refill);
      assert before - tr.events[i].now + (now - before) == now - tr.events[i].now;
    } else {
      assert Grants(cfg, tr, i, i) == 0;
      TimesZero(cfg.refill);
    }
  }

  lemma GrantsWithin(cfg: Config, tr: Trace, i: nat, j: nat, T: real)
    requires cfg.Valid() && IsTrace(cfg, tr) && i < j <= |tr.events|
    requires tr.events[j - 1].now - tr.events[i].now <= T
    ensures Grants(cfg, tr, i, j) as real <= cfg.capacity + Times(T, cfg.refill)
  {
    hide Times; hide Over;
    GrantsPotential(cfg, tr, i, j);
    EventPotential(cfg, tr, j);
    TimesMonotone(tr.events[j - 1].now - tr.events[i].now, T, cfg.refill);
  }

  /** In any stretch of a run lasting T, at most capacity + refill * T tries are granted. */
  lemma GrantsBounded(cfg: Config, tr: Trace, i: nat, j: nat, T: real)
    requires cfg.Valid() && IsTrace(cfg, tr) && i < j <= |tr.events|
    requires tr.events[j - 1].now - tr.events[i].now <= T
    ensures Grants(cfg, tr, i, j) as real <= cfg.capacity + T * cfg.refill
  {
    assert Times(T, cfg.refill) == T * cfg.refill;
    GrantsWithin(cfg, tr, i, j, T);
  }

  lemma {:induction false} DeadlineKept(cfg: Config, tr: Trace, k: nat, j: nat)
    requires cfg.Valid() && IsTrace(cfg, tr) && k < j <= |tr.events| && tr.events[k].Penalty?
    ensures tr.states[j].blockedUntil >= tr.events[k].now + Max(0.0, tr.events[k].seconds)
  {
    hide Times; hide Over;
    assert StepAt(cfg, tr, j - 1);
    if k < j - 1 { DeadlineKept(cfg, tr, k, j - 1); }
  }

  /** Nothing is granted before the deadline of any earlier penalty. */
  lemma NoGrantUnderPenalty(cfg: Config, tr: Trace, k: nat, j: nat)
    requires cfg.Valid() && IsTrace(cfg, tr) && k < j < |tr.events| && tr.events[k].Penalty? && IsGrant(cfg, tr, j)
    ensures tr.events[j].now >= tr.events[k].now + Max(0.0, tr.events[k].seconds)
  {
    hide Times; hide Over;
    DeadlineKept(cfg, tr, k, j);
    GrantExactly(cfg, tr.states[j], tr.events[j].now);
  }

  // Waiting as told --------------------------------------------------------------------------------

  /** No penalty is pending, or enough is refilled by the time the penalty ends. */
  predicate DelaySuffices(cfg: Config, s: State, now: real) {
    now >= s.blockedUntil || Holds(cfg, s, now) + Times(s.blockedUntil - now, cfg.refill) >= 1.0
  }

  /**
    A refused task that sleeps exactly the announced delay, with no rival and no new penalty
    meanwhile, is granted exactly when the delay suffices: a penalty's delay ignores how many
    tokens are missing.
  */
  lemma WaitingIsRewardedExactly(cfg: Config, s: State, now: real)
    requires cfg.Valid() && s.updatedAt <= now && 0.0 <= s.tokens <= cfg.capacity
    requires !Tried(cfg, s, now).Granted?
    ensures var delay := RetryAfter(cfg, Refreshed(cfg, s, now), now);
      Tried(cfg, AfterTry(cfg, s, now), now + delay).Granted? <==> DelaySuffices(cfg, s, now)
  {
    hide Times; hide Over;
    var r := AfterTry(cfg, s, now);
    var delay := RetryAfter(cfg, Refreshed(cfg, s, now), now);
    GrantExactly(cfg, s, now);
    GrantExactly(cfg, r, now + delay);
    TimesZero(cfg.refill);
    TimesNonNegative(Max(0.0, now - s.updatedAt), cfg.refill);
    assert (now + delay) - now == delay;
    if now >= s.blockedUntil { OverTimes(1.0 - r.tokens, cfg.refill); }
  }

  /** The case that fails: an empty bucket and a penalty shorter than the refill of one token. */
  lemma ShortPenaltyDelayIsNotEnough()
    ensures var cfg, s := Config(1.0, 1.0, 10.0), State(0.0, 5.0, 5.5);
      && Tried(cfg, s, 5.0) == Sleep(0.5)
      && Tried(cfg, AfterTry(cfg, s, 5.0), 5.5) == Sleep(0.5)
  {
  }

  /** That state is reached: a grant empties the bucket, then the source asks for half a second. */
  lemma ShortPenaltyIsReachable()
    ensures var cfg := Config(1.0, 1.0, 10.0);
      var tr := Trace(5.0, [Try(5.0), Penalty(5.0, 0.5)], [State(1.0, 5.0, 0.0), State(0.0, 5.0, 0.0), State(0.0, 5.0, 5.5)]);
      IsTrace(cfg, tr)
  {
  }
}
