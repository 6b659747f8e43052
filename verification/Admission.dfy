/**
  The cap on concurrent requests, and the middleware's discipline of giving a slot back exactly
  once for every request it admitted.
*/
module Admission {
  class ConcurrencyLimiter {
    const maxConcurrent: int
    var current: int
    var rejected: int

    constructor (maxConcurrent: int)
      ensures this.maxConcurrent == (if maxConcurrent > 1 then maxConcurrent else 1) && current == 0 && rejected == 0
    {
      this.maxConcurrent := if maxConcurrent > 1 then maxConcurrent else 1;
      current, rejected := 0, 0;
    }

    method Acquire() returns (ok: bool)
      modifies this
      ensures ok <==> old(current) < maxConcurrent
      ensures current == (if ok then old(current) + 1 else old(current)) && rejected == (if ok then old(rejected) else old(rejected) + 1)
      ensures (current, rejected) == AfterAcquire(maxConcurrent, old(current), old(rejected))
    {
      if current >= maxConcurrent {
        rejected := rejected + 1;
        return false;
      }
      current := current + 1;
      return true;
    }

    method Release()
      modifies this
      ensures current == AfterRelease(old(current)) && rejected == old(rejected)
      ensures current == if old(current) > 1 then old(current) - 1 else 0
    {
      current := if current - 1 > 0 then current - 1 else 0;
    }
  }

  predicate Admits(max: int, current: int) { current < max }

  /** The counters after asking for a slot. */
  function AfterAcquire(max: int, current: int, rejected: int): (int, int) {
    if Admits(max, current) then (current + 1, rejected) else (current, rejected + 1)
  }

  /** The release clamps at zero. */
  function AfterRelease(current: int): int { if current - 1 > 0 then current - 1 else 0 }

  /** Where a request stands in the middleware. */
  datatype Phase = Refused | Running | Done

  datatype State = State(max: int, current: int, rejected: int, requests: map<nat, Phase>)

  /** A request arrives and asks for a slot, or an admitted one ends, however it ends. */
  datatype Step = Arrive(r: nat) | End(r: nat)

  ghost predicate Next(s: State, step: Step, u: State) {
    match step
    case Arrive(r) =>
      r !in s.requests &&
      (var after := AfterAcquire(s.max, s.current, s.rejected);
       u == s.(current := after.0, rejected := after.1,
               requests := s.requests[r := if Admits(s.max, s.current) then Running else Refused]))
    case End(r) =>
      r in s.requests && s.requests[r].Running? &&
      u == s.(current := AfterRelease(s.current), requests := s.requests[r := Done])
  }

  function In(requests: map<nat, Phase>, p: Phase): set<nat> { set r | r in requests && requests[r] == p }

  lemma Moved(requests: map<nat, Phase>, r: nat, p: Phase, q: Phase)
    ensures In(requests[r := p], q) == if q == p then In(requests, q) + {r} else In(requests, q) - {r}
    ensures r in In(requests, q) <==> r in requests && requests[r] == q
  {
  }

  ghost predicate Run(states: seq<State>, steps: seq<Step>) {
    && |states| == |steps| + 1
    && states[0].max >= 1 && states[0].current == 0 && states[0].rejected == 0 && states[0].requests == map[]
    && forall i | 0 <= i < |steps| :: StepAt(states, steps, i)
  }

  ghost predicate StepAt(states: seq<State>, steps: seq<Step>, i: nat)
    requires i < |steps| && |states| == |steps| + 1
  {
    Next(states[i], steps[i], states[i + 1])
  }

  /** The counter is the number of running requests, within the cap; the refused are counted. */
  ghost predicate Exact(s: State) {
    s.current == |In(s.requests, Running)| <= s.max && s.rejected == |In(s.requests, Refused)|
  }

  lemma ArriveKeepsExact(s: State, r: nat, u: State)
    requires Exact(s) && Next(s, Arrive(r), u)
    ensures Exact(u)
  {
    hide In;
    var p := if Admits(s.max, s.current) then Running else Refused;
    Moved(s.requests, r, p, Running);
    Moved(s.requests, r, p, Refused);
  }

  lemma EndKeepsExact(s: State, r: nat, u: State)
    requires Exact(s) && Next(s, End(r), u)
    ensures Exact(u) && u.current == s.current - 1
  {
    hide In;
    Moved(s.requests, r, Done, Running);
    Moved(s.requests, r, Done, Refused);
  }

  /**
    In every interleaving the counter is the number of requests admitted and not yet released,
    it never exceeds the cap, and the refused ones are counted.
  */
  lemma {:induction false} CounterIsExact(states: seq<State>, steps: seq<Step>, n: nat)
    requires Run(states, steps) && n < |states|
    ensures Exact(states[n]) && states[n].max == states[0].max
  {
    if n > 0 {
      CounterIsExact(states, steps, n - 1);
      assert StepAt(states, steps, n - 1);
      match steps[n - 1]
      case Arrive(r) => ArriveKeepsExact(states[n - 1], r, states[n]);
      case End(r) => EndKeepsExact(states[n - 1], r, states[n]);
    }
  }

  /** A request is admitted exactly when fewer than the cap are running. */
  lemma AdmittedExactly(states: seq<State>, steps: seq<Step>, n: nat)
    requires Run(states, steps) && n < |steps| && steps[n].Arrive?
    ensures steps[n].r in states[n + 1].requests
    ensures states[n + 1].requests[steps[n].r] ==
      if |set r | r in states[n].requests && states[n].requests[r].Running?| < states[n].max then Running else Refused
  {
    CounterIsExact(states, steps, n);
    assert StepAt(states, steps, n);
    assert In(states[n].requests, Running) == set r | r in states[n].requests && states[n].requests[r].Running?;
  }

  /** The clamp in the release never acts. */
  lemma ReleaseNeverClamps(states: seq<State>, steps: seq<Step>, n: nat)
    requires Run(states, steps) && n < |steps| && steps[n].End?
    ensures states[n + 1].current == states[n].current - 1
  {
    CounterIsExact(states, steps, n);
    assert StepAt(states, steps, n);
    EndKeepsExact(states[n], steps[n].r, states[n + 1]);
  }
}
