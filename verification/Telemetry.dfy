/** Per-tool call counters, updated by interleaved calls.  Counts per tool are multisets. */
module Telemetry {
  import opened Wrappers

  datatype Outcome = Success | DomainError | ToolError | Exception | Cancelled

  const UNKNOWN := "__unknown__"

  datatype Row = Row(calls: nat, inFlight: int, outcomes: multiset<Outcome>, errors: multiset<string>)

  type Rows = map<string, Row>

  /** What a finished call's result says, as far as its class and error code go. */
  datatype Content = Plain | IsError | NotOk(code: Option<string>)

  /** How the tracked block was left; a result may have been recorded before an exception. */
  datatype Exit = Returned(content: Content) | ByCancellation | ByToolError(unexpected: bool, badArguments: bool) | ByException

  datatype Observation = Observation(outcome: Outcome, code: Option<string>)

  /** `_classify_result` and the handlers of `track`; `known` are the error codes with a name of their own. */
  function Observed(exit: Exit, tool: string, known: set<string>): Observation {
    match exit
    case Returned(Plain) => Observation(Success, None)
    case Returned(IsError) => Observation(ToolError, Some("tool_execution_error"))
    case Returned(NotOk(code)) =>
      Observation(DomainError, Some(if code.Some? && code.value in known then code.value else "other_error"))
    case ByCancellation => Observation(Cancelled, Some("cancelled"))
    case ByToolError(unexpected, badArguments) =>
      Observation(if unexpected then Exception else ToolError,
                  Some(if tool == UNKNOWN then "unknown_tool" else if badArguments then "invalid_arguments" else "tool_execution_error"))
    case ByException => Observation(Exception, Some("tool_execution_error"))
  }

  function Label(rows: Rows, name: string): string { if name in rows then name else UNKNOWN }

  function Started(rows: Rows, name: string): Rows
    requires UNKNOWN in rows
  {
    var row := rows[Label(rows, name)];
    rows[Label(rows, name) := row.(calls := row.calls + 1, inFlight := row.inFlight + 1)]
  }

  function Finished(rows: Rows, tool: string, o: Observation): Rows
    requires tool in rows
  {
    var row := rows[tool];
    rows[tool := row.(inFlight := row.inFlight - 1, outcomes := row.outcomes + multiset{o.outcome},
                       errors := if o.code.Some? then row.errors + multiset{o.code.value} else row.errors)]
  }

  class ToolTelemetry {
    var rows: Rows

    constructor (names: set<string>)
      ensures rows.Keys == names + {UNKNOWN}
      ensures forall l | l in rows :: rows[l] == Row(0, 0, multiset{}, multiset{})
    {
      rows := map n | n in names + {UNKNOWN} :: Row(0, 0, multiset{}, multiset{});
    }

    method Start(name: string) returns (tool: string)
      requires UNKNOWN in rows
      modifies this
      ensures tool == Label(old(rows), name) && rows == Started(old(rows), name)
    {
      tool := if name in rows then name else UNKNOWN;
      var row := rows[tool];
      rows := rows[tool := row.(calls := row.calls + 1, inFlight := row.inFlight + 1)];
    }

    method Finish(tool: string, o: Observation)
      requires tool in rows
      modifies this
      ensures rows == Finished(old(rows), tool, o)
    {
      var row := rows[tool];
      row := row.(inFlight := row.inFlight - 1, outcomes := row.outcomes + multiset{o.outcome});
      if o.code.Some? { row := row.(errors := row.errors + multiset{o.code.value}); }
      rows := rows[tool := row];
    }
  }

  /** `open` maps each running call to its tool. */
  datatype State = State(rows: Rows, open: map<nat, string>)

  datatype Step = Begin(call: nat, name: string) | End(call: nat, exit: Exit)

  ghost predicate Next(s: State, step: Step, u: State, known: set<string>) {
    match step
    case Begin(call, name) =>
      call !in s.open && UNKNOWN in s.rows &&
      u == State(Started(s.rows, name), s.open[call := Label(s.rows, name)])
    case End(call, exit) =>
      call in s.open && s.open[call] in s.rows &&
      u == State(Finished(s.rows, s.open[call], Observed(exit, s.open[call], known)), s.open - {call})
  }

  function OpenWith(s: State, tool: string): set<nat> { set c | c in s.open && s.open[c] == tool }

  /** calls = in flight + finished, and the errors are exactly the unsuccessful ones. */
  ghost predicate RowBalanced(row: Row, open: nat) {
    && row.inFlight == open
    && row.calls == row.inFlight + |row.outcomes|
    && |row.errors| == |row.outcomes| - row.outcomes[Success]
  }

  ghost predicate Balanced(s: State) {
    && UNKNOWN in s.rows
    && (forall c | c in s.open :: s.open[c] in s.rows)
    && forall l | l in s.rows :: RowBalanced(s.rows[l], |OpenWith(s, l)|)
  }

  ghost predicate Run(states: seq<State>, steps: seq<Step>, known: set<string>) {
    && |states| == |steps| + 1
    && UNKNOWN in states[0].rows && states[0].open == map[]
    && (forall l | l in states[0].rows :: states[0].rows[l] == Row(0, 0, multiset{}, multiset{}))
    && forall i | 0 <= i < |steps| :: Next(states[i], steps[i], states[i + 1], known)
  }

  lemma OneMoreOpen(s: State, call: nat, tool: string, l: string)
    requires call !in s.open
    ensures |OpenWith(s.(open := s.open[call := tool]), l)| == |OpenWith(s, l)| + if l == tool then 1 else 0
  {
    var u := s.(open := s.open[call := tool]);
    assert OpenWith(u, l) == if l == tool then OpenWith(s, l) + {call} else OpenWith(s, l);
  }

  lemma OneLessOpen(s: State, call: nat, l: string)
    requires call in s.open
    ensures |OpenWith(s, l)| == |OpenWith(s.(open := s.open - {call}), l)| + if l == s.open[call] then 1 else 0
  {
    var u := s.(open := s.open - {call});
    assert OpenWith(s, l) == if l == s.open[call] then OpenWith(u, l) + {call} else OpenWith(u, l);
  }

  lemma BeginKeepsBalance(s: State, call: nat, name: string, u: State, known: set<string>)
    requires Balanced(s) && Next(s, Begin(call, name), u, known)
    ensures Balanced(u)
  {
    forall l | l in u.rows ensures RowBalanced(u.rows[l], |OpenWith(u, l)|) {
      OneMoreOpen(s, call, Label(s.rows, name), l);
      assert RowBalanced(s.rows[l], |OpenWith(s, l)|);
    }
  }

  lemma FinishedRowBalanced(rows: Rows, tool: string, o: Observation, open: nat)
    requires tool in rows && RowBalanced(rows[tool], open + 1)
    requires o.code.None? <==> o.outcome == Success
    ensures RowBalanced(Finished(rows, tool, o)[tool], open)
  {
  }

  lemma EndedRowBalanced(s: State, call: nat, o: Observation, l: string)
    requires Balanced(s) && call in s.open && s.open[call] in s.rows && l in s.rows
    requires o.code.None? <==> o.outcome == Success
    ensures l in Finished(s.rows, s.open[call], o)
    ensures RowBalanced(Finished(s.rows, s.open[call], o)[l], |OpenWith(s.(open := s.open - {call}), l)|)
  {
    hide RowBalanced; hide OpenWith;
    OneLessOpen(s, call, l);
    assert RowBalanced(s.rows[l], |OpenWith(s, l)|);
    if l == s.open[call] { FinishedRowBalanced(s.rows, l, o, |OpenWith(s.(open := s.open - {call}), l)|); }
  }

  /** Exactly the successful calls leave no error code. */
  lemma CodeUnlessSuccess(exit: Exit, tool: string, known: set<string>)
    ensures Observed(exit, tool, known).code.None? <==> Observed(exit, tool, known).outcome == Success
  {
  }

  /** What each outcome and each code means. */
  lemma ObservedExactly(exit: Exit, tool: string, known: set<string>)
    ensures var o := Observed(exit, tool, known);
      && (o.outcome == Success <==> exit == Returned(Plain))
      && (o.outcome == Cancelled <==> exit == ByCancellation)
      && (o.outcome == DomainError <==> exit.Returned? && exit.content.NotOk?)
      && (o.outcome == ToolError <==> exit == Returned(IsError) || (exit.ByToolError? && !exit.unexpected))
      && (o.outcome == Exception <==> exit == ByException || (exit.ByToolError? && exit.unexpected))
      && (o.outcome == Cancelled ==> o.code == Some("cancelled"))
      && (exit.ByToolError? && tool == "__unknown__" ==> o.code == Some("unknown_tool"))
      && (exit.ByToolError? && tool != "__unknown__" && exit.badArguments ==> o.code == Some("invalid_arguments"))
      && (exit == ByException || exit == Returned(IsError) || (exit.ByToolError? && tool != "__unknown__" && !exit.badArguments) ==>
            o.code == Some("tool_execution_error"))
      && (o.outcome == DomainError ==>
            o.code == if exit.content.code.Some? && exit.content.code.value in known then exit.content.code else Some("other_error"))
  {
  }

  lemma EndKeepsBalance(s: State, call: nat, exit: Exit, u: State, known: set<string>)
    requires Balanced(s) && Next(s, End(call, exit), u, known)
    ensures Balanced(u)
  {
    hide RowBalanced; hide OpenWith; hide Observed;
    CodeUnlessSuccess(exit, s.open[call], known);
    forall l | l in u.rows ensures RowBalanced(u.rows[l], |OpenWith(u, l)|) {
      assert u.open == s.open - {call} && OpenWith(u, l) == OpenWith(s.(open := u.open), l) by { SameOpen(u, s.(open := u.open), l); }
      EndedRowBalanced(s, call, Observed(exit, s.open[call], known), l);
    }
  }

  lemma SameOpen(s: State, u: State, l: string)
    requires s.open == u.open
    ensures OpenWith(s, l) == OpenWith(u, l)
  {
  }

  /** In every interleaving of calls the counters of every tool balance. */
  lemma {:induction false} CountersBalance(states: seq<State>, steps: seq<Step>, known: set<string>, n: nat)
    requires Run(states, steps, known) && n < |states|
    ensures Balanced(states[n])
  {
    if n > 0 {
      CountersBalance(states, steps, known, n - 1);
      assert Next(states[n - 1], steps[n - 1], states[n], known);
      match steps[n - 1]
      case Begin(call, name) => BeginKeepsBalance(states[n - 1], call, name, states[n], known);
      case End(call, exit) => EndKeepsBalance(states[n - 1], call, exit, states[n], known);
    } else {
      assert forall l | l in states[0].rows :: OpenWith(states[0], l) == {};
    }
  }
}
