/**
 The portable barrier of thread-common.c (uv_barrier_wait): a step relation over
 its mutex-protected regions, with condition waits that may end spuriously, and
 what holds in every run.
 */
module Barrier {

  /** What callers do, in the order they do it under the mutex. */
  datatype Event = Join(caller: nat) | Leave(caller: nat, last: bool)

  /**
   The barrier's fields and its callers.  gate holds the callers in the first
   wait (the previous round is still leaving), inside those in the second wait,
   and asleep those that no broadcast has reached since they last began to wait.
   log and starts only record: what happened, and where each round begins.
   */
  datatype State = State(
    threshold: nat,
    entered: nat,
    out: nat,
    gate: set<nat>,
    inside: set<nat>,
    asleep: set<nat>,
    log: seq<Event>,
    starts: seq<nat>)

  /** uv_barrier_init with a positive count. */
  predicate Init(s: State) {
    s.threshold >= 1 && s == State(s.threshold, 0, 0, {}, {}, {}, [], [0])
  }

  /** ++in and what follows it under the same lock. */
  function Arrive(s: State, t: nat): State {
    if s.entered + 1 == s.threshold then
      Depart(s.(entered := 0, out := s.threshold, asleep := {}, log := s.log + [Join(t)]), t)
    else
      s.(entered := s.entered + 1, inside := s.inside + {t}, asleep := s.asleep + {t}, log := s.log + [Join(t)])
  }

  /** --out, the broadcast of the last caller, and the return. */
  function Depart(s: State, t: nat): State {
    var out := if s.out > 0 then s.out - 1 else 0;
    var last := out == 0;
    var log := s.log + [Leave(t, last)];
    s.(out := out, inside := s.inside - {t}, asleep := if last then {} else s.asleep - {t}, log := log,
       starts := if last then s.starts + [|log|] else s.starts)
  }

  datatype Action = Enter(t: nat) | WakeAtGate(t: nat) | WakeInside(t: nat)

  /** A caller that is not in the barrier may call; a waiting one may wake at any time. */
  predicate Enabled(s: State, a: Action) {
    match a
    case Enter(t) => t !in s.gate && t !in s.inside
    case WakeAtGate(t) => t in s.gate
    case WakeInside(t) => t in s.inside
  }

  function Step(s: State, a: Action): State {
    match a
    case Enter(t) =>
      if s.out != 0 then s.(gate := s.gate + {t}, asleep := s.asleep + {t}) else Arrive(s, t)
    case WakeAtGate(t) =>
      if s.out != 0 then s.(asleep := s.asleep + {t}) else Arrive(s.(gate := s.gate - {t}, asleep := s.asleep - {t}), t)
    case WakeInside(t) =>
      if s.entered != 0 then s.(asleep := s.asleep + {t}) else Depart(s, t)
  }

  ghost predicate StepAt(run: seq<State>, i: nat)
    requires i + 1 < |run|
  {
    Next(run[i], run[i + 1])
  }

  ghost predicate Next(s: State, s': State) {
    exists a :: Enabled(s, a) && s' == Step(s, a)
  }

  ghost predicate IsRun(run: seq<State>) {
    |run| > 0 && Init(run[0]) && forall i :: 0 <= i && i + 1 < |run| ==> StepAt(run, i)
  }

  // ---------- what every run keeps ----------

  function CallerOf(e: Event): nat { e.caller }

  /** The callers of a stretch of events. */
  function Callers(b: seq<Event>): (r: set<nat>)
    ensures |r| <= |b|
  {
    if b == [] then {} else Callers(b[..|b| - 1]) + {CallerOf(b[|b| - 1])}
  }

  /** A finished round: threshold callers join, then the same callers leave, each
      once, and only the very last of them is told that it is the last. */
  predicate Whole(b: seq<Event>, n: nat) {
    && |b| == 2 * n
    && (forall i :: 0 <= i < n ==> b[i].Join?)
    && (forall i :: n <= i < 2 * n ==> b[i].Leave? && (b[i].last <==> i == 2 * n - 1))
    && |Callers(b[..n])| == n && Callers(b[n..]) == Callers(b[..n])
  }

  /** A round in which callers still join. */
  predicate Joining(b: seq<Event>, n: nat, inside: set<nat>) {
    |b| == n && (forall i :: 0 <= i < n ==> b[i].Join?) && Callers(b) == inside && |inside| == n
  }

  /** A round whose n callers have joined and some have left. */
  predicate Leaving(b: seq<Event>, n: nat, inside: set<nat>) {
    && n <= |b| < 2 * n
    && (forall i :: 0 <= i < n ==> b[i].Join?)
    && (forall i :: n <= i < |b| ==> b[i].Leave? && !b[i].last)
    && |Callers(b[..n])| == n && |Callers(b[n..])| == |b| - n
    && Callers(b[n..]) <= Callers(b[..n]) && inside == Callers(b[..n]) - Callers(b[n..])
  }

  /** The recorded rounds before the current one. */
  predicate RoundsOk(log: seq<Event>, starts: seq<nat>, n: nat) {
    && |starts| >= 1 && starts[0] == 0
    && (forall k :: 0 <= k < |starts| ==> starts[k] <= |log|)
    && forall k :: 0 <= k && k + 1 < |starts| ==> RoundOk(log, starts, n, k)
  }

  predicate RoundOk(log: seq<Event>, starts: seq<nat>, n: nat, k: nat)
    requires k + 1 < |starts|
  {
    starts[k] <= starts[k + 1] <= |log| && starts[k + 1] == starts[k] + 2 * n && Whole(log[starts[k]..starts[k + 1]], n)
  }

  function Current(s: State): seq<Event>
    requires |s.starts| >= 1 && s.starts[|s.starts| - 1] <= |s.log|
  {
    s.log[s.starts[|s.starts| - 1]..]
  }

  /** No caller sleeps unless what it waits for is still to come. */
  predicate SleepOk(s: State) {
    && (forall t :: t in s.asleep ==> t in s.gate || t in s.inside)
    && (forall t :: t in s.asleep && t in s.gate ==> s.out != 0)
    && (forall t :: t in s.asleep && t in s.inside ==> s.entered != 0)
  }

  predicate Inv(s: State) {
    && s.threshold >= 1 && s.entered < s.threshold && s.out < s.threshold
    && s.gate !! s.inside && SleepOk(s)
    && RoundsOk(s.log, s.starts, s.threshold)
    && (s.out == 0 ==> Joining(Current(s), s.entered, s.inside))
    && (s.out > 0 ==> s.entered == 0 && Leaving(Current(s), s.threshold, s.inside) && |Current(s)| == 2 * s.threshold - s.out)
  }

  lemma {:induction false} InitInv(s: State)
    requires Init(s)
    ensures Inv(s)
  {
  }

  lemma {:induction false} CallersMore(b: seq<Event>, e: Event)
    ensures Callers(b + [e]) == Callers(b) + {CallerOf(e)}
  {
    assert (b + [e])[..|b|] == b;
  }

  /** The rounds before are untouched by a new event. */
  lemma {:induction false} RoundsKept(log: seq<Event>, starts: seq<nat>, n: nat, e: Event)
    requires RoundsOk(log, starts, n)
    ensures RoundsOk(log + [e], starts, n)
  {
    forall k | 0 <= k && k + 1 < |starts| ensures RoundOk(log + [e], starts, n, k) {
      assert RoundOk(log, starts, n, k);
      assert (log + [e])[starts[k]..starts[k + 1]] == log[starts[k]..starts[k + 1]];
    }
  }

  /** The round that has just ended joins the rounds before. */
  lemma {:induction false} RoundClosed(log: seq<Event>, starts: seq<nat>, n: nat)
    requires RoundsOk(log, starts, n) && Whole(log[starts[|starts| - 1]..], n)
    ensures RoundsOk(log, starts + [|log|], n)
  {
    var starts' := starts + [|log|];
    forall k | 0 <= k && k + 1 < |starts'| ensures RoundOk(log, starts', n, k) {
      if k + 1 < |starts| {
        assert RoundOk(log, starts, n, k);
      } else {
        assert log[starts[k]..|log|] == log[starts[k]..];
      }
    }
  }

  /** The state between ++in reaching the threshold and the caller's departure. */
  predicate Full(s: State, t: nat) {
    && s.threshold >= 1 && s.entered == 0 && 1 <= s.out <= s.threshold
    && s.gate !! s.inside && t !in s.gate
    && (forall u :: u in s.asleep ==> u in s.gate && s.out != 0)
    && RoundsOk(s.log, s.starts, s.threshold)
    && Leaving(Current(s), s.threshold, s.inside + {t}) && |Current(s)| == 2 * s.threshold - s.out
  }

  lemma {:induction false} OnlyOne(x: set<nat>, t: nat)
    requires t in x && |x| == 1
    ensures x == {t}
  {
    assert |x - {t}| == 0;
  }

  /** One more caller leaves. */
  lemma {:induction false} LeaveOne(b: seq<Event>, n: nat, inside: set<nat>, t: nat)
    requires Leaving(b, n, inside) && t in inside
    ensures |b| + 1 < 2 * n ==> Leaving(b + [Leave(t, false)], n, inside - {t})
    ensures |b| + 1 == 2 * n ==> inside == {t} && Whole(b + [Leave(t, true)], n)
  {
    hide Callers;
    InsideCount(b, n, inside);
    var e := Leave(t, |b| + 1 == 2 * n);
    CallersMore(b[n..], e);
    var b' := b + [e];
    assert b'[..n] == b[..n] && b'[n..] == b[n..] + [e];
    if |b| + 1 == 2 * n { OnlyOne(inside, t); }
  }

  /** A departure, by the caller that completed the round or by one that woke. */
  lemma {:induction false} DepartInv(s: State, t: nat)
    requires Full(s, t)
    ensures Inv(Depart(s, t))
  {
    hide Callers, Whole, Leaving, RoundsOk;
    var n := s.threshold;
    RoundsBound(s.log, s.starts, n);
    var b := Current(s);
    var e := Leave(t, s.out == 1);
    RoundsKept(s.log, s.starts, n, e);
    LeaveOne(b, n, s.inside + {t}, t);
    assert (s.log + [e])[s.starts[|s.starts| - 1]..] == b + [e];
    assert s.inside + {t} - {t} == s.inside - {t};
    if s.out == 1 {
      RoundClosed(s.log + [e], s.starts, n);
      NoneJoined((s.log + [e])[|s.log| + 1..]);
    }
  }

  lemma {:induction false} RoundsBound(log: seq<Event>, starts: seq<nat>, n: nat)
    requires RoundsOk(log, starts, n)
    ensures |starts| >= 1 && starts[|starts| - 1] <= |log|
  {
  }

  lemma {:induction false} NoneJoined(b: seq<Event>)
    requires b == []
    ensures Joining(b, 0, {})
  {
  }

  lemma {:induction false} InsideCount(b: seq<Event>, n: nat, inside: set<nat>)
    requires Leaving(b, n, inside)
    ensures |inside| == 2 * n - |b|
  {
    var j, l := Callers(b[..n]), Callers(b[n..]);
    assert j == inside + l && inside !! l;
  }

  /** An arrival keeps the invariant, whether it waits or completes the round. */
  lemma {:induction false} ArriveInv(s: State, t: nat)
    requires Inv(s) && s.out == 0 && t !in s.gate && t !in s.inside
    ensures Inv(Arrive(s, t))
  {
    hide Callers, RoundsOk, Leaving;
    var n := s.threshold;
    RoundsBound(s.log, s.starts, n);
    var b := Current(s);
    var e := Join(t);
    RoundsKept(s.log, s.starts, n, e);
    CallersMore(b, e);
    assert (s.log + [e])[s.starts[|s.starts| - 1]..] == b + [e];
    if s.entered + 1 == n {
      var full := s.(entered := 0, out := n, asleep := {}, log := s.log + [e]);
      AllJoined(b + [e], n, s.inside + {t});
      DepartInv(full, t);
    }
  }

  lemma {:induction false} AllJoined(b: seq<Event>, n: nat, inside: set<nat>)
    requires Joining(b, n, inside) && n >= 1
    ensures Leaving(b, n, inside)
  {
    assert b[..n] == b && b[n..] == [];
  }

  /** Every step keeps the invariant. */
  lemma {:induction false} StepInv(s: State, a: Action)
    requires Inv(s) && Enabled(s, a)
    ensures Inv(Step(s, a))
  {
    hide RoundsOk, Leaving, Joining, Arrive, Depart;
    match a
    case Enter(t) =>
      if s.out == 0 { ArriveInv(s, t); }
    case WakeAtGate(t) =>
      if s.out == 0 { ArriveInv(s.(gate := s.gate - {t}, asleep := s.asleep - {t}), t); }
    case WakeInside(t) =>
      if s.entered == 0 {
        SomeoneIn(s, t);
        assert s.inside + {t} == s.inside;
        DepartInv(s, t);
      }
  }

  lemma {:induction false} SomeoneIn(s: State, t: nat)
    requires Inv(s) && t in s.inside && s.entered == 0
    ensures s.out > 0
  {
  }

  lemma {:induction false} RunInv(run: seq<State>, i: nat)
    requires IsRun(run) && i < |run|
    ensures Inv(run[i])
    decreases i
  {
    if i == 0 {
      InitInv(run[0]);
    } else {
      RunInv(run, i - 1);
      assert StepAt(run, i - 1);
      var a :| Enabled(run[i - 1], a) && run[i] == Step(run[i - 1], a);
      StepInv(run[i - 1], a);
    }
  }

  // ---------- the theorems ----------

  /** In every run each finished round is threshold joins followed by the leaves of
      the same callers, exactly one of which, the last, is told so: nobody leaves
      before the round is full, and nobody joins the next one before all have left. */
  lemma {:induction false} FinishedRounds(run: seq<State>, i: nat, k: nat)
    requires IsRun(run) && i < |run| && k + 1 < |run[i].starts|
    ensures run[i].starts[0] == 0
    ensures var s := run[i]; s.starts[k + 1] == s.starts[k] + 2 * s.threshold <= |s.log|
    ensures var s := run[i]; Whole(s.log[s.starts[k]..s.starts[k + 1]], s.threshold)
  {
    hide Whole;
    RunInv(run, i);
    assert RoundOk(run[i].log, run[i].starts, run[i].threshold, k);
  }

  /** The unfinished round: callers only join while it is not full, and after that
      only leave, none of them told that it is the last. */
  lemma {:induction false} CurrentRound(run: seq<State>, i: nat)
    requires IsRun(run) && i < |run|
    ensures |run[i].starts| >= 1 && run[i].starts[|run[i].starts| - 1] <= |run[i].log|
    ensures var s := run[i];
            (Joining(Current(s), s.entered, s.inside) && s.entered < s.threshold) || Leaving(Current(s), s.threshold, s.inside)
  {
    hide Joining, Leaving;
    RunInv(run, i);
  }

  /** No lost wake-up: a caller that sleeps is right to. */
  lemma {:induction false} NoLostWakeup(run: seq<State>, i: nat, t: nat)
    requires IsRun(run) && i < |run| && t in run[i].asleep
    ensures var s := run[i]; (t in s.gate && s.out != 0 && s.inside != {}) || (t in s.inside && s.entered != 0)
  {
    RunInv(run, i);
    var s := run[i];
    if t in s.gate { InsideCount(Current(s), s.threshold, s.inside); }
  }

  // ---------- every caller gets through ----------

  function Last(run: seq<State>): State
    requires |run| > 0
  {
    run[|run| - 1]
  }

  lemma {:induction false} RunMore(run: seq<State>, a: Action)
    requires IsRun(run) && Enabled(Last(run), a)
    ensures IsRun(run + [Step(Last(run), a)])
  {
    var run' := run + [Step(Last(run), a)];
    forall i | 0 <= i && i + 1 < |run'| ensures StepAt(run', i) {
      if i + 1 < |run| { assert StepAt(run, i); }
    }
  }

  /** The log of s and then the departures of ts, of which only the last is told so. */
  predicate AllLeft(s: State, s': State, ts: seq<nat>) {
    && |s'.log| == |s.log| + |ts| && s'.log[..|s.log|] == s.log
    && (forall i :: 0 <= i < |ts| ==> s'.log[|s.log| + i] == Leave(ts[i], i == |ts| - 1))
    && s'.starts == s.starts + [|s'.log|]
    && s'.inside == {} && s'.out == 0 && s'.gate == s.gate
  }

  /** A full round empties: from every reachable state in which callers leave, waking
      those still inside once each, in whatever order, lets each of them leave,
      closes the round and opens the gate. */
  lemma {:induction false} EveryoneLeaves(run: seq<State>, ts: seq<nat>) returns (run': seq<State>)
    requires IsRun(run) && Last(run).out > 0
    requires forall t :: t in ts <==> t in Last(run).inside
    requires forall i, j :: 0 <= i < j < |ts| ==> ts[i] != ts[j]
    ensures IsRun(run') && |run'| == |run| + |ts| && run'[..|run|] == run
    ensures forall k :: 0 <= k < |ts| ==> run'[|run| + k] == Step(run'[|run| + k - 1], WakeInside(ts[k]))
    ensures AllLeft(Last(run), Last(run'), ts)
    decreases |ts|
  {
    hide StepAt, Next, Init, Inv, Step, AllLeft;
    var s := Last(run);
    RunInv(run, |run| - 1);
    OutIsInside(s);
    var some :| some in s.inside;
    assert ts[0] in s.inside;
    LeaveStep(s, ts[0]);
    var t := Step(s, WakeInside(ts[0]));
    RunMore(run, WakeInside(ts[0]));
    if |ts| == 1 {
      OnlyHead(s.inside, ts);
      run' := run + [t];
      LeftOne(s, t, ts);
    } else {
      assert ts[1] in s.inside;
      AtLeastTwo(s.inside, ts[0], ts[1]);
      run' := EveryoneLeaves(run + [t], ts[1..]);
      LeftMore(s, t, Last(run'), ts);
      assert run'[..|run|] == run'[..|run| + 1][..|run|];
      forall k | 0 <= k < |ts| ensures run'[|run| + k] == Step(run'[|run| + k - 1], WakeInside(ts[k])) {
        if k == 0 {
          assert run'[|run| - 1] == run'[..|run| + 1][|run| - 1] && run'[|run|] == run'[..|run| + 1][|run|];
        } else {
          assert ts[k] == ts[1..][k - 1];
        }
      }
    }
  }

  lemma {:induction false} OutIsInside(s: State)
    requires Inv(s) && s.out > 0
    ensures |s.inside| == s.out && s.inside != {}
  {
    InsideCount(Current(s), s.threshold, s.inside);
  }

  /** A caller that wakes inside while callers leave is one of them. */
  lemma {:induction false} LeaveStep(s: State, t: nat)
    requires Inv(s) && s.out > 0 && t in s.inside
    ensures var s' := Step(s, WakeInside(t));
            && s'.log == s.log + [Leave(t, s.out == 1)] && s'.out == s.out - 1
            && s'.inside == s.inside - {t} && s'.gate == s.gate && s'.threshold == s.threshold
            && s'.starts == if s.out == 1 then s.starts + [|s'.log|] else s.starts
  {
    hide RoundsOk, Leaving, Joining;
  }

  lemma {:induction false} LeftOne(s: State, s': State, ts: seq<nat>)
    requires |ts| == 1 && s'.log == s.log + [Leave(ts[0], true)] && s'.out == 0
    requires s'.inside == {} && s'.gate == s.gate && s'.starts == s.starts + [|s'.log|]
    ensures AllLeft(s, s', ts)
  {
  }

  lemma {:induction false} OnlyHead(inside: set<nat>, ts: seq<nat>)
    requires |ts| == 1 && forall t :: t in ts <==> t in inside
    ensures inside == {ts[0]} && |inside| == 1
  {
    assert forall t :: t in inside ==> t == ts[0];
    assert inside == {ts[0]};
  }

  lemma {:induction false} AtLeastTwo(inside: set<nat>, t: nat, u: nat)
    requires t in inside && u in inside && t != u
    ensures |inside| >= 2
  {
    assert |inside - {t}| == |inside| - 1 && u in inside - {t};
  }

  /** One departure in front of the others. */
  lemma {:induction false} LeftMore(s: State, t: State, s': State, ts: seq<nat>)
    requires |ts| >= 2 && AllLeft(t, s', ts[1..]) && t.log == s.log + [Leave(ts[0], false)]
    requires t.starts == s.starts && t.gate == s.gate
    ensures AllLeft(s, s', ts)
  {
    assert s'.log[..|s.log|] == s'.log[..|t.log|][..|s.log|];
    forall i | 0 <= i < |ts| ensures s'.log[|s.log| + i] == Leave(ts[i], i == |ts| - 1) {
      if i == 0 {
        assert s'.log[|s.log|] == s'.log[..|t.log|][|s.log|];
      } else {
        assert ts[i] == ts[1..][i - 1] && |s.log| + i == |t.log| + (i - 1);
      }
    }
  }

  /** What joining does: a caller that does not complete the round waits inside, one
      that does leaves at once, with everybody inside awake and free to leave. */
  predicate Joined(s: State, s': State, t: nat) {
    && t !in s'.gate
    && if s.entered + 1 < s.threshold then
         && s'.log == s.log + [Join(t)] && s'.starts == s.starts
         && s'.entered == s.entered + 1 && s'.inside == s.inside + {t} && s'.out == 0
       else
         && s'.log == s.log + [Join(t), Leave(t, s.threshold == 1)]
         && s'.entered == 0 && s'.inside == s.inside && s'.asleep == {} && s'.out == s.threshold - 1
  }

  /** With nobody leaving, a caller that comes in, or wakes at the gate, joins. */
  lemma {:induction false} CallerJoins(run: seq<State>, a: Action) returns (run': seq<State>)
    requires IsRun(run) && Last(run).out == 0 && Enabled(Last(run), a) && !a.WakeInside?
    ensures IsRun(run') && run' == run + [Last(run')] && Last(run') == Step(Last(run), a)
    ensures Joined(Last(run), Last(run'), a.t)
  {
    hide StepAt, Next, Init, Inv, Step, Joined;
    RunInv(run, |run| - 1);
    RunMore(run, a);
    JoinStep(Last(run), a);
    run' := run + [Step(Last(run), a)];
  }

  lemma {:induction false} JoinStep(s: State, a: Action)
    requires Inv(s) && s.out == 0 && Enabled(s, a) && !a.WakeInside?
    ensures Joined(s, Step(s, a), a.t)
  {
    hide RoundsOk, Leaving, Joining;
    assert s.log + [Join(a.t)] + [Leave(a.t, s.threshold == 1)] == s.log + [Join(a.t), Leave(a.t, s.threshold == 1)];
    assert a.t !in s.inside;
    assert s.inside - {a.t} == s.inside;
  }

  /** While callers leave, one that comes in waits at the gate and nothing else happens. */
  lemma {:induction false} CallerWaits(run: seq<State>, t: nat) returns (run': seq<State>)
    requires IsRun(run) && Last(run).out > 0 && Enabled(Last(run), Enter(t))
    ensures IsRun(run') && run' == run + [Last(run')] && Last(run') == Step(Last(run), Enter(t))
    ensures var s, s' := Last(run), Last(run');
            s'.log == s.log && s'.starts == s.starts && s'.gate == s.gate + {t} && s'.inside == s.inside && s'.out == s.out
  {
    RunMore(run, Enter(t));
    run' := run + [Step(Last(run), Enter(t))];
  }
}
