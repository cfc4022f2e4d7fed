/**
 That the thread pool gets on: what each call does at once, how long a worker keeps
 the mutex, and that its threads, left to themselves, come to rest, in whatever order
 they run, and only with everything done.
 */
module ThreadPoolProgress {
  import opened ThreadPool
  import opened ThreadPoolProofs

  // ---------- runs with their actions ----------

  ghost predicate TraceAt(run: seq<State>, acts: seq<Action>, i: nat)
    requires |run| == |acts| + 1 && i < |acts|
  {
    Enabled(run[i], acts[i]) && run[i + 1] == Step(run[i], acts[i])
  }

  /** A run and the actions it is made of. */
  ghost predicate Traced(run: seq<State>, acts: seq<Action>) {
    && |run| == |acts| + 1 && Init(run[0])
    && forall i :: 0 <= i < |acts| ==> TraceAt(run, acts, i)
  }

  lemma {:induction false} TracedIsRun(run: seq<State>, acts: seq<Action>)
    requires Traced(run, acts)
    ensures IsRun(run)
  {
    hide Enabled, Step;
    forall i | 0 <= i < |run| - 1 ensures StepAt(run, i) {
      assert TraceAt(run, acts, i);
    }
  }

  lemma {:induction false} RunIsTraced(run: seq<State>) returns (acts: seq<Action>)
    requires IsRun(run)
    ensures Traced(run, acts)
    decreases |run|
  {
    hide Enabled, Step, Init;
    if |run| == 1 {
      acts := [];
    } else {
      var before := run[..|run| - 1];
      forall i | 0 <= i < |before| - 1 ensures StepAt(before, i) { assert StepAt(run, i); }
      acts := RunIsTraced(before);
      var a := RunStep(run, |run| - 2);
      var all := acts + [a];
      forall i | 0 <= i < |all| ensures TraceAt(run, all, i) {
        if i < |acts| { assert TraceAt(before, acts, i); }
      }
      acts := all;
    }
  }

  // ---------- what calls do at once ----------

  /** A submitted request is recorded and stands last in its queue; slow work is
      announced in the global queue or by the worker that holds the message. */
  lemma {:induction false} SubmitQueues(run: seq<State>, acts: seq<Action>, i: nat)
    requires Traced(run, acts) && i < |acts| && acts[i].Submit?
    ensures var Submit(w, l, slow, _) := acts[i]; var s, t := run[i], run[i + 1];
            && w !in s.reqs && t.reqs == s.reqs[w := Request(l, slow, Submitted, true, 0, 0, NotDone)]
            && (!slow ==> t.wq == s.wq + [Item(w)] && t.slowq == s.slowq)
            && (slow ==> t.slowq == s.slowq + [w] && SlowMsg in t.wq
                         && t.wq == if SlowMsg in s.wq then s.wq else s.wq + [SlowMsg])
  {
    TracedIsRun(run, acts);
    RunInv(run, i);
    assert TraceAt(run, acts, i);
    SubmitStep(run[i], acts[i]);
  }

  lemma {:induction false} SubmitStep(s: State, a: Action)
    requires SlowLane(s) && Enabled(s, a) && a.Submit?
    ensures var Submit(w, l, slow, _) := a; var t := Step(s, a);
            && w !in s.reqs && t.reqs == s.reqs[w := Request(l, slow, Submitted, true, 0, 0, NotDone)]
            && (!slow ==> t.wq == s.wq + [Item(w)] && t.slowq == s.slowq)
            && (slow ==> t.slowq == s.slowq + [w] && SlowMsg in t.wq
                         && t.wq == if SlowMsg in s.wq then s.wq else s.wq + [SlowMsg])
  {
    hide Count, SignalOk, Signal, SignalIfIdle;
  }

  /** A uv_cancel whose test passes takes the request out of every queue; one whose
      test does not pass does nothing. */
  lemma {:induction false} CancelTakes(run: seq<State>, acts: seq<Action>, i: nat, w: Req)
    requires Traced(run, acts) && i < |acts| && acts[i] == TryCancel(w)
    ensures w in run[i].reqs
    ensures if Cancellable(run[i].reqs[w]) then
              var t := run[i + 1];
              && w in t.cancelling && w in t.reqs && t.reqs[w].loop < |t.loops|
              && Item(w) !in t.wq && w !in t.slowq
              && w !in t.loops[t.reqs[w].loop].wq && w !in Drained(t.loops[t.reqs[w].loop])
            else run[i + 1] == run[i]
  {
    hide Inv;
    TracedIsRun(run, acts);
    RunInv(run, i + 1);
    assert TraceAt(run, acts, i);
    if Cancellable(run[i].reqs[w]) { CancellingNotQueued(run[i + 1], w); }
  }

  lemma {:induction false} CancellingNotQueued(s: State, w: Req)
    requires Inv(s) && w in s.cancelling
    ensures w in s.reqs && s.reqs[w].loop < |s.loops| && Item(w) !in s.wq && w !in s.slowq
    ensures w !in s.loops[s.reqs[w].loop].wq && w !in Drained(s.loops[s.reqs[w].loop])
  {
    hide Count;
    assert ReqOk(s, w);
  }

  /** A worker only goes to sleep when there is nothing to take: the queue is empty, or
      holds just the message for slow work while half of the threads, rounded up, do
      slow work already. */
  lemma {:induction false} WaitsOnlyWhenFull(run: seq<State>, acts: seq<Action>, i: nat)
    requires Traced(run, acts) && i < |acts| && acts[i].Wait?
    ensures var s := run[i]; s.wq == [] || (s.wq == [SlowMsg] && Count(s.workers, SlowC) == (|s.workers| + 1) / 2)
  {
    TracedIsRun(run, acts);
    RunInv(run, i);
    assert TraceAt(run, acts, i);
  }

  /** Slow work is put off in the same case only. */
  lemma {:induction false} PutOffOnlyWhenFull(run: seq<State>, acts: seq<Action>, i: nat)
    requires Traced(run, acts) && i < |acts| && acts[i].Requeue?
    ensures Count(run[i].workers, SlowC) == (|run[i].workers| + 1) / 2
    ensures run[i + 1].wq == run[i].wq + [SlowMsg]
  {
    TracedIsRun(run, acts);
    RunInv(run, i);
    assert TraceAt(run, acts, i);
  }

  // ---------- how long a worker keeps the mutex ----------

  /** Worker h holds the mutex. */
  predicate HeldBy(s: State, h: nat) {
    s.locked && h < |s.workers| && Is(HolderC, s.workers[h])
  }

  /** The most steps h can take from here without releasing the mutex. */
  function Left(s: State, h: nat): nat
    requires HeldBy(s, h)
  {
    match s.workers[h]
    case Holding(e) => if e == SlowMsg && (Throttled(s) || s.slowq == []) then 2 else 0
    case _ => if MustWait(s) || s.wq[0] == Exit then 0 else if s.wq[0] == SlowMsg then 3 else 1
  }

  lemma {:induction false} HolderStep(s: State, a: Action, h: nat)
    requires Counters(s) && SlowLane(s) && Enabled(s, a) && HeldBy(s, h) && Mover(a) == h
    ensures var t := Step(s, a); !t.locked || (HeldBy(t, h) && Left(t, h) < Left(s, h))
  {
    hide SignalOk, Signal, SignalIfIdle, Count;
    if a.Requeue? || a.SkipEmpty? {
      HoldsMessage(s, h);
      assert a.Requeue? && s.wq == [] ==> s.wq + [SlowMsg] == [SlowMsg];
    }
  }

  /** The message a worker holds is not linked. */
  lemma {:induction false} HoldsMessage(s: State, h: nat)
    requires SlowLane(s) && h < |s.workers| && s.workers[h] == Holding(SlowMsg)
    ensures SlowMsg !in s.wq
  {
    CountPositive(s.workers, HoldMsgC);
    assert Is(HoldMsgC, s.workers[h]);
  }

  lemma {:induction false} OthersStep(s: State, a: Action, h: nat)
    requires Counters(s) && Enabled(s, a) && HeldBy(s, h) && Mover(a) != h
    ensures var t := Step(s, a); HeldBy(t, h) && Left(t, h) == Left(s, h)
  {
    hide SignalOk, Signal, SignalIfIdle, Count;
    if Mover(a) >= 0 { OneHolder(s, h, Mover(a)); }
  }

  lemma {:induction false} OneHolder(s: State, h: nat, j: nat)
    requires Counters(s) && HeldBy(s, h) && j < |s.workers| && j != h
    ensures !Is(HolderC, s.workers[j])
  {
    if Is(HolderC, s.workers[j]) {
      if h < j { CountTwo(s.workers, h, j, HolderC); } else { CountTwo(s.workers, j, h, HolderC); }
    }
  }

  /** How many of the actions i to j are worker h's. */
  function StepsOf(acts: seq<Action>, h: nat, i: nat, j: nat): nat
    requires i <= j <= |acts|
  {
    if i == j then 0 else StepsOf(acts, h, i, j - 1) + Bit(Mover(acts[j - 1]) == h)
  }

  /** Critical sections are short: in any stretch of a run over which a worker keeps the
      mutex, at most three of the steps are its own, so of any four consecutive ones the
      last at the latest releases it. */
  lemma {:induction false} ShortSections(run: seq<State>, acts: seq<Action>, h: nat, i: nat, j: nat)
    requires Traced(run, acts) && i <= j <= |acts| && HeldBy(run[i], h)
    requires forall k :: i <= k <= j ==> run[k].locked
    ensures HeldBy(run[j], h) && StepsOf(acts, h, i, j) + Left(run[j], h) <= Left(run[i], h) <= 3
  {
    hide Enabled, Step, Left, HeldBy, Counters, SlowLane;
    LeftBound(run[i], h);
    if i < j {
      ShortSections(run, acts, h, i, j - 1);
      TracedIsRun(run, acts);
      RunInv(run, j - 1);
      assert TraceAt(run, acts, j - 1);
      if Mover(acts[j - 1]) == h { HolderStep(run[j - 1], acts[j - 1], h); } else { OthersStep(run[j - 1], acts[j - 1], h); }
    }
  }

  lemma {:induction false} LeftBound(s: State, h: nat)
    requires HeldBy(s, h)
    ensures Left(s, h) <= 3
  {
  }

  // ---------- what else every run keeps ----------

  /** Nobody unlinks the exit message, and nobody leaves without it. */
  predicate ExitStays(s: State) {
    && (forall i :: 0 <= i < |s.workers| ==> s.workers[i] != Holding(Exit))
    && ((exists i :: 0 <= i < |s.workers| && s.workers[i].Exited?) ==> Exit in s.wq)
  }

  lemma {:induction false} RemoveOther<T>(q: seq<T>, x: T, y: T)
    requires y in q && x != y
    ensures y in Remove(q, x)
  {
    if q[0] != x && q[0] != y {
      assert y in q[1..];
      RemoveOther(q[1..], x, y);
    }
  }

  lemma {:induction false} ExitStep(s: State, a: Action)
    requires ExitStays(s) && Enabled(s, a) && s.idle == Count(s.workers, IdleC)
    ensures ExitStays(Step(s, a))
  {
    hide Count, SignalOk;
    var t := Step(s, a);
    StepCount(s, a);
    ExitKept(s, a);
    forall i | 0 <= i < |t.workers| && (t.workers[i] == Holding(Exit) || t.workers[i].Exited?)
      ensures t.workers[i] != Holding(Exit) && Exit in t.wq
    {
      if i == Mover(a) { assert a.Leave?; }
    }
  }

  lemma {:induction false} ExitKept(s: State, a: Action)
    requires Enabled(s, a)
    ensures Exit in s.wq ==> Exit in Step(s, a).wq
    ensures a.Leave? ==> Exit in Step(s, a).wq
  {
    hide SignalOk, Signal, SignalIfIdle, Remove;
    if a.TryCancel? && Exit in s.wq { RemoveOther(s.wq, Item(a.w), Exit); }
    if a.Pop? { assert s.wq == [s.wq[0]] + s.wq[1..]; }
  }

  lemma {:induction false} RunExit(run: seq<State>, i: nat)
    requires IsRun(run) && i < |run|
    ensures ExitStays(run[i])
  {
    hide Step, Enabled, Inv;
    if i > 0 {
      RunExit(run, i - 1);
      RunInv(run, i - 1);
      var a := RunStep(run, i - 1);
      IdleIs(run[i - 1]);
      ExitStep(run[i - 1], a);
    }
  }

  lemma {:induction false} IdleIs(s: State)
    requires Inv(s)
    ensures s.idle == Count(s.workers, IdleC)
  {
  }

  /** Some legal outcome of uv_cond_signal. */
  lemma {:induction false} SomeSignal(ws: seq<Pc>) returns (k: int)
    ensures SignalOk(ws, k)
  {
    k := -1;
    if i :| 0 <= i < |ws| && ws[i].Sleeping? { k := i; }
  }

  /** The holder of the mutex is never stuck. */
  lemma {:induction false} HolderCanStep(s: State, h: nat) returns (a: Action)
    requires Closed(s) && ExitStays(s) && HeldBy(s, h)
    ensures Enabled(s, a) && Mover(a) == h && Own(a)
  {
    hide SignalOk;
    var k := SomeSignal(s.workers);
    if s.workers[h].AtTop? {
      if MustWait(s) {
        a := Wait(h);
      } else if s.wq[0] == Exit {
        a := Leave(h, k);
      } else {
        assert s.wq[0] in s.wq;
        a := Pop(h);
      }
    } else if s.workers[h] == Holding(SlowMsg) {
      a := if Throttled(s) then Requeue(h) else if s.slowq == [] then SkipEmpty(h) else TakeSlow(h, k);
    } else {
      a := StartFast(h);
    }
  }

  // ---------- coming to rest ----------

  /** A step of the pool and its loops themselves: not a call from outside, and not a
      condition wait that ends by itself. */
  predicate Own(a: Action) { !a.Submit? && !a.PostExit? && !a.TryCancel? && !a.Spurious? }

  function PcWeight(p: Pc): nat {
    match p
    case Exited => 0
    case Sleeping => 2
    case AtTop => 3
    case WantLock(_) => 4
    case Woken => 4
    case Running(_, _) => 9
    case Claimed(_, _) => 10
    case Holding(_) => 11
  }

  function PcSum(ws: seq<Pc>): nat {
    if ws == [] then 0 else PcWeight(ws[0]) + PcSum(ws[1..])
  }

  function LoopWeight(lp: Loop): nat {
    |lp.wq| + |Drained(lp)| + (if lp.pending then 3 else 0) + (if lp.pc.Entered? then 2 else if lp.pc.Draining? then 1 else 0)
  }

  function LoopSum(ls: seq<Loop>): nat {
    if ls == [] then 0 else LoopWeight(ls[0]) + LoopSum(ls[1..])
  }

  /** The message for slow work stands before something else in the global queue. */
  predicate MsgInFront(q: seq<Entry>) { q != [] && SlowMsg in q[..|q| - 1] }

  /** A bound on the steps the pool can still take on its own. */
  function Work(s: State): nat {
    9 * |s.wq| + 2 * Bit(MsgInFront(s.wq)) + 11 * |s.slowq| + 5 * |s.cancelling|
    + PcSum(s.workers) + 2 * Bit(Throttled(s) && Count(s.workers, HoldMsgC) > 0) + LoopSum(s.loops)
  }

  lemma {:induction false} PcSumAt(ws: seq<Pc>, i: nat, p: Pc)
    requires i < |ws|
    ensures PcSum(ws[i := p]) == PcSum(ws) - PcWeight(ws[i]) + PcWeight(p)
    ensures PcSum(ws) >= PcWeight(ws[i])
  {
    if i == 0 {
      assert ws[i := p][1..] == ws[1..];
    } else {
      assert ws[i := p][1..] == ws[1..][i - 1 := p];
      PcSumAt(ws[1..], i - 1, p);
    }
  }

  lemma {:induction false} LoopSumAt(ls: seq<Loop>, l: nat, lp: Loop)
    requires l < |ls|
    ensures LoopSum(ls[l := lp]) == LoopSum(ls) - LoopWeight(ls[l]) + LoopWeight(lp)
    ensures LoopSum(ls) >= LoopWeight(ls[l])
  {
    if l == 0 {
      assert ls[l := lp][1..] == ls[1..];
    } else {
      assert ls[l := lp][1..] == ls[1..][l - 1 := lp];
      LoopSumAt(ls[1..], l - 1, lp);
    }
  }

  /** The weight of the workers after a step. */
  lemma {:induction false} StepWeight(s: State, a: Action)
    requires Enabled(s, a) && s.idle == Count(s.workers, IdleC)
    ensures 0 <= Mover(a) ==> Mover(a) < |s.workers| == |Step(s, a).workers|
    ensures PcSum(Step(s, a).workers)
            == PcSum(s.workers) + (if Wakeup(s, a) >= 0 then 2 else 0)
               + (if 0 <= Mover(a) then PcWeight(Step(s, a).workers[Mover(a)]) - PcWeight(s.workers[Mover(a)]) else 0)
  {
    hide Count, PcSum, SignalOk;
    var t := Step(s, a);
    var i, k := Mover(a), Wakeup(s, a);
    StepCount(s, a);
    var mid := if k >= 0 then s.workers[k := Woken] else s.workers;
    if k >= 0 { PcSumAt(s.workers, k, Woken); }
    if i >= 0 {
      PcSumAt(mid, i, t.workers[i]);
      assert t.workers == mid[i := t.workers[i]];
    } else {
      assert t.workers == mid;
    }
  }

  lemma {:induction false} LockStepDown(s: State, a: Action)
    requires Counters(s) && SlowLane(s) && Enabled(s, a) && (a.Acquire? || a.Wait? || a.Leave? || a.StartFast?)
    ensures Work(Step(s, a)) < Work(s)
  {
    hide Count, PcSum, LoopSum, SignalOk, MsgInFront;
    StepWeight(s, a);
    StepCountFor(s, a, HoldMsgC);
    StepCountFor(s, a, HolderC);
    CountLe(s.workers, HoldMsgC, HolderC);
  }

  lemma {:induction false} QueueStepDown(s: State, a: Action)
    requires Counters(s) && SlowLane(s) && Enabled(s, a) && (a.Pop? || a.Requeue? || a.SkipEmpty?)
    ensures Work(Step(s, a)) < Work(s)
  {
    hide Count, PcSum, LoopSum, SignalOk;
    StepWeight(s, a);
    StepCountFor(s, a, HoldMsgC);
    CountPositive(s.workers, HoldMsgC);
    if a.Pop? {
      FrontPopped(s.wq);
    } else {
      HoldsMessage(s, a.i);
      FrontPut(s.wq, SlowMsg);
    }
  }

  lemma {:induction false} FrontPopped(q: seq<Entry>)
    requires q != []
    ensures MsgInFront(q[1..]) ==> MsgInFront(q)
    ensures q[0] == SlowMsg && |q| > 1 ==> MsgInFront(q)
    ensures q[0] == SlowMsg && Mult(q, SlowMsg) <= 1 ==> !MsgInFront(q[1..])
  {
    HeadTail(q);
    if MsgInFront(q[1..]) {
      assert q[1..][..|q| - 2] == q[..|q| - 1][1..];
      assert SlowMsg in q[1..];
    }
    if q[0] == SlowMsg && |q| > 1 { assert q[..|q| - 1][0] == SlowMsg; }
  }

  lemma {:induction false} FrontPut(q: seq<Entry>, e: Entry)
    ensures MsgInFront(q + [e]) <==> SlowMsg in q
  {
    assert (q + [e])[..|q|] == q;
  }

  lemma {:induction false} SlowStepDown(s: State, a: Action)
    requires Counters(s) && SlowLane(s) && Enabled(s, a) && a.TakeSlow?
    ensures Work(Step(s, a)) < Work(s)
  {
    hide Count, PcSum, LoopSum, SignalOk, MsgInFront;
    StepWeight(s, a);
    StepCountFor(s, a, HoldMsgC);
    StepCountFor(s, a, HolderC);
    CountLe(s.workers, HoldMsgC, HolderC);
    HoldsMessage(s, a.i);
    FrontPut(s.wq, SlowMsg);
  }

  lemma {:induction false} Delivery(s: State, w: Req, work: Work)
    requires w in s.reqs && s.reqs[w].loop < |s.loops|
    ensures var t := Deliver(s, w, work);
            && t == s.(reqs := t.reqs, loops := t.loops)
            && LoopSum(t.loops) <= LoopSum(s.loops) + 4
  {
    hide LoopSum;
    var l := s.reqs[w].loop;
    LoopSumAt(s.loops, l, s.loops[l].(wq := s.loops[l].wq + [w], pending := true));
  }

  lemma {:induction false} CallStepDown(s: State, a: Action)
    requires Counters(s) && Enabled(s, a) && (a.Invoke? || a.Complete?)
    ensures Work(Step(s, a)) < Work(s)
  {
    hide Count, PcSum, LoopSum, SignalOk, MsgInFront, Deliver;
    StepWeight(s, a);
    StepCountFor(s, a, HoldMsgC);
    if a.Complete? { Delivery(s, s.workers[a.i].w, Null); }
  }

  lemma {:induction false} CancelStepDown(s: State, a: Action)
    requires Enabled(s, a) && a.FinishCancel?
    ensures Work(Step(s, a)) < Work(s)
  {
    hide Count, PcSum, LoopSum, SignalOk, MsgInFront, Deliver;
    Delivery(s, a.w, Cancelled);
    assert |s.cancelling - {a.w}| == |s.cancelling| - 1;
  }

  lemma {:induction false} LoopStepDown(s: State, a: Action)
    requires Enabled(s, a) && (a.AsyncFire? || a.BeginDrain? || a.RunDone? || a.EndDrain?)
    ensures Work(Step(s, a)) < Work(s)
  {
    hide Count, PcSum, LoopSum, SignalOk, MsgInFront, MustWait;
    var t := Step(s, a);
    LoopSumAt(s.loops, a.l, t.loops[a.l]);
    assert t.loops == s.loops[a.l := t.loops[a.l]];
  }

  /** Every step of its own uses up some of the work. */
  lemma {:induction false} OwnStepDown(s: State, a: Action)
    requires Inv(s) && Enabled(s, a) && Own(a)
    ensures Work(Step(s, a)) < Work(s)
  {
    hide Work, Step, Enabled, Requests, Counters, SlowLane, Wakes, Announced;
    match a
    case Pop(_) => QueueStepDown(s, a);
    case Requeue(_) => QueueStepDown(s, a);
    case SkipEmpty(_) => QueueStepDown(s, a);
    case TakeSlow(_, _) => SlowStepDown(s, a);
    case Invoke(_) => CallStepDown(s, a);
    case Complete(_) => CallStepDown(s, a);
    case FinishCancel(_) => CancelStepDown(s, a);
    case AsyncFire(_) => LoopStepDown(s, a);
    case BeginDrain(_) => LoopStepDown(s, a);
    case RunDone(_) => LoopStepDown(s, a);
    case EndDrain(_) => LoopStepDown(s, a);
    case _ => LockStepDown(s, a);
  }

  /** Left to itself the pool stops: whatever the order in which its threads and loops
      run, they take no more steps than the work there is. */
  lemma {:induction false} StepsAreBounded(run: seq<State>, acts: seq<Action>, i: nat, j: nat)
    requires Traced(run, acts) && i <= j <= |acts|
    requires forall k :: i <= k < j ==> Own(acts[k])
    ensures Work(run[j]) + (j - i) <= Work(run[i])
  {
    hide Work, Step, Enabled, Inv;
    if i < j {
      StepsAreBounded(run, acts, i, j - 1);
      TracedIsRun(run, acts);
      RunInv(run, j - 1);
      assert TraceAt(run, acts, j - 1);
      OwnStepDown(run[j - 1], acts[j - 1]);
    }
  }

  /** Nothing is left that the pool could do on its own. */
  ghost predicate AtRest(s: State) {
    forall a :: Own(a) ==> !Enabled(s, a)
  }

  lemma {:induction false} RestUnlocked(s: State)
    requires Inv(s) && ExitStays(s) && AtRest(s)
    ensures !s.locked && forall i :: 0 <= i < |s.workers| ==> s.workers[i].Sleeping? || s.workers[i].Exited?
  {
    hide AtRest, Enabled, Own;
    CountPositive(s.workers, HolderC);
    if s.locked {
      var h: nat :| 0 <= h < |s.workers| && Is(HolderC, s.workers[h]);
      var a := HolderCanStep(s, h);
      NotEnabled(s, a);
    }
    forall i | 0 <= i < |s.workers| ensures s.workers[i].Sleeping? || s.workers[i].Exited? {
      RestWorker(s, i);
    }
  }

  lemma {:induction false} NotEnabled(s: State, a: Action)
    requires AtRest(s) && Own(a)
    ensures !Enabled(s, a)
  {
  }

  lemma {:induction false} RestWorker(s: State, i: nat)
    requires Inv(s) && AtRest(s) && !s.locked && i < |s.workers|
    ensures s.workers[i].Sleeping? || s.workers[i].Exited?
  {
    hide AtRest, Count, Requests, SlowLane, Wakes, Announced, MustWait, SignalOk;
    CountPositive(s.workers, HolderC);
    CarriedOk(s, i);
    NotEnabled(s, Acquire(i));
    NotEnabled(s, Invoke(i));
    NotEnabled(s, Complete(i));
    assert !Is(HolderC, s.workers[i]);
  }

  lemma {:induction false} CarriedOk(s: State, i: nat)
    requires Inv(s) && i < |s.workers|
    ensures s.workers[i].Claimed? || s.workers[i].Running? ==>
              s.workers[i].w in s.reqs && s.reqs[s.workers[i].w].loop < |s.loops|
  {
    hide Count;
    if s.workers[i].Claimed? || s.workers[i].Running? {
      var w := s.workers[i].w;
      assert Is(Carry(w), s.workers[i]);
      assert ReqOk(s, w);
    }
  }

  lemma {:induction false} RestLoop(s: State, l: nat)
    requires Inv(s) && AtRest(s) && l < |s.loops|
    ensures s.loops[l] == Loop([], false, Idle)
  {
    hide AtRest, Count, Requests, Counters, SlowLane, Wakes, MustWait, SignalOk;
    DrainedOk(s, l);
    NotEnabled(s, AsyncFire(l));
    NotEnabled(s, BeginDrain(l));
    NotEnabled(s, RunDone(l));
    NotEnabled(s, EndDrain(l));
  }

  lemma {:induction false} DrainedOk(s: State, l: nat)
    requires Inv(s) && l < |s.loops|
    ensures s.loops[l].pc.Draining? && s.loops[l].pc.q != [] ==> s.loops[l].pc.q[0] in s.reqs
  {
    hide Count;
    if s.loops[l].pc.Draining? && s.loops[l].pc.q != [] {
      assert s.loops[l].pc.q[0] in Drained(s.loops[l]);
    }
  }

  lemma {:induction false} RestCancels(s: State)
    requires Inv(s) && AtRest(s)
    ensures s.cancelling == {}
  {
    hide AtRest, Count;
    forall w | w in s.cancelling ensures false {
      assert ReqOk(s, w);
      NotEnabled(s, FinishCancel(w));
    }
  }

  /** Sleepers leave nothing in the queues. */
  lemma {:induction false} RestQueues(s: State)
    requires Inv(s) && !s.locked
    requires forall i :: 0 <= i < |s.workers| ==> s.workers[i].Sleeping? || s.workers[i].Exited?
    requires exists i :: 0 <= i < |s.workers| && s.workers[i].Sleeping?
    ensures s.wq == [] && s.slowq == []
  {
    hide Requests, Announced;
    CountPositive(s.workers, AwakeC);
    CountPositive(s.workers, HoldMsgC);
    CountPositive(s.workers, SlowC);
    CountPositive(s.workers, SleepC);
    var j :| 0 <= j < |s.workers| && s.workers[j].Sleeping?;
    assert Is(SleepC, s.workers[j]);
    assert s.slowRunning == 0 && Threshold(s) >= 1;
  }

  /** What rest means.  While the exit message has not been posted: every request has been
      called back, every queue is empty and every worker sleeps.  After it: every
      worker has left. */
  lemma {:induction false} RestMeansDone(run: seq<State>, i: nat)
    requires IsRun(run) && i < |run| && AtRest(run[i])
    ensures var s := run[i];
            && s.cancelling == {} && (forall l :: 0 <= l < |s.loops| ==> s.loops[l] == Loop([], false, Idle))
            && (Exit !in s.wq ==>
                  && s.wq == [] && s.slowq == []
                  && (forall j :: 0 <= j < |s.workers| ==> s.workers[j].Sleeping?)
                  && (forall w :: w in s.reqs ==> s.reqs[w].dones == 1))
            && (Exit in s.wq ==> forall j :: 0 <= j < |s.workers| ==> s.workers[j].Exited?)
  {
    hide AtRest, Inv;
    var s := run[i];
    RunInv(run, i);
    RunExit(run, i);
    RestUnlocked(s);
    RestCancels(s);
    forall l | 0 <= l < |s.loops| ensures s.loops[l] == Loop([], false, Idle) { RestLoop(s, l); }
    if j :| 0 <= j < |s.workers| && s.workers[j].Sleeping? { RestQueues(s); }
    SomeWorker(s);
    if Exit !in s.wq {
      assert s.workers[0].Sleeping?;
      forall w | w in s.reqs ensures s.reqs[w].dones == 1 { RestRequest(s, w); }
    }
  }

  lemma {:induction false} SomeWorker(s: State)
    requires Inv(s)
    ensures |s.workers| >= 1
  {
  }

  lemma {:induction false} RestRequest(s: State, w: Req)
    requires Inv(s) && w in s.reqs && s.wq == [] && s.slowq == [] && s.cancelling == {}
    requires forall j :: 0 <= j < |s.workers| ==> s.workers[j].Sleeping?
    requires forall l :: 0 <= l < |s.loops| ==> s.loops[l] == Loop([], false, Idle)
    ensures s.reqs[w].dones == 1
  {
    assert ReqOk(s, w);
    CountPositive(s.workers, Carry(w));
  }

  /** From every reachable state the pool can come to rest by steps of its own. */
  lemma {:induction false} CanFinish(run: seq<State>) returns (run': seq<State>)
    requires IsRun(run)
    ensures IsRun(run') && |run'| >= |run| && run'[..|run|] == run && AtRest(run'[|run'| - 1])
    ensures run'[|run'| - 1].reqs.Keys == run[|run| - 1].reqs.Keys
    decreases Work(run[|run| - 1])
  {
    hide AtRest, Enabled, Step, Inv, Own, Work;
    var s := run[|run| - 1];
    if AtRest(s) {
      run' := run;
    } else {
      var a := SomeOwn(s);
      RunInv(run, |run| - 1);
      OwnStepDown(s, a);
      OwnKeepsReqs(s, a);
      var more := run + [Step(s, a)];
      forall i | 0 <= i < |more| - 1 ensures StepAt(more, i) {
        if i < |run| - 1 { assert StepAt(run, i); }
      }
      run' := CanFinish(more);
      assert run'[..|run|] == run'[..|more|][..|run|];
    }
  }

  lemma {:induction false} SomeOwn(s: State) returns (a: Action)
    requires !AtRest(s)
    ensures Own(a) && Enabled(s, a)
  {
    a :| Own(a) && Enabled(s, a);
  }

  lemma {:induction false} OwnKeepsReqs(s: State, a: Action)
    requires Own(a) && Enabled(s, a)
    ensures Step(s, a).reqs.Keys == s.reqs.Keys
  {
    hide Signal, SignalIfIdle, SignalOk, Remove, MustWait;
  }
}
