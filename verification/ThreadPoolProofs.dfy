/**
 What every run of the thread pool keeps: one place per request, one done
 callback per request with the right status, an accounted slow lane, and no
 lost wake-up.
 */
module ThreadPoolProofs {
  import opened ThreadPool

  // ---------- the invariant ----------

  function Mult<T(==)>(q: seq<T>, x: T): nat { multiset(q)[x] }

  function Drained(lp: Loop): seq<Req> {
    match lp.pc case Draining(q) => q case _ => []
  }

  /** How many places hold request w, finished (done called) being one of them. */
  function Places(s: State, w: Req): nat
    requires w in s.reqs && s.reqs[w].loop < |s.loops|
  {
    var lp := s.loops[s.reqs[w].loop];
    Mult(s.wq, Item(w)) + Mult(s.slowq, w) + Count(s.workers, Carry(w))
    + Mult(lp.wq, w) + Mult(Drained(lp), w) + Bit(w in s.cancelling) + s.reqs[w].dones
  }

  /** The fields of a request agree with the place it is in. */
  ghost predicate FieldsFit(s: State, w: Req)
    requires w in s.reqs && s.reqs[w].loop < |s.loops|
  {
    var r := s.reqs[w];
    var lp := s.loops[r.loop];
    && (Item(w) in s.wq ==> !r.slow && r.linked && r.work == Submitted && r.runs == 0)
    && (w in s.slowq ==> r.slow && r.linked && r.work == Submitted && r.runs == 0)
    && (forall i :: 0 <= i < |s.workers| && Is(Carry(w), s.workers[i]) ==>
          !r.linked && r.work == Submitted && r.runs == Bit(s.workers[i].Running?))
    && (w in lp.wq || w in Drained(lp) ==>
          r.linked && ((r.work == Null && r.runs == 1) || (r.work == Cancelled && r.runs == 0)))
    && (w in s.cancelling ==> r.runs == 0 && r.work != Null)
    && (r.status == NotDone <==> r.dones == 0)
    && (r.dones > 0 ==>
          && r.linked
          && (r.status == ECanceled <==> r.runs == 0)
          && (r.status == Ok <==> r.runs == 1)
          && (r.status == ECanceled <==> r.work == Cancelled)
          && (r.status == Ok <==> r.work == Null))
  }

  ghost predicate ReqOk(s: State, w: Req) {
    && w in s.reqs
    && s.reqs[w].loop < |s.loops|
    && Places(s, w) == 1
    && FieldsFit(s, w)
  }

  /** Whatever a queue or a worker holds has been submitted, and a loop holds only its own. */
  ghost predicate QueuesClosed(s: State) {
    && (forall w :: Item(w) in s.wq ==> w in s.reqs)
    && (forall w :: w in s.slowq ==> w in s.reqs)
    && (forall w :: w in s.cancelling ==> w in s.reqs)
  }

  ghost predicate WorkersClosed(s: State) {
    forall i, w :: 0 <= i < |s.workers| && Is(Carry(w), s.workers[i]) ==> w in s.reqs
  }

  ghost predicate LoopsClosed(s: State) {
    forall l, w :: 0 <= l < |s.loops| && (w in s.loops[l].wq || w in Drained(s.loops[l])) ==>
      w in s.reqs && s.reqs[w].loop == l
  }

  /** Whatever a queue or a worker holds has been submitted, and a loop holds only its own. */
  ghost predicate Closed(s: State) {
    QueuesClosed(s) && WorkersClosed(s) && LoopsClosed(s)
  }

  ghost predicate Requests(s: State) {
    Closed(s) && forall w :: w in s.reqs ==> ReqOk(s, w)
  }

  predicate Throttled(s: State) { s.slowRunning >= Threshold(s) }

  /** How many entries of the global queue some worker could act on now. */
  function Ready(s: State): int {
    |s.wq| - Bit(SlowMsg in s.wq && Throttled(s))
  }

  predicate Counters(s: State) {
    && |s.workers| >= 1
    && s.idle == Count(s.workers, IdleC)
    && s.slowRunning == Count(s.workers, SlowC)
    && s.slowRunning <= Threshold(s)
    && Count(s.workers, HolderC) == Bit(s.locked)
  }

  predicate SlowLane(s: State) {
    && Mult(s.wq, SlowMsg) == Bit(s.slowLinked)
    && Bit(s.slowLinked) + Count(s.workers, HoldMsgC) <= 1
    && (s.slowq != [] ==> Bit(s.slowLinked) + Count(s.workers, HoldMsgC) == 1)
  }

  predicate Wakes(s: State) {
    Count(s.workers, SleepC) > 0 ==>
      Ready(s) <= Count(s.workers, AwakeC) + Bit(Count(s.workers, HoldMsgC) > 0 && Throttled(s))
  }

  /** A completion queue with something in it is on its way to being drained. */
  predicate Announced(s: State) {
    forall l :: 0 <= l < |s.loops| && s.loops[l].wq != [] ==> s.loops[l].pending || s.loops[l].pc.Entered?
  }

  ghost predicate Inv(s: State) {
    Requests(s) && Counters(s) && SlowLane(s) && Wakes(s) && Announced(s)
  }

  // ---------- counting ----------

  lemma {:induction false} CountUpdate(ws: seq<Pc>, i: nat, p: Pc, c: Class)
    requires i < |ws|
    ensures Count(ws[i := p], c) == Count(ws, c) - Bit(Is(c, ws[i])) + Bit(Is(c, p))
    ensures Count(ws, c) >= Bit(Is(c, ws[i]))
  {
    if i == 0 {
      assert ws[i := p][1..] == ws[1..];
    } else {
      assert ws[i := p][1..] == ws[1..][i - 1 := p];
      CountUpdate(ws[1..], i - 1, p, c);
    }
  }

  lemma {:induction false} CountPositive(ws: seq<Pc>, c: Class)
    ensures Count(ws, c) > 0 <==> exists i :: 0 <= i < |ws| && Is(c, ws[i])
  {
    if ws != [] {
      CountPositive(ws[1..], c);
      if Is(c, ws[0]) {
      } else if exists i :: 0 <= i < |ws| && Is(c, ws[i]) {
        var i :| 0 <= i < |ws| && Is(c, ws[i]);
        assert Is(c, ws[1..][i - 1]);
      }
    }
  }

  lemma {:induction false} CountLe(ws: seq<Pc>, c: Class, d: Class)
    requires forall p :: Is(c, p) ==> Is(d, p)
    ensures Count(ws, c) <= Count(ws, d)
  {
    if ws != [] { CountLe(ws[1..], c, d); }
  }

  lemma {:induction false} CountAll(ws: seq<Pc>, p: Pc, c: Class)
    requires forall i :: 0 <= i < |ws| ==> ws[i] == p
    ensures Count(ws, c) == if Is(c, p) then |ws| else 0
  {
    if ws != [] { CountAll(ws[1..], p, c); }
  }

  /** The effect of one signal on every count. */
  lemma {:induction false} SignalCount(ws: seq<Pc>, k: int, c: Class)
    requires SignalOk(ws, k)
    ensures |Signal(ws, k)| == |ws|
    ensures Count(Signal(ws, k), c) ==
            Count(ws, c) + Bit(k >= 0) * (Bit(Is(c, Woken)) - Bit(Is(c, Sleeping)))
    ensures k >= 0 <==> Count(ws, SleepC) > 0
  {
    CountPositive(ws, SleepC);
    if k >= 0 { CountUpdate(ws, k, Woken, c); }
  }

  lemma {:induction false} Moved(ws: seq<Pc>, i: nat, p: Pc)
    requires i < |ws|
    ensures forall c :: Count(ws[i := p], c) == Count(ws, c) - Bit(Is(c, ws[i])) + Bit(Is(c, p))
    ensures forall c :: Count(ws, c) >= Bit(Is(c, ws[i]))
  {
    forall c
      ensures Count(ws[i := p], c) == Count(ws, c) - Bit(Is(c, ws[i])) + Bit(Is(c, p))
      ensures Count(ws, c) >= Bit(Is(c, ws[i]))
    {
      CountUpdate(ws, i, p, c);
    }
  }

  lemma {:induction false} Signalled(ws: seq<Pc>, k: int)
    requires SignalOk(ws, k)
    ensures |Signal(ws, k)| == |ws|
    ensures forall c :: Count(Signal(ws, k), c) ==
                        Count(ws, c) + Bit(k >= 0) * (Bit(Is(c, Woken)) - Bit(Is(c, Sleeping)))
    ensures k >= 0 <==> Count(ws, SleepC) > 0
  {
    SignalCount(ws, k, SleepC);
    forall c
      ensures Count(Signal(ws, k), c) ==
              Count(ws, c) + Bit(k >= 0) * (Bit(Is(c, Woken)) - Bit(Is(c, Sleeping)))
    {
      SignalCount(ws, k, c);
    }
  }

  // ---------- how one step changes the counts ----------

  /** The worker an action moves, or -1. */
  function Mover(a: Action): int {
    match a
    case Acquire(i) => i
    case Wait(i) => i
    case Leave(i, _) => i
    case Pop(i) => i
    case StartFast(i) => i
    case Requeue(i) => i
    case SkipEmpty(i) => i
    case TakeSlow(i, _) => i
    case Invoke(i) => i
    case Complete(i) => i
    case Spurious(i) => i
    case _ => -1
  }

  /** Whether the step calls uv_cond_signal, and which sleeper that wakes. */
  function Wakeup(s: State, a: Action): int
  {
    match a
    case Leave(_, k) => k
    case TakeSlow(_, k) => if |s.slowq| > 1 && s.idle > 0 then k else -1
    case Submit(_, _, slow, k) => if s.idle > 0 && !(slow && s.slowLinked) then k else -1
    case PostExit(k) => if s.idle > 0 then k else -1
    case _ => -1
  }

  /** Every count after a step, from the counts before it. */
  lemma {:induction false} StepCount(s: State, a: Action)
    requires Enabled(s, a) && s.idle == Count(s.workers, IdleC)
    ensures |Step(s, a).workers| == |s.workers|
    ensures forall c :: Count(Step(s, a).workers, c) ==
                        Count(s.workers, c)
                        + (if Wakeup(s, a) >= 0 then Bit(Is(c, Woken)) - Bit(Is(c, Sleeping)) else 0)
                        + (if 0 <= Mover(a) < |s.workers|
                           then Bit(Is(c, Step(s, a).workers[Mover(a)])) - Bit(Is(c, s.workers[Mover(a)]))
                           else 0)
    ensures 0 <= Mover(a) ==> Mover(a) < |s.workers| && Mover(a) != Wakeup(s, a)
    ensures forall j :: 0 <= j < |s.workers| && j != Mover(a) && j != Wakeup(s, a) ==>
                        Step(s, a).workers[j] == s.workers[j]
    ensures 0 <= Wakeup(s, a) ==> Wakeup(s, a) < |s.workers| && s.workers[Wakeup(s, a)].Sleeping?
                                  && Step(s, a).workers[Wakeup(s, a)] == Woken
    ensures forall c :: 0 <= Mover(a) ==> Count(s.workers, c) >= Bit(Is(c, s.workers[Mover(a)]))
    ensures Wakeup(s, a) >= 0 ==> Count(s.workers, SleepC) > 0
  {
    var t := Step(s, a);
    var k := Wakeup(s, a);
    var i := Mover(a);
    var mid := if k >= 0 then Signal(s.workers, k) else s.workers;
    if k >= 0 { Signalled(s.workers, k); }
    if i >= 0 {
      Moved(s.workers, i, t.workers[i]);
      Moved(mid, i, t.workers[i]);
      assert t.workers == mid[i := t.workers[i]];
    } else {
      assert t.workers == mid;
    }
  }

  /** StepCount for one class, as an equation. */
  lemma {:induction false} StepCountFor(s: State, a: Action, c: Class)
    requires Enabled(s, a) && s.idle == Count(s.workers, IdleC)
    ensures |Step(s, a).workers| == |s.workers|
    ensures 0 <= Mover(a) ==> Mover(a) < |s.workers| && Count(s.workers, c) >= Bit(Is(c, s.workers[Mover(a)]))
    ensures Count(Step(s, a).workers, c) ==
            Count(s.workers, c)
            + (if Wakeup(s, a) >= 0 then Bit(Is(c, Woken)) - Bit(Is(c, Sleeping)) else 0)
            + (if 0 <= Mover(a)
               then Bit(Is(c, Step(s, a).workers[Mover(a)])) - Bit(Is(c, s.workers[Mover(a)]))
               else 0)
  {
    StepCount(s, a);
  }

  lemma {:induction false} StepCounters(s: State, a: Action)
    requires Counters(s) && Enabled(s, a)
    ensures Counters(Step(s, a))
  {
    hide Count, SignalOk;
    StepCountFor(s, a, IdleC);
    StepCountFor(s, a, SlowC);
    StepCountFor(s, a, HolderC);
  }

  lemma {:induction false} HeadTail<T>(q: seq<T>)
    requires q != []
    ensures multiset(q) == multiset{q[0]} + multiset(q[1..])
  {
    assert q == [q[0]] + q[1..];
  }

  lemma {:induction false} WorkerStepSlowLane(s: State, a: Action)
    requires Counters(s) && SlowLane(s) && Enabled(s, a) && Mover(a) >= 0
    ensures SlowLane(Step(s, a))
  {
    StepCountFor(s, a, HoldMsgC);
    if a.Pop? { HeadTail(s.wq); }
  }

  lemma {:induction false} OtherStepSlowLane(s: State, a: Action)
    requires Counters(s) && SlowLane(s) && Enabled(s, a) && Mover(a) < 0
    ensures SlowLane(Step(s, a))
  {
    hide Count, Signal, SignalIfIdle, SignalOk;
    StepCountFor(s, a, HoldMsgC);
    CountLe(s.workers, HoldMsgC, HolderC);
    if a.TryCancel? {
      RemoveMult(s.wq, Item(a.w), SlowMsg);
      RemoveLength(s.slowq, a.w);
    }
  }

  lemma {:induction false} StepSlowLane(s: State, a: Action)
    requires Counters(s) && SlowLane(s) && Enabled(s, a)
    ensures SlowLane(Step(s, a))
  {
    if Mover(a) >= 0 { WorkerStepSlowLane(s, a); } else { OtherStepSlowLane(s, a); }
  }

  lemma {:induction false} RemoveLength<T>(q: seq<T>, x: T)
    ensures |Remove(q, x)| == |q| - Bit(x in q)
  {
    if q != [] { RemoveLength(q[1..], x); }
  }

  /** Removing x takes away one occurrence of x and nothing else. */
  lemma {:induction false} RemoveMult<T>(q: seq<T>, x: T, y: T)
    ensures Mult(Remove(q, x), y) == Mult(q, y) - Bit(x == y && y in q)
  {
    if q != [] {
      HeadTail(q);
      RemoveMult(q[1..], x, y);
    }
  }

  /** uv_cond_signal wakes nobody only when nobody sleeps. */
  lemma {:induction false} NobodySleeps(ws: seq<Pc>, k: int)
    requires SignalOk(ws, k) && k < 0
    ensures Count(ws, SleepC) == 0
  {
    CountPositive(ws, SleepC);
  }

  lemma {:induction false} WorkerStepWakes(s: State, a: Action)
    requires Counters(s) && SlowLane(s) && Wakes(s) && Enabled(s, a)
    requires Mover(a) >= 0 && !a.TakeSlow? && !a.Leave?
    ensures Wakes(Step(s, a))
  {
    StepCountFor(s, a, HoldMsgC);
    StepCountFor(s, a, SleepC);
    StepCountFor(s, a, AwakeC);
    if a.Pop? { HeadTail(s.wq); }
    if a.Acquire? { CountLe(s.workers, HoldMsgC, HolderC); }
  }

  lemma {:induction false} SignallingStepWakes(s: State, a: Action, k: int)
    requires Counters(s) && SlowLane(s) && Wakes(s) && Enabled(s, a)
    requires a == PostExit(k) || (a.Leave? && a.k == k) || (a.TakeSlow? && a.k == k) || (a.Submit? && a.k == k)
    ensures Wakes(Step(s, a))
  {
    hide Count, SignalOk;
    StepCountFor(s, a, HoldMsgC);
    StepCountFor(s, a, SleepC);
    StepCountFor(s, a, AwakeC);
    CountLe(s.workers, SleepC, IdleC);
    CountLe(s.workers, HoldMsgC, HolderC);
    if k < 0 { NobodySleeps(s.workers, k); }
  }

  lemma {:induction false} LoopStepWakes(s: State, a: Action)
    requires Counters(s) && Wakes(s) && Enabled(s, a)
    requires Mover(a) < 0 && !a.Submit? && !a.PostExit?
    ensures Wakes(Step(s, a))
  {
    var t := Step(s, a);
    assert t.workers == s.workers && t.slowRunning == s.slowRunning;
    if a.TryCancel? {
      RemoveLength(s.wq, Item(a.w));
      RemoveMult(s.wq, Item(a.w), SlowMsg);
    }
  }

  lemma {:induction false} StepWakes(s: State, a: Action)
    requires Counters(s) && SlowLane(s) && Wakes(s) && Enabled(s, a)
    ensures Wakes(Step(s, a))
  {
    if a.Leave? || a.TakeSlow? || a.Submit? || a.PostExit? {
      SignallingStepWakes(s, a, a.k);
    } else if Mover(a) >= 0 {
      WorkerStepWakes(s, a);
    } else {
      LoopStepWakes(s, a);
    }
  }

  lemma {:induction false} StepAnnounced(s: State, a: Action)
    requires Announced(s) && Enabled(s, a)
    ensures Announced(Step(s, a))
  {
  }

  // ---------- requests ----------

  ghost predicate Placed(s: State, w: Req) {
    w in s.reqs && s.reqs[w].loop < |s.loops| && Places(s, w) == 1
  }

  lemma {:induction false} PlacesLock(s: State, a: Action, w: Req)
    requires Placed(s, w) && Enabled(s, a) && s.idle == Count(s.workers, IdleC)
    requires a.Acquire? || a.Wait? || a.Leave? || a.StartFast? || a.SkipEmpty? || a.Spurious?
    ensures Placed(Step(s, a), w)
  {
    hide Count, SignalOk, Wakeup;
    StepCountFor(s, a, Carry(w));
  }

  lemma {:induction false} PlacesPop(s: State, a: Action, w: Req)
    requires Placed(s, w) && Enabled(s, a) && s.idle == Count(s.workers, IdleC)
    requires a.Pop?
    ensures Placed(Step(s, a), w)
  {
    hide Count, Signal, SignalIfIdle, SignalOk, Wakeup;
    StepCountFor(s, a, Carry(w));
    HeadTail(s.wq);
  }

  lemma {:induction false} PlacesRequeue(s: State, a: Action, w: Req)
    requires Placed(s, w) && Enabled(s, a) && s.idle == Count(s.workers, IdleC)
    requires a.Requeue? || a.Invoke?
    ensures Placed(Step(s, a), w)
  {
    hide Count, Signal, SignalIfIdle, SignalOk, Wakeup;
    StepCountFor(s, a, Carry(w));
  }

  lemma {:induction false} PlacesTakeSlow(s: State, a: Action, w: Req)
    requires Placed(s, w) && Enabled(s, a) && s.idle == Count(s.workers, IdleC)
    requires a.TakeSlow?
    ensures Placed(Step(s, a), w)
  {
    hide Count, SignalOk, MustWait, Wakeup;
    var t := Step(s, a);
    StepCountFor(s, a, Carry(w));
    HeadTail(s.slowq);
    assert t.loops == s.loops && t.cancelling == s.cancelling && Mult(t.wq, Item(w)) == Mult(s.wq, Item(w));
  }

  /** Delivering v adds v to its loop's queue and leaves every other place alone. */
  lemma {:induction false} Delivered(s: State, v: Req, work: Work, w: Req)
    requires v in s.reqs && s.reqs[v].loop < |s.loops| && w in s.reqs && s.reqs[w].loop < |s.loops|
    ensures var t := Deliver(s, v, work); var l := s.reqs[w].loop;
            && t == s.(reqs := t.reqs, loops := t.loops)
            && w in t.reqs && t.reqs[w].loop == l && t.reqs[w].dones == s.reqs[w].dones && |t.loops| == |s.loops|
            && Mult(t.loops[l].wq, w) == Mult(s.loops[l].wq, w) + Bit(w == v)
            && Drained(t.loops[l]) == Drained(s.loops[l])
  {
  }

  lemma {:induction false} PlacesComplete(s: State, a: Action, w: Req)
    requires Placed(s, w) && Enabled(s, a) && s.idle == Count(s.workers, IdleC)
    requires a.Complete?
    ensures Placed(Step(s, a), w)
  {
    hide Count, SignalOk, MustWait, Signal, SignalIfIdle, Wakeup, Deliver;
    StepCountFor(s, a, Carry(w));
    Delivered(s, s.workers[a.i].w, Null, w);
  }

  lemma {:induction false} PlacesSubmit(s: State, a: Action, w: Req)
    requires Placed(s, w) && Enabled(s, a) && s.idle == Count(s.workers, IdleC)
    requires a.Submit?
    ensures Placed(Step(s, a), w)
  {
    hide Count, Signal, SignalIfIdle, SignalOk, Wakeup;
    StepCountFor(s, a, Carry(w));
  }

  lemma {:induction false} PlacesPostExit(s: State, a: Action, w: Req)
    requires Placed(s, w) && Enabled(s, a) && s.idle == Count(s.workers, IdleC)
    requires a.PostExit?
    ensures Placed(Step(s, a), w)
  {
    hide Count, Signal, SignalIfIdle, SignalOk, Wakeup;
    StepCountFor(s, a, Carry(w));
  }

  lemma {:induction false} PlacesCancelOther(s: State, v: Req, w: Req)
    requires Placed(s, w) && Enabled(s, TryCancel(v)) && v != w
    ensures Placed(Step(s, TryCancel(v)), w)
  {
    hide Count, Remove, SignalOk;
    var t := Step(s, TryCancel(v));
    var l := s.reqs[w].loop;
    assert t.workers == s.workers && t.reqs == s.reqs;
    RemoveMult(s.wq, Item(v), Item(w));
    RemoveMult(s.slowq, v, w);
    RemoveMult(s.loops[l].wq, v, w);
    RemoveMult(Drained(s.loops[l]), v, w);
  }

  lemma {:induction false} PlacesCancelSelf(s: State, w: Req)
    requires Placed(s, w) && FieldsFit(s, w) && Enabled(s, TryCancel(w))
    ensures Placed(Step(s, TryCancel(w)), w)
  {
    hide Count, Remove, SignalOk;
    if Cancellable(s.reqs[w]) {
      CarryUnlinked(s, w);
      var t := Step(s, TryCancel(w));
      var l := s.reqs[w].loop;
      assert t.workers == s.workers && t.reqs == s.reqs;
      RemoveMult(s.wq, Item(w), Item(w));
      RemoveMult(s.slowq, w, w);
      RemoveMult(s.loops[l].wq, w, w);
      RemoveMult(Drained(s.loops[l]), w, w);
    }
  }

  lemma {:induction false} PlacesFinishCancel(s: State, a: Action, w: Req)
    requires Placed(s, w) && Enabled(s, a) && s.idle == Count(s.workers, IdleC)
    requires a.FinishCancel?
    ensures Placed(Step(s, a), w)
  {
    hide Count, SignalOk, MustWait, Signal, SignalIfIdle, Wakeup, Deliver;
    StepCountFor(s, a, Carry(w));
    Delivered(s, a.w, Cancelled, w);
  }

  lemma {:induction false} PlacesLoop(s: State, a: Action, w: Req)
    requires Placed(s, w) && Enabled(s, a) && s.idle == Count(s.workers, IdleC)
    requires a.AsyncFire? || a.BeginDrain? || a.EndDrain?
    ensures Placed(Step(s, a), w)
  {
    hide Count, Signal, SignalIfIdle, SignalOk, Wakeup;
    StepCountFor(s, a, Carry(w));
  }

  lemma {:induction false} PlacesRunDone(s: State, a: Action, w: Req)
    requires Placed(s, w) && Enabled(s, a) && s.idle == Count(s.workers, IdleC)
    requires a.RunDone?
    requires Closed(s)
    ensures Placed(Step(s, a), w)
  {
    hide Count, SignalOk, MustWait;
    var t := Step(s, a);
    var l := s.reqs[w].loop;
    HeadTail(s.loops[a.l].pc.q);
    assert t.workers == s.workers && t.wq == s.wq && t.slowq == s.slowq && t.cancelling == s.cancelling;
    if l != a.l {
      assert s.loops[a.l].pc.q[0] in Drained(s.loops[a.l]);
      assert t.loops[l] == s.loops[l] && t.reqs[w] == s.reqs[w];
    }
  }

  /** A request some worker carries is not linked in any queue. */
  lemma {:induction false} CarryUnlinked(s: State, w: Req)
    requires Placed(s, w) && FieldsFit(s, w) && s.reqs[w].linked
    ensures Count(s.workers, Carry(w)) == 0
  {
    CountPositive(s.workers, Carry(w));
  }

  lemma {:induction false} CountTwo(ws: seq<Pc>, i: nat, j: nat, c: Class)
    requires i < j < |ws| && Is(c, ws[i]) && Is(c, ws[j])
    ensures Count(ws, c) >= 2
  {
    if i == 0 {
      assert Is(c, ws[1..][j - 1]);
      CountPositive(ws[1..], c);
    } else {
      CountTwo(ws[1..], i - 1, j - 1, c);
    }
  }

  predicate Queued(s: State, w: Req)
    requires w in s.reqs && s.reqs[w].loop < |s.loops|
  {
    var lp := s.loops[s.reqs[w].loop];
    Item(w) in s.wq || w in s.slowq || w in lp.wq || w in Drained(lp) || w in s.cancelling || s.reqs[w].dones > 0
  }

  /** One place means at most one carrier, and none once the request is anywhere else. */
  lemma {:induction false} Carriers(s: State, w: Req)
    requires Placed(s, w)
    ensures forall i, j :: 0 <= i < j < |s.workers| && Is(Carry(w), s.workers[i]) ==> !Is(Carry(w), s.workers[j])
    ensures Queued(s, w) ==> forall i :: 0 <= i < |s.workers| ==> !Is(Carry(w), s.workers[i])
  {
    CountPositive(s.workers, Carry(w));
    forall i, j | 0 <= i < j < |s.workers| && Is(Carry(w), s.workers[i])
      ensures !Is(Carry(w), s.workers[j])
    {
      if Is(Carry(w), s.workers[j]) { CountTwo(s.workers, i, j, Carry(w)); }
    }
  }

  lemma {:induction false} FieldsLock(s: State, a: Action, w: Req)
    requires ReqOk(s, w) && Enabled(s, a) && s.idle == Count(s.workers, IdleC)
    requires a.Acquire? || a.Wait? || a.Leave? || a.StartFast? || a.SkipEmpty? || a.Spurious?
    requires Placed(Step(s, a), w)
    ensures FieldsFit(Step(s, a), w)
  {
    hide Count, SignalOk, Places, Wakeup;
    StepCount(s, a);
    Carriers(Step(s, a), w);
  }

  lemma {:induction false} FieldsPop(s: State, a: Action, w: Req)
    requires ReqOk(s, w) && Enabled(s, a) && s.idle == Count(s.workers, IdleC)
    requires a.Pop?
    requires Placed(Step(s, a), w)
    ensures FieldsFit(Step(s, a), w)
  {
    hide Count, Signal, SignalIfIdle, SignalOk, Places, Wakeup;
    StepCount(s, a);
    Carriers(Step(s, a), w);
  }

  lemma {:induction false} FieldsRequeue(s: State, a: Action, w: Req)
    requires ReqOk(s, w) && Enabled(s, a) && s.idle == Count(s.workers, IdleC)
    requires a.Requeue? || a.Invoke?
    requires Placed(Step(s, a), w)
    ensures FieldsFit(Step(s, a), w)
  {
    hide Count, Signal, SignalIfIdle, SignalOk, Places, Wakeup;
    StepCount(s, a);
    Carriers(Step(s, a), w);
  }

  lemma {:induction false} FieldsTakeSlow(s: State, a: Action, w: Req)
    requires ReqOk(s, w) && Enabled(s, a) && s.idle == Count(s.workers, IdleC)
    requires a.TakeSlow?
    requires Placed(Step(s, a), w)
    ensures FieldsFit(Step(s, a), w)
  {
    hide Count, SignalOk, Places, Wakeup;
    StepCount(s, a);
    Carriers(Step(s, a), w);
  }

  lemma {:induction false} FieldsComplete(s: State, a: Action, w: Req)
    requires ReqOk(s, w) && Enabled(s, a) && s.idle == Count(s.workers, IdleC)
    requires a.Complete?
    requires Placed(Step(s, a), w)
    ensures FieldsFit(Step(s, a), w)
  {
    hide Count, Signal, SignalIfIdle, SignalOk, Places, Wakeup;
    StepCount(s, a);
    Carriers(Step(s, a), w);
  }

  lemma {:induction false} FieldsSame(s: State, t: State, w: Req)
    requires ReqOk(s, w)
    requires w in t.reqs && t.reqs[w] == s.reqs[w] && t.loops == s.loops && t.cancelling == s.cancelling
    requires Item(w) in t.wq ==> Item(w) in s.wq
    requires w in t.slowq ==> w in s.slowq
    requires |t.workers| == |s.workers|
    requires forall i :: 0 <= i < |t.workers| ==> t.workers[i] == s.workers[i] || t.workers[i] == Woken
    ensures FieldsFit(t, w)
  {
  }

  lemma {:induction false} FieldsSubmit(s: State, a: Action, w: Req)
    requires ReqOk(s, w) && Enabled(s, a) && s.idle == Count(s.workers, IdleC)
    requires a.Submit?
    requires Placed(Step(s, a), w)
    ensures FieldsFit(Step(s, a), w)
  {
    hide Count, Signal, SignalIfIdle, SignalOk, Places, Wakeup;
    var t := Step(s, a);
    StepCount(s, a);
    assert t.reqs[w] == s.reqs[w] && t.loops == s.loops && t.cancelling == s.cancelling;
    FieldsSame(s, t, w);
  }

  lemma {:induction false} FieldsPostExit(s: State, a: Action, w: Req)
    requires ReqOk(s, w) && Enabled(s, a) && s.idle == Count(s.workers, IdleC)
    requires a.PostExit?
    requires Placed(Step(s, a), w)
    ensures FieldsFit(Step(s, a), w)
  {
    hide Count, Signal, SignalIfIdle, SignalOk, Places, Wakeup;
    var t := Step(s, a);
    StepCount(s, a);
    assert t.reqs[w] == s.reqs[w] && t.loops == s.loops && t.cancelling == s.cancelling;
    FieldsSame(s, t, w);
  }

  lemma {:induction false} RemoveIn<T>(q: seq<T>, x: T)
    ensures forall y :: y in Remove(q, x) ==> y in q
  {
    if q != [] { RemoveIn(q[1..], x); }
  }

  lemma {:induction false} FieldsCancel(s: State, v: Req, w: Req)
    requires ReqOk(s, w) && Enabled(s, TryCancel(v))
    requires Placed(Step(s, TryCancel(v)), w)
    ensures FieldsFit(Step(s, TryCancel(v)), w)
  {
    var t := Step(s, TryCancel(v));
    var l := s.reqs[w].loop;
    assert t.workers == s.workers && t.reqs == s.reqs;
    RemoveIn(s.wq, Item(v));
    RemoveIn(s.slowq, v);
    RemoveIn(s.loops[l].wq, v);
    RemoveIn(Drained(s.loops[l]), v);
    assert w in t.cancelling ==> w == v || w in s.cancelling;
    if w == v && Cancellable(s.reqs[w]) { CancellableNotRun(s, w); }
  }

  /** uv__work_cancel's test only passes for a request whose work function has not run. */
  lemma {:induction false} CancellableNotRun(s: State, w: Req)
    requires ReqOk(s, w) && Cancellable(s.reqs[w]) && s.reqs[w].dones == 0
    ensures s.reqs[w].runs == 0
  {
    CarryUnlinked(s, w);
    var lp := s.loops[s.reqs[w].loop];
    assert Item(w) in s.wq || w in s.slowq || w in lp.wq || w in Drained(lp) || w in s.cancelling;
  }

  lemma {:induction false} FieldsFinishCancel(s: State, a: Action, w: Req)
    requires ReqOk(s, w) && Enabled(s, a) && s.idle == Count(s.workers, IdleC)
    requires a.FinishCancel?
    requires Placed(Step(s, a), w)
    ensures FieldsFit(Step(s, a), w)
  {
    hide Count, SignalOk;
    StepCount(s, a);
    Carriers(Step(s, a), w);
  }

  lemma {:induction false} FieldsLoop(s: State, a: Action, w: Req)
    requires ReqOk(s, w) && Enabled(s, a) && s.idle == Count(s.workers, IdleC)
    requires a.AsyncFire? || a.BeginDrain? || a.EndDrain?
    requires Placed(Step(s, a), w)
    ensures FieldsFit(Step(s, a), w)
  {
    hide Count, Signal, SignalIfIdle, SignalOk, Places, Wakeup;
    StepCount(s, a);
    Carriers(Step(s, a), w);
  }

  lemma {:induction false} FieldsRunDone(s: State, a: Action, w: Req)
    requires ReqOk(s, w) && Enabled(s, a) && s.idle == Count(s.workers, IdleC)
    requires a.RunDone?
    requires Placed(Step(s, a), w)
    requires Closed(s)
    ensures FieldsFit(Step(s, a), w)
  {
    hide Count, Signal, SignalIfIdle, SignalOk, Places, Wakeup;
    StepCount(s, a);
    Carriers(Step(s, a), w);
  }


  lemma {:induction false} WorkerReqOk(s: State, a: Action, w: Req)
    requires Closed(s) && ReqOk(s, w) && s.idle == Count(s.workers, IdleC) && Enabled(s, a)
    requires Mover(a) >= 0
    ensures ReqOk(Step(s, a), w)
  {
    hide Step, Closed, Places, FieldsFit, Count, Enabled;
    match a {
      case Pop(_) => PlacesPop(s, a, w); FieldsPop(s, a, w);
      case Requeue(_) => PlacesRequeue(s, a, w); FieldsRequeue(s, a, w);
      case Invoke(_) => PlacesRequeue(s, a, w); FieldsRequeue(s, a, w);
      case TakeSlow(_, _) => PlacesTakeSlow(s, a, w); FieldsTakeSlow(s, a, w);
      case Complete(_) => PlacesComplete(s, a, w); FieldsComplete(s, a, w);
      case _ => PlacesLock(s, a, w); FieldsLock(s, a, w);
    }
  }

  lemma {:induction false} OtherReqOk(s: State, a: Action, w: Req)
    requires Closed(s) && ReqOk(s, w) && s.idle == Count(s.workers, IdleC) && Enabled(s, a)
    requires Mover(a) < 0
    ensures ReqOk(Step(s, a), w)
  {
    hide Step, Closed, Places, FieldsFit, Count, Enabled;
    match a {
      case Submit(_, _, _, _) => PlacesSubmit(s, a, w); FieldsSubmit(s, a, w);
      case PostExit(_) => PlacesPostExit(s, a, w); FieldsPostExit(s, a, w);
      case TryCancel(v) =>
        if v == w { PlacesCancelSelf(s, w); } else { PlacesCancelOther(s, v, w); }
        FieldsCancel(s, v, w);
      case FinishCancel(_) => PlacesFinishCancel(s, a, w); FieldsFinishCancel(s, a, w);
      case RunDone(_) => PlacesRunDone(s, a, w); FieldsRunDone(s, a, w);
      case _ => PlacesLoop(s, a, w); FieldsLoop(s, a, w);
    }
  }

  lemma {:induction false} StepReqOk(s: State, a: Action, w: Req)
    requires Closed(s) && ReqOk(s, w) && s.idle == Count(s.workers, IdleC) && Enabled(s, a)
    ensures ReqOk(Step(s, a), w)
  {
    if Mover(a) >= 0 { WorkerReqOk(s, a, w); } else { OtherReqOk(s, a, w); }
  }

  /** A request just submitted is in exactly one queue. */
  lemma {:induction false} SubmittedReqOk(s: State, a: Action)
    requires Closed(s) && s.idle == Count(s.workers, IdleC) && Enabled(s, a) && a.Submit?
    ensures ReqOk(Step(s, a), a.w)
  {
    var t := Step(s, a);
    SubmittedPlaced(s, a);
    Carriers(t, a.w);
    assert Drained(t.loops[a.loop]) == Drained(s.loops[a.loop]) && t.loops == s.loops;
  }

  /** A request that was never submitted is nowhere. */
  lemma {:induction false} NotYet(s: State, w: Req)
    requires Closed(s) && w !in s.reqs
    ensures Item(w) !in s.wq && w !in s.slowq && w !in s.cancelling && Count(s.workers, Carry(w)) == 0
    ensures forall l :: 0 <= l < |s.loops| ==> w !in s.loops[l].wq && w !in Drained(s.loops[l])
  {
    hide Count;
    CountPositive(s.workers, Carry(w));
  }

  lemma {:induction false} SubmittedPlaced(s: State, a: Action)
    requires Closed(s) && s.idle == Count(s.workers, IdleC) && Enabled(s, a) && a.Submit?
    ensures Placed(Step(s, a), a.w)
  {
    hide Count, Signal, SignalIfIdle, SignalOk, Wakeup, WorkersClosed, QueuesClosed, LoopsClosed;
    var t := Step(s, a);
    StepCountFor(s, a, Carry(a.w));
    NotYet(s, a.w);
    assert t.loops == s.loops && t.cancelling == s.cancelling;
  }

  /** Requests are never forgotten and never move to another loop. */
  lemma {:induction false} ReqsGrow(s: State, a: Action)
    requires Enabled(s, a)
    ensures forall w :: w in s.reqs ==> w in Step(s, a).reqs && Step(s, a).reqs[w].loop == s.reqs[w].loop
    ensures |Step(s, a).loops| == |s.loops|
  {
    hide Count, Signal, SignalIfIdle, SignalOk;
  }

  /** Where the entries of the shared queues come from. */
  lemma {:induction false} StepQueues(s: State, a: Action, w: Req)
    requires Enabled(s, a)
    ensures var t := Step(s, a);
            Item(w) in t.wq || w in t.slowq || w in t.cancelling ==>
              Item(w) in s.wq || w in s.slowq || w in s.cancelling || w in t.reqs
  {
    hide SignalOk, Signal, SignalIfIdle, MustWait, Remove;
    if a.TryCancel? {
      RemoveIn(s.wq, Item(a.w));
      RemoveIn(s.slowq, a.w);
    }
  }

  lemma {:induction false} StepQueuesClosed(s: State, a: Action)
    requires Closed(s) && Enabled(s, a)
    ensures QueuesClosed(Step(s, a))
  {
    hide Step, Enabled, Remove, WorkersClosed, LoopsClosed;
    var t := Step(s, a);
    ReqsGrow(s, a);
    forall w ensures (Item(w) in t.wq || w in t.slowq || w in t.cancelling) ==> w in t.reqs {
      StepQueues(s, a, w);
    }
  }

  lemma {:induction false} StepWorkersClosed(s: State, a: Action)
    requires Closed(s) && Counters(s) && Enabled(s, a)
    ensures WorkersClosed(Step(s, a))
  {
    hide Count, SignalOk, Places, Wakeup;
    ReqsGrow(s, a);
    StepCount(s, a);
    var t := Step(s, a);
    forall i, w | 0 <= i < |t.workers| && Is(Carry(w), t.workers[i])
      ensures w in t.reqs
    {
      if i == Mover(a) {
        assert a.Pop? || a.StartFast? || a.TakeSlow? || a.Invoke?;
      } else if i != Wakeup(s, a) {
        assert Is(Carry(w), s.workers[i]);
      }
    }
  }

  /** The loop an action changes, or -1. */
  function Touched(s: State, a: Action): int
    requires Enabled(s, a)
  {
    match a
    case Complete(i) => s.reqs[s.workers[i].w].loop
    case TryCancel(w) => s.reqs[w].loop
    case FinishCancel(w) => s.reqs[w].loop
    case AsyncFire(l) => l
    case BeginDrain(l) => l
    case RunDone(l) => l
    case EndDrain(l) => l
    case _ => -1
  }

  lemma {:induction false} UntouchedLoops(s: State, a: Action, l: nat)
    requires Enabled(s, a) && l < |s.loops| && l != Touched(s, a)
    ensures |Step(s, a).loops| == |s.loops| && Step(s, a).loops[l] == s.loops[l]
  {
  }

  lemma {:induction false} TouchedLoop(s: State, a: Action, w: Req)
    requires Enabled(s, a) && Touched(s, a) >= 0
    ensures |Step(s, a).loops| == |s.loops| && Touched(s, a) < |s.loops|
    ensures var l := Touched(s, a);
            var lp := Step(s, a).loops[l];
            w in lp.wq || w in Drained(lp) ==>
              || w in s.loops[l].wq || w in Drained(s.loops[l])
              || (a.Complete? && w == s.workers[a.i].w)
              || a == FinishCancel(w)
  {
    if a.TryCancel? {
      var lp := s.loops[s.reqs[a.w].loop];
      RemoveIn(lp.wq, a.w);
      RemoveIn(Drained(lp), a.w);
    }
  }

  lemma {:induction false} StepLoopsClosed(s: State, a: Action)
    requires Closed(s) && Counters(s) && Enabled(s, a)
    ensures LoopsClosed(Step(s, a))
  {
    var t := Step(s, a);
    ReqsGrow(s, a);
    forall l, w | 0 <= l < |t.loops| && (w in t.loops[l].wq || w in Drained(t.loops[l]))
      ensures w in t.reqs && t.reqs[w].loop == l
    {
      if l == Touched(s, a) { TouchedLoop(s, a, w); } else { UntouchedLoops(s, a, l); }
    }
  }

  // ---------- the main theorems ----------

  lemma {:induction false} InitInv(s: State)
    requires Init(s)
    ensures Inv(s)
  {
    CountAll(s.workers, WantLock(false), IdleC);
    CountAll(s.workers, WantLock(false), SlowC);
    CountAll(s.workers, WantLock(false), SleepC);
    CountAll(s.workers, WantLock(false), HolderC);
    CountAll(s.workers, WantLock(false), HoldMsgC);
  }

  lemma {:induction false} StepInv(s: State, a: Action)
    requires Inv(s) && Enabled(s, a)
    ensures Inv(Step(s, a))
  {
    var t := Step(s, a);
    StepCounters(s, a);
    StepSlowLane(s, a);
    StepWakes(s, a);
    StepAnnounced(s, a);
    StepQueuesClosed(s, a);
    StepWorkersClosed(s, a);
    StepLoopsClosed(s, a);
    forall w | w in t.reqs
      ensures ReqOk(t, w)
    {
      if w in s.reqs {
        StepReqOk(s, a, w);
      } else {
        NewRequest(s, a, w);
        SubmittedReqOk(s, a);
      }
    }
  }

  lemma {:induction false} NewRequest(s: State, a: Action, w: Req)
    requires Enabled(s, a) && w !in s.reqs && w in Step(s, a).reqs
    ensures a.Submit? && a.w == w
  {
  }

  /** Every state of every run satisfies the invariant. */
  lemma {:induction false} RunInv(run: seq<State>, i: nat)
    requires IsRun(run) && i < |run|
    ensures Inv(run[i])
  {
    hide Inv, Step, Enabled, Init;
    if i == 0 {
      InitInv(run[0]);
    } else {
      RunInv(run, i - 1);
      var a := RunStep(run, i - 1);
      StepInv(run[i - 1], a);
    }
  }

  /** In every state of every run a submitted request is in exactly one place,
      its work function and its done callback have each been called at most
      once, and done got UV_ECANCELED exactly when the work never ran. */
  lemma {:induction false} OnePlaceOneDone(run: seq<State>, i: nat, w: Req)
    requires IsRun(run) && i < |run| && w in run[i].reqs
    ensures var s := run[i];
            && s.reqs[w].loop < |s.loops|
            && Places(s, w) == 1
            && LoopsClosed(s)
            && s.reqs[w].runs <= 1 && s.reqs[w].dones <= 1
            && (s.reqs[w].dones == 1 ==>
                  && (s.reqs[w].status == ECanceled <==> s.reqs[w].runs == 0)
                  && (s.reqs[w].status == Ok <==> s.reqs[w].runs == 1))
  {
    RunInv(run, i);
    var s := run[i];
    assert ReqOk(s, w);
    CountPositive(s.workers, Carry(w));
    var lp := s.loops[s.reqs[w].loop];
    if Count(s.workers, Carry(w)) == 0 && s.reqs[w].dones == 0 {
      assert Item(w) in s.wq || w in s.slowq || w in lp.wq || w in Drained(lp) || w in s.cancelling;
    }
  }

  /** With the pool mutex free: an entry in the slow queue means its message is
      linked in the global queue exactly once, and the counter of running slow
      work is exact and never above (nthreads + 1) / 2. */
  lemma {:induction false} SlowLaneScheduled(run: seq<State>, i: nat)
    requires IsRun(run) && i < |run|
    ensures var s := run[i];
            && (!s.locked && s.slowq != [] ==> Mult(s.wq, SlowMsg) == 1)
            && Mult(s.wq, SlowMsg) <= 1
            && s.slowRunning == Count(s.workers, SlowC) <= (|s.workers| + 1) / 2
            && s.idle == Count(s.workers, IdleC)
  {
    RunInv(run, i);
    CountLe(run[i].workers, HoldMsgC, HolderC);
  }

  /** No lost wake-up.  While any worker sleeps unsignalled, at least as many
      workers are on their way to the queue as there are entries to take; so
      work that can be taken is never left to sleepers alone. */
  lemma {:induction false} NoLostWakeup(run: seq<State>, i: nat)
    requires IsRun(run) && i < |run|
    ensures var s := run[i];
            && (!s.locked && (exists j :: 0 <= j < |s.workers| && s.workers[j].Sleeping?) ==>
                  Ready(s) <= Count(s.workers, AwakeC))
            && (!MustWait(s) && (exists j :: 0 <= j < |s.workers| && s.workers[j].Sleeping?) ==>
                  exists j :: 0 <= j < |s.workers| && !s.workers[j].Sleeping? && !s.workers[j].Exited?)
  {
    RunInv(run, i);
    var s := run[i];
    CountLe(s.workers, HoldMsgC, HolderC);
    CountPositive(s.workers, SleepC);
    CountPositive(s.workers, AwakeC);
    CountPositive(s.workers, HoldMsgC);
    if exists j :: 0 <= j < |s.workers| && s.workers[j].Sleeping? {
      var j :| 0 <= j < |s.workers| && s.workers[j].Sleeping?;
      assert Is(SleepC, s.workers[j]);
      if !MustWait(s) {
        ReadyPositive(s);
        var c := if Count(s.workers, AwakeC) > 0 then AwakeC else HoldMsgC;
        var k :| 0 <= k < |s.workers| && Is(c, s.workers[k]);
      }
    }
  }

  /** A worker that would not wait has an entry to act on. */
  lemma {:induction false} ReadyPositive(s: State)
    requires !MustWait(s)
    ensures Ready(s) > 0
  {
    if |s.wq| == 1 { assert s.wq == [s.wq[0]]; }
  }

  /** When every live worker sleeps, nothing submitted is waiting to be started,
      and the exit message has not been posted. */
  lemma {:induction false} AsleepMeansDrained(run: seq<State>, i: nat)
    requires IsRun(run) && i < |run|
    requires forall j :: 0 <= j < |run[i].workers| ==> run[i].workers[j].Sleeping? || run[i].workers[j].Exited?
    requires exists j :: 0 <= j < |run[i].workers| && run[i].workers[j].Sleeping?
    ensures run[i].wq == [] && run[i].slowq == []
  {
    RunInv(run, i);
    var s := run[i];
    CountPositive(s.workers, AwakeC);
    CountPositive(s.workers, HoldMsgC);
    CountPositive(s.workers, SlowC);
    CountPositive(s.workers, SleepC);
    var j :| 0 <= j < |s.workers| && s.workers[j].Sleeping?;
    assert Is(SleepC, s.workers[j]);
    assert s.slowRunning == 0 && Threshold(s) >= 1;
  }

  /** A request in a completion queue is announced: the loop's handle is
      pending, or uv__work_done is about to take the queue. */
  lemma {:induction false} CompletionAnnounced(run: seq<State>, i: nat, l: nat)
    requires IsRun(run) && i < |run| && l < |run[i].loops| && run[i].loops[l].wq != []
    ensures run[i].loops[l].pending || run[i].loops[l].pc.Entered?
  {
    RunInv(run, i);
  }

  /** uv_cancel succeeds exactly on a request that is still queued for a worker,
      or that an earlier uv_cancel already took and whose done has not started;
      once done has run, the same test passes exactly for a cancelled request,
      which is why the caller must not cancel a finished one. */
  lemma {:induction false} CancelOutcome(run: seq<State>, i: nat, w: Req)
    requires IsRun(run) && i < |run| && w in run[i].reqs && w !in run[i].cancelling
    ensures var s := run[i]; var r := s.reqs[w];
            && r.loop < |s.loops|
            && (r.dones == 0 ==>
                  (Cancellable(r) <==>
                     || Item(w) in s.wq || w in s.slowq
                     || (r.work == Cancelled && (w in s.loops[r.loop].wq || w in Drained(s.loops[r.loop])))))
            && (r.dones == 1 ==> (Cancellable(r) <==> r.status == ECanceled))
  {
    RunInv(run, i);
    var s := run[i];
    assert ReqOk(s, w);
    if s.reqs[w].dones == 0 && Cancellable(s.reqs[w]) {
      CarryUnlinked(s, w);
      var lp := s.loops[s.reqs[w].loop];
      assert Item(w) in s.wq || w in s.slowq || w in lp.wq || w in Drained(lp);
    }
  }

  /** The states of one run with a single idle worker, loop and request. */
  function Still(wq: seq<Entry>, lp: Loop, reqs: map<Req, Request>, cancelling: set<Req>): State {
    State(false, 0, 0, wq, [], false, [WantLock(false)], [lp], reqs, cancelling)
  }

  const QUIET := Loop([], false, Idle)

  const QUEUED := Request(0, false, Submitted, true, 0, 0, NotDone)

  const TAKEN := QUEUED.(work := Cancelled)

  const FINISHED := TAKEN.(dones := 1, status := ECanceled)

  lemma {:induction false} SubmitStill()
    ensures Next(Still([], QUIET, map[], {}), Still([Item(0)], QUIET, map[0 := QUEUED], {}))
  {
    var s := Still([], QUIET, map[], {});
    assert Enabled(s, Submit(0, 0, false, -1));
    assert Step(s, Submit(0, 0, false, -1)) == Still([Item(0)], QUIET, map[0 := QUEUED], {});
  }

  lemma {:induction false} TryCancelStill()
    ensures Next(Still([Item(0)], QUIET, map[0 := QUEUED], {}), Still([], QUIET, map[0 := QUEUED], {0}))
  {
    var s := Still([Item(0)], QUIET, map[0 := QUEUED], {});
    assert Enabled(s, TryCancel(0));
    assert Remove([Item(0)], Item(0)) == [] && Unlink(QUIET, 0) == QUIET && [QUIET][0 := QUIET] == [QUIET];
    assert Step(s, TryCancel(0)) == Still([], QUIET, map[0 := QUEUED], {0});
  }

  lemma {:induction false} FinishCancelStill()
    ensures Next(Still([], QUIET, map[0 := QUEUED], {0}), Still([], Loop([0], true, Idle), map[0 := TAKEN], {}))
  {
    var s := Still([], QUIET, map[0 := QUEUED], {0});
    assert Enabled(s, FinishCancel(0));
    assert map[0 := QUEUED][0 := TAKEN] == map[0 := TAKEN];
    assert [] + [0] == [0] && [QUIET][0 := Loop([0], true, Idle)] == [Loop([0], true, Idle)] && {0} - {0} == {};
    assert Step(s, FinishCancel(0)) == Still([], Loop([0], true, Idle), map[0 := TAKEN], {});
  }

  lemma {:induction false} DrainStill(lp: Loop, a: Action, next: Loop)
    requires (a == AsyncFire(0) && lp.pending && lp.pc.Idle? && next == lp.(pending := false, pc := Entered))
             || (a == BeginDrain(0) && lp.pc.Entered? && next == lp.(wq := [], pc := Draining(lp.wq)))
    ensures Next(Still([], lp, map[0 := TAKEN], {}), Still([], next, map[0 := TAKEN], {}))
  {
    var s := Still([], lp, map[0 := TAKEN], {});
    assert Enabled(s, a);
    assert [lp][0 := next] == [next];
    assert Step(s, a) == Still([], next, map[0 := TAKEN], {});
  }

  lemma {:induction false} RunDoneStill()
    ensures Next(Still([], Loop([], false, Draining([0])), map[0 := TAKEN], {}),
                 Still([], Loop([], false, Draining([])), map[0 := FINISHED], {}))
  {
    var lp, next := Loop([], false, Draining([0])), Loop([], false, Draining([]));
    var s := Still([], lp, map[0 := TAKEN], {});
    assert Enabled(s, RunDone(0));
    assert [0][1..] == [] && [lp][0 := next] == [next] && map[0 := TAKEN][0 := FINISHED] == map[0 := FINISHED];
    assert Step(s, RunDone(0)) == Still([], next, map[0 := FINISHED], {});
  }

  /** There is a run in which done has been called for a cancelled request and the
      test of uv__work_cancel would pass once more. */
  lemma {:induction false} CancelTestPassesAfterDone() returns (run: seq<State>)
    ensures IsRun(run)
    ensures var s := run[|run| - 1]; 0 in s.reqs && s.reqs[0].dones == 1 && Cancellable(s.reqs[0])
  {
    hide Next;
    var due, entered := Loop([0], true, Idle), Loop([0], false, Entered);
    SubmitStill();
    TryCancelStill();
    FinishCancelStill();
    DrainStill(due, AsyncFire(0), entered);
    DrainStill(entered, BeginDrain(0), Loop([], false, Draining([0])));
    RunDoneStill();
    run := [Still([], QUIET, map[], {}),
            Still([Item(0)], QUIET, map[0 := QUEUED], {}),
            Still([], QUIET, map[0 := QUEUED], {0}),
            Still([], due, map[0 := TAKEN], {}),
            Still([], entered, map[0 := TAKEN], {}),
            Still([], Loop([], false, Draining([0])), map[0 := TAKEN], {}),
            Still([], Loop([], false, Draining([])), map[0 := FINISHED], {})];
    assert Init(run[0]);
  }

  /** A worker only ever calls the function that was submitted: never NULL and
      never uv__cancelled, which would abort. */
  lemma {:induction false} WorkerCallsSubmitted(run: seq<State>, i: nat, j: nat)
    requires IsRun(run) && i < |run| && j < |run[i].workers| && run[i].workers[j].Claimed?
    ensures Enabled(run[i], Invoke(j))
    ensures run[i].reqs[run[i].workers[j].w].work == Submitted
    ensures run[i].reqs[run[i].workers[j].w].runs == 0
  {
    RunInv(run, i);
    var w := run[i].workers[j].w;
    assert Is(Carry(w), run[i].workers[j]);
    assert ReqOk(run[i], w);
  }

  predicate CancelTaken(s: State, w: Req) {
    w in s.reqs && s.reqs[w].runs == 0 && (w in s.cancelling || s.reqs[w].work == Cancelled)
  }

  lemma {:induction false} CancelledNotCarried(s: State, w: Req)
    requires ReqOk(s, w) && CancelTaken(s, w)
    ensures forall i :: 0 <= i < |s.workers| ==> !Is(Carry(w), s.workers[i])
  {
    Carriers(s, w);
  }

  lemma {:induction false} KeepsCancelled(s: State, a: Action, w: Req)
    requires Enabled(s, a) && CancelTaken(s, w)
    requires forall i :: 0 <= i < |s.workers| ==> !Is(Carry(w), s.workers[i])
    ensures CancelTaken(Step(s, a), w)
  {
    if a.Invoke? || a.Complete? {
      assert Is(Carry(s.workers[a.i].w), s.workers[a.i]);
    }
  }

  lemma {:induction false} RunStep(run: seq<State>, i: nat) returns (a: Action)
    requires IsRun(run) && i + 1 < |run|
    ensures Enabled(run[i], a) && run[i + 1] == Step(run[i], a)
  {
    assert StepAt(run, i);
    a :| Enabled(run[i], a) && run[i + 1] == Step(run[i], a);
  }

  lemma {:induction false} CancelledNotCarriedInRun(run: seq<State>, i: nat, w: Req)
    requires IsRun(run) && i < |run| && CancelTaken(run[i], w)
    ensures forall j :: 0 <= j < |run[i].workers| ==> !Is(Carry(w), run[i].workers[j])
  {
    RunInv(run, i);
    CancelledNotCarried(run[i], w);
  }

  lemma {:induction false} TakenAtFirst(run: seq<State>, i: nat, w: Req)
    requires IsRun(run) && i < |run| && w in run[i].cancelling
    ensures CancelTaken(run[i], w)
  {
    RunInv(run, i);
    assert ReqOk(run[i], w);
  }

  /** A cancellation is final: from then on no worker holds the request, its work
      function never runs, and when done runs it is told UV_ECANCELED. */
  lemma {:induction false} CancelIsFinal(run: seq<State>, i: nat, j: nat, w: Req)
    requires IsRun(run) && i <= j < |run|
    requires w in run[i].cancelling
    ensures CancelTaken(run[j], w)
    ensures forall m :: 0 <= m < |run[j].workers| ==> !Is(Carry(w), run[j].workers[m])
    ensures run[j].reqs[w].dones == 1 ==> run[j].reqs[w].status == ECanceled
  {
    if i == j {
      TakenAtFirst(run, i, w);
    } else {
      CancelIsFinal(run, i, j - 1, w);
      CancelledNotCarriedInRun(run, j - 1, w);
      var a := RunStep(run, j - 1);
      KeepsCancelled(run[j - 1], a, w);
    }
    CancelledNotCarriedInRun(run, j, w);
    OnePlaceOneDone(run, j, w);
  }
}
