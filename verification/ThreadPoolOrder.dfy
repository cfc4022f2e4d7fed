/**
 The order in which the thread pool serves: the queues give out at the head what
 was linked at the tail, no request overtakes another of its kind, done callbacks
 follow the order of completion, and a worker never keeps the mutex.
 */
module ThreadPoolOrder {
  import opened ThreadPool
  import opened ThreadPoolProofs

  // ---------- queues ----------

  /** x stands in q before y. */
  predicate Comes<T(==)>(q: seq<T>, x: T, y: T) {
    exists i, j :: 0 <= i < j < |q| && q[i] == x && q[j] == y
  }

  /** A queue stays, gains an element at the tail, or loses its head; or a cancelled
      element leaves it. */
  predicate FifoStep<T(==)>(q: seq<T>, q': seq<T>, cancelled: set<T>) {
    || q' == q
    || (cancelled == {} && |q'| == |q| + 1 && q' == q + [q'[|q|]])
    || (cancelled == {} && q != [] && q' == q[1..])
    || exists e :: e in cancelled && q' == Remove(q, e)
  }

  lemma {:induction false} RemoveComes<T>(q: seq<T>, e: T, x: T, y: T)
    requires Comes(q, x, y) && e != x && e != y
    ensures Comes(Remove(q, e), x, y)
  {
    var i, j :| 0 <= i < j < |q| && q[i] == x && q[j] == y;
    if q[0] == e {
      assert q[1..][i - 1] == x && q[1..][j - 1] == y;
    } else if i == 0 {
      RemoveKeeps(q[1..], e, y);
      assert q[1..][j - 1] == y;
      var k :| 0 <= k < |Remove(q[1..], e)| && Remove(q[1..], e)[k] == y;
      assert Remove(q, e)[0] == x && Remove(q, e)[k + 1] == y;
    } else {
      assert q[1..][i - 1] == x && q[1..][j - 1] == y;
      RemoveComes(q[1..], e, x, y);
      var r := Remove(q[1..], e);
      var a, b :| 0 <= a < b < |r| && r[a] == x && r[b] == y;
      assert Remove(q, e)[a + 1] == x && Remove(q, e)[b + 1] == y;
    }
  }

  lemma {:induction false} RemoveKeeps<T>(q: seq<T>, e: T, y: T)
    requires y in q && e != y
    ensures y in Remove(q, e)
  {
    if q[0] != e && q[0] != y {
      assert y in q[1..];
      RemoveKeeps(q[1..], e, y);
    }
  }

  /** What stands before what is never changed, short of cancellation. */
  lemma {:induction false} OrderKept<T>(q: seq<T>, q': seq<T>, cancelled: set<T>, x: T, y: T)
    requires FifoStep(q, q', cancelled) && Comes(q, x, y) && x !in cancelled && y !in cancelled
    requires Mult(q, x) <= 1 && x in q'
    ensures Comes(q', x, y)
  {
    var i, j :| 0 <= i < j < |q| && q[i] == x && q[j] == y;
    if cancelled == {} && |q'| == |q| + 1 && q' == q + [q'[|q|]] {
      assert q'[i] == x && q'[j] == y;
    } else if cancelled == {} && q != [] && q' == q[1..] {
      HeadTail(q);
      assert i == 0 ==> multiset(q')[x] >= 1;
      assert q'[i - 1] == x && q'[j - 1] == y;
    } else if q' != q {
      var e :| e in cancelled && q' == Remove(q, e);
      RemoveComes(q, e, x, y);
    }
  }

  // ---------- what one step does to each queue ----------

  /** The requests a step starts to cancel. */
  function Taken(s: State, t: State): set<Req> { t.cancelling - s.cancelling }

  function TakenItems(s: State, t: State): set<Entry> { set w | w in Taken(s, t) :: Item(w) }

  /** The global queue: an entry comes in at the tail, or a worker takes the head. */
  ghost predicate GlobalMoves(s: State, t: State) {
    && FifoStep(s.wq, t.wq, TakenItems(s, t))
    && (forall w :: Item(w) in t.wq && Item(w) !in s.wq ==> w !in s.reqs && t.wq == s.wq + [Item(w)])
    && (s.wq != [] && t.wq == s.wq[1..] && Taken(s, t) == {} ==>
          exists j :: 0 <= j < |s.workers| == |t.workers| && s.workers[j].AtTop? && t.workers[j] == Holding(s.wq[0]))
  }

  /** The slow queue: likewise, and a worker that takes the head goes on to call it. */
  ghost predicate SlowMoves(s: State, t: State) {
    && FifoStep(s.slowq, t.slowq, Taken(s, t))
    && (forall w :: w in t.slowq && w !in s.slowq ==> w !in s.reqs && t.slowq == s.slowq + [w])
    && (s.slowq != [] && t.slowq == s.slowq[1..] && Taken(s, t) == {} ==>
          exists j :: 0 <= j < |s.workers| == |t.workers| && s.workers[j].Holding? && t.workers[j] == Claimed(s.slowq[0], true))
  }

  /** What a loop has yet to call done for, in order. */
  function Pipe(lp: Loop): seq<Req> { Drained(lp) + lp.wq }

  /** The completion queue of a loop: a finished request comes in at the tail, and done
      is called for the head. */
  ghost predicate DoneMoves(s: State, t: State, l: nat)
    requires l < |s.loops| && l < |t.loops|
  {
    var q, q' := Pipe(s.loops[l]), Pipe(t.loops[l]);
    && FifoStep(q, q', Taken(s, t))
    && (q != [] && q' == q[1..] && Taken(s, t) == {} ==>
          q[0] in s.reqs && q[0] in t.reqs && t.reqs[q[0]].dones == s.reqs[q[0]].dones + 1)
  }

  lemma {:induction false} TakenBy(s: State, a: Action)
    requires Enabled(s, a)
    ensures var t := Step(s, a);
            Taken(s, t) == if a.TryCancel? && Cancellable(s.reqs[a.w]) then {a.w} else {}
  {
    hide Signal, SignalIfIdle, SignalOk, Remove, MustWait;
  }

  lemma {:induction false} GlobalStep(s: State, a: Action)
    requires Enabled(s, a)
    ensures GlobalMoves(s, Step(s, a))
  {
    hide Signal, SignalIfIdle, SignalOk, Remove, Taken;
    var t := Step(s, a);
    TakenBy(s, a);
    if a.TryCancel? {
      RemoveIn(s.wq, Item(a.w));
      assert Cancellable(s.reqs[a.w]) ==> a.w in Taken(s, t);
      assert Cancellable(s.reqs[a.w]) ==> Item(a.w) in TakenItems(s, t);
    }
    if a.Pop? { assert s.workers[a.i].AtTop? && t.workers[a.i] == Holding(s.wq[0]); }
  }

  lemma {:induction false} SlowStep(s: State, a: Action)
    requires Enabled(s, a)
    ensures SlowMoves(s, Step(s, a))
  {
    hide SignalOk, Remove, MustWait, Taken, Signal, SignalIfIdle;
    var t := Step(s, a);
    TakenBy(s, a);
    if a.TryCancel? { RemoveIn(s.slowq, a.w); }
    if a.TakeSlow? { SlowTaken(s, a); }
  }

  lemma {:induction false} SlowTaken(s: State, a: Action)
    requires Enabled(s, a) && a.TakeSlow?
    ensures |Step(s, a).workers| == |s.workers|
    ensures s.workers[a.i].Holding? && Step(s, a).workers[a.i] == Claimed(s.slowq[0], true)
  {
    hide MustWait;
  }

  lemma {:induction false} RemoveAbsent<T>(q: seq<T>, e: T)
    requires e !in q
    ensures Remove(q, e) == q
  {
    if q != [] { RemoveAbsent(q[1..], e); }
  }

  lemma {:induction false} RemoveJoined<T>(a: seq<T>, b: seq<T>, e: T)
    ensures Remove(a + b, e) == if e in a then Remove(a, e) + b else a + Remove(b, e)
  {
    if a == [] {
      assert a + b == b;
    } else {
      assert (a + b)[1..] == a[1..] + b;
      if a[0] != e {
        RemoveJoined(a[1..], b, e);
        if e in a[1..] { RemoveAssoc(a[0], Remove(a[1..], e), b); } else { RemoveAssoc(a[0], a[1..], Remove(b, e)); }
      }
    }
  }

  lemma {:induction false} RemoveAssoc<T>(x: T, a: seq<T>, b: seq<T>)
    ensures [x] + (a + b) == ([x] + a) + b
  {
  }

  /** Unlinking a request from its loop removes it from what the loop has yet to do. */
  lemma {:induction false} UnlinkPipe(lp: Loop, w: Req)
    requires w !in Drained(lp) || w !in lp.wq
    ensures Pipe(Unlink(lp, w)) == Remove(Pipe(lp), w)
  {
    hide Remove;
    RemoveJoined(Drained(lp), lp.wq, w);
    if w !in Drained(lp) { RemoveAbsent(Drained(lp), w); }
    if w !in lp.wq { RemoveAbsent(lp.wq, w); }
    assert lp.pc.Draining? || Drained(lp) == [];
  }

  lemma {:induction false} DoneStep(s: State, a: Action, l: nat)
    requires Inv(s) && Enabled(s, a) && l < |s.loops|
    ensures l < |Step(s, a).loops| && DoneMoves(s, Step(s, a), l)
  {
    hide Inv, Taken, Remove, Signal, SignalIfIdle, SignalOk, MustWait, FifoStep;
    var t := Step(s, a);
    ReqsGrow(s, a);
    TakenBy(s, a);
    if l != Touched(s, a) {
      UntouchedLoops(s, a, l);
      SameFifo(Pipe(s.loops[l]), Taken(s, t));
    } else {
      TouchedStep(s, a, l);
    }
  }

  lemma {:induction false} SameFifo<T>(q: seq<T>, c: set<T>)
    ensures FifoStep(q, q, c) && !(q != [] && q == q[1..])
  {
  }

  lemma {:induction false} TouchedStep(s: State, a: Action, l: nat)
    requires Inv(s) && Enabled(s, a) && l < |s.loops| && l == Touched(s, a)
    ensures l < |Step(s, a).loops| && DoneMoves(s, Step(s, a), l)
  {
    hide Inv, Taken, Remove, Signal, SignalIfIdle, SignalOk, MustWait, FifoStep;
    var t := Step(s, a);
    var q, q' := Pipe(s.loops[l]), Pipe(t.loops[l]);
    ReqsGrow(s, a);
    TakenBy(s, a);
    match a
    case Complete(i) => PutLast(q, s.workers[i].w, Taken(s, t)); PipePut(s.loops[l], s.workers[i].w);
    case FinishCancel(w) => PutLast(q, w, Taken(s, t)); PipePut(s.loops[l], w);
    case TryCancel(w) =>
      if Cancellable(s.reqs[w]) {
        OneOfLoop(s, w);
        UnlinkPipe(s.loops[l], w);
        TakeOut(q, w, Taken(s, t));
      } else {
        SameFifo(q, Taken(s, t));
      }
    case RunDone(_) =>
      PipeHead(s.loops[l]);
      TakeHead(q, Taken(s, t));
    case AsyncFire(_) => PipeStill(s.loops[l]); SameFifo(q, Taken(s, t));
    case BeginDrain(_) => PipeStill(s.loops[l]); SameFifo(q, Taken(s, t));
    case EndDrain(_) => PipeStill(s.loops[l]); SameFifo(q, Taken(s, t));
    case _ => assert false;
  }

  lemma {:induction false} PutLast<T>(q: seq<T>, x: T, c: set<T>)
    requires c == {}
    ensures FifoStep(q, q + [x], c) && !(q != [] && q + [x] == q[1..])
  {
  }

  lemma {:induction false} TakeHead<T>(q: seq<T>, c: set<T>)
    requires q != [] && c == {}
    ensures FifoStep(q, q[1..], c)
  {
  }

  lemma {:induction false} TakeOut<T>(q: seq<T>, x: T, c: set<T>)
    requires x in c
    ensures FifoStep(q, Remove(q, x), c)
  {
  }

  lemma {:induction false} PipePut(lp: Loop, w: Req)
    ensures Pipe(lp.(wq := lp.wq + [w], pending := true)) == Pipe(lp) + [w]
  {
  }

  lemma {:induction false} PipeHead(lp: Loop)
    requires lp.pc.Draining? && lp.pc.q != []
    ensures Pipe(lp) != [] && Pipe(lp)[0] == lp.pc.q[0] && Pipe(lp.(pc := Draining(lp.pc.q[1..]))) == Pipe(lp)[1..]
  {
  }

  /** Firing the handle, taking the queue over and ending the drain move nothing. */
  lemma {:induction false} PipeStill(lp: Loop)
    ensures lp.pc.Idle? ==> Pipe(lp.(pending := false, pc := Entered)) == Pipe(lp)
    ensures lp.pc.Entered? ==> Pipe(lp.(wq := [], pc := Draining(lp.wq))) == Pipe(lp)
    ensures lp.pc == Draining([]) ==> Pipe(lp.(pc := Idle)) == Pipe(lp)
  {
    assert lp.wq + [] == lp.wq && [] + lp.wq == lp.wq;
  }

  /** A request is not both waiting for its loop and being drained. */
  lemma {:induction false} OneOfLoop(s: State, w: Req)
    requires Inv(s) && w in s.reqs
    ensures s.reqs[w].loop < |s.loops|
    ensures var lp := s.loops[s.reqs[w].loop]; w !in Drained(lp) || w !in lp.wq
  {
    assert ReqOk(s, w);
  }

  // ---------- what every run keeps ----------

  /** In every step of every run the head of each queue goes out, the tail comes in,
      and nothing else moves but what is cancelled. */
  lemma {:induction false} QueuesInOrder(run: seq<State>, i: nat)
    requires IsRun(run) && i + 1 < |run|
    ensures GlobalMoves(run[i], run[i + 1]) && SlowMoves(run[i], run[i + 1])
  {
    hide Step, Enabled, GlobalMoves, SlowMoves;
    var a := RunStep(run, i);
    GlobalStep(run[i], a);
    SlowStep(run[i], a);
  }

  /** The same for what a loop has yet to call done for. */
  lemma {:induction false} CompletionsInOrder(run: seq<State>, i: nat, l: nat)
    requires IsRun(run) && i + 1 < |run| && l < |run[i].loops|
    ensures l < |run[i + 1].loops| && DoneMoves(run[i], run[i + 1], l)
  {
    hide Inv, Step, Enabled, DoneMoves;
    RunInv(run, i);
    var a := RunStep(run, i);
    DoneStep(run[i], a, l);
  }

  /** Requests once submitted stay submitted, and of one kind. */
  lemma {:induction false} StaySubmitted(run: seq<State>, i: nat, j: nat, w: Req)
    requires IsRun(run) && i <= j < |run| && w in run[i].reqs
    ensures w in run[j].reqs && run[j].reqs[w].slow == run[i].reqs[w].slow && run[j].reqs[w].loop == run[i].reqs[w].loop
  {
    hide Step, Enabled;
    if i < j {
      StaySubmitted(run, i, j - 1, w);
      var a := RunStep(run, j - 1);
      SameKind(run[j - 1], a, w);
    }
  }

  lemma {:induction false} SameKind(s: State, a: Action, w: Req)
    requires Enabled(s, a) && w in s.reqs
    ensures var t := Step(s, a); w in t.reqs && t.reqs[w].slow == s.reqs[w].slow && t.reqs[w].loop == s.reqs[w].loop
  {
    hide Signal, SignalIfIdle, SignalOk, Remove, MustWait;
  }

  /** Fast requests leave the global queue in the order in which they were submitted: v
      was, when w was not yet; while v waits, w waits behind it, or has been cancelled. */
  lemma {:induction false} FastInOrder(run: seq<State>, i: nat, j: nat, v: Req, w: Req)
    requires IsRun(run) && i <= j < |run| && v in run[i].reqs && w !in run[i].reqs
    requires w in run[j].reqs && !run[j].reqs[w].slow && Item(v) in run[j].wq
    ensures CancelTaken(run[j], w) || Comes(run[j].wq, Item(v), Item(w))
  {
    hide IsRun, GlobalMoves, CancelTaken, Comes, TakenItems;
    var s, t := run[j - 1], run[j];
    QueuesInOrder(run, j - 1);
    StaySubmitted(run, i, j - 1, v);
    FromBefore(s, t, v);
    if w in s.reqs {
      StaySubmitted(run, j - 1, j, w);
      FastInOrder(run, i, j - 1, v, w);
      if CancelTaken(s, w) {
        StaysTaken(run, j - 1, w);
      } else if w in Taken(s, t) {
        TakenAtFirst(run, j, w);
      } else {
        RunInv(run, j - 1);
        RunInv(run, j);
        QueuedNotTaken(t, v);
        GlobalKept(s, t, v, w);
      }
    } else {
      var a := RunStep(run, j - 1);
      JustPosted(s, a, v, w);
    }
  }

  lemma {:induction false} FromBefore(s: State, t: State, v: Req)
    requires GlobalMoves(s, t) && v in s.reqs && Item(v) in t.wq
    ensures Item(v) in s.wq
  {
  }

  lemma {:induction false} StaysTaken(run: seq<State>, j: nat, w: Req)
    requires IsRun(run) && j + 1 < |run| && CancelTaken(run[j], w)
    ensures CancelTaken(run[j + 1], w)
  {
    hide CancelTaken, Step, Enabled;
    CancelledNotCarriedInRun(run, j, w);
    var a := RunStep(run, j);
    KeepsCancelled(run[j], a, w);
  }

  lemma {:induction false} GlobalKept(s: State, t: State, v: Req, w: Req)
    requires Inv(s) && GlobalMoves(s, t) && Comes(s.wq, Item(v), Item(w)) && v in s.reqs && w !in Taken(s, t)
    requires Item(v) in s.wq && Item(v) in t.wq && v !in t.cancelling
    ensures Comes(t.wq, Item(v), Item(w))
  {
    hide FifoStep, Comes;
    assert ReqOk(s, v);
    OrderKept(s.wq, t.wq, TakenItems(s, t), Item(v), Item(w));
  }

  lemma {:induction false} QueuedNotTaken(s: State, v: Req)
    requires Inv(s)
    ensures Item(v) in s.wq || v in s.slowq ==> v !in s.cancelling
  {
    if Item(v) in s.wq || v in s.slowq { assert ReqOk(s, v); }
  }

  lemma {:induction false} JustPosted(s: State, a: Action, v: Req, w: Req)
    requires Enabled(s, a) && w !in s.reqs && w in Step(s, a).reqs && !Step(s, a).reqs[w].slow && Item(v) in s.wq
    ensures Comes(Step(s, a).wq, Item(v), Item(w))
  {
    hide Signal, SignalIfIdle, SignalOk, Remove, MustWait;
    NewRequest(s, a, w);
    var k :| 0 <= k < |s.wq| && s.wq[k] == Item(v);
    var q := Step(s, a).wq;
    assert q == s.wq + [Item(w)];
    assert q[k] == Item(v) && q[|s.wq|] == Item(w);
  }

  /** Slow requests leave the slow queue in the order in which they were submitted. */
  lemma {:induction false} SlowInOrder(run: seq<State>, i: nat, j: nat, v: Req, w: Req)
    requires IsRun(run) && i <= j < |run| && v in run[i].reqs && w !in run[i].reqs
    requires w in run[j].reqs && run[j].reqs[w].slow && v in run[j].slowq
    ensures CancelTaken(run[j], w) || Comes(run[j].slowq, v, w)
  {
    hide IsRun, SlowMoves, CancelTaken, Comes;
    var s, t := run[j - 1], run[j];
    QueuesInOrder(run, j - 1);
    StaySubmitted(run, i, j - 1, v);
    FromBeforeSlow(s, t, v);
    if w in s.reqs {
      StaySubmitted(run, j - 1, j, w);
      SlowInOrder(run, i, j - 1, v, w);
      if CancelTaken(s, w) {
        StaysTaken(run, j - 1, w);
      } else if w in Taken(s, t) {
        TakenAtFirst(run, j, w);
      } else {
        RunInv(run, j - 1);
        RunInv(run, j);
        QueuedNotTaken(t, v);
        SlowKept(s, t, v, w);
      }
    } else {
      var a := RunStep(run, j - 1);
      JustPostedSlow(s, a, v, w);
    }
  }

  lemma {:induction false} FromBeforeSlow(s: State, t: State, v: Req)
    requires SlowMoves(s, t) && v in s.reqs && v in t.slowq
    ensures v in s.slowq
  {
  }

  lemma {:induction false} SlowKept(s: State, t: State, v: Req, w: Req)
    requires Inv(s) && SlowMoves(s, t) && Comes(s.slowq, v, w) && v in s.reqs && w !in Taken(s, t)
    requires v in s.slowq && v in t.slowq && v !in t.cancelling
    ensures Comes(t.slowq, v, w)
  {
    hide FifoStep, Comes;
    assert ReqOk(s, v);
    OrderKept(s.slowq, t.slowq, Taken(s, t), v, w);
  }

  lemma {:induction false} JustPostedSlow(s: State, a: Action, v: Req, w: Req)
    requires Enabled(s, a) && w !in s.reqs && w in Step(s, a).reqs && Step(s, a).reqs[w].slow && v in s.slowq
    ensures Comes(Step(s, a).slowq, v, w)
  {
    hide Signal, SignalIfIdle, SignalOk, Remove, MustWait;
    NewRequest(s, a, w);
    var k :| 0 <= k < |s.slowq| && s.slowq[k] == v;
    var q := Step(s, a).slowq;
    assert q == s.slowq + [w];
    assert q[k] == v && q[|s.slowq|] == w;
  }

  /** v is done, or still before w in what the loop has to do. */
  ghost predicate Ahead(s: State, l: nat, v: Req, w: Req)
    requires l < |s.loops|
  {
    && v in s.reqs && w in s.reqs && s.reqs[v].loop == s.reqs[w].loop == l
    && (s.reqs[v].dones == 0 ==>
          v in Pipe(s.loops[l]) && s.reqs[w].dones == 0 && (w in Pipe(s.loops[l]) ==> Comes(Pipe(s.loops[l]), v, w)))
  }

  /** Done callbacks follow the order of completion: when v has come into its loop's
      queue before w, and is not cancelled there, done is called for v before it is
      called for w. */
  lemma {:induction false} DoneInOrder(run: seq<State>, i: nat, j: nat, l: nat, v: Req, w: Req)
    requires IsRun(run) && i <= j < |run| && l < |run[i].loops| && Comes(Pipe(run[i].loops[l]), v, w)
    requires forall k :: i <= k <= j ==> v !in run[k].cancelling
    ensures l < |run[j].loops| && Ahead(run[j], l, v, w)
    ensures run[j].reqs[w].dones >= 1 ==> run[j].reqs[v].dones >= 1
  {
    hide IsRun, DoneMoves, Ahead, Comes, Inv, Step, Enabled;
    if i == j {
      RunInv(run, i);
      AheadAtFirst(run[i], l, v, w);
    } else {
      DoneInOrder(run, i, j - 1, l, v, w);
      RunInv(run, j - 1);
      RunInv(run, j);
      CompletionsInOrder(run, j - 1, l);
      var a := RunStep(run, j - 1);
      AheadKept(run[j - 1], a, l, v, w);
    }
    AheadMeans(run[j], l, v, w);
  }

  lemma {:induction false} AheadMeans(s: State, l: nat, v: Req, w: Req)
    requires l < |s.loops| && Ahead(s, l, v, w)
    ensures v in s.reqs && w in s.reqs && (s.reqs[w].dones >= 1 ==> s.reqs[v].dones >= 1)
  {
  }

  lemma {:induction false} InPipe(s: State, l: nat, x: Req)
    requires Inv(s) && l < |s.loops| && x in Pipe(s.loops[l])
    ensures x in s.reqs && s.reqs[x].loop == l && s.reqs[x].dones == 0 && Mult(Pipe(s.loops[l]), x) == 1 && x !in s.cancelling
  {
    hide Count;
    var lp := s.loops[l];
    assert x in lp.wq || x in Drained(lp);
    assert ReqOk(s, x);
    assert multiset(Pipe(lp)) == multiset(Drained(lp)) + multiset(lp.wq);
  }

  lemma {:induction false} AheadAtFirst(s: State, l: nat, v: Req, w: Req)
    requires Inv(s) && l < |s.loops| && Comes(Pipe(s.loops[l]), v, w)
    ensures Ahead(s, l, v, w)
  {
    hide Inv;
    InPipe(s, l, v);
    InPipe(s, l, w);
  }

  /** What leaves a queue was at its head, or is cancelled. */
  lemma {:induction false} LeavesByHead<T>(q: seq<T>, q': seq<T>, cancelled: set<T>, x: T)
    requires FifoStep(q, q', cancelled) && x in q && x !in q' && x !in cancelled
    ensures cancelled == {} && q[0] == x && q' == q[1..]
  {
    if e :| e in cancelled && q' == Remove(q, e) { RemoveKeeps(q, e, x); }
    if q != [] { assert q == [q[0]] + q[1..]; }
  }

  /** Done callbacks are only made for the head of a loop's queue. */
  lemma {:induction false} DoneIsHead(s: State, a: Action, l: nat, w: Req)
    requires Inv(s) && Enabled(s, a) && w in s.reqs && s.reqs[w].loop == l && l < |s.loops|
    ensures w in Step(s, a).reqs && Step(s, a).reqs[w].dones >= s.reqs[w].dones
    ensures Step(s, a).reqs[w].dones > s.reqs[w].dones ==>
              Pipe(s.loops[l]) != [] && Pipe(s.loops[l])[0] == w && a.RunDone?
  {
    hide Signal, SignalIfIdle, SignalOk, Remove, MustWait, Inv;
    if a.RunDone? && w == s.loops[a.l].pc.q[0] {
      DrainsOwn(s, a.l, w);
      PipeHead(s.loops[a.l]);
    }
  }

  lemma {:induction false} DrainsOwn(s: State, l: nat, w: Req)
    requires Inv(s) && l < |s.loops| && w in Drained(s.loops[l])
    ensures w in s.reqs && s.reqs[w].loop == l
  {
  }

  lemma {:induction false} AheadKept(s: State, a: Action, l: nat, v: Req, w: Req)
    requires Inv(s) && Enabled(s, a) && Inv(Step(s, a)) && l < |s.loops| && Ahead(s, l, v, w)
    requires l < |Step(s, a).loops| && DoneMoves(s, Step(s, a), l)
    requires v !in s.cancelling && v !in Step(s, a).cancelling
    ensures Ahead(Step(s, a), l, v, w)
  {
    hide Inv, Step, Enabled, Comes, Pipe, FifoStep;
    var t := Step(s, a);
    var q, q' := Pipe(s.loops[l]), Pipe(t.loops[l]);
    DoneIsHead(s, a, l, v);
    DoneIsHead(s, a, l, w);
    SameKind(s, a, v);
    SameKind(s, a, w);
    if t.reqs[v].dones == 0 {
      InPipe(s, l, v);
      if v !in q' { LeavesByHead(q, q', Taken(s, t), v); }
      if w in q {
        InPipe(s, l, w);
        HeadNotBehind(q, v, w);
      }
      if w in q' {
        InPipe(t, l, w);
        BehindKept(q, q', Taken(s, t), v, w);
      }
    }
  }

  lemma {:induction false} BehindKept(q: seq<Req>, q': seq<Req>, cancelled: set<Req>, v: Req, w: Req)
    requires FifoStep(q, q', cancelled) && v in q && v in q' && w in q' && v !in cancelled && w !in cancelled
    requires w in q ==> Comes(q, v, w)
    requires Mult(q, v) <= 1
    ensures Comes(q', v, w)
  {
    if w in q {
      OrderKept(q, q', cancelled, v, w);
    } else {
      var i :| 0 <= i < |q| && q[i] == v;
      if cancelled != {} { NothingNew(q, q', cancelled, w); }
      assert q'[i] == v && q'[|q|] == w;
    }
  }

  lemma {:induction false} NothingNew(q: seq<Req>, q': seq<Req>, cancelled: set<Req>, w: Req)
    requires FifoStep(q, q', cancelled) && cancelled != {} && w !in q
    ensures w !in q'
  {
    if q' != q {
      var e :| e in cancelled && q' == Remove(q, e);
      RemoveIn(q, e);
    }
  }

  lemma {:induction false} HeadNotBehind(q: seq<Req>, v: Req, w: Req)
    requires Comes(q, v, w) && q != [] && Mult(q, w) <= 1
    ensures q[0] != w
  {
    HeadTail(q);
    var i, j :| 0 <= i < j < |q| && q[i] == v && q[j] == w;
    assert q[1..][j - 1] == w;
    assert multiset(q[1..])[w] >= 1;
  }
}
