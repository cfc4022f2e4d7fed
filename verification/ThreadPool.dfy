/**
 The libuv thread pool as a state machine.

 A state holds everything the pool mutex protects (the global queue, the
 slow-I/O queue and the two counters), the completion queue of every loop and
 the program counter of every worker.  One action is one stretch of code
 between two points where another thread can interfere: taking the pool mutex,
 popping an entry under it, releasing it, a section under a loop's own mutex,
 or a step taken outside every mutex.
 */
module ThreadPool {

  type Req = nat

  /** What the global queue links: the exit message, the slow-work message, or a request. */
  datatype Entry = Exit | SlowMsg | Item(w: Req)

  /** The `work` field: the submitted function, NULL once it has run, or uv__cancelled. */
  datatype Work = Submitted | Null | Cancelled

  datatype Status = NotDone | Ok | ECanceled

  /** One uv__work.  `linked` is what `!uv__queue_empty(&w->wq)` reads; `runs` and
      `dones` count the calls of the work function and of the done callback. */
  datatype Request = Request(loop: nat, slow: bool, work: Work, linked: bool,
                             runs: nat, dones: nat, status: Status)

  datatype Pc =
    | WantLock(slow: bool)          // about to lock the pool mutex
    | AtTop                         // holds the mutex, at the wait test
    | Holding(e: Entry)             // holds the mutex, has unlinked e
    | Claimed(w: Req, slow: bool)   // mutex released, about to call w->work
    | Running(w: Req, slow: bool)   // inside w->work
    | Sleeping                      // in uv_cond_wait, not signalled
    | Woken                         // signalled, about to re-lock the mutex
    | Exited

  datatype LoopPc = Idle | Entered | Draining(q: seq<Req>)

  /** A loop's completion queue, its wake-up handle, and uv__work_done's progress. */
  datatype Loop = Loop(wq: seq<Req>, pending: bool, pc: LoopPc)

  datatype State = State(
    locked: bool,
    idle: int,
    slowRunning: int,
    wq: seq<Entry>,
    slowq: seq<Req>,
    slowLinked: bool,
    workers: seq<Pc>,
    loops: seq<Loop>,
    reqs: map<Req, Request>,
    cancelling: set<Req>)

  function Threshold(s: State): nat {
    (|s.workers| + 1) / 2
  }

  /** The condition under which a worker keeps waiting. */
  predicate MustWait(s: State) {
    || s.wq == []
    || (s.wq == [SlowMsg] && s.slowRunning >= Threshold(s))
  }

  // ---------- counting workers ----------

  datatype Class = IdleC | SleepC | AwakeC | SlowC | HolderC | HoldMsgC | Carry(w: Req)

  /** Which workers a class counts. */
  predicate Is(c: Class, p: Pc) {
    match c
    case IdleC => p.Sleeping? || p.Woken?
    case SleepC => p.Sleeping?
    case AwakeC => p.AtTop? || p.Woken? || p == WantLock(false)
    case SlowC => p == WantLock(true) || (p.Claimed? && p.slow) || (p.Running? && p.slow)
    case HolderC => p.AtTop? || p.Holding?
    case HoldMsgC => p == Holding(SlowMsg)
    case Carry(w) => p == Holding(Item(w)) || ((p.Claimed? || p.Running?) && p.w == w)
  }

  function Bit(b: bool): nat { if b then 1 else 0 }

  function Count(ws: seq<Pc>, c: Class): nat {
    if ws == [] then 0 else Bit(Is(c, ws[0])) + Count(ws[1..], c)
  }

  // ---------- signalling ----------

  /** k is a legal outcome of uv_cond_signal: some sleeper, or nobody when none sleeps. */
  predicate SignalOk(ws: seq<Pc>, k: int) {
    if exists i :: 0 <= i < |ws| && ws[i].Sleeping?
    then 0 <= k < |ws| && ws[k].Sleeping?
    else k == -1
  }

  function Signal(ws: seq<Pc>, k: int): seq<Pc>
    requires SignalOk(ws, k)
  {
    if 0 <= k < |ws| then ws[k := Woken] else ws
  }

  /** `if (idle_threads > 0) uv_cond_signal(&cond)`. */
  function SignalIfIdle(s: State, k: int): seq<Pc>
    requires SignalOk(s.workers, k)
  {
    if s.idle > 0 then Signal(s.workers, k) else s.workers
  }

  /** uv__queue_remove of one request from whichever queue links it. */
  function Remove<T(==)>(q: seq<T>, x: T): seq<T> {
    if q == [] then []
    else if q[0] == x then q[1..]
    else [q[0]] + Remove(q[1..], x)
  }

  // ---------- actions ----------

  datatype Action =
    | Acquire(i: nat)
    | Wait(i: nat)
    | Leave(i: nat, k: int)
    | Pop(i: nat)
    | StartFast(i: nat)
    | Requeue(i: nat)
    | SkipEmpty(i: nat)
    | TakeSlow(i: nat, k: int)
    | Invoke(i: nat)
    | Complete(i: nat)
    | Spurious(i: nat)
    | Submit(w: Req, loop: nat, slow: bool, k: int)
    | PostExit(k: int)
    | TryCancel(w: Req)
    | FinishCancel(w: Req)
    | AsyncFire(l: nat)
    | BeginDrain(l: nat)
    | RunDone(l: nat)
    | EndDrain(l: nat)

  /** A finished request may not be cancelled again: the contract of uv_cancel. */
  predicate Enabled(s: State, a: Action) {
    match a
    case Acquire(i) => i < |s.workers| && !s.locked && (s.workers[i].WantLock? || s.workers[i].Woken?)
    case Wait(i) => i < |s.workers| && s.workers[i].AtTop? && MustWait(s)
    case Leave(i, k) => i < |s.workers| && s.workers[i].AtTop? && !MustWait(s) && s.wq[0] == Exit
                        && SignalOk(s.workers, k)
    case Pop(i) => i < |s.workers| && s.workers[i].AtTop? && !MustWait(s) && s.wq[0] != Exit
                   && (s.wq[0].Item? ==> s.wq[0].w in s.reqs)
    case StartFast(i) => i < |s.workers| && s.workers[i].Holding? && s.workers[i].e.Item?
    case Requeue(i) => i < |s.workers| && s.workers[i] == Holding(SlowMsg) && s.slowRunning >= Threshold(s)
    case SkipEmpty(i) => i < |s.workers| && s.workers[i] == Holding(SlowMsg) && s.slowRunning < Threshold(s)
                         && s.slowq == []
    case TakeSlow(i, k) => i < |s.workers| && s.workers[i] == Holding(SlowMsg) && s.slowRunning < Threshold(s)
                           && s.slowq != [] && s.slowq[0] in s.reqs && SignalOk(s.workers, k)
    case Invoke(i) => i < |s.workers| && s.workers[i].Claimed? && s.workers[i].w in s.reqs
    case Complete(i) => i < |s.workers| && s.workers[i].Running? && s.workers[i].w in s.reqs
                        && s.reqs[s.workers[i].w].loop < |s.loops|
    case Spurious(i) => i < |s.workers| && s.workers[i].Sleeping?
    case Submit(w, l, slow, k) => !s.locked && w !in s.reqs && l < |s.loops| && SignalOk(s.workers, k)
    case PostExit(k) => !s.locked && Exit !in s.wq && SignalOk(s.workers, k)
    case TryCancel(w) => !s.locked && w in s.reqs && s.reqs[w].dones == 0 && w !in s.cancelling
                         && s.reqs[w].loop < |s.loops|
    case FinishCancel(w) => w in s.cancelling && w in s.reqs && s.reqs[w].loop < |s.loops|
    case AsyncFire(l) => l < |s.loops| && s.loops[l].pending && s.loops[l].pc.Idle?
    case BeginDrain(l) => l < |s.loops| && s.loops[l].pc.Entered?
    case RunDone(l) => l < |s.loops| && s.loops[l].pc.Draining? && s.loops[l].pc.q != []
                       && s.loops[l].pc.q[0] in s.reqs
    case EndDrain(l) => l < |s.loops| && s.loops[l].pc == Draining([])
  }

  /** uv__work_cancel's test, read under both mutexes. */
  predicate Cancellable(r: Request) {
    r.linked && r.work != Null
  }

  /** The loop's queue without w: both the shared one and the one being drained. */
  function Unlink(lp: Loop, w: Req): Loop {
    lp.(wq := Remove(lp.wq, w),
        pc := match lp.pc case Draining(q) => Draining(Remove(q, w)) case _ => lp.pc)
  }

  /** Append w to its loop's completion queue and send the loop's async handle. */
  function Deliver(s: State, w: Req, work: Work): State
    requires w in s.reqs && s.reqs[w].loop < |s.loops|
  {
    var l := s.reqs[w].loop;
    s.(reqs := s.reqs[w := s.reqs[w].(work := work, linked := true)],
       loops := s.loops[l := s.loops[l].(wq := s.loops[l].wq + [w], pending := true)])
  }

  /** The tail of post(): link q and wake a worker if one is idle. */
  function Post(s: State, q: Entry, k: int): State
    requires SignalOk(s.workers, k)
  {
    s.(wq := s.wq + [q], workers := SignalIfIdle(s, k))
  }

  function Step(s: State, a: Action): State
    requires Enabled(s, a)
  {
    match a
    case Acquire(i) =>
      s.(locked := true, workers := s.workers[i := AtTop],
         idle := if s.workers[i].Woken? then s.idle - 1 else s.idle,
         slowRunning := if s.workers[i] == WantLock(true) then s.slowRunning - 1 else s.slowRunning)
    case Wait(i) =>
      s.(locked := false, workers := s.workers[i := Sleeping], idle := s.idle + 1)
    case Leave(i, k) =>
      s.(locked := false, workers := Signal(s.workers, k)[i := Exited])
    case Pop(i) =>
      var e := s.wq[0];
      s.(wq := s.wq[1..], workers := s.workers[i := Holding(e)],
         slowLinked := if e == SlowMsg then false else s.slowLinked,
         reqs := if e.Item? then s.reqs[e.w := s.reqs[e.w].(linked := false)] else s.reqs)
    case StartFast(i) =>
      s.(locked := false, workers := s.workers[i := Claimed(s.workers[i].e.w, false)])
    case Requeue(i) =>
      s.(wq := s.wq + [SlowMsg], slowLinked := true, workers := s.workers[i := AtTop])
    case SkipEmpty(i) =>
      s.(workers := s.workers[i := AtTop])
    case TakeSlow(i, k) =>
      var w := s.slowq[0];
      var more := |s.slowq| > 1;
      s.(locked := false, slowRunning := s.slowRunning + 1, slowq := s.slowq[1..],
         reqs := s.reqs[w := s.reqs[w].(linked := false)],
         wq := if more then s.wq + [SlowMsg] else s.wq,
         slowLinked := more || s.slowLinked,
         workers := (if more then SignalIfIdle(s, k) else s.workers)[i := Claimed(w, true)])
    case Invoke(i) =>
      var w := s.workers[i].w;
      s.(workers := s.workers[i := Running(w, s.workers[i].slow)],
         reqs := s.reqs[w := s.reqs[w].(runs := s.reqs[w].runs + 1)])
    case Complete(i) =>
      Deliver(s, s.workers[i].w, Null).(workers := s.workers[i := WantLock(s.workers[i].slow)])
    case Spurious(i) =>
      s.(workers := s.workers[i := Woken])
    case Submit(w, l, slow, k) =>
      var s1 := s.(reqs := s.reqs[w := Request(l, slow, Submitted, true, 0, 0, NotDone)]);
      if !slow then Post(s1, Item(w), k)
      else
        var s2 := s1.(slowq := s1.slowq + [w]);
        if s.slowLinked then s2 else Post(s2, SlowMsg, k).(slowLinked := true)
    case PostExit(k) => Post(s, Exit, k)
    case TryCancel(w) =>
      if !Cancellable(s.reqs[w]) then s
      else
        var l := s.reqs[w].loop;
        s.(wq := Remove(s.wq, Item(w)), slowq := Remove(s.slowq, w),
           loops := s.loops[l := Unlink(s.loops[l], w)],
           cancelling := s.cancelling + {w})
    case FinishCancel(w) =>
      Deliver(s, w, Cancelled).(cancelling := s.cancelling - {w})
    case AsyncFire(l) =>
      s.(loops := s.loops[l := s.loops[l].(pending := false, pc := Entered)])
    case BeginDrain(l) =>
      s.(loops := s.loops[l := s.loops[l].(wq := [], pc := Draining(s.loops[l].wq))])
    case RunDone(l) =>
      var w := s.loops[l].pc.q[0];
      var r := s.reqs[w];
      s.(loops := s.loops[l := s.loops[l].(pc := Draining(s.loops[l].pc.q[1..]))],
         reqs := s.reqs[w := r.(dones := r.dones + 1,
                                status := if r.work == Cancelled then ECanceled else Ok)])
    case EndDrain(l) =>
      s.(loops := s.loops[l := s.loops[l].(pc := Idle)])
  }

  /** init_threads: the size the environment variable asks for, as an unsigned
      32-bit number, with 4 as the default and 1 and 1024 as limits. */
  function PoolSize(env: int, isSet: bool): (n: nat)
    ensures 1 <= n <= 1024
    ensures isSet && 1 <= env <= 1024 ==> n == env
    ensures !isSet ==> n == 4
    ensures isSet && env == 0 ==> n == 1
    ensures isSet && 1024 < env <= 0x7FFF_FFFF ==> n == 1024
    ensures isSet && -0x8000_0000 <= env < 0 ==> n == 1024
  {
    var v := if isSet then env % 0x1_0000_0000 else 4;
    if v == 0 then 1 else if v > 1024 then 1024 else v
  }

  predicate Init(s: State) {
    && !s.locked && s.idle == 0 && s.slowRunning == 0
    && s.wq == [] && s.slowq == [] && !s.slowLinked
    && s.reqs == map[] && s.cancelling == {}
    && |s.workers| >= 1
    && (forall i :: 0 <= i < |s.workers| ==> s.workers[i] == WantLock(false))
    && (forall l :: 0 <= l < |s.loops| ==> s.loops[l] == Loop([], false, Idle))
  }

  ghost predicate Next(s: State, t: State) {
    exists a :: Enabled(s, a) && t == Step(s, a)
  }

  ghost predicate StepAt(run: seq<State>, i: nat)
    requires i + 1 < |run|
  {
    Next(run[i], run[i + 1])
  }

  /** A finite run of the pool. */
  ghost predicate IsRun(run: seq<State>) {
    && run != []
    && Init(run[0])
    && forall i :: 0 <= i < |run| - 1 ==> StepAt(run, i)
  }
}
