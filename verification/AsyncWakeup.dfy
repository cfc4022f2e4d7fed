/**
 Posting to a module and waking its loop: armd_module_post and async_callback
 (module.c) over uv_async_send, uv__async_io and uv__async_close (async.c), as a
 state machine.  One action is one section under the queue's mutex, one atomic
 operation, or one system call; any number of threads post.
 */
module AsyncWakeup {
  import opened MessageRing

  /** Where the loop thread is. */
  datatype LoopPc =
    | Polling              // blocked in, or on its way to, the poll
    | Reading              // uv__async_io has been called
    | Scanning             // the descriptor has been read; the handle not yet looked at
    | Draining             // in async_callback, about to lock
    | Handing(m: Message)  // has taken m, about to call on_message
    | Spinning             // uv__async_spin has set pending
    | Closed

  /**
   The queue, the handle's pending and busy flags, whether the descriptor is
   readable, and the posting threads by what they do next.  accepted and handed
   record what post has accepted and what on_message has been called with.
   */
  datatype State = State(
    msgs: seq<Message>,
    head: nat,
    tail: nat,
    pending: bool,
    busy: int,
    readable: bool,
    posted: set<nat>,    // released the lock, about to call uv_async_send
    toAdd: set<nat>,     // found pending clear, about to increment busy
    toSwap: set<nat>,    // about to exchange pending
    toWrite: set<nat>,   // the exchange gave 0: about to write the descriptor
    toSub: set<nat>,     // about to decrement busy
    loop: LoopPc,
    accepted: seq<Message>,
    handed: seq<Message>)

  predicate Init(s: State) {
    && |s.msgs| == QUEUE_SIZE
    && s == State(s.msgs, 0, 0, false, 0, false, {}, {}, {}, {}, {}, Polling, [], [])
  }

  predicate RingOk(s: State) {
    |s.msgs| == QUEUE_SIZE && s.head < QUEUE_SIZE && s.tail < QUEUE_SIZE
  }

  function Busy(s: State): set<nat> {
    s.posted + s.toAdd + s.toSwap + s.toWrite + s.toSub
  }

  datatype Action =
    | Post(t: nat, m: Message)
    | CheapRead(t: nat)
    | AddBusy(t: nat)
    | Swap(t: nat)
    | Write(t: nat)
    | SubBusy(t: nat)
    | OtherWrite           // another handle of the loop is signalled
    | Poll
    | Read
    | Scan
    | Take
    | Hand
    | Close                // uv_close from the loop thread, between two callbacks
    | Spin

  predicate Enabled(s: State, a: Action) {
    match a
    case Post(t, _) => t !in Busy(s) && s.loop != Closed
    case CheapRead(t) => t in s.posted
    case AddBusy(t) => t in s.toAdd
    case Swap(t) => t in s.toSwap
    case Write(t) => t in s.toWrite
    case SubBusy(t) => t in s.toSub
    case OtherWrite => true
    case Poll => s.loop == Polling && s.readable
    case Read => s.loop == Reading
    case Scan => s.loop == Scanning
    case Take => s.loop == Draining
    case Hand => s.loop.Handing?
    case Close => s.loop == Polling
    case Spin => s.loop == Spinning
  }

  function Step(s: State, a: Action): State
    requires RingOk(s)
  {
    match a
    case Post(t, m) =>
      var next := (s.head + 1) % QUEUE_SIZE;
      if next == s.tail then s
      else s.(msgs := s.msgs[s.head := m], head := next, posted := s.posted + {t}, accepted := s.accepted + [m])
    case CheapRead(t) =>
      if s.pending then s.(posted := s.posted - {t}) else s.(posted := s.posted - {t}, toAdd := s.toAdd + {t})
    case AddBusy(t) => s.(busy := s.busy + 1, toAdd := s.toAdd - {t}, toSwap := s.toSwap + {t})
    case Swap(t) =>
      if s.pending then s.(toSwap := s.toSwap - {t}, toSub := s.toSub + {t})
      else s.(pending := true, toSwap := s.toSwap - {t}, toWrite := s.toWrite + {t})
    case Write(t) => s.(readable := true, toWrite := s.toWrite - {t}, toSub := s.toSub + {t})
    case SubBusy(t) => s.(busy := s.busy - 1, toSub := s.toSub - {t})
    case OtherWrite => s.(readable := true)
    case Poll => s.(loop := Reading)
    case Read => s.(readable := false, loop := Scanning)
    case Scan => if s.pending then s.(pending := false, loop := Draining) else s.(loop := Polling)
    case Take =>
      if s.tail == s.head then s.(loop := Polling)
      else s.(tail := (s.tail + 1) % QUEUE_SIZE, loop := Handing(s.msgs[s.tail]))
    case Hand => if s.loop.Handing? then s.(handed := s.handed + [s.loop.m], loop := Draining) else s
    case Close => s.(pending := true, loop := Spinning)
    case Spin => if s.busy == 0 then s.(loop := Closed) else s
  }

  // ---------- what every run keeps ----------

  function Ring(s: State): (q: seq<Message>)
    requires RingOk(s)
    ensures |q| < QUEUE_SIZE
  {
    Queued(s.msgs, s.head, s.tail)
  }

  function InHand(s: State): seq<Message> {
    if s.loop.Handing? then [s.loop.m] else []
  }

  /** What was accepted has been handed on, is in hand, or is in the ring. */
  predicate QueueOk(s: State)
    requires RingOk(s)
  {
    s.accepted == s.handed + InHand(s) + Ring(s)
  }

  predicate Open(s: State) { s.loop != Spinning && s.loop != Closed }

  /** pending is set only with a wake-up on its way: someone still writes the
      descriptor, it is readable, or the loop has read it and not yet looked. */
  predicate PendingWakes(s: State) {
    s.pending ==> s.toWrite != {} || s.readable || s.loop == Scanning
  }

  /** A message in the ring is being drained, or some poster has yet to signal, or
      the handle is pending. */
  predicate RingSignalled(s: State)
    requires RingOk(s)
  {
    Ring(s) != [] ==> s.loop == Draining || s.loop.Handing? || s.posted + s.toAdd + s.toSwap != {} || s.pending
  }

  /** t is in no two of the sets. */
  predicate AtOnePlace(s: State, t: nat) {
    && (t in s.posted ==> t !in s.toAdd && t !in s.toSwap && t !in s.toWrite && t !in s.toSub)
    && (t in s.toAdd ==> t !in s.toSwap && t !in s.toWrite && t !in s.toSub)
    && (t in s.toSwap ==> t !in s.toWrite && t !in s.toSub)
    && (t in s.toWrite ==> t !in s.toSub)
  }

  /** busy counts the threads between its two updates. */
  predicate BusyCounts(s: State) {
    && s.busy == |s.toSwap| + |s.toWrite| + |s.toSub|
    && forall t :: t in Busy(s) ==> AtOnePlace(s, t)
  }

  predicate Inv(s: State) {
    && RingOk(s) && BusyCounts(s)
    && QueueOk(s)
    && (Open(s) ==> PendingWakes(s) && RingSignalled(s))
    && (!Open(s) ==> s.pending)
    && (s.loop == Closed ==> s.toWrite == {})
  }

  lemma {:induction false} InitInv(s: State)
    requires Init(s)
    ensures Inv(s)
  {
  }

  /** The queue: what was accepted is what was handed on, then what is in hand,
      then the ring. */
  lemma {:induction false} StepQueue(s: State, a: Action)
    requires RingOk(s) && QueueOk(s) && Enabled(s, a)
    ensures RingOk(Step(s, a)) && QueueOk(Step(s, a))
  {
    hide Queued, Busy;
    match a
    case Post(t, m) => PostQueue(s, t, m);
    case Take => TakeQueue(s);
    case Hand => Shift3(s.handed, s.loop.m, Ring(s));
    case _ =>
  }

  lemma {:induction false} PostQueue(s: State, t: nat, m: Message)
    requires RingOk(s) && QueueOk(s)
    ensures RingOk(Step(s, Post(t, m))) && QueueOk(Step(s, Post(t, m)))
  {
    hide Queued, Busy;
    if (s.head + 1) % QUEUE_SIZE != s.tail {
      PutAppends(s.msgs, s.head, s.tail, m);
      Append3(s.handed, InHand(s), Ring(s), m);
    }
  }

  lemma {:induction false} TakeQueue(s: State)
    requires RingOk(s) && QueueOk(s) && s.loop == Draining
    ensures RingOk(Step(s, Take)) && QueueOk(Step(s, Take))
  {
    hide Queued, Busy;
    if s.tail != s.head {
      TakeRemoves(s.msgs, s.head, s.tail);
      Shift3(s.handed, s.msgs[s.tail], Ring(Step(s, Take)));
    }
  }

  lemma {:induction false} Append3(a: seq<Message>, b: seq<Message>, c: seq<Message>, m: Message)
    ensures a + b + (c + [m]) == a + b + c + [m]
  {
  }

  lemma {:induction false} Shift3(a: seq<Message>, m: Message, c: seq<Message>)
    ensures a + [] + ([m] + c) == a + [m] + c
    ensures a + [m] + [] + c == a + [m] + c
  {
  }

  lemma {:induction false} Moved(a: set<nat>, t: nat)
    ensures t in a ==> |a - {t}| == |a| - 1
    ensures t !in a ==> |a + {t}| == |a| + 1
  {
  }

  /** A step moves a thread at most from one place to the next. */
  lemma {:induction false} StepPlace(s: State, a: Action, t: nat)
    requires RingOk(s) && Enabled(s, a) && AtOnePlace(s, t)
    ensures AtOnePlace(Step(s, a), t)
  {
    hide Queued;
  }

  lemma {:induction false} NowhereElse(s: State, t: nat)
    requires t !in Busy(s)
    ensures AtOnePlace(s, t)
  {
  }

  lemma {:induction false} StepBusy(s: State, a: Action)
    requires RingOk(s) && BusyCounts(s) && Enabled(s, a)
    ensures BusyCounts(Step(s, a))
  {
    hide Queued, AtOnePlace, Step, Enabled, Busy;
    var s' := Step(s, a);
    forall t | t in Busy(s') ensures AtOnePlace(s', t) {
      if t !in Busy(s) { NowhereElse(s, t); }
      StepPlace(s, a, t);
    }
    BusyNumber(s, a);
  }

  /** The places a step changes. */
  lemma {:induction false} StepSets(s: State, a: Action)
    requires RingOk(s)
    ensures var s' := Step(s, a);
            && s'.busy == (if a.AddBusy? then s.busy + 1 else if a.SubBusy? then s.busy - 1 else s.busy)
            && s'.toSwap == (if a.AddBusy? then s.toSwap + {a.t} else if a.Swap? then s.toSwap - {a.t} else s.toSwap)
            && s'.toWrite == (if a.Swap? && !s.pending then s.toWrite + {a.t}
                              else if a.Write? then s.toWrite - {a.t} else s.toWrite)
            && s'.toSub == (if (a.Swap? && s.pending) || a.Write? then s.toSub + {a.t}
                            else if a.SubBusy? then s.toSub - {a.t} else s.toSub)
  {
  }

  lemma {:induction false} BusyNumber(s: State, a: Action)
    requires RingOk(s) && BusyCounts(s) && Enabled(s, a)
    ensures var s' := Step(s, a); s'.busy == |s'.toSwap| + |s'.toWrite| + |s'.toSub|
  {
    hide Queued, BusyCounts, AtOnePlace, Busy, Step;
    BusyIs(s);
    StepSets(s, a);
    match a
    case AddBusy(t) => PlaceOf(s, t); NumberAdd(s, t);
    case Swap(t) => PlaceOf(s, t); NumberSwap(s, t);
    case Write(t) => PlaceOf(s, t); NumberWrite(s, t);
    case SubBusy(t) => Moved(s.toSub, t);
    case _ =>
  }

  lemma {:induction false} NumberAdd(s: State, t: nat)
    requires t in s.toAdd && AtOnePlace(s, t)
    ensures |s.toSwap + {t}| == |s.toSwap| + 1
  {
    Moved(s.toSwap, t);
  }

  lemma {:induction false} NumberSwap(s: State, t: nat)
    requires t in s.toSwap && AtOnePlace(s, t)
    ensures |s.toSwap - {t}| == |s.toSwap| - 1 && |s.toWrite + {t}| == |s.toWrite| + 1 && |s.toSub + {t}| == |s.toSub| + 1
  {
    Moved(s.toSwap, t);
    Moved(s.toWrite, t);
    Moved(s.toSub, t);
  }

  lemma {:induction false} NumberWrite(s: State, t: nat)
    requires t in s.toWrite && AtOnePlace(s, t)
    ensures |s.toWrite - {t}| == |s.toWrite| - 1 && |s.toSub + {t}| == |s.toSub| + 1
  {
    Moved(s.toWrite, t);
    Moved(s.toSub, t);
  }

  lemma {:induction false} PlaceOf(s: State, t: nat)
    requires BusyCounts(s)
    ensures AtOnePlace(s, t)
  {
    if t !in Busy(s) { NowhereElse(s, t); }
  }

  /** The wake-up: no step loses a signal that is owed. */
  lemma {:induction false} StepWake(s: State, a: Action)
    requires RingOk(s) && Enabled(s, a) && Open(s) && PendingWakes(s) && RingSignalled(s) && a != Close
    ensures var s' := Step(s, a); RingOk(s') && PendingWakes(s') && RingSignalled(s')
  {
    hide Queued, Busy;
    StepRing(s, a);
    match a
    case Post(t, m) => assert (s.head + 1) % QUEUE_SIZE != s.tail ==> t in Step(s, a).posted;
    case AddBusy(t) => assert t in Step(s, a).toSwap;
    case CheapRead(t) => assert s.pending || t in Step(s, a).toAdd;
    case Swap(t) => assert s.pending || t in Step(s, a).toWrite;
    case _ =>
  }

  /** Only post adds to the ring, and a take that finds it empty leaves it so. */
  lemma {:induction false} StepRing(s: State, a: Action)
    requires RingOk(s)
    ensures RingOk(Step(s, a)) && (!a.Post? && !a.Take? ==> Ring(Step(s, a)) == Ring(s))
    ensures s.head == s.tail ==> Ring(s) == []
  {
  }

  /** A closed handle stays pending, so nobody starts to write its descriptor. */
  lemma {:induction false} StepClosed(s: State, a: Action)
    requires RingOk(s) && s.busy == |s.toSwap| + |s.toWrite| + |s.toSub| && Enabled(s, a)
    requires (!Open(s) ==> s.pending) && (s.loop == Closed ==> s.toWrite == {})
    ensures var s' := Step(s, a); (!Open(s') ==> s'.pending) && (s'.loop == Closed ==> s'.toWrite == {})
  {
    hide Queued, Busy;
    if s.busy == 0 { assert |s.toWrite| == 0; }
  }

  lemma {:induction false} StepInv(s: State, a: Action)
    requires Inv(s) && Enabled(s, a)
    ensures Inv(Step(s, a))
  {
    hide RingOk, BusyCounts, QueueOk, PendingWakes, RingSignalled, Enabled, Ring;
    StepQueue(s, a);
    StepBusy(s, a);
    BusyIs(s);
    StepClosed(s, a);
    StepOpen(s, a);
    if Open(s) && a != Close { StepWake(s, a); }
  }

  lemma {:induction false} BusyIs(s: State)
    requires BusyCounts(s)
    ensures s.busy == |s.toSwap| + |s.toWrite| + |s.toSub|
  {
  }

  /** Closing is for good. */
  lemma {:induction false} StepOpen(s: State, a: Action)
    requires RingOk(s) && Enabled(s, a)
    ensures Open(Step(s, a)) ==> Open(s) && a != Close
  {
  }

  // ---------- runs ----------

  ghost predicate Next(s: State, s': State) {
    RingOk(s) && exists a :: Enabled(s, a) && s' == Step(s, a)
  }

  ghost predicate StepAt(run: seq<State>, i: nat)
    requires i + 1 < |run|
  {
    Next(run[i], run[i + 1])
  }

  ghost predicate IsRun(run: seq<State>) {
    |run| > 0 && Init(run[0]) && forall i :: 0 <= i && i + 1 < |run| ==> StepAt(run, i)
  }

  lemma {:induction false} RunInv(run: seq<State>, i: nat)
    requires IsRun(run) && i < |run|
    ensures Inv(run[i])
    decreases i
  {
    hide Inv;
    if i == 0 {
      InitInv(run[0]);
    } else {
      RunInv(run, i - 1);
      assert StepAt(run, i - 1);
      var a :| Enabled(run[i - 1], a) && run[i] == Step(run[i - 1], a);
      StepInv(run[i - 1], a);
    }
  }

  /** In every run on_message has been called with the accepted messages, each once
      and in order, up to those still in hand or in the ring, at most 63. */
  lemma {:induction false} HandedInOrder(run: seq<State>, i: nat)
    requires IsRun(run) && i < |run|
    ensures RingOk(run[i]) && run[i].handed <= run[i].accepted
    ensures run[i].accepted == run[i].handed + InHand(run[i]) + Ring(run[i]) && |Ring(run[i])| <= 63
  {
    RunInv(run, i);
  }

  /** No message is stranded: while the handle is open and the ring is not empty the
      drain is running, some poster has yet to signal, or the handle is pending and
      its wake-up is on the way. */
  lemma {:induction false} NoStrandedMessage(run: seq<State>, i: nat)
    requires IsRun(run) && i < |run| && Open(run[i])
    ensures RingOk(run[i])
    ensures var s := run[i]; Ring(s) != [] ==>
              || s.loop == Draining || s.loop.Handing?
              || s.posted + s.toAdd + s.toSwap != {}
              || (s.pending && (s.toWrite != {} || s.readable || s.loop == Scanning))
  {
    RunInv(run, i);
  }

  /** When every poster has returned and the loop blocks with nothing to read,
      everything accepted has been handed on. */
  lemma {:induction false} QuietMeansDelivered(run: seq<State>, i: nat)
    requires IsRun(run) && i < |run|
    requires run[i].loop == Polling && !run[i].readable && Busy(run[i]) == {}
    ensures run[i].handed == run[i].accepted
  {
    RunInv(run, i);
    var s := run[i];
    assert s.posted == {} && s.toAdd == {} && s.toSwap == {} && s.toWrite == {};
    assert s.handed + [] + [] == s.handed;
  }

  /** Once the close has returned no thread writes the loop's descriptor for this handle. */
  lemma {:induction false} NoWriteAfterClose(run: seq<State>, i: nat)
    requires IsRun(run) && i < |run| && run[i].loop == Closed
    ensures run[i].pending && run[i].toWrite == {}
  {
    RunInv(run, i);
  }

  // ---------- getting on ----------

  /** A post is accepted exactly when fewer than 63 messages are in the ring, and the
      poster then goes on to signal. */
  lemma {:induction false} PostAccepts(run: seq<State>, i: nat, t: nat, m: Message)
    requires IsRun(run) && i < |run| && Enabled(run[i], Post(t, m))
    ensures RingOk(run[i])
    ensures var s, s' := run[i], Step(run[i], Post(t, m));
            if |Ring(s)| < 63 then
              && s'.accepted == s.accepted + [m] && s'.posted == s.posted + {t} && RingOk(s') && Ring(s') == Ring(s) + [m]
              && s'.handed == s.handed && s'.loop == s.loop
            else s' == s
  {
    hide Queued;
    RunInv(run, i);
    var s := run[i];
    RingLength(s);
    if |Ring(s)| < 63 { PutAppends(s.msgs, s.head, s.tail, m); }
  }

  /** The ring is full exactly when its head is one slot behind its tail. */
  lemma {:induction false} RingLength(s: State)
    requires RingOk(s)
    ensures |Ring(s)| == (s.head as int - s.tail) % QUEUE_SIZE
    ensures |Ring(s)| == QUEUE_SIZE - 1 <==> (s.head + 1) % QUEUE_SIZE == s.tail
    ensures |Ring(s)| == 0 <==> s.head == s.tail
  {
  }

  /** A step of the posters and the loop themselves: not a new post, another handle's
      signal, the start of a close, or a turn of the close's busy wait. */
  predicate Own(s: State, a: Action) {
    !a.Post? && a != OtherWrite && a != Close && (a == Spin ==> s.busy == 0)
  }

  function LoopWeight(pc: LoopPc): int {
    match pc
    case Polling => 0
    case Reading => -1
    case Scanning => 1
    case Draining => 1
    case Handing(_) => 2
    case Spinning => 1
    case Closed => 0
  }

  function Bit(b: bool): int { if b then 1 else 0 }

  /** A bound on the steps they can still take. */
  function Work(s: State): int
    requires RingOk(s)
  {
    9 * |s.posted| + 8 * |s.toAdd| + 7 * |s.toSwap| + 5 * |s.toWrite| + |s.toSub|
    + Bit(s.pending) + 3 * Bit(s.readable) + 2 * |Ring(s)| + LoopWeight(s.loop)
  }

  lemma {:induction false} SetSteps(a: set<nat>, t: nat)
    ensures |a + {t}| <= |a| + 1 && (t in a ==> |a - {t}| == |a| - 1)
  {
    if t in a { assert a + {t} == a; }
  }

  lemma {:induction false} PosterStepDown(s: State, a: Action)
    requires RingOk(s) && Enabled(s, a) && (a.CheapRead? || a.AddBusy? || a.Swap? || a.Write? || a.SubBusy?)
    ensures RingOk(Step(s, a)) && Work(Step(s, a)) < Work(s)
  {
    hide Queued, Busy;
    SetSteps(s.posted, a.t);
    SetSteps(s.toAdd, a.t);
    SetSteps(s.toSwap, a.t);
    SetSteps(s.toWrite, a.t);
    SetSteps(s.toSub, a.t);
  }

  lemma {:induction false} LoopStepDown(s: State, a: Action)
    requires RingOk(s) && Enabled(s, a) && (a == Poll || a == Read || a == Scan || a == Take || a == Hand || (a == Spin && s.busy == 0))
    requires s.loop == Reading ==> s.readable
    ensures RingOk(Step(s, a)) && Work(Step(s, a)) < Work(s)
  {
    hide Queued, Busy;
    RingLength(s);
    if a == Take && s.tail != s.head { TakeRemoves(s.msgs, s.head, s.tail); }
  }

  lemma {:induction false} ReadingStep(s: State, a: Action)
    requires RingOk(s) && Enabled(s, a) && (s.loop == Reading ==> s.readable)
    ensures Step(s, a).loop == Reading ==> Step(s, a).readable
  {
  }

  /** uv__async_io is only called with something to read. */
  lemma {:induction false} ReadingReadable(run: seq<State>, i: nat)
    requires IsRun(run) && i < |run|
    ensures run[i].loop == Reading ==> run[i].readable
  {
    hide Step, Enabled;
    if i > 0 {
      ReadingReadable(run, i - 1);
      assert StepAt(run, i - 1);
      var a :| Enabled(run[i - 1], a) && run[i] == Step(run[i - 1], a);
      ReadingStep(run[i - 1], a);
    }
  }

  ghost predicate TraceAt(run: seq<State>, acts: seq<Action>, i: nat)
    requires |run| == |acts| + 1 && i < |acts|
  {
    RingOk(run[i]) && Enabled(run[i], acts[i]) && run[i + 1] == Step(run[i], acts[i])
  }

  /** A run and the actions it is made of. */
  ghost predicate Traced(run: seq<State>, acts: seq<Action>) {
    |run| == |acts| + 1 && Init(run[0]) && forall i :: 0 <= i < |acts| ==> TraceAt(run, acts, i)
  }

  lemma {:induction false} TracedIsRun(run: seq<State>, acts: seq<Action>)
    requires Traced(run, acts)
    ensures IsRun(run)
  {
    hide Enabled, Step;
    forall i | 0 <= i && i + 1 < |run| ensures StepAt(run, i) { assert TraceAt(run, acts, i); }
  }

  /** Left to themselves the posters and the loop stop, whatever the order of their
      steps, after no more of them than the work there is. */
  lemma {:induction false} StepsAreBounded(run: seq<State>, acts: seq<Action>, i: nat, j: nat)
    requires Traced(run, acts) && i <= j <= |acts|
    requires forall k :: i <= k < j ==> Own(run[k], acts[k])
    ensures RingOk(run[i]) && RingOk(run[j]) && 0 <= Work(run[j]) && Work(run[j]) + (j - i) <= Work(run[i])
  {
    hide Work, Step, Enabled, BusyCounts, QueueOk, RingSignalled;
    TracedIsRun(run, acts);
    RunInv(run, j);
    ReadingReadable(run, j);
    WorkNonNegative(run[j]);
    if i < j {
      StepsAreBounded(run, acts, i, j - 1);
      ReadingReadable(run, j - 1);
      assert TraceAt(run, acts, j - 1);
      OwnStepDown(run[j - 1], acts[j - 1]);
    }
  }

  lemma {:induction false} WorkNonNegative(s: State)
    requires RingOk(s) && (s.loop == Reading ==> s.readable)
    ensures Work(s) >= 0
  {
    hide Queued;
  }

  lemma {:induction false} OwnStepDown(s: State, a: Action)
    requires RingOk(s) && Enabled(s, a) && Own(s, a) && (s.loop == Reading ==> s.readable)
    ensures RingOk(Step(s, a)) && Work(Step(s, a)) < Work(s)
  {
    hide Work, Step, Enabled;
    if a.CheapRead? || a.AddBusy? || a.Swap? || a.Write? || a.SubBusy? { PosterStepDown(s, a); } else { LoopStepDown(s, a); }
  }

  /** Where they stop every post has returned, and unless the handle has been closed
      everything accepted has been handed on and the loop blocks. */
  lemma {:induction false} RestMeansDelivered(run: seq<State>, i: nat)
    requires IsRun(run) && i < |run|
    requires forall a :: Own(run[i], a) ==> !Enabled(run[i], a)
    ensures Busy(run[i]) == {}
    ensures run[i].loop == Closed || (run[i].loop == Polling && run[i].handed == run[i].accepted)
  {
    hide Inv;
    var s := run[i];
    RunInv(run, i);
    NoneBusy(s);
    LoopBlocks(s);
    if s.loop == Polling { QuietMeansDelivered(run, i); }
  }

  lemma {:induction false} NoneBusy(s: State)
    requires forall a :: Own(s, a) ==> !Enabled(s, a)
    ensures Busy(s) == {}
  {
    forall t: nat ensures t !in Busy(s) {
      assert !Enabled(s, CheapRead(t)) && !Enabled(s, AddBusy(t)) && !Enabled(s, Swap(t))
             && !Enabled(s, Write(t)) && !Enabled(s, SubBusy(t));
    }
  }

  lemma {:induction false} LoopBlocks(s: State)
    requires Inv(s) && Busy(s) == {} && forall a :: Own(s, a) ==> !Enabled(s, a)
    ensures s.loop == Closed || (s.loop == Polling && !s.readable)
  {
    hide QueueOk, RingSignalled, Queued;
    assert s.toSwap == {} && s.toWrite == {} && s.toSub == {};
    assert s.busy == 0;
    assert !Enabled(s, Poll) && !Enabled(s, Read) && !Enabled(s, Scan) && !Enabled(s, Take) && !Enabled(s, Hand) && !Enabled(s, Spin);
  }
}
