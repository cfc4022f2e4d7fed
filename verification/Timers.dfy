/**
 libuv's timers (timer.c) over the pointer heap: start, stop, again, the poll
 timeout, and the two-phase run of the due timers.  A timer's callback is an
 arbitrary script of timer operations.
 */
module Timers {
  import opened HeapShape
  import opened PointerHeap

  const TWO64: nat := 0x1_0000_0000_0000_0000
  const INT_MAX: nat := 0x7FFF_FFFF
  const UV_EINVAL: int := -22

  /** What a callback does to the timers of its loop. */
  datatype Op =
    | Init(t: Timer)
    | Start(t: Timer, withCallback: bool, timeout: nat, repeat: nat)
    | Stop(t: Timer)
    | Again(t: Timer)
    | SetRepeat(t: Timer, repeat: nat)
    | Close(t: Timer)
    | UpdateTime(now: nat)

  /** The callbacks: what the k-th call, made for timer t, does. */
  type Script = (nat, Timer) -> seq<Op>

  /** An operation on the memory of some handle, with arguments of 64 bits. */
  predicate OpOk(op: Op, pool: set<Timer>) {
    match op
    case Init(t) => t in pool
    case Start(t, _, timeout, repeat) => t in pool && timeout < TWO64 && repeat < TWO64
    case Stop(t) => t in pool
    case Again(t) => t in pool
    case SetRepeat(t, repeat) => t in pool && repeat < TWO64
    case Close(t) => t in pool
    case UpdateTime(now) => now < TWO64
  }

  /** The operations that may stop timer t. */
  predicate Names(op: Op, t: Timer) { !op.UpdateTime? && !op.Init? && op.t == t }

  /** The operations that always take their timer out of the ready queue. */
  predicate Detaches(op: Op) { op.Stop? || op.Close? || (op.Start? && op.withCallback) }

  predicate Unique(s: seq<Timer>) {
    forall i, j :: 0 <= i < j < |s| ==> s[i] != s[j]
  }

  /** s without t. */
  function Without(s: seq<Timer>, t: Timer): (r: seq<Timer>)
    ensures |r| <= |s|
    ensures t !in r
    ensures t !in s ==> r == s
  {
    if s == [] then []
    else if s[0] == t then Without(s[1..], t)
    else [s[0]] + Without(s[1..], t)
  }

  lemma {:induction false} WithoutFacts(s: seq<Timer>, t: Timer)
    ensures forall i :: 0 <= i < |Without(s, t)| ==> Without(s, t)[i] in s
    ensures forall i :: 0 <= i < |s| && s[i] != t ==> s[i] in Without(s, t)
    ensures Unique(s) ==> Unique(Without(s, t))
  {
    if s != [] {
      WithoutFacts(s[1..], t);
      var r := Without(s[1..], t);
      if s[0] != t && Unique(s) {
        assert s[0] !in s[1..];
        assert s[0] !in r;
      }
      forall i | 0 <= i < |s| && s[i] != t ensures s[i] in Without(s, t) {
        if i > 0 { assert s[1..][i - 1] == s[i]; }
      }
    }
  }

  /** s without any of ts. */
  function Sweep(s: seq<Timer>, ts: seq<Timer>): (r: seq<Timer>)
    ensures |r| <= |s|
  {
    if ts == [] then s else Without(Sweep(s, ts[..|ts| - 1]), ts[|ts| - 1])
  }

  lemma {:induction false} SweepMore(s: seq<Timer>, a: seq<Timer>, b: seq<Timer>)
    ensures Sweep(s, a + b) == Sweep(Sweep(s, a), b)
  {
    hide Without;
    if b == [] {
      assert a + b == a;
    } else {
      var n := |a + b| - 1;
      assert (a + b)[..n] == a + b[..|b| - 1];
      SweepMore(s, a, b[..|b| - 1]);
    }
  }

  lemma {:induction false} SweepKeeps(s: seq<Timer>, ts: seq<Timer>, t: Timer)
    requires t !in s
    ensures t !in Sweep(s, ts)
  {
    if ts != [] {
      SweepKeeps(s, ts[..|ts| - 1], t);
      WithoutFacts(Sweep(s, ts[..|ts| - 1]), ts[|ts| - 1]);
    }
  }

  /** uv_loop_t, as far as timers go. */
  class Loop {
    const heap: Heap
    var time: nat
    var counter: nat
    /** The ready queue of the run in progress.  uv__run_timers keeps its head on
        the stack; uv_timer_stop reaches it through the handle's own queue node. */
    var ready: seq<Timer>
    /** The initialised handles. */
    var handles: set<Timer>
    /** The memory the program has for handles, initialised or not. */
    ghost var pool: set<Timer>
    /** The handles uv_timer_stop has run on. */
    ghost var stops: seq<Timer>
    /** The callbacks made. */
    ghost var calls: seq<Call>

    /** Each handle is in exactly one of the heap, iff active, the ready queue,
        or neither. */
    ghost predicate Valid()
      reads this, heap, heap.links.Keys, handles
    {
      && heap.Valid() && heap.links.Keys <= handles <= pool
      && time < TWO64 && counter < TWO64
      && Unique(ready) && (forall i :: 0 <= i < |ready| ==> ready[i] in handles && !ready[i].active && ready[i].hasCallback && !ready[i].closing)
      && forall t :: t in handles ==> HandleOk(t)
    }

    ghost predicate HandleOk(t: Timer)
      reads heap, t
    {
      && (t.active <==> t in heap.links)
      && (t.active ==> t.hasCallback && !t.closing && t.startId < TWO64)
      && t.timeout < TWO64 && t.repeat < TWO64
    }

    constructor (now: nat, ghost pool: set<Timer>)
      requires now < TWO64
      ensures Valid() && handles == {} && this.pool == pool && ready == [] && time == now && fresh(heap)
    {
      heap := new Heap();
      time, counter, ready, handles := now, 0, [], {};
      this.pool, stops, calls := pool, [], [];
    }

    /** uv_timer_init. */
    method TimerInit(handle: Timer)
      requires Valid() && handle in pool && handle !in handles
      modifies this`handles, {handle}`active, {handle}`hasCallback, {handle}`closing, {handle}`timeout, {handle}`repeat
      ensures Valid() && handles == old(handles) + {handle}
      ensures !handle.active && !handle.hasCallback && !handle.closing && handle.timeout == 0 && handle.repeat == 0
      ensures handle !in ready
    {
      hide Heap.Valid, Unique;
      handle.active, handle.hasCallback, handle.closing := false, false, false;
      handle.timeout, handle.repeat := 0, 0;
      handles := handles + {handle};
    }

    /** uv_timer_stop. */
    method TimerStop(handle: Timer)
      requires Valid() && handle in handles
      modifies heap, this`ready, this`stops, {handle}`active, handles`left, handles`right, handles`parent
      ensures Valid() && !handle.active
      ensures heap.links.Keys == old(heap.links.Keys) - {handle}
      ensures ready == Without(old(ready), handle)
      ensures stops == old(stops) + [handle]
    {
      hide Heap.Valid, Without;
      if handle.active {
        heap.Remove(handle);
        handle.active := false;
      } else {
        WithoutFacts(ready, handle);
        ready := Without(ready, handle);
      }
      stops := stops + [handle];
    }

    method SetDeadline(handle: Timer, deadline: nat, repeat: nat)
      requires Valid() && handle in handles && !handle.active && handle !in ready
      requires deadline < TWO64 && repeat < TWO64
      modifies this`counter, {handle}`hasCallback, {handle}`timeout, {handle}`repeat, {handle}`startId
      ensures Valid() && handle.hasCallback && handle.repeat == repeat && handle.timeout == deadline
      ensures handle.startId == old(counter) && counter == (old(counter) + 1) % TWO64
    {
      hide Heap.Valid, Unique;
      handle.hasCallback := true;
      handle.timeout := deadline;
      handle.repeat := repeat;
      handle.startId := counter;
      counter := (counter + 1) % TWO64;
    }

    /** The second half of uv_timer_start, for a handle that has been stopped. */
    method Arm(handle: Timer, deadline: nat, repeat: nat)
      requires Valid() && handle in handles && !handle.active && handle !in ready && !handle.closing
      requires deadline < TWO64 && repeat < TWO64
      modifies heap, this`counter, handles`left, handles`right, handles`parent
      modifies {handle}`active, {handle}`hasCallback, {handle}`timeout, {handle}`repeat, {handle}`startId
      ensures Valid() && handle.active && handle.hasCallback && handle.repeat == repeat && handle.timeout == deadline
      ensures handle.startId == old(counter) && counter == (old(counter) + 1) % TWO64
      ensures heap.links.Keys == old(heap.links.Keys) + {handle}
    {
      hide Heap.Valid, Unique;
      SetDeadline(handle, deadline, repeat);
      heap.Insert(handle);
      handle.active := true;
    }

    /** uv_timer_start: the deadline is capped at the largest 64-bit time. */
    method TimerStart(handle: Timer, withCallback: bool, timeout: nat, repeat: nat) returns (r: int)
      requires Valid() && handle in handles && timeout < TWO64 && repeat < TWO64
      modifies heap, this`ready, this`stops, this`counter, handles`left, handles`right, handles`parent
      modifies {handle}`active, {handle}`hasCallback, {handle}`timeout, {handle}`repeat, {handle}`startId
      ensures Valid()
      ensures r == if old(handle.closing) || !withCallback then UV_EINVAL else 0
      ensures r != 0 ==> unchanged(this) && unchanged(heap) && unchanged(handle)
      ensures r == 0 ==>
        && handle.active && handle.hasCallback && handle.repeat == repeat
        && handle.timeout == Min(time + timeout, TWO64 - 1)
        && handle.startId == old(counter) && counter == (old(counter) + 1) % TWO64
        && heap.links.Keys == old(heap.links.Keys) + {handle}
        && ready == Without(old(ready), handle)
        && stops == old(stops) + [handle]
    {
      hide Heap.Valid, Without, Unique;
      if handle.closing || !withCallback { return UV_EINVAL; }
      TimerStop(handle);
      Arm(handle, Deadline(time, timeout), repeat);
      return 0;
    }

    /** uv_timer_again: a repeating timer is restarted with its repeat value. */
    method TimerAgain(handle: Timer) returns (r: int, ghost stopped: seq<Timer>)
      requires Valid() && handle in handles
      modifies heap, this`ready, this`stops, this`counter, handles`left, handles`right, handles`parent
      modifies {handle}`active, {handle}`hasCallback, {handle}`timeout, {handle}`repeat, {handle}`startId
      ensures Valid()
      ensures r == if old(handle.hasCallback) then 0 else UV_EINVAL
      ensures stopped == if old(!handle.hasCallback || handle.repeat == 0) then []
                         else if handle.closing then [handle] else [handle, handle]
      ensures stops == old(stops) + stopped && ready == Sweep(old(ready), stopped)
      ensures stopped == [] ==> unchanged(this) && unchanged(heap) && unchanged(handle)
      ensures stopped != [] && !handle.closing ==>
        && handle.active && handle.timeout == Min(time + old(handle.repeat), TWO64 - 1) && handle.repeat == old(handle.repeat)
        && handle.startId == old(counter) && counter == (old(counter) + 1) % TWO64
    {
      hide Heap.Valid, Without, Unique;
      stopped := [];
      if !handle.hasCallback { return UV_EINVAL, []; }
      if handle.repeat != 0 {
        TimerStop(handle);
        var e := TimerStart(handle, handle.hasCallback, handle.repeat, handle.repeat);
        stopped := if handle.closing then [handle] else [handle, handle];
        SweepTwice(old(ready), handle);
      }
      return 0, stopped;
    }

    /** uv_timer_set_repeat. */
    method SetRepeatOf(handle: Timer, repeat: nat)
      requires Valid() && handle in handles && repeat < TWO64
      modifies {handle}`repeat
      ensures Valid() && handle.repeat == repeat
    {
      hide Heap.Valid, Unique;
      handle.repeat := repeat;
    }

    /** uv_close on a timer.  uv_close asserts that the handle is not closing
        yet; here such a call does nothing. */
    method CloseTimer(handle: Timer) returns (ghost stopped: seq<Timer>)
      requires Valid() && handle in handles
      modifies heap, this`ready, this`stops, {handle}`active, {handle}`closing, handles`left, handles`right, handles`parent
      ensures Valid() && handle.closing && !handle.active && handle !in ready
      ensures stopped == if old(handle.closing) then [] else [handle]
      ensures stops == old(stops) + stopped && ready == Sweep(old(ready), stopped)
    {
      hide Heap.Valid, Without;
      stopped := [];
      if !handle.closing {
        TimerStop(handle);
        SweepTwice(old(ready), handle);
        handle.closing := true;
        stopped := [handle];
      }
    }

    /** One operation of a callback.  Initialising a handle twice, or using one that is
        not initialised, is an error of the program; here that does nothing. */
    method Apply(op: Op) returns (ghost stopped: seq<Timer>)
      requires Valid() && OpOk(op, pool)
      modifies heap, this`handles, this`ready, this`stops, this`counter, this`time, pool
      ensures Valid() && old(handles) <= handles
      ensures stops == old(stops) + stopped && ready == Sweep(old(ready), stopped)
      ensures forall n :: 0 <= n < |stopped| ==> Names(op, stopped[n])
      ensures Detaches(op) ==> op.t !in ready
      ensures op.Again? && op.t in old(handles) && old(op.t.hasCallback && op.t.repeat != 0) ==>
                op.t in stopped && op.t !in ready
      ensures op.UpdateTime? ==> time == op.now && stopped == []
      ensures op.Init? ==> op.t in handles && (op.t !in old(handles) ==> !op.t.active && !op.t.closing && !op.t.hasCallback)
      ensures op.Start? && op.withCallback && op.t in old(handles) && !old(op.t.closing) ==>
                op.t.active && op.t.timeout == Min(time + op.timeout, TWO64 - 1) && op.t.repeat == op.repeat && op.t.startId == old(counter)
      ensures (op.Stop? || op.Close?) && op.t in old(handles) ==> !op.t.active && (op.Close? ==> op.t.closing)
      ensures op.SetRepeat? && op.t in old(handles) ==> op.t.repeat == op.repeat
      ensures op.Again? && op.t in old(handles) && old(op.t.hasCallback && op.t.repeat != 0 && !op.t.closing) ==>
                op.t.active && op.t.timeout == Min(time + old(op.t.repeat), TWO64 - 1) && op.t.startId == old(counter)
      ensures forall t :: t in old(handles) && (op.UpdateTime? || t != op.t) ==>
                t.active == old(t.active) && t.timeout == old(t.timeout) && t.repeat == old(t.repeat) && t.startId == old(t.startId)
    {
      hide Heap.Valid, Without, Unique;
      stopped := [];
      SweepNone(ready);
      if op.Init? {
        if op.t !in handles { TimerInit(op.t); }
        return;
      }
      if op.UpdateTime? {
        time := op.now;
        return;
      }
      if op.t !in handles { return; }
      stopped := Act(op);
    }

    /** An operation on an initialised handle. */
    method Act(op: Op) returns (ghost stopped: seq<Timer>)
      requires Valid() && OpOk(op, pool) && !op.Init? && !op.UpdateTime? && op.t in handles
      modifies heap, this`ready, this`stops, this`counter, this`time, handles
      ensures Valid()
      ensures stops == old(stops) + stopped && ready == Sweep(old(ready), stopped)
      ensures forall n :: 0 <= n < |stopped| ==> Names(op, stopped[n])
      ensures Detaches(op) ==> op.t !in ready
      ensures op.Again? && old(op.t.hasCallback && op.t.repeat != 0) ==> op.t in stopped && op.t !in ready
      ensures time == old(time)
      ensures op.Start? && op.withCallback && !old(op.t.closing) ==>
                op.t.active && op.t.timeout == Min(time + op.timeout, TWO64 - 1) && op.t.repeat == op.repeat && op.t.startId == old(counter)
      ensures op.Stop? || op.Close? ==> !op.t.active
      ensures op.Close? ==> op.t.closing
      ensures op.SetRepeat? ==> op.t.repeat == op.repeat
      ensures op.Again? && old(op.t.hasCallback && op.t.repeat != 0 && !op.t.closing) ==>
                op.t.active && op.t.timeout == Min(time + old(op.t.repeat), TWO64 - 1) && op.t.startId == old(counter)
      ensures forall t :: t in handles && t != op.t ==>
                t.active == old(t.active) && t.timeout == old(t.timeout) && t.repeat == old(t.repeat) && t.startId == old(t.startId)
    {
      hide Heap.Valid, Without, Unique;
      stopped := [];
      match op
      case Start(t, withCallback, timeout, repeat) =>
        var e := TimerStart(t, withCallback, timeout, repeat);
        if e == 0 { stopped := [t]; }
        SweepTwice(old(ready), t);
      case Stop(t) =>
        TimerStop(t);
        stopped := [t];
        SweepTwice(old(ready), t);
      case Again(t) =>
        var e;
        e, stopped := TimerAgain(t);
        SweepTwice(old(ready), t);
      case SetRepeat(t, repeat) =>
        SetRepeatOf(t, repeat);
      case Close(t) =>
        stopped := CloseTimer(t);
    }

    /** The operations of a callback one by one. */
    method ApplyAll(ops: seq<Op>) returns (ghost stopped: seq<Timer>)
      requires Valid() && forall m :: 0 <= m < |ops| ==> OpOk(ops[m], pool)
      modifies heap, this`handles, this`ready, this`stops, this`counter, this`time, pool
      ensures Valid() && old(handles) <= handles
      ensures stops == old(stops) + stopped && ready == Sweep(old(ready), stopped)
      ensures CausedBy(stopped, ops)
      ensures forall m :: 0 <= m < |ops| && Detaches(ops[m]) ==> ops[m].t !in ready
      ensures |ops| == 0 ==> stopped == [] && unchanged(this) && unchanged(pool)
    {
      hide Heap.Valid, Without, Unique, HandleOk, Sweep;
      stopped := [];
      SweepNone(ready);
      for n := 0 to |ops|
        invariant Valid() && old(handles) <= handles
        invariant n == 0 ==> stopped == [] && unchanged(this) && unchanged(pool)
        invariant stops == old(stops) + stopped && ready == Sweep(old(ready), stopped)
        invariant CausedBy(stopped, ops)
        invariant forall m :: 0 <= m < n && Detaches(ops[m]) ==> ops[m].t !in ready
      {
        ghost var before := ready;
        var more := Apply(ops[n]);
        SweepMore(old(ready), stopped, more);
        forall m | 0 <= m < n && Detaches(ops[m]) ensures ops[m].t !in ready {
          SweepKeeps(before, more, ops[m].t);
        }
        assert CausedBy(more, ops);
        stopped := stopped + more;
      }
    }

    /** The call of handle's callback, which is recorded, and what the callback does. */
    method CallBack(handle: Timer, ops: seq<Op>) returns (ghost stopped: seq<Timer>)
      requires Valid() && forall m :: 0 <= m < |ops| ==> OpOk(ops[m], pool)
      modifies heap, this`handles, this`ready, this`stops, this`calls, this`counter, this`time, pool
      ensures Valid() && old(handles) <= handles
      ensures calls == old(calls) + [Call(handle, |old(stops)|)]
      ensures stops == old(stops) + stopped && ready == Sweep(old(ready), stopped)
      ensures CausedBy(stopped, ops)
      ensures forall m :: 0 <= m < |ops| && Detaches(ops[m]) ==> ops[m].t !in ready
      ensures |ops| == 0 ==> stopped == [] && ready == old(ready) && time == old(time)
                             && handles == old(handles) && Now() == old(Now())
    {
      hide Heap.Valid, HandleOk, Sweep, Unique;
      calls := calls + [Call(handle, |stops|)];
      stopped := ApplyAll(ops);
    }

    /** How far the first loop has come: the queue holds due timers that were
        in the heap, all others are still there, and none of those is less. */
    ghost predicate Collected(all: set<Timer>, before: seq<Timer>)
      reads this, heap, ready`timeout, ready`startId, heap.links.Keys`timeout, heap.links.Keys`startId
    {
      && NodeSet(ready) <= all && heap.links.Keys == all - NodeSet(ready)
      && (forall i :: 0 <= i < |ready| ==> ready[i].timeout <= time)
      && Ascending(ready) && NoneBelow(ready, heap.links.Keys)
      && stops == before + ready
    }

    /** The first loop of uv__run_timers: every due timer, in order, moves to
        the ready queue. */
    method CollectDue()
      requires Valid() && ready == []
      modifies heap, this`ready, this`stops, handles`active, handles`left, handles`right, handles`parent
      ensures Valid()
      ensures forall t :: t in handles ==> (t in ready <==> old(t.active && t.timeout <= time))
      ensures forall i :: 0 <= i < |ready| ==> ready[i] in old(heap.links)
      ensures heap.links.Keys == old(heap.links.Keys) - NodeSet(ready)
      ensures Ascending(ready)
      ensures stops == old(stops) + ready
      ensures forall t :: t in handles && t !in ready ==> t.active == old(t.active)
    {
      hide Heap.Valid, Valid, HandleOk, NodeSet, Ascending, NoneBelow, Collected;
      NoneYet(heap.links.Keys);
      ActiveInHeap();
      CollectedNone();
      while true
        invariant Valid() && Collected(old(heap.links.Keys), old(stops))
        decreases |heap.links.Keys|
      {
        var handle := heap.min;
        MinHeld();
        if handle == null { break; }
        if handle.timeout > time { break; }
        MoveToReady(handle, old(heap.links.Keys), old(stops));
      }
      NoneDue();
      CollectedMeans(old(heap.links.Keys), old(stops));
      ActiveInHeap();
      InNodeSetIff(ready);
    }

    lemma CollectedNone()
      requires ready == []
      ensures Collected(heap.links.Keys, stops)
    {
      NoneYet(heap.links.Keys);
    }

    lemma CollectedMeans(all: set<Timer>, before: seq<Timer>)
      requires Valid() && Collected(all, before) && forall t :: t in heap.links.Keys ==> t.timeout > time
      ensures forall t :: t in all ==> (t.timeout <= time <==> t in ready)
      ensures forall i :: 0 <= i < |ready| ==> ready[i] in all
      ensures heap.links.Keys == all - NodeSet(ready) && Ascending(ready) && stops == before + ready
    {
      InNodeSetIff(ready);
    }

    lemma MinHeld()
      requires Valid()
      ensures heap.min != null ==> heap.min in heap.links && heap.min in handles
    {
      heap.MinInLinks();
    }

    lemma ActiveInHeap()
      requires Valid()
      ensures forall t :: t in handles ==> (t.active <==> t in heap.links.Keys)
    {
      forall t | t in handles ensures t.active <==> t in heap.links.Keys { assert HandleOk(t); }
    }

    /** One due timer goes from the heap to the tail of the ready queue. */
    method MoveToReady(handle: Timer, ghost all: set<Timer>, ghost before: seq<Timer>)
      requires Valid() && handle == heap.min && handle in heap.links && handle.timeout <= time
      requires Collected(all, before)
      modifies heap, this`ready, this`stops, {handle}`active, handles`left, handles`right, handles`parent
      ensures Valid() && Collected(all, before)
      ensures heap.links.Keys == old(heap.links.Keys) - {handle}
    {
      hide Heap.Valid, Valid, HandleOk, Ascending, NoneBelow, NodeSet, Unique, Without;
      NoneBelowMin();
      AscendingMore(ready, heap.links.Keys, handle);
      HeapNotReady(handle);
      AppendSet(ready, handle);
      MinusOne(all, NodeSet(ready), handle);
      TimerStop(handle);
      PushReady(handle);
      assert stops == before + ready;
    }

    /** uv__queue_insert_tail. */
    method PushReady(handle: Timer)
      requires Valid() && handle in handles && handle !in ready && !handle.active && handle.hasCallback && !handle.closing
      modifies this`ready
      ensures Valid() && ready == old(ready) + [handle]
    {
      hide Heap.Valid, HandleOk;
      ready := ready + [handle];
    }

    /** Each timer is in exactly one of the heap, iff active, the ready queue, once,
        or neither. */
    lemma OnePlace(t: Timer)
      requires Valid() && t in handles
      ensures t.active <==> t in heap.links
      ensures t in heap.links ==> t !in ready
      ensures forall i, j :: 0 <= i < j < |ready| ==> !(ready[i] == t && ready[j] == t)
    {
      assert HandleOk(t);
    }

    lemma NoneBelowMin()
      requires Valid() && heap.min != null
      ensures forall t :: t in heap.links.Keys ==> !Less(KeyOf(t), KeyOf(heap.min))
    {
      forall t | t in heap.links.Keys ensures !Less(KeyOf(t), KeyOf(heap.min)) { heap.MinIsLeast(t); }
    }

    lemma HeapNotReady(handle: Timer)
      requires Valid() && handle in heap.links
      ensures handle in handles && handle !in ready && handle.hasCallback && !handle.closing
    {
      assert HandleOk(handle);
    }

    lemma NoneDue()
      requires Valid() && (heap.min == null || heap.min.timeout > time)
      ensures forall t :: t in heap.links.Keys ==> t.timeout > time
    {
      forall t | t in heap.links.Keys ensures t.timeout > time { heap.MinIsLeast(t); }
    }

    /** uv__next_timeout. */
    method NextTimeout() returns (r: int)
      requires Valid()
      ensures r == -1 <==> forall t :: t in handles ==> !t.active
      ensures r == 0 <==> exists t :: t in handles && t.active && t.timeout <= time
      ensures r != -1 && r != 0 ==>
                exists t :: t in handles && t.active && r == Min(t.timeout - time, INT_MAX)
                            && forall u :: u in handles && u.active ==> t.timeout <= u.timeout
    {
      hide Heap.Valid, HandleOk, Less;
      ActiveInHeap();
      MinHeld();
      heap.MinInLinks();
      var handle := heap.min;
      if handle == null { return -1; }
      EarliestIsMin();
      if handle.timeout <= time { return 0; }
      var diff := handle.timeout - time;
      if diff > INT_MAX { diff := INT_MAX; }
      return diff;
    }

    lemma EarliestIsMin()
      requires Valid() && heap.min != null
      ensures forall u :: u in handles && u.active ==> heap.min.timeout <= u.timeout
    {
      forall u | u in handles && u.active ensures heap.min.timeout <= u.timeout {
        assert HandleOk(u);
        heap.MinIsLeast(u);
      }
    }

    /** uv_timer_get_due_in. */
    function DueIn(handle: Timer): (r: nat)
      reads this, handle
      ensures r == 0 <==> handle.timeout <= time
      ensures r > 0 ==> time + r == handle.timeout
    {
      if time >= handle.timeout then 0 else handle.timeout - time
    }

    /** The timers as they are. */
    ghost function Now(): (m: map<Timer, Was>)
      reads this, handles
      ensures m.Keys == handles
    {
      map t | t in handles :: Was(t.active, t.timeout, t.repeat)
    }

    /** One turn of the second loop: the head leaves the queue, is restarted if
        it repeats, and only then its callback runs. */
    method FireHead(ops: seq<Op>) returns (ghost round: Round)
      requires Valid() && |ready| > 0 && forall m :: 0 <= m < |ops| ==> OpOk(ops[m], pool)
      modifies heap, this`handles, this`ready, this`stops, this`calls, this`counter, this`time, pool
      ensures Valid() && old(handles) <= handles
      ensures calls == old(calls) + [Call(old(ready[0]), |old(stops)| + if old(ready[0].repeat) > 0 then 2 else 0)]
      ensures round.t == old(ready[0]) && ready == Sweep(old(ready)[1..], round.stopped)
      ensures stops == old(stops) + round.stopped
      ensures RoundCaused(round, ops)
      ensures old(ready[0].repeat) > 0 ==> |round.stopped| >= 2 && round.stopped[..2] == [round.t, round.t]
      ensures forall m :: 0 <= m < |ops| && Detaches(ops[m]) ==> ops[m].t !in ready
      ensures |ops| == 0 ==> time == old(time) && ready == old(ready)[1..]
      ensures |ops| == 0 ==> old(ready[0]) in old(handles) && Now() == Turn(old(Now()), old(ready[0]), time)
    {
      hide Heap.Valid, HandleOk, Sweep, CausedBy, Now, Turn, Unique;
      var handle, first := TakeHead();
      var rest := CallBack(handle, ops);
      round := Round(handle, first + rest);
      SweepMore(old(ready)[1..], first, rest);
      CauseJoin(round, first, rest, ops);
    }

    /** What a turn does before the callback. */
    method TakeHead() returns (handle: Timer, ghost first: seq<Timer>)
      requires Valid() && |ready| > 0
      modifies heap, this`ready, this`stops, this`counter, handles
      ensures Valid() && handle == old(ready[0]) && handle in handles
      ensures first == (if old(ready[0].repeat) > 0 then [handle, handle] else [])
      ensures stops == old(stops) + first && ready == Sweep(old(ready)[1..], first) == old(ready)[1..]
      ensures Now() == Turn(old(Now()), handle, time)
    {
      hide Heap.Valid, HandleOk, Sweep;
      handle := ready[0];
      ready := ready[1..];
      var e;
      e, first := TimerAgain(handle);
      SweepTwice(old(ready)[1..], handle);
    }

    /** What selecting the due timers has done to them. */
    lemma SelectedNow(was: map<Timer, Was>)
      requires Valid() && was.Keys == handles
      requires forall t :: t in handles ==> t.timeout == was[t].timeout && t.repeat == was[t].repeat
      requires forall t :: t in handles && t !in ready ==> t.active == was[t].active
      ensures Now() == AfterTurns(was, time, ready, ready)
    {
      hide Heap.Valid, HandleOk;
    }

    /** The second loop of uv__run_timers; was is what the timers were before the first. */
    method FireReady(script: Script, ghost selected: seq<Timer>, ghost was: map<Timer, Was>) returns (ghost rounds: seq<Round>)
      requires Valid() && ready == selected && Now() == AfterTurns(was, time, selected, ready)
      requires forall k, t :: t in pool ==> forall m :: 0 <= m < |script(k, t)| ==> OpOk(script(k, t)[m], pool)
      modifies heap, this`handles, this`ready, this`stops, this`calls, this`counter, this`time, pool
      ensures Valid() && ready == [] && old(handles) <= handles
      ensures PassOk(selected, rounds, script) && stops == old(stops) + AllStops(rounds)
      ensures MadeSince(old(calls), calls, rounds)
      ensures (forall k, t :: t in pool ==> |script(k, t)| == 0) ==> Now() == AfterTurns(was, old(time), selected, [])
    {
      hide Heap.Valid, HandleOk, RoundOk, RoundCaused, OpOk, Detaches, Gone, AllStops, Rest, FiredInTurn, MadeSince;
      hide Now, AfterTurns, Turn;
      ghost var quiet := forall k, t :: t in pool ==> |script(k, t)| == 0;
      rounds := [];
      var fired := 0;
      NothingYet(selected, script);
      NoneMade(calls);
      while |ready| > 0
        invariant Valid() && FiredInTurn(selected, rounds, script, ready) && old(handles) <= handles
        invariant MadeSince(old(calls), calls, rounds)
        invariant fired == |rounds| && stops == old(stops) + AllStops(rounds)
        invariant quiet ==> time == old(time) && Now() == AfterTurns(was, time, selected, ready)
        invariant quiet ==> forall i :: 0 <= i < |ready| ==> ready[i] in selected
        decreases |ready|
      {
        ghost var before := ready;
        ghost var made := calls;
        var ops := script(fired, ready[0]);
        var round := FireHead(ops);
        MadeMore(old(calls), made, calls, rounds, round);
        if quiet { QuietTurn(was, time, selected, before); }
        NextRound(selected, rounds, script, before, round, ready);
        rounds := rounds + [round];
        fired := fired + 1;
      }
      AllInTurn(selected, rounds, script);
    }

    /** uv__run_timers.  selected are the timers found due, rounds the callbacks made. */
    method RunTimers(script: Script) returns (ghost selected: seq<Timer>, ghost rounds: seq<Round>)
      requires Valid() && ready == []
      requires forall k, t :: t in pool ==> forall m :: 0 <= m < |script(k, t)| ==> OpOk(script(k, t)[m], pool)
      modifies heap, this`handles, this`ready, this`stops, this`calls, this`counter, this`time, pool
      ensures Valid() && ready == [] && old(handles) <= handles
      ensures forall i :: 0 <= i < |selected| ==> selected[i] in old(handles)
      ensures forall t :: t in old(handles) ==> (t in selected <==> old(t.active && t.timeout <= time))
      ensures Unique(selected)
      ensures forall i, j :: 0 <= i < j < |selected| && selected[i] in old(handles) && selected[j] in old(handles) ==>
                || old(selected[i].timeout) < old(selected[j].timeout)
                || (old(selected[i].timeout) == old(selected[j].timeout) && old(selected[i].startId) <= old(selected[j].startId))
      ensures PassOk(selected, rounds, script)
      ensures MadeSince(old(calls), calls, rounds)
      ensures stops == old(stops) + (selected + AllStops(rounds))
      ensures (forall k, t :: t in pool ==> |script(k, t)| == 0) ==>
                Now() == AfterTurns(old(Now()), old(time), selected, [])
    {
      hide Heap.Valid, HandleOk, AfterTurns, PassOk, AllStops, MadeSince, Now, Unique, NodeSet;
      selected := Select();
      rounds := FireReady(script, selected, old(Now()));
    }

    /** The first loop, and what it leaves of the timers. */
    method Select() returns (ghost selected: seq<Timer>)
      requires Valid() && ready == []
      modifies heap, this`ready, this`stops, handles`active, handles`left, handles`right, handles`parent
      ensures Valid() && ready == selected && Unique(selected) && stops == old(stops) + selected
      ensures forall i :: 0 <= i < |selected| ==> selected[i] in old(handles)
      ensures forall t :: t in handles ==> (t in selected <==> old(t.active && t.timeout <= time))
      ensures forall i, j :: 0 <= i < j < |selected| && selected[i] in old(handles) && selected[j] in old(handles) ==>
                || old(selected[i].timeout) < old(selected[j].timeout)
                || (old(selected[i].timeout) == old(selected[j].timeout) && old(selected[i].startId) <= old(selected[j].startId))
      ensures Now() == AfterTurns(old(Now()), time, selected, ready)
    {
      hide Heap.Valid, HandleOk, AfterTurns;
      ghost var was := Now();
      CollectDue();
      SelectedNow(was);
      selected := ready;
      forall i, j | 0 <= i < j < |selected| && selected[i] in old(handles) && selected[j] in old(handles)
        ensures || old(selected[i].timeout) < old(selected[j].timeout)
                || (old(selected[i].timeout) == old(selected[j].timeout) && old(selected[i].startId) <= old(selected[j].startId))
      {
        assert !Less(KeyOf(selected[j]), KeyOf(selected[i]));
      }
    }
  }

  /** Two timers with one deadline, a started before b at the same or an earlier time:
      when both are called in the next run, a is called first. */
  method FirstStartedFirstCalled(loop: Loop, a: Timer, b: Timer, timeoutA: nat, repeatA: nat, timeoutB: nat, repeatB: nat,
                                 between: nat, later: nat, script: Script)
    requires loop.Valid() && loop.ready == [] && a in loop.handles && b in loop.handles && a != b && !a.closing && !b.closing
    requires timeoutA < TWO64 && timeoutB < TWO64 && repeatA < TWO64 && repeatB < TWO64 && between < TWO64 && later < TWO64
    requires Min(loop.time + timeoutA, TWO64 - 1) == Min(between + timeoutB, TWO64 - 1)
    requires loop.counter + 1 < TWO64
    requires forall k, t :: t in loop.pool ==> forall m :: 0 <= m < |script(k, t)| ==> OpOk(script(k, t)[m], loop.pool)
    modifies loop, loop.heap, loop.pool
    ensures loop.Valid() && CalledFirst(old(loop.calls), loop.calls, a, b)
  {
    hide Heap.Valid, Loop.HandleOk, OpOk, Unique;
    StartBoth(loop, a, b, timeoutA, repeatA, timeoutB, repeatB, between);
    SetTime(loop, later);
    RunBoth(loop, a, b, script);
  }

  /** Of the calls made since base every one for a is before every one for b. */
  predicate CalledFirst(base: seq<Call>, calls: seq<Call>, a: Timer, b: Timer) {
    && base <= calls
    && forall i, j :: |base| <= i < |calls| && |base| <= j < |calls| && calls[i].t == a && calls[j].t == b ==> i < j
  }

  /** uv_timer_start of a and, at another time, of b. */
  method StartBoth(loop: Loop, a: Timer, b: Timer, timeoutA: nat, repeatA: nat, timeoutB: nat, repeatB: nat, between: nat)
    requires loop.Valid() && loop.ready == [] && a in loop.handles && b in loop.handles && a != b && !a.closing && !b.closing
    requires timeoutA < TWO64 && timeoutB < TWO64 && repeatA < TWO64 && repeatB < TWO64 && between < TWO64
    requires loop.counter + 1 < TWO64
    modifies loop.heap, loop`ready, loop`stops, loop`counter, loop`time, loop.handles
    ensures loop.Valid() && loop.ready == []
    ensures a.timeout == Min(old(loop.time) + timeoutA, TWO64 - 1) && b.timeout == Min(between + timeoutB, TWO64 - 1)
    ensures a.startId < b.startId
  {
    hide Heap.Valid, Loop.HandleOk, Loop.Valid;
    var e := loop.TimerStart(a, true, timeoutA, repeatA);
    SetTime(loop, between);
    e := loop.TimerStart(b, true, timeoutB, repeatB);
  }

  /** The next run. */
  method RunBoth(loop: Loop, a: Timer, b: Timer, script: Script)
    requires loop.Valid() && loop.ready == [] && a in loop.handles && b in loop.handles && a != b
    requires a.timeout == b.timeout && a.startId < b.startId
    requires forall k, t :: t in loop.pool ==> forall m :: 0 <= m < |script(k, t)| ==> OpOk(script(k, t)[m], loop.pool)
    modifies loop, loop.heap, loop.pool
    ensures loop.Valid() && CalledFirst(old(loop.calls), loop.calls, a, b)
  {
    hide Heap.Valid, Loop.HandleOk, Loop.Valid, OpOk, PassOk, MadeSince, AllStops, AfterTurns, Unique, Loop.Now;
    ghost var selected, rounds := loop.RunTimers(script);
    MadeLater(old(loop.calls), loop.calls, rounds);
    forall i, j | |old(loop.calls)| <= i < |loop.calls| && |old(loop.calls)| <= j < |loop.calls|
                  && loop.calls[i].t == a && loop.calls[j].t == b
      ensures i < j
    {
      MadeAt(old(loop.calls), loop.calls, rounds, i);
      MadeAt(old(loop.calls), loop.calls, rounds, j);
      if j < i { FiredOnceInOrder(selected, rounds, script, j - |old(loop.calls)|, i - |old(loop.calls)|); }
    }
  }

  /** uv_update_time. */
  method SetTime(loop: Loop, now: nat)
    requires loop.Valid() && now < TWO64
    modifies loop`time
    ensures loop.Valid() && loop.time == now
  {
    hide Heap.Valid;
    loop.time := now;
  }

  lemma {:induction false} MadeLater(base: seq<Call>, calls: seq<Call>, rounds: seq<Round>)
    requires MadeSince(base, calls, rounds)
    ensures base <= calls
  {
  }

  lemma {:induction false} MadeAt(base: seq<Call>, calls: seq<Call>, rounds: seq<Round>, i: nat)
    requires MadeSince(base, calls, rounds) && |base| <= i < |calls|
    ensures i - |base| < |rounds| && rounds[i - |base|].t == calls[i].t
  {
    assert calls[|base|..][i - |base|] == calls[i];
  }

  /** What a pass can change in a timer. */
  datatype Was = Was(active: bool, timeout: nat, repeat: nat)

  /** Timer h was at the head of the ready queue and its callback does nothing. */
  ghost function Turn(m: map<Timer, Was>, h: Timer, now: nat): map<Timer, Was>
    requires h in m
  {
    if m[h].repeat == 0 then m else m[h := Was(true, Min(now + m[h].repeat, TWO64 - 1), m[h].repeat)]
  }

  /** What becomes of a timer in a pass at time now whose callbacks do nothing:
      unless it is due it stays as it is; a due one is inactive once selected, and
      when it has fired it is active again if it repeats, one interval from now. */
  function Expected(w: Was, now: nat, due: bool, waiting: bool): Was {
    if !due then w
    else if waiting || w.repeat == 0 then w.(active := false)
    else Was(true, Min(now + w.repeat, TWO64 - 1), w.repeat)
  }

  ghost function AfterTurns(was: map<Timer, Was>, now: nat, selected: seq<Timer>, ready: seq<Timer>): (m: map<Timer, Was>)
    ensures m.Keys == was.Keys
  {
    map t | t in was :: Expected(was[t], now, t in selected, t in ready)
  }

  /** One more turn of such a pass. */
  lemma {:induction false} QuietTurn(was: map<Timer, Was>, now: nat, selected: seq<Timer>, ready: seq<Timer>)
    requires |ready| > 0 && Unique(ready) && ready[0] in selected && ready[0] in was
    ensures Turn(AfterTurns(was, now, selected, ready), ready[0], now) == AfterTurns(was, now, selected, ready[1..])
  {
    assert ready[0] !in ready[1..];
    assert forall t :: t != ready[0] ==> (t in ready <==> t in ready[1..]) by { assert ready == [ready[0]] + ready[1..]; }
  }

  /** A callback that was made, and how many timers uv_timer_stop had run on before. */
  datatype Call = Call(t: Timer, stops: nat)

  /** The calls are those of the rounds, in order. */
  predicate Made(calls: seq<Call>, rounds: seq<Round>) {
    |calls| == |rounds| && forall k :: 0 <= k < |rounds| ==> calls[k].t == rounds[k].t
  }

  lemma {:induction false} MadeMore(base: seq<Call>, before: seq<Call>, after: seq<Call>, rounds: seq<Round>, round: Round)
    requires MadeSince(base, before, rounds) && |after| == |before| + 1 && after == before + [after[|before|]] && after[|before|].t == round.t
    ensures MadeSince(base, after, rounds + [round])
  {
    assert after[|base|..] == before[|base|..] + [after[|before|]];
  }

  lemma {:induction false} NoneMade(calls: seq<Call>)
    ensures MadeSince(calls, calls, [])
  {
  }

  /** The calls made since base are those of the rounds. */
  predicate MadeSince(base: seq<Call>, calls: seq<Call>, rounds: seq<Round>) {
    base <= calls && Made(calls[|base|..], rounds)
  }

  /** One callback of a run: the timer it was made for, and the timers that
      uv_timer_stop ran on from then until it returned. */
  datatype Round = Round(t: Timer, stopped: seq<Timer>)

  /** The timers that have had their callback or been stopped. */
  function Gone(rounds: seq<Round>): set<Timer> {
    if rounds == [] then {}
    else Gone(rounds[..|rounds| - 1]) + {rounds[|rounds| - 1].t} + NodeSet(rounds[|rounds| - 1].stopped)
  }

  function AllStops(rounds: seq<Round>): seq<Timer> {
    if rounds == [] then [] else AllStops(rounds[..|rounds| - 1]) + rounds[|rounds| - 1].stopped
  }

  /** The stops of a round come from its own restart or from its callback. */
  predicate RoundCaused(round: Round, ops: seq<Op>) {
    forall n :: 0 <= n < |round.stopped| ==>
      round.stopped[n] == round.t || exists m :: 0 <= m < |ops| && Names(ops[m], round.stopped[n])
  }

  /** t is the first of s not in gone. */
  predicate FirstOutside(s: seq<Timer>, gone: set<Timer>, t: Timer) {
    t !in gone && exists i :: 0 <= i < |s| && s[i] == t && forall j :: 0 <= j < i ==> s[j] in gone
  }

  /** A round fires the first selected timer that neither fired nor was stopped
      before; every selected timer its callback stops, closes or restarts is gone. */
  predicate RoundOk(selected: seq<Timer>, gone: set<Timer>, round: Round, ops: seq<Op>) {
    && FirstOutside(selected, gone, round.t)
    && RoundCaused(round, ops)
    && forall m :: 0 <= m < |ops| && Detaches(ops[m]) && ops[m].t in selected ==>
         ops[m].t in gone + {round.t} + NodeSet(round.stopped)
  }

  predicate PassOk(selected: seq<Timer>, rounds: seq<Round>, script: Script) {
    && RoundsOk(selected, rounds, script)
    && forall i :: 0 <= i < |selected| ==> selected[i] in Gone(rounds)
  }

  predicate RoundsOk(selected: seq<Timer>, rounds: seq<Round>, script: Script) {
    forall k :: 0 <= k < |rounds| ==> RoundOk(selected, Gone(rounds[..k]), rounds[k], script(k, rounds[k].t))
  }

  /** The timers of s not in gone. */
  function Rest(s: seq<Timer>, gone: set<Timer>): seq<Timer> {
    if s == [] then [] else if s[0] in gone then Rest(s[1..], gone) else [s[0]] + Rest(s[1..], gone)
  }

  lemma {:induction false} RestHas(s: seq<Timer>, gone: set<Timer>, t: Timer)
    requires t in s && t !in gone
    ensures t in Rest(s, gone)
  {
    if s[0] != t { RestHas(s[1..], gone, t); }
  }

  lemma {:induction false} RestFirst(s: seq<Timer>, gone: set<Timer>)
    requires |Rest(s, gone)| > 0
    ensures FirstOutside(s, gone, Rest(s, gone)[0])
  {
    if s[0] in gone {
      RestFirst(s[1..], gone);
      var i :| 0 <= i < |s| - 1 && s[1..][i] == Rest(s, gone)[0] && forall j :: 0 <= j < i ==> s[1..][j] in gone;
      forall j | 0 <= j < i + 1 ensures s[j] in gone { if j > 0 { assert s[1..][j - 1] == s[j]; } }
      assert s[i + 1] == Rest(s, gone)[0];
    } else {
      assert s[0] == Rest(s, gone)[0];
    }
  }

  lemma {:induction false} RestWithout(s: seq<Timer>, gone: set<Timer>, u: Timer)
    ensures Rest(s, gone + {u}) == Without(Rest(s, gone), u)
  {
    if s != [] {
      RestWithout(s[1..], gone, u);
      if s[0] !in gone { assert ([s[0]] + Rest(s[1..], gone))[1..] == Rest(s[1..], gone); }
    }
  }

  lemma {:induction false} RestSweep(s: seq<Timer>, gone: set<Timer>, ts: seq<Timer>)
    ensures Rest(s, gone + NodeSet(ts)) == Sweep(Rest(s, gone), ts)
  {
    if ts == [] {
      assert gone + NodeSet(ts) == gone;
    } else {
      var n := |ts| - 1;
      assert ts == ts[..n] + [ts[n]];
      AppendSet(ts[..n], ts[n]);
      RestSweep(s, gone, ts[..n]);
      RestWithout(s, gone + NodeSet(ts[..n]), ts[n]);
      assert gone + NodeSet(ts[..n]) + {ts[n]} == gone + NodeSet(ts);
    }
  }

  lemma {:induction false} WithoutHead(s: seq<Timer>)
    requires |s| > 0 && Unique(s)
    ensures Without(s, s[0]) == s[1..]
  {
    assert s[0] !in s[1..];
  }

  /** What the second loop keeps: the queue is what is left of the selected timers. */
  predicate FiredInTurn(selected: seq<Timer>, rounds: seq<Round>, script: Script, ready: seq<Timer>) {
    RoundsOk(selected, rounds, script) && ready == Rest(selected, Gone(rounds))
  }

  lemma {:induction false} NothingYet(selected: seq<Timer>, script: Script)
    ensures FiredInTurn(selected, [], script, selected) && AllStops([]) == []
  {
    RestNone(selected);
  }

  lemma {:induction false} RestNone(s: seq<Timer>)
    ensures Rest(s, {}) == s
  {
    if s != [] { RestNone(s[1..]); }
  }

  lemma {:induction false} NextRound(selected: seq<Timer>, rounds: seq<Round>, script: Script, ready: seq<Timer>, round: Round, ready': seq<Timer>)
    requires FiredInTurn(selected, rounds, script, ready) && |ready| > 0 && Unique(ready)
    requires round.t == ready[0] && ready' == Sweep(ready[1..], round.stopped)
    requires RoundCaused(round, script(|rounds|, round.t))
    requires var ops := script(|rounds|, round.t); forall m :: 0 <= m < |ops| && Detaches(ops[m]) ==> ops[m].t !in ready'
    ensures FiredInTurn(selected, rounds + [round], script, ready')
    ensures AllStops(rounds + [round]) == AllStops(rounds) + round.stopped
  {
    hide RoundCaused, Sweep, FirstOutside, Without;
    var gone := Gone(rounds);
    var rounds' := rounds + [round];
    assert rounds'[..|rounds|] == rounds;
    GoneMore(rounds, round);
    RestFirst(selected, gone);
    WithoutHead(ready);
    RestWithout(selected, gone, round.t);
    RestSweep(selected, gone + {round.t}, round.stopped);
    var ops := script(|rounds|, round.t);
    forall m | 0 <= m < |ops| && Detaches(ops[m]) && ops[m].t in selected
      ensures ops[m].t in gone + {round.t} + NodeSet(round.stopped)
    {
      if ops[m].t !in Gone(rounds') { RestHas(selected, Gone(rounds'), ops[m].t); }
    }
    forall k | 0 <= k < |rounds'|
      ensures RoundOk(selected, Gone(rounds'[..k]), rounds'[k], script(k, rounds'[k].t))
    {
      if k < |rounds| { assert rounds'[..k] == rounds[..k]; }
    }
  }

  lemma {:induction false} GoneMore(rounds: seq<Round>, round: Round)
    ensures Gone(rounds + [round]) == Gone(rounds) + {round.t} + NodeSet(round.stopped)
  {
    assert (rounds + [round])[..|rounds|] == rounds;
  }

  lemma {:induction false} AllInTurn(selected: seq<Timer>, rounds: seq<Round>, script: Script)
    requires FiredInTurn(selected, rounds, script, [])
    ensures PassOk(selected, rounds, script)
  {
    forall i | 0 <= i < |selected| ensures selected[i] in Gone(rounds) {
      if selected[i] !in Gone(rounds) { RestHas(selected, Gone(rounds), selected[i]); }
    }
  }

  // ---------- what a pass means for one timer ----------

  lemma {:induction false} GoneGrows(rounds: seq<Round>, k: nat, n: nat)
    requires k <= n <= |rounds|
    ensures Gone(rounds[..k]) <= Gone(rounds[..n])
    ensures forall i :: 0 <= i < k ==> rounds[i].t in Gone(rounds[..n])
    ensures forall i, j :: 0 <= i < k && 0 <= j < |rounds[i].stopped| ==> rounds[i].stopped[j] in Gone(rounds[..n])
    decreases n
  {
    if n == 0 {
    } else {
      assert rounds[..n] == rounds[..n - 1] + [rounds[n - 1]];
      GoneMore(rounds[..n - 1], rounds[n - 1]);
      GoneGrows(rounds, if k < n then k else n - 1, n - 1);
      var st := rounds[n - 1].stopped;
      forall j | 0 <= j < |st| ensures st[j] in Gone(rounds[..n]) { InNodeSet(st, j); }
    }
  }

  /** Each timer is fired at most once, in the order of selection, and only if selected. */
  lemma {:induction false} FiredOnceInOrder(selected: seq<Timer>, rounds: seq<Round>, script: Script, j: nat, k: nat)
    requires PassOk(selected, rounds, script) && j < k < |rounds|
    ensures rounds[j].t != rounds[k].t
    ensures exists a, b :: 0 <= a < b < |selected| && selected[a] == rounds[j].t && selected[b] == rounds[k].t
  {
    hide Gone, FirstOutside, RoundCaused, NodeSet, Unique, Detaches;
    GoneGrows(rounds, j + 1, k);
    GoneGrows(rounds, j, k);
    assert RoundOk(selected, Gone(rounds[..j]), rounds[j], script(j, rounds[j].t));
    assert RoundOk(selected, Gone(rounds[..k]), rounds[k], script(k, rounds[k].t));
    FirstIsIn(selected, Gone(rounds[..k]), rounds[k].t);
    FirstsInOrder(selected, Gone(rounds[..j]), Gone(rounds[..k]), rounds[j].t, rounds[k].t);
  }

  lemma {:induction false} FirstsInOrder(s: seq<Timer>, g: set<Timer>, g': set<Timer>, t: Timer, t': Timer)
    requires FirstOutside(s, g, t) && FirstOutside(s, g', t') && g <= g' && t in g'
    ensures exists a, b :: 0 <= a < b < |s| && s[a] == t && s[b] == t'
  {
    var a :| 0 <= a < |s| && s[a] == t && forall i :: 0 <= i < a ==> s[i] in g;
    var b :| 0 <= b < |s| && s[b] == t' && forall i :: 0 <= i < b ==> s[i] in g';
    assert forall i :: 0 <= i < a ==> s[i] in g';
  }

  lemma {:induction false} FirstIsIn(s: seq<Timer>, gone: set<Timer>, t: Timer)
    requires FirstOutside(s, gone, t)
    ensures t in s && t !in gone
  {
  }

  /** When no callback does anything, the selected timers are fired one by one. */
  lemma {:induction false} QuietPass(selected: seq<Timer>, rounds: seq<Round>, script: Script)
    requires PassOk(selected, rounds, script) && Unique(selected)
    requires forall k :: 0 <= k < |rounds| ==> |script(k, rounds[k].t)| == 0
    ensures |rounds| == |selected|
    ensures forall k :: 0 <= k < |rounds| ==> rounds[k].t == selected[k]
  {
    hide Gone, RoundsOk, Unique;
    assert rounds[..|rounds|] == rounds;
    QuietPrefix(selected, rounds, script, |rounds|);
    if |selected| > 0 { assert selected[|selected| - 1] in Gone(rounds); }
  }

  lemma {:induction false} QuietPrefix(selected: seq<Timer>, rounds: seq<Round>, script: Script, n: nat)
    requires RoundsOk(selected, rounds, script) && Unique(selected) && n <= |rounds|
    requires forall k :: 0 <= k < |rounds| ==> |script(k, rounds[k].t)| == 0
    ensures n <= |selected|
    ensures forall k :: 0 <= k < n ==> rounds[k].t == selected[k]
    ensures forall i :: 0 <= i < |selected| ==> (selected[i] in Gone(rounds[..n]) <==> i < n)
  {
    hide Gone, RoundCaused, FirstOutside, Unique;
    if n == 0 {
      NothingGone();
    } else {
      var round := rounds[n - 1];
      QuietPrefix(selected, rounds, script, n - 1);
      assert rounds[..n] == rounds[..n - 1] + [round];
      GoneMore(rounds[..n - 1], round);
      assert RoundOk(selected, Gone(rounds[..n - 1]), round, script(n - 1, round.t));
      OwnStops(round, script(n - 1, round.t));
      FirstLeft(selected, Gone(rounds[..n - 1]), round.t, n - 1);
    }
  }

  lemma {:induction false} NothingGone()
    ensures Gone([]) == {}
  {
  }

  /** A callback that does nothing stops nothing: all stops come from its timer's restart. */
  lemma {:induction false} OwnStops(round: Round, ops: seq<Op>)
    requires RoundCaused(round, ops) && |ops| == 0
    ensures NodeSet(round.stopped) <= {round.t}
  {
  }

  lemma {:induction false} FirstLeft(s: seq<Timer>, gone: set<Timer>, t: Timer, n: nat)
    requires FirstOutside(s, gone, t) && Unique(s)
    requires forall i :: 0 <= i < |s| ==> (s[i] in gone <==> i < n)
    ensures n < |s| && s[n] == t && forall i :: 0 <= i < |s| && s[i] == t ==> i == n
  {
    var i :| 0 <= i < |s| && s[i] == t && forall j :: 0 <= j < i ==> s[j] in gone;
    if i > 0 { assert s[i - 1] in gone; }
  }

  /** A timer stopped, closed or restarted by one callback is not fired by a later turn. */
  lemma {:induction false} DetachedNotFired(selected: seq<Timer>, rounds: seq<Round>, script: Script, j: nat, k: nat, m: nat)
    requires PassOk(selected, rounds, script) && j < k < |rounds|
    requires m < |script(j, rounds[j].t)|
    requires !script(j, rounds[j].t)[m].UpdateTime? && Detaches(script(j, rounds[j].t)[m])
    ensures rounds[k].t != script(j, rounds[j].t)[m].t
  {
    hide Gone, NodeSet, FirstOutside, RoundCaused, Detaches;
    var ops := script(j, rounds[j].t);
    assert RoundOk(selected, Gone(rounds[..j]), rounds[j], ops);
    assert RoundOk(selected, Gone(rounds[..k]), rounds[k], script(k, rounds[k].t));
    assert rounds[..j + 1] == rounds[..j] + [rounds[j]];
    GoneMore(rounds[..j], rounds[j]);
    GoneGrows(rounds, j + 1, k);
    FirstIsIn(selected, Gone(rounds[..k]), rounds[k].t);
    assert ops[m].t in selected ==> ops[m].t in Gone(rounds[..j + 1]);
  }

  /** Whatever uv_timer_stop ran on during one turn, be it called directly or by
      close, start, or again with a repeat value, is not fired by a later turn. */
  lemma {:induction false} StoppedNotFired(selected: seq<Timer>, rounds: seq<Round>, script: Script, j: nat, k: nat, t: Timer)
    requires PassOk(selected, rounds, script) && j < k < |rounds| && t in rounds[j].stopped
    ensures rounds[k].t != t
  {
    hide Gone, NodeSet, FirstOutside, RoundCaused, Detaches;
    assert RoundOk(selected, Gone(rounds[..k]), rounds[k], script(k, rounds[k].t));
    GoneGrows(rounds, k, k);
    FirstIsIn(selected, Gone(rounds[..k]), rounds[k].t);
  }

  /** A selected timer that is not fired was stopped during the turn of another,
      whose callback names it. */
  lemma {:induction false} SkippedWasNamed(selected: seq<Timer>, rounds: seq<Round>, script: Script, i: nat)
    requires PassOk(selected, rounds, script) && i < |selected|
    requires forall k :: 0 <= k < |rounds| ==> rounds[k].t != selected[i]
    ensures exists k, m :: 0 <= k < |rounds| && 0 <= m < |script(k, rounds[k].t)| && Names(script(k, rounds[k].t)[m], selected[i])
  {
    var k := WhoRemoved(rounds, selected[i]);
    assert RoundOk(selected, Gone(rounds[..k]), rounds[k], script(k, rounds[k].t));
    var n :| 0 <= n < |rounds[k].stopped| && rounds[k].stopped[n] == selected[i];
    var m :| 0 <= m < |script(k, rounds[k].t)| && Names(script(k, rounds[k].t)[m], rounds[k].stopped[n]);
  }

  lemma {:induction false} WhoRemoved(rounds: seq<Round>, t: Timer) returns (k: nat)
    requires t in Gone(rounds)
    ensures k < |rounds| && (rounds[k].t == t || t in rounds[k].stopped)
  {
    var n := |rounds| - 1;
    if rounds[n].t == t || t in NodeSet(rounds[n].stopped) {
      k := n;
    } else {
      k := WhoRemoved(rounds[..n], t);
    }
  }

  lemma {:induction false} CauseJoin(round: Round, first: seq<Timer>, rest: seq<Timer>, ops: seq<Op>)
    requires round.stopped == first + rest && CausedBy(rest, ops)
    requires forall n :: 0 <= n < |first| ==> first[n] == round.t
    ensures RoundCaused(round, ops)
  {
    forall n | 0 <= n < |round.stopped|
      ensures round.stopped[n] == round.t || exists m :: 0 <= m < |ops| && Names(ops[m], round.stopped[n])
    {
      if n >= |first| { assert round.stopped[n] == rest[n - |first|]; }
    }
  }

  /** No timer of the queue is less than one before it. */
  ghost predicate Ascending(s: seq<Timer>)
    reads s`timeout, s`startId
  {
    forall i, j :: 0 <= i < j < |s| ==> !Less(KeyOf(s[j]), KeyOf(s[i]))
  }

  /** No timer of rest is less than one of s. */
  ghost predicate NoneBelow(s: seq<Timer>, rest: set<Timer>)
    reads s`timeout, s`startId, rest`timeout, rest`startId
  {
    forall i, t :: 0 <= i < |s| && t in rest ==> !Less(KeyOf(t), KeyOf(s[i]))
  }

  lemma {:induction false} InNodeSetIff(s: seq<Timer>)
    ensures forall t :: t in NodeSet(s) <==> t in s
  {
  }

  lemma NoneYet(rest: set<Timer>)
    ensures Ascending([]) && NoneBelow([], rest)
  {
  }

  lemma {:induction false} MinusOne(all: set<Timer>, taken: set<Timer>, h: Timer)
    ensures (all - taken) - {h} == all - (taken + {h})
  {
  }

  lemma {:induction false} AscendingMore(s: seq<Timer>, rest: set<Timer>, h: Timer)
    requires Ascending(s) && NoneBelow(s, rest) && h in rest
    requires forall t :: t in rest ==> !Less(KeyOf(t), KeyOf(h))
    ensures Ascending(s + [h]) && NoneBelow(s + [h], rest - {h})
  {
    var s' := s + [h];
    forall i, j | 0 <= i < j < |s'| ensures !Less(KeyOf(s'[j]), KeyOf(s'[i])) {
      if j < |s| { assert s'[j] == s[j]; }
    }
  }

  /** Every stop was run on a timer that some operation names. */
  predicate CausedBy(stopped: seq<Timer>, ops: seq<Op>) {
    forall n :: 0 <= n < |stopped| ==> exists m :: 0 <= m < |ops| && Names(ops[m], stopped[n])
  }

  lemma {:induction false} SweepNone(s: seq<Timer>)
    ensures Sweep(s, []) == s
  {
  }

  lemma {:induction false} SweepTwice(s: seq<Timer>, t: Timer)
    ensures Sweep(s, [t]) == Without(s, t) && Sweep(s, [t, t]) == Without(s, t) && Sweep(s, []) == s
  {
    assert [t][..0] == [] && [t, t][..1] == [t];
  }

  /** The 64-bit sum of now and timeout, or the largest time when it wraps. */
  function Deadline(now: nat, timeout: nat): (r: nat)
    requires now < TWO64 && timeout < TWO64
    ensures r == Min(now + timeout, TWO64 - 1)
  {
    var sum := (now + timeout) % TWO64;
    if sum < timeout then TWO64 - 1 else sum
  }

  function Min(a: nat, b: nat): nat { if a < b then a else b }
}
