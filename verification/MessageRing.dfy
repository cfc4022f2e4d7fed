/**
 A module's message queue (module.c): a ring of slots under a mutex that any
 thread fills and the loop thread drains.  Here the ring itself; the protocol
 around it is in AsyncWakeup.
 */
module MessageRing {
  const QUEUE_SIZE: nat := 64

  /** armd_msg_t; what it holds does not matter to the queue. */
  datatype Message = Message(kind: int, data: seq<int>)

  /** The messages of a ring, oldest first. */
  function Queued(msgs: seq<Message>, head: nat, tail: nat): (q: seq<Message>)
    requires |msgs| == QUEUE_SIZE && head < QUEUE_SIZE && tail < QUEUE_SIZE
    ensures |q| == Count(head, tail) < QUEUE_SIZE
  {
    seq(Count(head, tail), i requires 0 <= i < Count(head, tail) => msgs[Slot(tail, i)])
  }

  /** The slot i places after tail. */
  function Slot(tail: nat, i: nat): (r: nat)
    ensures r < QUEUE_SIZE
  {
    (tail + i) % QUEUE_SIZE
  }

  /** How many messages lie between tail and head. */
  function Count(head: nat, tail: nat): (n: nat)
    requires head < QUEUE_SIZE && tail < QUEUE_SIZE
    ensures n < QUEUE_SIZE && (n == 0 <==> head == tail) && (tail + n) % QUEUE_SIZE == head
    ensures n == QUEUE_SIZE - 1 <==> (head + 1) % QUEUE_SIZE == tail
  {
    if head >= tail then head - tail else head + QUEUE_SIZE - tail
  }

  /** Filling the slot at head appends. */
  lemma {:induction false} PutAppends(msgs: seq<Message>, head: nat, tail: nat, m: Message)
    requires |msgs| == QUEUE_SIZE && head < QUEUE_SIZE && tail < QUEUE_SIZE && (head + 1) % QUEUE_SIZE != tail
    ensures Queued(msgs[head := m], (head + 1) % QUEUE_SIZE, tail) == Queued(msgs, head, tail) + [m]
  {
    var n := Count(head, tail);
    assert Count((head + 1) % QUEUE_SIZE, tail) == n + 1;
    forall i | 0 <= i < n ensures Slot(tail, i) != head { Apart(tail, i, n); }
  }

  lemma {:induction false} Apart(tail: nat, i: nat, n: nat)
    requires tail < QUEUE_SIZE && i < n < QUEUE_SIZE
    ensures Slot(tail, i) != Slot(tail, n)
  {
  }

  /** Moving tail takes the oldest. */
  lemma {:induction false} TakeRemoves(msgs: seq<Message>, head: nat, tail: nat)
    requires |msgs| == QUEUE_SIZE && head < QUEUE_SIZE && tail < QUEUE_SIZE && head != tail
    ensures Queued(msgs, head, tail) == [msgs[tail]] + Queued(msgs, head, (tail + 1) % QUEUE_SIZE)
  {
    var n := Count(head, tail);
    assert Count(head, (tail + 1) % QUEUE_SIZE) == n - 1;
    forall i | 0 <= i < n - 1 ensures Slot(Slot(tail, 1), i) == Slot(tail, i + 1) {
    }
  }

  /** armd_msg_queue_t. */
  class MessageQueue {
    const msgs: array<Message>
    var head: nat
    var tail: nat

    constructor ()
      ensures Valid() && Contents() == [] && fresh(msgs)
    {
      msgs := new Message[QUEUE_SIZE](_ => Message(0, []));
      head, tail := 0, 0;
    }

    ghost predicate Valid()
      reads this
    {
      msgs.Length == QUEUE_SIZE && head < QUEUE_SIZE && tail < QUEUE_SIZE
    }

    ghost function Contents(): (q: seq<Message>)
      requires Valid()
      reads this, msgs
      ensures |q| < QUEUE_SIZE
    {
      Queued(msgs[..], head, tail)
    }

    /** The locked part of armd_module_post: refused exactly when 63 messages wait. */
    method Post(m: Message) returns (ok: bool)
      requires Valid()
      modifies this, msgs
      ensures Valid()
      ensures ok <==> |old(Contents())| < QUEUE_SIZE - 1
      ensures Contents() == if ok then old(Contents()) + [m] else old(Contents())
    {
      var nextHead := (head + 1) % QUEUE_SIZE;
      if nextHead == tail { return false; }
      PutAppends(msgs[..], head, tail, m);
      ghost var was := msgs[..];
      msgs[head] := m;
      assert msgs[..] == was[head := m];
      head := nextHead;
      ok := true;
    }

    /** The locked part of one turn of async_callback. */
    method Take() returns (found: bool, m: Message)
      requires Valid()
      modifies this
      ensures Valid()
      ensures found <==> old(Contents()) != []
      ensures if found then old(Contents()) == [m] + Contents() else Contents() == old(Contents())
    {
      m := msgs[tail];
      if tail == head { return false, m; }
      TakeRemoves(msgs[..], head, tail);
      tail := (tail + 1) % QUEUE_SIZE;
      found := true;
    }

    /** async_callback while nobody posts: everything is handed on, oldest first. */
    method Drain() returns (handed: seq<Message>)
      requires Valid()
      modifies this
      ensures Valid() && handed == old(Contents()) && Contents() == []
    {
      hide Queued;
      handed := [];
      while true
        invariant Valid() && handed + Contents() == old(Contents())
        decreases |Contents()|
      {
        var found, m := Take();
        if !found { break; }
        handed := handed + [m];
      }
    }
  }
}
