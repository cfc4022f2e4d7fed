# Verified models of armd's libuv and cJSON cores

armd is a small Linux daemon built on its own module layer and on vendored copies
of libuv and cJSON. This project models the parts of it whose correctness is
hardest to see from the code, in Dafny, and proves what they are there for:

- **Thread pool** (`ThreadPool`, `ThreadPoolProofs`, `ThreadPoolOrder`,
  `ThreadPoolProgress`): a state machine over the
  mutex-protected regions of the workers, `post`, `uv__work_cancel` and
  `uv__work_done`. Proved over all runs: one place per request, one done
  callback with the right status, an accounted slow lane, no lost wake-up, queues
  that are first in first out, short critical sections, and that the pool, left to
  itself, stops and only with everything done.
- **Red-black tree** (`RbShape`, `RbFields`, `RbRemoval`, `RedBlackTree`): pointer
  nodes rewritten in place. `RbShape` and `RbRemoval` reason about tree shapes
  seen from a hole (a context and a subtree), `RbFields` says which pointer fields
  a shape stands for, `RedBlackTree` is the code.
- **Pointer heap and timers** (`HeapShape`, `PointerHeap`, `Timers`): the
  complete binary tree whose positions are decoded from the bits of the element
  count, and the timers on top of it. A timer callback is an arbitrary script of
  timer operations, chosen anew for every call.
- **Text codecs**: UTF-8 decoding and host names to ASCII (`Utf8`, `Punycode`,
  `PunycodeParameters`, `PunycodeSample`, `Idna`; RFC 3629 and RFC 3492), WTF-8
  (`Wtf8`), IPv4 and IPv6 text (`InetText`, `InetRoundTrip`, `InetLetters`,
  `InetForms`, `Inet`; section 2.2 of RFC 4291, section 4 of RFC 5952).
- **JSON** (`Json`, `JsonRoundTrip`, `JsonLiterals`, `JsonGrammar`, `JsonLayout`,
  `JsonPrinter`, `JsonParser`; RFC 8259): a pure renderer and reader, the laws
  between them, a declarative grammar that the reader meets exactly, and the
  imperative printer and parser proved to be them. `ChildList` is the linked list of children.
- **Small concurrent protocols**: the portable barrier (`Barrier`), the
  daemon's message ring (`MessageRing`) and its wake-up through libuv's coalescing
  async handle (`AsyncWakeup`). `Queue` is libuv's circular list.

Code that changes state in place is modelled by classes, arrays and loops, each
method proved against a specification function or the ghost contents; the
concurrent parts are step relations whose runs interleave arbitrarily, with
sequentially consistent memory and condition waits that may end spuriously.

`dafny verify dfyconfig.toml` verifies the whole project.

## What the proofs found

- The UTF-8 decoder tests the continuation bits of a sequence's bytes only in
  combination, and reads a sequence that the end of the text cuts short as a
  shorter one. Accepted input is well formed exactly when it begins with a complete
  sequence, a lead byte and as many continuation bytes as it announces
  (`Utf8.AcceptedIsWellFormedIff`, `Utf8.CompleteIsExact`);
  `Utf8.AcceptsTwoLeads` and `Utf8.AcceptsCutShort` give families that are not.
- The length `uv_utf16_to_wtf8` reports with UV_ENOBUFS is the length needed unless
  not even the first character fits; then it is too large by the buffer's
  capacity. `Wtf8.Utf16ToWtf8` states both cases.
- The header of cJSON advises 5 spare bytes for `cJSON_PrintPreallocated`. It
  needs exactly one besides the terminator: `JsonPrinter.PrintPreallocated` is an
  equivalence.
- After a cancelled request's done callback has run, the cancellation test would
  pass again: `ThreadPoolProofs.CancelOutcome` says exactly when,
  `ThreadPoolProofs.CancelTestPassesAfterDone` gives a run. The model's contract is
  that a request is not cancelled once its done callback has started.
- A `\u` escape with bad digits is not refused but read as code point 0, as
  `parse_hex4` returns 0: `Json.BadDigitsAccepted` shows it for `\uZZZZ`, and by
  `Json.ZeroEscapeIff` an escape means code point 0 exactly when its digits are 0000
  or one of them is no hexadecimal digit.
- The copy path of cJSON's `ensure`, taken when there is no realloc hook, copies
  offset + 1 bytes. That is one more than an empty buffer has, as
  `cJSON_PrintBuffered` makes it for a prebuffer of 0; for every other buffer it is
  right (`JsonPrinter.PrintBuffer.CopyStaysInside`). The model copies what is there.
- The test of `inet_ntop6` for a run of seven zero words before an IPv4 tail can
  never hold where it stands, as word 6 is then inside the run:
  `Inet.SevenCoversSix`.

## Model

| member | source | states |
|---|---|---|
| `ThreadPoolProofs.OnePlaceOneDone` | lib/libuv/src/threadpool.c:57-161 | in every state of every run a submitted request is in exactly one place (global queue, slow queue, one worker, its loop's completion queue, being drained, being cancelled, finished); its work function and its done callback have each been called at most once; done got UV_ECANCELED exactly when the work never ran |
| `ThreadPoolProofs.NoLostWakeup` | lib/libuv/src/threadpool.c:72-160 | for every interleaving of post, cancel, slow-work completion and exit: while a worker sleeps unsignalled and the mutex is free, at least as many workers are on their way to the queue as there are entries to take, and at no moment is takeable work left to sleepers alone |
| `ThreadPoolProofs.AsleepMeansDrained` | lib/libuv/src/threadpool.c:72-160 | when every live worker sleeps, both work queues are empty and no exit message is posted |
| `ThreadPoolProofs.SlowLaneScheduled` | lib/libuv/src/threadpool.c:88-155 | with the mutex free, a non-empty slow queue means its message is linked in the global queue exactly once; slow_io_work_running and idle_threads count exactly the workers they should, the former never above (nthreads + 1) / 2 |
| `ThreadPoolProofs.CompletionAnnounced` | lib/libuv/src/threadpool.c:125-130 | a request in a completion queue is announced: the loop's async handle is pending or uv__work_done is about to take the queue |
| `ThreadPoolProofs.CancelOutcome` | lib/libuv/src/threadpool.c:292-316 | exactly when the cancellation test passes: before done, for a request still queued for a worker or already cancelled and not yet drained; after done, for a cancelled one, which is why a finished request must not be cancelled |
| `ThreadPoolProofs.CancelTestPassesAfterDone` | lib/libuv/src/threadpool.c:299-342 | there is a run that reaches a state in which done has been called for a cancelled request and the cancellation test would pass again |
| `ThreadPoolProofs.CancelIsFinal` | lib/libuv/src/threadpool.c:299-311 | once a cancellation has taken a request, no later state has a worker holding it or its work function called, and its done callback is told UV_ECANCELED |
| `ThreadPoolProofs.WorkerCallsSubmitted` | lib/libuv/src/threadpool.c:120-127 | a worker about to call w->work calls the submitted function for the first time, never NULL and never uv__cancelled (which aborts) |
| `ThreadPoolProofs.CancellableNotRun` | lib/libuv/src/threadpool.c:299-301 | a request that passes the cancellation test and has not finished has not had its work function called |
| `ThreadPoolProofs.StepInv` | lib/libuv/src/threadpool.c:57-316 | one step of any thread keeps the whole invariant: places, field contents, counters, slow lane, wake-ups and announcements |
| `ThreadPoolProofs.StepCounters` | lib/libuv/src/threadpool.c:72-138 | idle_threads, slow_io_work_running and the mutex holder stay exact, the slow counter within its threshold |
| `ThreadPoolProofs.StepSlowLane` | lib/libuv/src/threadpool.c:92-155 | the slow-work message is linked, or held by one worker, whenever slow work is pending, and never twice |
| `ThreadPoolProofs.StepWakes` | lib/libuv/src/threadpool.c:72-160 | no step leaves more takeable entries than workers on their way while a worker sleeps |
| `ThreadPoolProofs.StepReqOk` | lib/libuv/src/threadpool.c:57-342 | one step keeps a request in exactly one place with fields that fit the place |
| `ThreadPoolProofs.RunInv` | lib/libuv/src/threadpool.c:57-342 | the invariant holds in every state of every run |
| `ThreadPoolOrder.QueuesInOrder` | lib/libuv/src/threadpool.c:72-160 | in every step of every run the global queue and the slow queue stay, gain one element at the tail, lose their head to a worker, or lose a request that is being cancelled; a request comes in only when it is submitted |
| `ThreadPoolOrder.FastInOrder` | lib/libuv/src/threadpool.c:88-155 | requests leave the global queue in the order in which they were submitted: while the earlier one waits, the later one waits behind it or has been cancelled |
| `ThreadPoolOrder.SlowInOrder` | lib/libuv/src/threadpool.c:111-145 | the same for slow requests and the slow queue |
| `ThreadPoolOrder.CompletionsInOrder` | lib/libuv/src/threadpool.c:125-130 | what a loop has yet to call done for gains finished requests at the tail, and done is called for its head only |
| `ThreadPoolOrder.DoneInOrder` | lib/libuv/src/threadpool.c:125-342 | of two requests of a loop the one that finished first has its done callback called first, unless it is cancelled meanwhile |
| `ThreadPoolProgress.SubmitQueues` | lib/libuv/src/threadpool.c:137-160 | a submitted request is recorded and stands last in its queue; the message for slow work is linked, at the tail if it was not |
| `ThreadPoolProgress.CancelTakes` | lib/libuv/src/threadpool.c:292-316 | a cancellation whose test passes takes the request out of every queue; one whose test fails changes nothing |
| `ThreadPoolProgress.WaitsOnlyWhenFull` | lib/libuv/src/threadpool.c:78-86 | a worker goes to sleep only when the global queue is empty, or holds just the message for slow work while exactly (nthreads + 1) / 2 workers are busy with slow work |
| `ThreadPoolProgress.PutOffOnlyWhenFull` | lib/libuv/src/threadpool.c:98-105 | slow work is put off only when exactly (nthreads + 1) / 2 workers do slow work, and its message goes behind everything in the queue |
| `ThreadPoolProgress.ShortSections` | lib/libuv/src/threadpool.c:72-118 | in every stretch of a run over which a worker keeps the pool mutex at most three steps are its own, so that of any four consecutive ones one releases it |
| `ThreadPoolProgress.HolderCanStep` | lib/libuv/src/threadpool.c:72-118 | the worker that holds the mutex can always take a step |
| `ThreadPoolProgress.StepsAreBounded` | lib/libuv/src/threadpool.c:57-342 | left to themselves, with no call from outside and no condition wait that ends by itself, workers and loops stop after a bounded number of steps, whatever their order |
| `ThreadPoolProgress.OwnStepDown` | lib/libuv/src/threadpool.c:57-342 | every such step uses up some of the work left |
| `ThreadPoolProgress.RestMeansDone` | lib/libuv/src/threadpool.c:57-342 | where they stop every loop is idle with nothing to do; before the exit message every request has had its done callback, all queues are empty and every worker sleeps; after it every worker has left |
| `ThreadPoolProgress.CanFinish` | lib/libuv/src/threadpool.c:57-342 | from every reachable state the pool comes to such a rest by steps of its own |
| `ThreadPool.PoolSize` | lib/libuv/src/threadpool.c:204-217 | the pool has 1 to 1024 threads: 4 when the variable is unset, 1 for 0, 1024 for more than 1024, a value within the limits as it is; a negative one wraps to unsigned and gives 1024 |
| `RedBlackTree.Tree.Insert` | lib/libuv/include/uv/tree.h:351-379 | an element with an equal key is returned and the tree is unchanged; otherwise the new element is inserted at one position of the ordered contents and nothing else moves; order, parent links, black root, no red-red edge and equal black height are kept |
| `RedBlackTree.Tree.InsertColor` | lib/libuv/include/uv/tree.h:160-202 | the fix-up loop turns a tree with at most one red-red edge, above elm, into a proper red-black tree with the same ordered contents |
| `RedBlackTree.Tree.InsertLeft` | lib/libuv/include/uv/tree.h:166-182 | one turn of the loop below a left parent: the defect moves at least one level up, contents unchanged |
| `RedBlackTree.Tree.InsertRight` | lib/libuv/include/uv/tree.h:166-199 | the mirror turn below a right parent |
| `RedBlackTree.Tree.Remove` | lib/libuv/include/uv/tree.h:283-348 | exactly the given element leaves the ordered contents; all tree invariants are kept and the element is returned |
| `RedBlackTree.Tree.RemoveColor` | lib/libuv/include/uv/tree.h:205-281 | the fix-up loop turns a tree one black node short at one place into a proper red-black tree with the same ordered contents |
| `RedBlackTree.Tree.RemoveLeft` | lib/libuv/include/uv/tree.h:211-243 | one turn with elm a left child: settled, or the short place is higher up or red; contents unchanged |
| `RedBlackTree.Tree.RemoveRight` | lib/libuv/include/uv/tree.h:244-277 | the mirror turn with elm a right child |
| `RedBlackTree.Tree.RemoveOneChild` | lib/libuv/include/uv/tree.h:288-291 | removing an element with at most one child by splicing that child in, with the fix-up when it was black |
| `RedBlackTree.Tree.RemoveTwoChildren` | lib/libuv/include/uv/tree.h:292-330 | removing an element with two children: its successor is spliced out and takes its place, links and colour |
| `RedBlackTree.Tree.Successor` | lib/libuv/include/uv/tree.h:294-299 | the walk finds the leftmost element of the right subtree |
| `RedBlackTree.Tree.TakePlace` | lib/libuv/include/uv/tree.h:312-323 | after the copy of the fields and the parent and child corrections the pointers spell the tree with the one node in the other's place |
| `RedBlackTree.Tree.Unlink` | lib/libuv/include/uv/tree.h:332-343 | after the splice the pointers spell the tree without elm, its child in its place |
| `RedBlackTree.Tree.RotateLeftAt` | lib/libuv/include/uv/tree.h:95-113 | a left rotation makes the pointers spell the rotated tree, contents unchanged |
| `RedBlackTree.Tree.RotateRightAt` | lib/libuv/include/uv/tree.h:115-133 | a right rotation makes the pointers spell the rotated tree, contents unchanged |
| `RedBlackTree.Tree.Find` | lib/libuv/include/uv/tree.h:382-397 | the element with the key, or NULL exactly when no element has it |
| `RedBlackTree.Tree.Nfind` | lib/libuv/include/uv/tree.h:400-418 | the first element in order whose key is at least the given one, or NULL when all are below |
| `RedBlackTree.Tree.Next` | lib/libuv/include/uv/tree.h:421-440 | the element that follows in the ordered contents, or NULL after the last |
| `RedBlackTree.Tree.MinMax` | lib/libuv/include/uv/tree.h:464-477 | the first or the last element of the ordered contents |
| `RbShape.HeightBound` | lib/libuv/include/uv/tree.h:37-48 | every red-black tree of n elements has height at most 2 lg(n + 1) |
| `RbShape.UnplugRedBlack` | lib/libuv/include/uv/tree.h:37-48 | a proper tree cut at any node leaves a proper subtree and a context of matching colour and black height |
| `RbShape.RecolouredLeft` | lib/libuv/include/uv/tree.h:168-174 | the red-uncle recolouring moves the red-red defect two levels up |
| `RbShape.OuterLeft` | lib/libuv/include/uv/tree.h:181-182 | with a black uncle and an outer grandchild one rotation removes the defect |
| `RbShape.InnerLeft` | lib/libuv/include/uv/tree.h:175-182 | with a black uncle and an inner grandchild two rotations remove the defect |
| `RbShape.FixingDone` | lib/libuv/include/uv/tree.h:201 | when the loop stops, blackening the root completes the tree |
| `RbShape.InsertedInorder` | lib/libuv/include/uv/tree.h:357-376 | hanging the new element where the search ended keeps the contents ordered and adds only it |
| `RbFields.LeftRotation` | lib/libuv/include/uv/tree.h:95-113 | the pointer writes of RB_ROTATE_LEFT are exactly the difference between the two trees, and the order of the contents is kept |
| `RbFields.RightRotation` | lib/libuv/include/uv/tree.h:115-133 | the pointer writes of RB_ROTATE_RIGHT are exactly the difference between the two trees, and the order of the contents is kept |
| `RbFields.Attach` | lib/libuv/include/uv/tree.h:368-376 | RB_SET and one link write are exactly the difference made by a new red leaf |
| `RbRemoval.Splice` | lib/libuv/include/uv/tree.h:332-343 | the writes that replace a node by its only child are exactly the difference between the two trees |
| `RbRemoval.Substitute` | lib/libuv/include/uv/tree.h:312-323 | the writes that put one node in another's place are exactly the difference between the two trees |
| `RbRemoval.SuccessorInorder` | lib/libuv/include/uv/tree.h:293-330 | taking the successor out of the right subtree and putting it in n's place removes n and nothing else |
| `RbRemoval.RedSiblingLeft` | lib/libuv/include/uv/tree.h:213-217 | a red sibling: after the rotation the place is still one black short, with a black sibling |
| `RbRemoval.BlackNephewsLeft` | lib/libuv/include/uv/tree.h:218-224 | black nephews: reddening the sibling moves the shortage to the parent |
| `RbRemoval.FarNephewLeft` | lib/libuv/include/uv/tree.h:236-242 | a red outer nephew: one rotation completes the tree |
| `RbRemoval.NearNephewLeft` | lib/libuv/include/uv/tree.h:226-235 | a red inner nephew only: rotating it up gives the outer case |
| `RbRemoval.LeftOrRight` | lib/libuv/include/uv/tree.h:211 | the test RB_LEFT(parent) == elm finds the right side even for a NULL elm |
| `RbRemoval.ShortDone` | lib/libuv/include/uv/tree.h:279-280 | when the loop stops, blackening elm completes the tree |
| `PointerHeap.PathTo` | lib/libuv/src/heap-inl.h:119-124 | following the computed path of k bits from the root reaches exactly node number n, and the path has no more bits than the count |
| `PointerHeap.Heap.Walk` | lib/libuv/src/heap-inl.h:126-136 | the walk ends at the very link that holds, or will hold, the given node number, and one link above it |
| `PointerHeap.Heap.SwapNodes` | lib/libuv/src/heap-inl.h:72-104 | the pointers of the tree with exactly parent and child exchanged |
| `PointerHeap.Heap.SiftUp` | lib/libuv/src/heap-inl.h:143-147 | from the one possibly unordered node the loop restores the heap order with the same nodes |
| `PointerHeap.Heap.SiftDown` | lib/libuv/src/heap-inl.h:216-229 | the loop moves the defect down until no child is less, with the same nodes |
| `PointerHeap.Heap.Insert` | lib/libuv/src/heap-inl.h:106-148 | complete tree, links and min-heap order kept; the node set gains exactly the new node and nelts one |
| `PointerHeap.Heap.Remove` | lib/libuv/src/heap-inl.h:150-237 | complete tree, links and order kept; exactly the given member leaves; an empty heap is left alone |
| `PointerHeap.Heap.Dequeue` | lib/libuv/src/heap-inl.h:239-241 | exactly the root leaves the heap |
| `PointerHeap.Heap.MinIsLeast` | lib/libuv/src/heap-inl.h:67-69 | no member is less than the one heap_min returns |
| `HeapShape.SwapSpells` | lib/libuv/src/heap-inl.h:72-104 | the writes of heap_node_swap, in their order, turn the links of a complete tree into those of the tree with parent and child exchanged, whatever side and relatives there are |
| `HeapShape.AppendSpells` | lib/libuv/src/heap-inl.h:138-141 | linking a node behind the last one gives a complete tree of one more |
| `HeapShape.DropSpells` | lib/libuv/src/heap-inl.h:181-185 | unlinking the last node gives a complete tree of one less |
| `HeapShape.ReplaceSpells` | lib/libuv/src/heap-inl.h:195-214 | copying the links of a node to another and correcting the neighbours replaces it in the tree |
| `HeapShape.StepUp` | lib/libuv/src/heap-inl.h:146-147 | after one upward swap only the edge above the rising node can be out of order |
| `HeapShape.StepDown` | lib/libuv/src/heap-inl.h:220-229 | after one downward swap with the least child only the edges below the sinking node can be out of order |
| `HeapShape.RootLeast` | lib/libuv/src/heap-inl.h:67-69 | in heap order no key is less than the root's |
| `Timers.Loop.RunTimers` | lib/libuv/src/timer.c:164-194 | for arbitrary callbacks, which may also initialise new handles: exactly the active timers with timeout at most the loop time are selected, those with a smaller timeout first and those with equal timeouts by ascending start_id; the calls recorded where callbacks are called are one by one those of a legal pass over them; the pass terminates; and when no callback does anything every timer ends as predicted: undue ones untouched, due ones inactive or, if repeating, active again one interval from now |
| `Timers.FirstStartedFirstCalled` | lib/libuv/src/timer.c:40-194 | of two timers with the same deadline the one started first has its callback called first, unless start_id wraps between the two starts |
| `Timers.Loop.CollectDue` | lib/libuv/src/timer.c:172-183 | the first loop moves exactly the due timers, in order, from the heap to the ready queue, and touches no other |
| `Timers.Loop.FireReady` | lib/libuv/src/timer.c:185-193 | the second loop empties the ready queue by a legal pass, whose turns are exactly the recorded calls |
| `Timers.Loop.FireHead` | lib/libuv/src/timer.c:185-193 | one turn makes exactly one call, for the head: it leaves the queue, a repeating timer is restarted before the callback, and whatever the callback stops leaves the queue |
| `Timers.FiredOnceInOrder` | lib/libuv/src/timer.c:185-193 | no timer is fired twice in a pass and the firing order is the selection order |
| `Timers.DetachedNotFired` | lib/libuv/src/timer.c:97-109 | a timer that one callback stops, closes or restarts is not fired by a later turn of the same pass |
| `Timers.StoppedNotFired` | lib/libuv/src/timer.c:97-122 | no timer that uv_timer_stop has run on during one turn, by stop, close, start or again, is fired by a later turn of the same pass |
| `Timers.Loop.Apply` | lib/libuv/src/timer.c:57-127 | the whole effect of one operation of a callback on its timer (state, deadline, repeat, start_id), on the ready queue and on the stopped timers, and that it leaves every other timer as it is |
| `Timers.SkippedWasNamed` | lib/libuv/src/timer.c:185-193 | a selected timer that is not fired was stopped by a callback that names it |
| `Timers.QuietPass` | lib/libuv/src/timer.c:185-193 | when no callback does anything the selected timers are fired one by one, all of them |
| `Timers.NextRound` | lib/libuv/src/timer.c:185-193 | one turn extends a legal pass to a legal pass |
| `Timers.QuietTurn` | lib/libuv/src/timer.c:191-192 | one turn whose callback does nothing changes exactly the timer at the head, as predicted |
| `Timers.Loop.OnePlace` | lib/libuv/src/timer.c:97-109 | each timer is in the heap exactly when active, else in the ready queue once or nowhere |
| `Timers.Loop.TimerInit` | lib/libuv/src/timer.c:57-64 | a new handle: inactive, without callback, timeout or repeat |
| `Timers.Loop.TimerStart` | lib/libuv/src/timer.c:67-94 | EINVAL and nothing changed for a closing handle or no callback; otherwise active with deadline min(time + timeout, 2^64 - 1) and the next start id, out of the ready queue |
| `Timers.Loop.TimerStop` | lib/libuv/src/timer.c:97-109 | the timer leaves the heap or the ready queue, whichever it is in, and nothing else moves |
| `Timers.Loop.TimerAgain` | lib/libuv/src/timer.c:112-122 | EINVAL without a callback; nothing for a zero repeat; otherwise restarted with the repeat value as its timeout and the next start id |
| `Timers.Loop.SetRepeatOf` | lib/libuv/src/timer.c:125-127 | only the repeat value changes |
| `Timers.Loop.DueIn` | lib/libuv/src/timer.c:135-140 | 0 exactly when due, else the time to the deadline |
| `Timers.Loop.NextTimeout` | lib/libuv/src/timer.c:143-161 | -1 exactly when no timer is active, 0 exactly when one is due, else the time to the earliest deadline, at most INT_MAX |
| `Timers.Loop.CloseTimer` | lib/libuv/src/timer.c:197-199 | a closed timer is inactive, in no queue and stays closing |
| `Timers.Deadline` | lib/libuv/src/timer.c:78-80 | the wrap-around test computes the capped sum |
| `Utf8.DecodeEncode` | lib/libuv/src/idna.c:71-149 | every scalar value is read back from its UTF-8 form, whatever follows |
| `Utf8.Decode` | lib/libuv/src/idna.c:71-149 | what is accepted is a scalar value in the shortest length, so neither overlong nor a surrogate |
| `Utf8.FormMeans` | lib/libuv/src/idna.c:71-149 | the code point of a form is what the bits behind the marks of its bytes give, by section 3 of RFC 3629 |
| `Utf8.Decode1` | lib/libuv/src/idna.c:138-149 | the code point and the pointer movement, or -1, as the specification says |
| `Utf8.Decode1Slow` | lib/libuv/src/idna.c:71-135 | the same for the slow path, with its fall-through cases |
| `Utf8.DecodePrefix` | lib/libuv/src/idna.c:71-149 | what follows an accepted character does not change how it is read |
| `Utf8.AcceptedIsWellFormedIff` | lib/libuv/src/idna.c:82-118 | accepted input begins with the UTF-8 form of the code point it is read as if and only if it begins with a complete sequence: a lead byte that announces n more and n continuation bytes |
| `Utf8.CompleteIsExact` | lib/libuv/src/idna.c:71-149 | on text that begins with a complete sequence the decoder accepts exactly the UTF-8 forms of scalar values |
| `Utf8.AcceptsTwoLeads` | lib/libuv/src/idna.c:117-118 | a family of ill-formed texts the combined bit test accepts: a three-byte lead followed by two bytes that both start with 11 |
| `Utf8.AcceptsCutShort` | lib/libuv/src/idna.c:82-111 | a three-byte sequence cut short by the end of the text is read as a two-byte one |
| `Idna.PunycodeRoundTrip` | lib/libuv/src/idna.c:217-312 | the decoder of section 6.2 of RFC 3492 inverts the encoder of section 6.3 on every sequence of code points |
| `Idna.LabelToAscii` | lib/libuv/src/idna.c:152-315 | UV_EINVAL exactly for undecodable text; UV_E2BIG exactly when some delta needs more than 32 bits; otherwise the label itself or xn-- and its section 6.3 encoding is written; every loop terminates |
| `Idna.ToAscii` | lib/libuv/src/idna.c:318-367 | the labels between the four dot characters, each in ASCII form, joined by dots, with a terminator, and their length; UV_E2BIG exactly when one of the labels the loop comes to has a delta beyond 32 bits; UV_EINVAL exactly for an empty or undecodable name or one whose text and terminator do not fit; nothing behind the end of the buffer is written |
| `Idna.LabelDecodes` | lib/libuv/src/idna.c:189-195 | what follows xn-- in the output decodes to the label |
| `Idna.DottedLabels` | lib/libuv/src/idna.c:331-353 | the loop splits the name exactly at its dots and writes the form of each label; it stops with UV_EINVAL only at undecodable text and with UV_E2BIG only at a label whose delta is too big |
| `Idna.CountPass` | lib/libuv/src/idna.c:177-187 | accepts exactly decodable text and counts ASCII and other characters |
| `Idna.AsciiPass` | lib/libuv/src/idna.c:197-212 | the ASCII characters are written in order, and only they |
| `Idna.LeastPass` | lib/libuv/src/idna.c:228-238 | the least code point of the label that is not below n |
| `Idna.NextPoint` | lib/libuv/src/idna.c:228-247 | either delta is raised to what the next code point owes, or it cannot be held in 32 bits |
| `Idna.OverflowTest` | lib/libuv/src/idna.c:243-244 | the division test holds exactly when delta + x * y exceeds 32 bits |
| `Idna.InsertPass` | lib/libuv/src/idna.c:249-308 | every occurrence of n is encoded; UV_E2BIG only when a delta is too big; delta stays what is due |
| `Idna.InsertAll` | lib/libuv/src/idna.c:227-312 | all code points are encoded, or some delta is too big |
| `Idna.PutDelta` | lib/libuv/src/idna.c:261-287 | the innermost loop writes the variable-length integer of section 6.3 |
| `Idna.NextBias` | lib/libuv/src/idna.c:289-305 | the adaptation of section 6.1, without overflow |
| `Idna.Writer.Put` | lib/libuv/src/idna.c:207-208 | appends to the text; bytes behind the end of the buffer are dropped |
| `Idna.GapTooBig` | lib/libuv/src/idna.c:243-244 | refusing a gap is right: some code point's delta exceeds 32 bits |
| `Idna.NoRoom` | lib/libuv/src/idna.c:254-256 | refusing the increment at the largest value is right |
| `Punycode.WrittenRuns` | lib/libuv/src/idna.c:227-312 | the decoder fed with the deltas written so far stands exactly where the encoder stands |
| `Punycode.ReadDigits` | lib/libuv/src/idna.c:261-287 | a variable-length integer is read back as its value |
| `Punycode.RunOneMore` | lib/libuv/src/idna.c:261-307 | one more delta moves the decoder by one insertion |
| `Punycode.InsertDelta` | lib/libuv/src/idna.c:249-308 | the delta of a code point makes the decoder insert it at its own place |
| `Punycode.KeptInsert` | lib/libuv/src/idna.c:258-307 | a code point is inserted at its rank among those already out |
| `Punycode.DueGrows` | lib/libuv/src/idna.c:254-256 | a debt beyond 32 bits cannot shrink before the next occurrence of n |
| `Punycode.DueSmall` | lib/libuv/src/idna.c:306-310 | after an insertion the debt is bounded by the position, so delta++ cannot wrap |
| `Punycode.DueNonNegative` | lib/libuv/src/idna.c:240-246 | no delta is negative |
| `PunycodeParameters.AdaptIs` | lib/libuv/src/idna.c:289-305 | the bias is 36 k + 36 D / (D + 38), where D is the damped delta of section 6.1 of RFC 3492 (damp 700, or 2 after the first) divided k times by 35, for the least k that makes it at most 455 |
| `PunycodeParameters.AlphabetIs` | lib/libuv/src/idna.c:154 | the digit of value q is character q of a to z and 0 to 9 |
| `PunycodeParameters.DigitValueIs` | lib/libuv/src/idna.c:154 | the value of a digit, letters in either case |
| `PunycodeParameters.ThresholdIs` | lib/libuv/src/idna.c:262-268 | the threshold is k - bias, kept between tmin and tmax |
| `PunycodeSample.NextOut` | lib/libuv/src/idna.c:227-312 | each code point is inserted in the state that the one before it in order has left: count, bias, digits and delta |
| `PunycodeSample.SenseiLabel` | lib/libuv/src/idna.c:152-315 | the ASCII form that LabelToAscii writes for sample (M) of section 7.1 of RFC 3492, with six code points to insert, is xn--3B-ww4c5e180e575a65lsy2b |
| `PunycodeParameters.SplitAt` | lib/libuv/src/idna.c:338-343 | a name is split at each of U+002E, U+3002, U+FF0E and U+FF61 |
| `PunycodeParameters.OneLabel` | lib/libuv/src/idna.c:338-343 | and at no other character |
| `PunycodeParameters.JoinAt` | lib/libuv/src/idna.c:350-351 | the forms of the labels are joined by full stops |
| `PunycodeParameters.TwoLabels` | lib/libuv/src/idna.c:318-367 | the ASCII form of the UTF-8 text of two labels with any of the four dots between them |
| `PunycodeSample.SenseiName` | lib/libuv/src/idna.c:318-367 | sample (M), an ideographic full stop and jp become xn--3B-ww4c5e180e575a65lsy2b.jp |
| `Wtf8.RoundTrip` | lib/libuv/src/idna.c:387-560 | UTF-16 to WTF-8 and back is the identity on every sequence of units without a zero unit, unpaired surrogates included |
| `JsonLiterals.PairUnits` | lib/libuv/src/idna.c:370-409 | the two units of a code point beyond 16 bits are D7C0 + c / 400 and DC00 + c mod 400 in hexadecimal, a high and a low surrogate that join to it |
| `Wtf8.DecodeEncoded` | lib/libuv/src/idna.c:28-68 | every code point up to 10FFFF, surrogates included, is read back from its encoding |
| `Wtf8.Utf16Step` | lib/libuv/src/idna.c:374-381 | one encoded character in front of a text adds its units in front |
| `Wtf8.Decode1At` | lib/libuv/src/idna.c:28-68 | the code point, or -1, and the pointer left on the last byte read |
| `Wtf8.LengthAsUtf16` | lib/libuv/src/idna.c:370-384 | exactly the units uv_wtf8_to_utf16 writes, terminator included, or -1 exactly for refused text |
| `Wtf8.ToUtf16` | lib/libuv/src/idna.c:387-409 | the array of that length is filled exactly |
| `Wtf8.SurrogateValue` | lib/libuv/src/idna.c:412-424 | the code point at the front of the text, pairs joined, the end of a counted text respected |
| `Wtf8.LengthAsWtf8` | lib/libuv/src/idna.c:427-457 | exactly the bytes of the WTF-8 form |
| `Wtf8.PutCodePoint` | lib/libuv/src/idna.c:504-529 | as many bytes of the encoding as there is room for |
| `Wtf8.FillTarget` | lib/libuv/src/idna.c:496-539 | the longest prefix of the WTF-8 form that fits, and what is left of the text |
| `Wtf8.Utf16ToWtf8` | lib/libuv/src/idna.c:460-560 | without a target the length of the form and nothing else; otherwise success exactly when the form fits, then text, length and terminator; on UV_ENOBUFS the filled prefix and the reported length: the length needed, except that it is too large by the capacity when not even the first character fits |
| `InetRoundTrip.RoundTrip6` | lib/libuv/src/inet.c:62-298 | inet_pton6 inverts inet_ntop6 on every address, whichever run of zero words is shortened |
| `InetRoundTrip.RoundTrip4` | lib/libuv/src/inet.c:48-211 | inet_pton4 inverts inet_ntop4 on every address |
| `InetForms.Pton6Exact` | lib/libuv/src/inet.c:214-298 | inet_pton6 accepts exactly the forms of section 2.2 of RFC 4291 (groups of one to four digits, one double colon for at least one word, an IPv4 address at the end), each as the address of its groups |
| `InetForms.FormRead` | lib/libuv/src/inet.c:214-298 | every such form is read as its address |
| `InetForms.FormFound` | lib/libuv/src/inet.c:214-298 | every accepted text is such a form |
| `InetLetters.CaseIgnored` | lib/libuv/src/inet.c:232-241 | texts that differ only in the case of letters are read as the same address, or both refused |
| `InetLetters.Pton4Exact` | lib/libuv/src/inet.c:175-211 | inet_pton4 accepts exactly the texts that inet_ntop4 writes: four octets, none empty, above 255 or with a leading zero |
| `InetLetters.UnicastExample` | lib/libuv/src/inet.c:62-298 | 2001:DB8::8:800:200C:417A is read as its 16 bytes, in upper and in lower case, and written back in lower case |
| `InetLetters.MappedExample` | lib/libuv/src/inet.c:62-298 | ::FFFF:129.144.52.38 is read as its 16 bytes in either case and written with the IPv4 form |
| `Inet.Ntop6` | lib/libuv/src/inet.c:62-143 | the text with the leftmost longest run of at least two zero words shortened, and its terminator; UV_ENOSPC exactly when it does not fit, and then nothing is written |
| `Inet.FindRun` | lib/libuv/src/inet.c:83-106 | the leftmost longest run of at least two zero words, or none |
| `Inet.RunEnds` | lib/libuv/src/inet.c:94-98 | comparing with a strict greater keeps the leftmost of the longest runs |
| `Inet.FormatWords` | lib/libuv/src/inet.c:111-138 | the formatting loop writes exactly the text and stays in its 46-byte buffer |
| `Inet.FormatWord` | lib/libuv/src/inet.c:114-135 | one turn outside the run writes the word, or the IPv4 form of the last four bytes exactly when the run is six words from the start, or five before ffff |
| `Inet.Text6Fits` | lib/libuv/src/inet.c:70-73 | the text of every address with its terminator fits 46 bytes |
| `Inet.Ntop4` | lib/libuv/src/inet.c:48-59 | the dotted text, or UV_ENOSPC exactly when it and its terminator do not fit |
| `Inet.Pton4` | lib/libuv/src/inet.c:175-211 | accepts exactly the specified texts; on refusal nothing is written |
| `Inet.Pton6` | lib/libuv/src/inet.c:214-298 | accepts exactly the specified texts and gives their address; on refusal nothing is written |
| `Inet.Pton6Loop` | lib/libuv/src/inet.c:232-271 | the loop reads groups, one double colon and a final IPv4 form as specified, within the 16 bytes |
| `Inet.Pton6End` | lib/libuv/src/inet.c:272-297 | the last group and the gap complete the address or refuse it |
| `Inet.ShiftTail` | lib/libuv/src/inet.c:283-292 | the in-place shift moves the tail to the end and zero-fills the gap, overlap included |
| `JsonRoundTrip.TextRoundTrip` | lib/cJSON/cJSON.c:1147-1304 | parsing the printed text, formatted or not, of any value of null, booleans, 32-bit integers, NUL-free strings, arrays and keyed objects within the nesting limit gives the value back |
| `JsonRoundTrip.ValueRoundTrip` | lib/cJSON/cJSON.c:1368-1494 | the same for a value at any depth inside a text |
| `JsonRoundTrip.ArrayRoundTrip` | lib/cJSON/cJSON.c:1497-1659 | the same for arrays: elements, order and separators |
| `JsonRoundTrip.ObjectRoundTrip` | lib/cJSON/cJSON.c:1662-1896 | the same for objects: keys, values, order and both layouts |
| `JsonRoundTrip.StringRoundTrip` | lib/cJSON/cJSON.c:824-1073 | parse_string inverts print_string_ptr on every byte string |
| `JsonRoundTrip.NumberRoundTrip` | lib/cJSON/cJSON.c:307-663 | the text of a 32-bit integer is read back as that integer, whatever follows that cannot belong to a number |
| `Json.IntegerBack` | lib/cJSON/cJSON.c:596-641 | the decimal text of every integer spells that integer |
| `Json.BadDigitsAccepted` | lib/cJSON/cJSON.c:666-764 | the escape \uZZZZ is not refused: it is read as code point 0 in six bytes, and a string of it as one zero byte |
| `Json.ZeroEscapeIff` | lib/cJSON/cJSON.c:666-764 | an escape is read as code point 0 in six bytes if and only if its digits are 0000 or one of the four is no hexadecimal digit |
| `JsonRoundTrip.ParsedDepth` | lib/cJSON/cJSON.c:1502-1505 | what the parser accepts nests no deeper than the limit the printer uses |
| `JsonGrammar.GrammarIff` | lib/cJSON/cJSON.c:1368-1777 | the parser accepts exactly the texts of the grammar of RFC 8259 (values, brackets, braces, commas, colons, blanks) within 1000 levels, with the value of the text |
| `JsonGrammar.DocRead` | lib/cJSON/cJSON.c:1368-1777 | every such text is read |
| `JsonGrammar.DocFound` | lib/cJSON/cJSON.c:1368-1777 | everything that is read is such a text |
| `JsonLiterals.LiteralMeaning` | lib/cJSON/cJSON.c:824-951 | every string literal made of plain bytes, the eight two-character escapes, escapes of code points and of surrogate pairs, digits in either case, is read as what these stand for, in order |
| `JsonLiterals.BasicEscape` | lib/cJSON/cJSON.c:703-764 | every code point below 10000 that is no surrogate is what its six bytes mean, whatever the case of the digits |
| `JsonLiterals.PairEscape` | lib/cJSON/cJSON.c:703-764 | every code point from 10000 to 10FFFF is what the twelve bytes of its two UTF-16 units mean |
| `JsonLiterals.LoneSurrogate` | lib/cJSON/cJSON.c:717-747 | the escape of a surrogate is refused exactly when it is a low one, or a high one without the escape of a low one behind it |
| `JsonLiterals.GrinningFace` | lib/cJSON/cJSON.c:703-821 | the literal of the escapes D83D and de00 is read as the bytes F0 9F 98 80 |
| `JsonLiterals.Words` | lib/cJSON/cJSON.c:1368-1400 | null, true and false, byte by byte |
| `JsonLiterals.PrintedAs` | lib/cJSON/cJSON.c:1024-1070 | which bytes are printed as two-character escapes, which as escapes with small digits, and which as they are |
| `JsonLayout.SameButBlanks` | lib/cJSON/cJSON.c:1423-1896 | the formatted text without the blanks outside its strings is the compact text, which has none |
| `JsonLayout.SampleText` | lib/cJSON/cJSON.c:1423-1896 | one value with nested arrays and objects, byte by byte in both layouts: a line per member, a tab per level, a tab behind the colon, a space behind the comma of an array |
| `JsonLayout.DeepArrays` | lib/cJSON/cJSON.c:1502-1505 | arrays in arrays are read to a depth of 1000 and refused beyond, at every depth |
| `JsonLayout.WholeNumber` | lib/cJSON/cJSON.c:307-357 | every number of section 6 of RFC 8259 is collected whole |
| `JsonPrinter.Print` | lib/cJSON/cJSON.c:1239-1304 | for every way the allocator may answer: what is returned is a new array of the rendering and its terminator and nothing else; with an allocator that grants everything NULL exactly when the value nests too deep, has an over-long number or needs more than INT_MAX bytes |
| `JsonPrinter.PrintBuffered` | lib/cJSON/cJSON.c:1317-1346 | the same from any starting capacity; with room for the text and two bytes success needs nothing but a printable value and the first allocation |
| `JsonPrinter.PrintPreallocated` | lib/cJSON/cJSON.c:1348-1365 | succeeds if and only if the value can be printed and the buffer has room for the text, its terminator and one spare byte; then it holds the rendering |
| `JsonPrinter.PrintBuffer.Ensure` | lib/cJSON/cJSON.c:490-573 | room for needed bytes and one more, everything before offset kept on both the realloc and the copy path; it refuses only without a buffer, or for lack of room when the buffer is preallocated, the allocator said no, or INT_MAX would be passed |
| `JsonPrinter.PrintBuffer.UpdateOffset` | lib/cJSON/cJSON.c:576-586 | the offset moves to the terminator of the text just printed |
| `JsonPrinter.PrintBuffer.PrintNumber` | lib/cJSON/cJSON.c:596-663 | the text of the number, null for NaN and the infinities, after what was there, or the reason for refusing |
| `JsonPrinter.PrintBuffer.PrintStringPtr` | lib/cJSON/cJSON.c:954-1073 | the quoted, escaped string after what was there, inside the granted room |
| `JsonPrinter.PrintBuffer.PrintValue` | lib/cJSON/cJSON.c:1423-1494 | whenever printing succeeds the buffer holds what was there and the rendering, whatever the capacity and however it grew; it fails only for depth, an over-long number, or a refused buffer |
| `JsonPrinter.PrintBuffer.PrintArray` | lib/cJSON/cJSON.c:1595-1659 | the same for arrays |
| `JsonPrinter.PrintBuffer.PrintObject` | lib/cJSON/cJSON.c:1780-1896 | the same for objects |
| `JsonPrinter.IntegersAreShort` | lib/cJSON/cJSON.c:602-619 | a number that is a 32-bit integer always fits print_number's 26-byte buffer |
| `JsonPrinter.CountEscapes` | lib/cJSON/cJSON.c:981-1005 | the counting pass equals what the writing pass emits |
| `JsonPrinter.WriteQuoted` | lib/cJSON/cJSON.c:1024-1070 | the writing pass emits exactly the quoted string and its terminator |
| `JsonPrinter.RenderNulFree` | lib/cJSON/cJSON.c:576-586 | no rendering contains a zero byte, so strlen finds its end |
| `JsonParser.ParseWithLengthOpts` | lib/cJSON/cJSON.c:1147-1224 | the value and the end of the text it took, as the grammar says, byte order mark and trailing-text option included; on failure a place inside the text, which is the first byte behind the value that is not blank when only what follows was wrong |
| `JsonParser.ParseBuffer.ParseValueHere` | lib/cJSON/cJSON.c:1368-1420 | the recursive parser accepts exactly the grammar and leaves offset and depth where they belong |
| `JsonParser.ParseBuffer.ParseArrayHere` | lib/cJSON/cJSON.c:1497-1592 | the element loop accepts exactly the grammar |
| `JsonParser.ParseBuffer.ParseObjectHere` | lib/cJSON/cJSON.c:1662-1777 | the member loop accepts exactly the grammar |
| `JsonParser.ParseBuffer.ParseStringHere` | lib/cJSON/cJSON.c:824-951 | both passes together give the decoded string or refuse it |
| `JsonParser.ParseBuffer.FindEnd` | lib/cJSON/cJSON.c:837-859 | the first pass finds the closing quote and counts the skipped bytes |
| `JsonParser.ParseBuffer.Decode` | lib/cJSON/cJSON.c:861-928 | the second pass writes the decoded string and its terminator inside the estimated room |
| `JsonParser.ParseBuffer.Utf16LiteralToUtf8` | lib/cJSON/cJSON.c:703-821 | an escape or surrogate pair becomes the UTF-8 form of its code point, or is refused, as specified |
| `JsonParser.ParseBuffer.ParseHex4` | lib/cJSON/cJSON.c:666-699 | the value of four hexadecimal digits, 0 when one is bad |
| `JsonParser.ParseBuffer.ParseNumberHere` | lib/cJSON/cJSON.c:307-408 | the number run is collected and as much taken as strtod used |
| `JsonParser.ParseBuffer.SkipWhitespace` | lib/cJSON/cJSON.c:1090-1113 | blanks are skipped; at the very end it steps back to the last byte |
| `JsonParser.EstimateSuffices` | lib/cJSON/cJSON.c:839-872 | on every input the decoded bytes and their terminator fit the first pass's estimate |
| `JsonParser.DecStep` | lib/cJSON/cJSON.c:872-925 | each character or escape stays within the estimate |
| `JsonParser.WriteUtf8` | lib/cJSON/cJSON.c:766-815 | writing the bytes last first with shifted marks gives the UTF-8 form |
| `ChildList.Parent.Append` | lib/cJSON/cJSON.c:2027-2058 | the item becomes the last child; head.prev is the tail, tail.next is NULL, links mutually inverse |
| `ChildList.Parent.Insert` | lib/cJSON/cJSON.c:2334-2366 | the item goes to the given position, or to the end behind it; negative positions are refused |
| `ChildList.Parent.Detach` | lib/cJSON/cJSON.c:2258-2292 | exactly the given child leaves, unlinked; an unlinked item is refused |
| `ChildList.Parent.DetachFromArray` | lib/cJSON/cJSON.c:2294-2302 | the child at a position leaves, or nothing happens when there is none |
| `ChildList.Parent.Replace` | lib/cJSON/cJSON.c:2368-2415 | exactly one position changes its item; the old item ends unlinked |
| `ChildList.Parent.GetItem` | lib/cJSON/cJSON.c:1922-1939 | the item at the position, or NULL behind the end |
| `ChildList.Parent.Size` | lib/cJSON/cJSON.c:1899-1920 | the number of children narrowed to int, which is the number exactly below 2^31 |
| `ChildList.InsertRemove` | lib/cJSON/cJSON.c:2258-2366 | detaching what was inserted, and inserting what was detached, restore the list |
| `Queue.InsertTail` | lib/libuv/src/queue.h:77-83 | the node becomes the last element of the circle |
| `Queue.InsertHead` | lib/libuv/src/queue.h:69-75 | the node becomes the first element of the circle |
| `Queue.Remove` | lib/libuv/src/queue.h:85-88 | the rest is a circle; the removed node keeps its own links |
| `Queue.Split` | lib/libuv/src/queue.h:51-60 | the elements from q on move behind the new header, both are circles |
| `Queue.Move` | lib/libuv/src/queue.h:62-67 | all elements move in order and the old header is left empty |
| `Queue.Add` | lib/libuv/src/queue.h:44-49 | the second queue's elements join the first's at the end |
| `Queue.Empty` | lib/libuv/src/queue.h:32-34 | true exactly for a header alone |
| `Queue.Head` | lib/libuv/src/queue.h:36-38 | the first element |
| `Barrier.FinishedRounds` | lib/libuv/src/thread-common.c:85-120 | in every run with spurious wakeups each finished round is threshold joins followed by the leaves of the same callers, only the very last of which returns 1: nobody leaves early, nobody joins the next round before all have left |
| `Barrier.CurrentRound` | lib/libuv/src/thread-common.c:85-120 | in the unfinished round callers only join until it is full and then only leave, none of them told it is the last |
| `Barrier.NoLostWakeup` | lib/libuv/src/thread-common.c:101-116 | a caller that no broadcast has reached waits for something that is still to come |
| `Barrier.EveryoneLeaves` | lib/libuv/src/thread-common.c:101-119 | from every reachable state in which callers leave, waking each caller inside once, in any order, extends the log by one departure each, the last one told so, closes the round and opens the gate |
| `Barrier.CallerJoins` | lib/libuv/src/thread-common.c:85-119 | with nobody leaving, a caller that comes in or wakes at the gate joins: it waits inside, or completes the round and leaves with everybody inside awake |
| `Barrier.CallerWaits` | lib/libuv/src/thread-common.c:89-96 | while callers leave, one that comes in waits at the gate and nothing else changes |
| `Barrier.StepInv` | lib/libuv/src/thread-common.c:85-120 | one step of any caller keeps the invariant |
| `Barrier.ArriveInv` | lib/libuv/src/thread-common.c:104-112 | an arrival keeps it, whether it waits or completes the round |
| `Barrier.DepartInv` | lib/libuv/src/thread-common.c:114-119 | a departure keeps it, and the last one closes the round |
| `MessageRing.MessageQueue.Post` | daemon/core/module.c:103-116 | refused exactly when 63 messages wait; otherwise appended, nothing else changed |
| `MessageRing.MessageQueue.Take` | daemon/core/module.c:15-26 | the oldest message leaves, or none when the ring is empty |
| `MessageRing.MessageQueue.Drain` | daemon/core/module.c:13-32 | while nobody posts, everything is handed on, oldest first |
| `MessageRing.PutAppends` | daemon/core/module.c:105-114 | filling the slot at head, wrap-around included, appends |
| `MessageRing.TakeRemoves` | daemon/core/module.c:17-24 | advancing tail, wrap-around included, takes the oldest |
| `AsyncWakeup.HandedInOrder` | daemon/core/module.c:8-33 | in every interleaving on_message has been called with the accepted messages, once each and in order, up to the one in hand and the at most 63 in the ring |
| `AsyncWakeup.NoStrandedMessage` | lib/libuv/src/unix/async.c:93-210 | while the handle is open and the ring is not empty, the drain runs, a poster still has to signal, or the handle is pending with its wake-up on the way |
| `AsyncWakeup.QuietMeansDelivered` | lib/libuv/src/unix/async.c:93-210 | when all posters have returned and the loop blocks with nothing to read, everything accepted has been delivered |
| `AsyncWakeup.NoWriteAfterClose` | lib/libuv/src/unix/async.c:120-157 | once the close has returned no thread is about to write the descriptor for this handle |
| `AsyncWakeup.PostAccepts` | daemon/core/module.c:103-116 | a post is accepted exactly when fewer than 63 messages are in the ring, and then appended, with its poster about to signal |
| `AsyncWakeup.StepsAreBounded` | lib/libuv/src/unix/async.c:93-210 | left to themselves posters and loop stop after a bounded number of steps, whatever their order |
| `AsyncWakeup.RestMeansDelivered` | lib/libuv/src/unix/async.c:93-210 | where they stop every poster has returned and, unless the handle has been closed, the loop blocks with everything accepted delivered |
| `AsyncWakeup.StepInv` | lib/libuv/src/unix/async.c:93-210 | one step of any thread keeps the invariant |
| `AsyncWakeup.StepWake` | lib/libuv/src/unix/async.c:93-209 | no step loses a signal that is owed |
| `AsyncWakeup.StepBusy` | lib/libuv/src/unix/async.c:104-112 | busy counts exactly the threads between its two updates |

## Left out

- Memory model: atomics and mutex sections interleave in one order; weak
  memory orderings and the CPU-relax and yield details of the spin loop are not modelled.
- Liveness: the thread pool and the message wake-up are shown to run out of steps of
  their own only when all is done, and the barrier to let everybody through when
  its callers are woken; that a scheduler lets every thread run is not modelled.
- Thread pool: thread creation and its failure, fork handling, the metrics
  counters of uv__work_done and the uv_work_t wrappers; one request is cancelled
  by one thread at a time, as uv_cancel belongs to the loop thread.
- Red-black tree: keys are integers compared by order; RB_PREV (the mirror of
  RB_NEXT), the foreach macros and the splay tree of the same header.
- PointerHeap.Heap.Insert: the element count is unbounded, so 2^32 nodes are not
  excluded; `PathTo` shows the path needs no more bits than the count.
- Timers: loop reference counts; the ready queue is a sequence of the loop, its
  links being the subject of `Queue`; start_id wraps at 2^64 as in the code, and
  selection is then ordered by the wrapped ids. The memory of every handle a pass
  initialises exists before the pass. A second uv_close on a handle, which the code
  asserts against, and operations of a callback on a handle that is not initialised
  do nothing here.
- Idna.LabelToAscii: labels of at most 2^31 - 1 bytes, as the counters are 32-bit
  and the count of characters is returned as an int.
- Idna.PunycodeRoundTrip: the decoder computes with unbounded integers and leaves
  out the overflow test of section 6.2 of RFC 3492; the repository has no decoder.
- Wtf8.Utf16ToWtf8: whether the allocation of a new target fails is left open.
- Inet: the zone suffix and the dispatch of uv_inet_pton and uv_inet_ntop, and
  the copy by uv__strscpy.
- JsonRoundTrip.NumberRoundTrip: a number that is no 32-bit integer is printed, and
  a text that is no integer up to 2^53 scanned, by the C library, here a parameter
  (`Floats`); the locale's decimal point and the exact rounding are not modelled.
  valueint follows from the value.
- JsonParser.ParseWithLengthOpts: which byte of the text a failure inside the value
  is reported at.
- JsonPrinter.PrintBuffer.Ensure: the byte behind an empty buffer that the copy path
  reads, and the count of bytes behind the offset that survive a reallocation.
- Json: raw and reference items, item names kept apart from the key, hooks other
  than realloc being present or not, allocation failure while parsing, cJSON_GetErrorPtr, duplicate, compare and Minify. Minify does not keep the meaning of a string
  that ends in a doubled backslash.
- JsonGrammar.GrammarIff: a string is given by what parse_string makes of it, as a
  `\u` escape with bad digits may swallow a quote; `JsonLiterals.LiteralMeaning` covers
  the literals without such escapes. At the end of the text a number must not be
  followed by a byte that could belong to one.
- JsonPrinter.PrintBuffer.PrintValue: the terminators written between the parts of an array or
  object are overwritten by what follows and only the last one is stated.
- ChildList.Parent.Replace: the deletion of the old item, keys of objects, and
  NULL arguments.
- MessageRing: NULL arguments, the module's start and stop callbacks and the registry of
  modules; on_message is assumed to be set.
- AsyncWakeup: other handles of the loop appear only as writes to the shared
  descriptor; the handle is closed between callbacks, and what is then still in the
  ring is not delivered.
- Barrier: failure of the mutex and condition variable set-up, and the pthread branch.
- Streams, processes, signals, file system requests, polling back ends and every
  other platform layer of libuv.
