# lockless: single-producer single-consumer queues and a memory pool, in Dafny

This project models the three data structures of the `lockless` C++ library:

- **`SingleProducerSingleConsumerBoundedLockLessQueue`** (module `BoundedQueue`,
  `bounded_queue.dfy`). It is a circular buffer of `capacity` slots with the
  cursors `first` (next slot to pop) and `nextWrite` (next slot to push into).
  One slot always stays unused: equal cursors mean empty, and `nextWrite` one
  step behind `first` means full. The buffer is an `array`. The queued values
  are the ghost function `Contents()`, the window of the buffer between the
  cursors. Push and Pop are proved against it.
- **`SingleProducerSingleConsumerLockLessQueue`** (module `LinkedQueue`,
  `linked_queue.dfy`). It is a singly linked chain from `first` through
  `divider` to `last`, starting from one sentinel node.
  - Nodes live in an arena: a node is a natural number, and `next` and `value`
    hold each allocated node's link and value, indexed by node.
  - `freed` records the nodes `delete` has released.
  - Push links a new node after `last`. It then deletes the consumed nodes
    before `divider` (`FreeQueueUntil`).
  - Pop advances `divider`.
  - The invariant `Valid()` states that following `next` from `first` visits
    `divider` and then `last`, whose link is null. It also states that exactly
    the nodes before `first` have been deleted, and that the values after
    `divider` are the queued values, ghost `Contents`.
- **`MemoryPool<T>`** (module `MemoryPool`, `memory_pool.dfy`). It is a LIFO
  stack of free cells plus the list of owned chunks. A cell is a natural
  number, and chunk `k` owns the cells `k * increment` up to
  `(k + 1) * increment`. Ghost `outstanding` is the set of cells handed out and
  not yet freed. The invariant states that free and outstanding cells are
  disjoint and together make up all owned cells. The lemma `Conserved` counts
  them.

Every operation is one sequential step. The atomic loads and stores and their
acquire/release ordering are not modelled.

The test cases in `test/spsc-lockless-queue_test.cc` are written as client
methods in module `Scenarios` (`scenarios.dfy`). Each builds a fresh queue,
makes the test's calls and returns what the test checks. Its postcondition
states the test's expectations for every size, not only the sizes the test
uses. Where a test relies on a member listed under "## Findings" (the linked
queue's `IsEmpty`, the bounded queue's `Push` result), the scenario calls the
corrected member, so it states what the test expects of the corrected code;
`Scenarios.LinkedFreshIsEmpty` shows the linked `IsEmpty` as written failing
the test's first expectation. `TestIsLockFree` has no client method, because
`IsLockFree` is not modelled (see "## Left out").

The model follows the code in three places where the code could be read
otherwise:

- The comment at `src/memory-pool.h` lines 1-4 presents the pool as meant for
  same-thread allocation "as with the SingleProducerSingleConsumerLockLessQueue",
  but the unbounded queue does not allocate its nodes from the pool. It uses
  `new` and `delete` directly (`src/single-producer-single-consumer-lockless-queue.h`
  lines 70, 88 and 95). The two are modelled independently.
- The unbounded queue has only a default constructor. The tests construct it
  with a capacity argument (`test/spsc-lockless-queue_test.cc` lines 20-21 and
  105), which does not match any constructor. The model has the default
  constructor only.
- The pool's chunk size is `memory_.capacity()` after `reserve(initial_capacity)`,
  which the comment at `src/memory-pool.h` lines 4-5 calls the "initial
  minimum memory allocation". The standard library only guarantees it is at
  least the request, so the constructor takes it as a second parameter
  `reservedCapacity >= initialCapacity`.

## Model

| member | source | states |
|---|---|---|
| BoundedQueue.Advance | src/single-producer-single-consumer-bounded-lockless-queue.h:100-105 | for a cursor in `[0, capacity)` the result is again in `[0, capacity)` and is the cursor plus one modulo `capacity` |
| BoundedQueue.WindowLength | src/single-producer-single-consumer-bounded-lockless-queue.h:59-63 | the number of queued elements is `(nextWrite - first) mod capacity` and never exceeds `capacity - 1` |
| BoundedQueue.WindowEmpty | src/single-producer-single-consumer-bounded-lockless-queue.h:59-60 | the queue is empty if and only if the two cursors are equal |
| BoundedQueue.WindowFull | src/single-producer-single-consumer-bounded-lockless-queue.h:60-63 | the queue holds `capacity - 1` elements if and only if advancing `nextWrite` would reach `first` |
| BoundedQueue.WindowPush | src/single-producer-single-consumer-bounded-lockless-queue.h:127-129 | on a non-full queue, storing at `nextWrite` and advancing it appends the value at the back of the contents |
| BoundedQueue.WindowPop | src/single-producer-single-consumer-bounded-lockless-queue.h:136-138 | on a non-empty queue the slot at `first` holds the head, and advancing `first` removes exactly the head |
| BoundedQueue.PushReturnAsWritten | src/single-producer-single-consumer-bounded-lockless-queue.h:122-130 | Push as written returns `false` exactly when the queue is full, and never returns `true` |
| BoundedQueue.PushAsWrittenOmitsTrue | src/single-producer-single-consumer-bounded-lockless-queue.h:128-130 | the first push into a fresh default-size queue reaches the end of Push without a return statement |
| BoundedQueue.Queue.Default | src/single-producer-single-consumer-bounded-lockless-queue.h:81-85 | the default constructor allocates `kDefaultCapacity` (16) slots with both cursors at 0, so the queue is empty |
| BoundedQueue.Queue.constructor | src/single-producer-single-consumer-bounded-lockless-queue.h:87-98 | the sized constructor (with `Init`) allocates `capacity` slots with both cursors at 0, so the queue is empty |
| BoundedQueue.Queue.GetCapacity | src/single-producer-single-consumer-bounded-lockless-queue.h:117-120 | the usable capacity is one less than the buffer size, and, for a buffer of at least one slot, the contents never exceed it |
| BoundedQueue.Queue.IsEmpty | src/single-producer-single-consumer-bounded-lockless-queue.h:142-146 | true if and only if the queue holds no element |
| BoundedQueue.Queue.IsFull | src/single-producer-single-consumer-bounded-lockless-queue.h:148-152 | true if and only if the queue holds `GetCapacity()` elements (or the buffer has no slot at all) |
| BoundedQueue.Queue.Push | src/single-producer-single-consumer-bounded-lockless-queue.h:122-130 | fails exactly on a full queue and then changes neither cursor nor any slot; otherwise writes slot `nextWrite`, advances `nextWrite`, leaves `first` alone, appends the value to the contents and returns true |
| BoundedQueue.Queue.Pop | src/single-producer-single-consumer-bounded-lockless-queue.h:132-140 | fails exactly on an empty queue, leaving the caller's value and the cursors alone; otherwise returns the head (the slot at `first`), advances `first`, leaves `nextWrite` and the buffer alone, and removes the head from the contents |
| LinkedQueue.Queue.constructor | src/single-producer-single-consumer-lockless-queue.h:68-71 | `first`, `divider` and `last` point to one fresh sentinel node whose link is null; the queue is empty and nothing is deleted |
| LinkedQueue.Queue.FollowRun | src/single-producer-single-consumer-lockless-queue.h:45-55 | inside the chain, following `j` links from a node reaches the node `j` places further on |
| LinkedQueue.Queue.FollowPast | src/single-producer-single-consumer-lockless-queue.h:37-41 | following links from a chain node one step past the newest node reaches null |
| LinkedQueue.Queue.Reachable | src/single-producer-single-consumer-lockless-queue.h:45-62 | following `next` from `first` reaches `divider`, then `last`, and one link past `last` is null |
| LinkedQueue.Queue.FreeQueueUntil | src/single-producer-single-consumer-lockless-queue.h:83-90 | deletes exactly the chain nodes from `first` up to but excluding `until`, each once; `first` ends at `until`; no node from `until` on is deleted |
| LinkedQueue.Queue.Push | src/single-producer-single-consumer-lockless-queue.h:92-98 | links a fresh node holding the value, with a null link, after `last` and moves `last` to it; the contents gain the value at the back; then exactly the consumed nodes before `divider` are deleted and `first == divider` |
| LinkedQueue.Queue.Pop | src/single-producer-single-consumer-lockless-queue.h:100-109 | succeeds exactly when `divider != last` (the queue is non-empty); returns the value of the node after `divider`, which is the head, and advances `divider` to it; on failure changes nothing and leaves the caller's value alone |
| LinkedQueue.Queue.IsEmptyAsWritten | src/single-producer-single-consumer-lockless-queue.h:111-115 | the code's test `divider != last` holds exactly when the queue is NOT empty |
| LinkedQueue.Queue.IsEmpty | src/single-producer-single-consumer-lockless-queue.h:33-34 | the documented IsEmpty: true if and only if the queue holds no value |
| LinkedQueue.Queue.Destroy | src/single-producer-single-consumer-lockless-queue.h:73-76 | the destructor deletes every remaining chain node, after which every node ever allocated has been deleted exactly once |
| MemoryPool.ChunkStartsDistinct | src/memory-pool.h:48-53 | with a positive chunk size, the chunk starts are pairwise distinct, so no chunk is released twice |
| MemoryPool.Conservation | src/memory-pool.h:26-31 | disjoint free and outstanding cells that together cover the cells below `n`, with no free cell listed twice, number exactly `n` |
| MemoryPool.Pool.constructor | src/memory-pool.h:41-46 | the chunk size becomes the reserved capacity, one chunk is added, and its cells, all distinct, are the whole free stack |
| MemoryPool.Pool.AddCapacity | src/memory-pool.h:55-62 | appends one chunk starting right after the owned cells, and pushes its cells in address order on the free stack; the invariant is kept |
| MemoryPool.Pool.Free | src/memory-pool.h:64-67 | pushes the given outstanding cell on the free stack and it is no longer outstanding |
| MemoryPool.Pool.TakeTop | src/memory-pool.h:75-77 | pops the top of the free stack and hands out that cell, which was not outstanding before |
| MemoryPool.Pool.Allocate | src/memory-pool.h:69-78 | on a non-empty stack returns its top and adds no chunk; on an empty stack adds exactly one chunk and returns its last cell; the returned cell was not outstanding and now is |
| MemoryPool.Pool.Conserved | src/memory-pool.h:26-31 | free and outstanding cells together number exactly the owned chunks times the chunk size |
| MemoryPool.Pool.Destroy | src/memory-pool.h:48-53 | the destructor releases the owned chunks in list order, none twice when the chunk size is positive, and every free or outstanding cell lies in a released chunk |
| MemoryPool.FreeThenAllocate | src/memory-pool.h:64-78 | freeing an outstanding cell and allocating again returns that same cell and leaves the pool as it was |
| Scenarios.PushesInterleaved | test/spsc-lockless-queue_test.cc:64-70 | in the push order of the push-twice-per-pop test, position `k` holds `k / 2` for even `k` and `-(k / 2)` for odd `k` |
| Scenarios.PoppedInterleaved | test/spsc-lockless-queue_test.cc:68-70 | the first `n` values of that push order are the values the test expects its `n` pops to yield |
| Scenarios.InterleavedRound | test/spsc-lockless-queue_test.cc:60-72 | one round (push `i`, push `-i`, pop) takes the state after `i` rounds to the state after `i + 1` rounds |
| Scenarios.BoundedPopEmpty | test/spsc-lockless-queue_test.cc:25-29 | Pop on a fresh bounded queue fails and leaves the caller's value at -1 |
| Scenarios.BoundedPushAllThenPop | test/spsc-lockless-queue_test.cc:35-57 | with `n <= capacity - 1`, the fresh queue is empty, it is non-empty after each push, the `n` pops succeed and yield `0 .. n-1` in order, the queue is empty only after the last pop, and one more pop fails |
| Scenarios.BoundedPushPair | test/spsc-lockless-queue_test.cc:64-65 | with room for two more values, pushing `i` and `-i` appends both |
| Scenarios.BoundedRound | test/spsc-lockless-queue_test.cc:64-71 | one round on a bounded queue: the queue is non-empty after the two pushes and after the pop, the pop succeeds, and it removes the head |
| Scenarios.BoundedPushTwicePerPop | test/spsc-lockless-queue_test.cc:59-73 | over `n` rounds with `n + 2 <= capacity`, the queue starts empty, every pop succeeds and yields the expected value, and the queue is never empty after a push or a pop |
| Scenarios.BoundedCannotPushWhenFull | test/spsc-lockless-queue_test.cc:76-86 | `capacity - 1` pushes each see a non-full queue and succeed, the queue is then full, one more push fails, a pop yields 0, and the queue is then no longer full (with the corrected `Push`, which returns true on success) |
| Scenarios.BoundedGetCapacity | test/spsc-lockless-queue_test.cc:88-90 | a fresh queue over `capacity` slots reports `capacity - 1`, as the test expects 63 for 64 slots |
| Scenarios.LinkedPopEmpty | test/spsc-lockless-queue_test.cc:25-29 | Pop on a fresh linked queue fails and leaves the caller's value at -1 |
| Scenarios.LinkedFreshIsEmpty | test/spsc-lockless-queue_test.cc:38-40 | on a fresh linked queue the code's IsEmpty answers false, where the test expects true |
| Scenarios.LinkedPushAllThenPop | test/spsc-lockless-queue_test.cc:35-57 | for any `n`, using the corrected `IsEmpty`: the fresh queue is empty, it is non-empty after each push, the `n` pops succeed and yield `0 .. n-1` in order, the queue is empty only after the last pop, and one more pop fails |
| Scenarios.LinkedRound | test/spsc-lockless-queue_test.cc:64-71 | one round on a linked queue: the queue is non-empty after the two pushes and after the pop, the pop succeeds, and it removes the head |
| Scenarios.LinkedPushTwicePerPop | test/spsc-lockless-queue_test.cc:59-73 | over any number of rounds, using the corrected `IsEmpty`: the queue starts empty, every pop succeeds and yields the expected value, and the queue is never empty after a push or a pop |

## Left out

- Atomics, memory ordering and the producer/consumer thread roles: every operation is one sequential step, so no interleaving of the two threads is modelled.
- `IsLockFree` of both queues: it queries the platform's atomics and has no behaviour to state.
- The benchmark (`test/spsc-lockless-queue-benchmark.cc`) and the gtest fixture classes: the fixtures are not modelled, and the test cases appear only as the `Scenarios` methods.
- The `SPSC_BLLQ` and `SPSC_LFQ` macros: naming shorthand only.
- `Init` of the bounded queue is folded into the two constructors, which allocate the buffer and zero the cursors.
- Bounded queue destructor (`delete [] queue_`): the buffer is a Dafny array and its release is not modelled.
- BoundedQueue.Queue.constructor: a negative buffer size is excluded by its precondition, because `new` of a negative-length array throws instead of producing a queue; a size of 0 is allowed, as in the code.
- Raw memory: linked-queue nodes are arena numbers and `delete` adds to the `freed` set; the arena hands out nodes in increasing order, so it does not model `new` returning an address that an earlier `delete` released.
- LinkedQueue.Queue.constructor: the sentinel's value is arbitrary rather than the value-initialized `Value()`, because that value is never read.
- Pool cells are numbers, not addresses of `T` objects, and the chunk list is a sequence of chunk starts, not a `std::list` of arrays.
- MemoryPool.Pool.constructor: a negative initial capacity is excluded by its precondition, because it converts to a huge unsigned size in `reserve`, which throws `std::length_error`, so no pool is built. The vector's `reserve`/`capacity()` growth is not modelled; the chunk size is the capacity reported after the first `reserve`, taken as a parameter, and the second `reserve` in `Allocate` affects only performance.
- MemoryPool.Pool.Allocate: the case of an empty free stack with a chunk size of 0, where the code calls `back()` on an empty vector, is excluded by its precondition.
- MemoryPool.Pool.Free: it requires a cell that is outstanding in this pool; freeing a cell twice or a cell from elsewhere is undefined in the code and is not modelled.
- MemoryPool.Pool.Destroy: chunk distinctness is stated only for a positive chunk size, because all chunks of size 0 start at cell 0.

## Findings

| source | as written | input that shows it | evidently intended | confidence | as-written member | corrected member |
|---|---|---|---|---|---|---|
| src/single-producer-single-consumer-bounded-lockless-queue.h:122-130 | `Push` returns `false` when full but, on success, reaches the end of a `bool` function without a return statement (undefined behaviour in C++) | the first `Push` into a fresh queue of 16 slots | return `true` after storing the value, as the doc comment at lines 38-39 and the test at test/spsc-lockless-queue_test.cc:79 expect | high (not executed) | BoundedQueue.PushReturnAsWritten, BoundedQueue.PushAsWrittenOmitsTrue | BoundedQueue.Queue.Push |
| src/single-producer-single-consumer-lockless-queue.h:111-115 | `IsEmpty` returns `divider_ != last_`, which is true exactly when the queue holds a value | a freshly constructed queue: `divider_ == last_`, so `IsEmpty()` is false | return `divider_ == last_`, as the doc comment at line 33 and the test at test/spsc-lockless-queue_test.cc:39 expect | high (not executed) | LinkedQueue.Queue.IsEmptyAsWritten, Scenarios.LinkedFreshIsEmpty | LinkedQueue.Queue.IsEmpty |
