# Bounded circular order queue

This project models `LockFreeQueue<T, N>`, the bounded circular FIFO of the
order book engine. Producers use it to hand orders to the matching thread.
The queue is a fixed buffer of N slots with two indices in `[0, N)`:

- `push` writes at `tail` and advances `tail` modulo N. It rejects the item
  when the advanced `tail` would equal `head`.
- `pop` reads at `head` and advances `head` modulo N. It fails when
  `head == tail`.

One slot is always left empty, so the queue holds at most N - 1 items.

There are three modules:

- `OrderQueue` (`order_queue.dfy`) holds the class `LockFreeQueue<T>`.
  - It has the buffer as an `array<T>`, the fields `head` and `tail`, and a
    ghost `contents`: the queued items, oldest first.
  - `Valid()` ties `contents` to `Window`: slot `head`, then the slots
    after it going round the buffer, up to `tail`. It also keeps fewer than
    N items queued.
  - Lemmas about `Window` state what one push, one pop and a pop-then-push
    do to the queued items.
  - `WindowAt` gives an independent description of `Window`: it holds
    `Count` items, and its item `i` is the slot `(head + i) % N`.
  - `PushStep` and `PopStep` state one call on the queue's value (buffer,
    `head`, `tail`). The class's `Push` and `Pop` are proved to implement
    them.
- `QueueClients` (`queue_clients.dfy`) holds the callers that the
  repository's tests drive.
  - It pushes a batch, drains until `pop` reports empty, and runs the
    fixed-capacity scenarios. Each fixed-capacity scenario is a method on a
    fresh queue, and its postcondition is what the queue's code returns.
    `RefillAfterPop` is the exception: it takes any full queue with N > 1.
- `QueueTrace` (`queue_trace.dfy`) runs any sequence of pushes and pops on
  the ring. It compares the ring with a reference FIFO: a plain sequence
  that holds at most N - 1 items. For every sequence of calls, the ring
  gives the same replies and leaves the same items queued, however often
  its indices wrap.

The element type stays generic: the queue only copies elements (in practice
`Order`, a record of id, side, price and quantity) and never looks inside
them. A C++ `pop(T& item)` writes into the caller's variable. Here `Pop`
takes that variable's current value as `prior` and returns it unchanged when
the queue is empty.

The tests disagree with the code about capacity.
`tests/test_order_queue.cpp:37-49` and `:51-71` expect three successful
pushes into a queue with N = 3. `tests/test_edge_cases.cpp:91-110` and
`:112-134` expect one successful push into a queue with N = 1 and three
into one with N = 3. The code at `orderbook-engine/include/order_queue.hpp:13`
rejects the push that would fill the last free slot. The model follows the
code:

- `FullQueuePush` shows the third push rejected.
- `CircularWrap` shows the third push rejected.
- `TinyQueue` shows a queue with N = 1 accepting nothing.

Apart from capacity, the tests' expectations hold in the model: FIFO
order, empty rejection, and room for one more push after a pop.

## Model

| member | source | states |
|---|---|---|
| `OrderQueue.Count` | orderbook-engine/include/order_queue.hpp:13 | the number of queued items is below N; it is 0 exactly when `head == tail`, N - 1 exactly when `tail` advanced once reaches `head`, and `head` advanced by the count reaches `tail` |
| `OrderQueue.CountIsMod` | orderbook-engine/include/order_queue.hpp:13 | that count equals `(tail - head + N) % N` |
| `OrderQueue.NextIsMod` | orderbook-engine/include/order_queue.hpp:15 | the index advance used by the lemmas equals the source's `(i + 1) % N` for every index in `[0, N)` |
| `OrderQueue.SlotIsMod` | orderbook-engine/include/order_queue.hpp:23-24 | the slot i places after `head` is `(head + i) % N` |
| `OrderQueue.WindowAt` | orderbook-engine/include/order_queue.hpp:14-15 | the queued items are exactly `Count` many, and item i is the buffer slot i places after `head` going round the buffer (`(head + i) % N`), so wrap-around neither loses nor reorders data |
| `OrderQueue.EmptyAndFull` | orderbook-engine/include/order_queue.hpp:13-22 | the queue is empty iff `head == tail`; it holds N - 1 items iff `(tail + 1) % N == head`; it never holds N items |
| `OrderQueue.WindowPush` | orderbook-engine/include/order_queue.hpp:13-16 | when not full, storing at `tail` and advancing `tail` modulo N appends the item to the queued items |
| `OrderQueue.WindowPop` | orderbook-engine/include/order_queue.hpp:22-25 | when not empty, the oldest item is slot `head`, and advancing `head` modulo N removes exactly that item without writing the buffer |
| `OrderQueue.RefillWindow` | orderbook-engine/include/order_queue.hpp:13-25 | on a full queue with N > 1, one pop lets exactly one push through: the result is the old items minus the first, plus the new one, and the queue is full again |
| `OrderQueue.PushStep` | orderbook-engine/include/order_queue.hpp:10-17 | one push on the queue's value: it is accepted exactly when fewer than N - 1 items are queued; the accepted item is appended, a rejected one changes nothing, and `head` and the buffer length stay the same |
| `OrderQueue.PopStep` | orderbook-engine/include/order_queue.hpp:19-26 | one pop on the queue's value: it yields nothing exactly when the queue is empty, and then the state is unchanged; otherwise it yields the oldest item and drops it; the buffer and `tail` are never changed |
| `OrderQueue.LockFreeQueue.constructor` | orderbook-engine/include/order_queue.hpp:8 | a new queue has `head == tail == 0` and is empty; N > 0 is required because the code divides by N |
| `OrderQueue.LockFreeQueue.Push` | orderbook-engine/include/order_queue.hpp:10-17 | returns false exactly when `(tail + 1) % N == head`, i.e. when N - 1 items are queued, and then changes nothing; otherwise writes slot `tail` only, sets `tail` to `(tail + 1) % N`, keeps `head`, and appends the item; a queue with N = 1 rejects every push |
| `OrderQueue.LockFreeQueue.Pop` | orderbook-engine/include/order_queue.hpp:19-26 | returns false exactly when `head == tail`, i.e. when empty, and then leaves the queue and the caller's item as they were; otherwise returns slot `head`, the oldest item, sets `head` to `(head + 1) % N`, and drops that item without touching the buffer or `tail` |
| `QueueTrace.StepMatchesFifo` | orderbook-engine/include/order_queue.hpp:10-26 | one push or pop on a ring of N slots gives the same reply as the reference FIFO of capacity N - 1 holding the same items, and leaves the same items queued |
| `QueueTrace.RingMatchesFifo` | orderbook-engine/include/order_queue.hpp:10-26 | for every sequence of pushes and pops, started from the reference FIFO holding the ring's items, the ring's replies equal the reference FIFO's, and so do the items left queued: no loss, duplication or reordering across wrap-around, and pushes fail exactly at N - 1 items |
| `QueueTrace.FifoRoundTrip` | orderbook-engine/tests/test_order_queue.cpp:73-94 | in the reference FIFO, pushing up to capacity into an empty queue accepts every push; popping one more time than that returns the items in push order, then reports empty |
| `QueueTrace.EmptyRingRoundTrip` | orderbook-engine/tests/test_order_queue.cpp:73-94 | on any empty ring of N slots, a new one included, pushing up to N - 1 items succeeds for each; popping one more time than that returns them in push order, field for field, then reports empty, and the ring is left empty |
| `QueueClients.PushAll` | orderbook-engine/tests/test_order_queue.cpp:77-82 | pushing a batch: push i succeeds exactly when fewer than N - 1 items would be queued before it, and the accepted prefix is appended in order |
| `QueueClients.Drain` | orderbook-engine/tests/test_integration.cpp:97-101 | popping until `pop` fails returns exactly the queued items, oldest first, and leaves the queue empty |
| `QueueClients.PushThenDrain` | orderbook-engine/tests/test_order_queue.cpp:73-94 | FIFO round-trip on a fresh queue: the first N - 1 pushes succeed and the rest fail, draining returns those items in push order, and one more pop afterwards fails and leaves the caller's item unchanged |
| `QueueClients.EmptyQueuePop` | orderbook-engine/tests/test_order_queue.cpp:30-35 | `pop` on a fresh queue fails and leaves the caller's item unchanged |
| `QueueClients.BasicPushPop` | orderbook-engine/tests/test_order_queue.cpp:13-28 | one push then one pop on a queue with N = 10 returns the pushed item, field for field |
| `QueueClients.FullQueuePush` | orderbook-engine/tests/test_order_queue.cpp:37-49 | with N = 3 the first two pushes succeed and the third and fourth are rejected (the test expects the third to succeed) |
| `QueueClients.CircularWrap` | orderbook-engine/tests/test_edge_cases.cpp:112-134 | with N = 3, the first two pushes succeed and the third and fourth are rejected (the test expects the third to succeed); a pop on the full queue returns the first item; one more push succeeds, writing the last slot (index 2) and wrapping `tail` to index 0, and the next push fails; draining gives the second and the new item in order |
| `QueueClients.TinyQueue` | orderbook-engine/tests/test_edge_cases.cpp:91-110 | a queue with N = 1 rejects every push, and every pop fails with the caller's item unchanged (the test expects one push to succeed) |
| `QueueClients.RefillAfterPop` | orderbook-engine/tests/test_order_queue.cpp:51-71 | on any full queue with N > 1, pop returns the oldest item; exactly one further push succeeds, and the queued items become the old ones minus the first, plus the new one |

## Left out

- Atomic loads and stores and their memory orders (`order_queue.hpp:11-12, 15, 20-21, 24`): the model is sequential, and `head` and `tail` are plain fields.
- Concurrent producers and consumers (`tests/test_concurrency.cpp`, `tests/test_integration.cpp:108-144`): these tests use the queue from several threads without synchronisation, beyond what a single-producer, single-consumer ring can support.
- Integer width: `head`, `tail` and N are `size_t` in the source. Here they are unbounded naturals. No wrap-around is lost, because `tail + 1` and `head + 1` never exceed N.
- The `Order` record (`order.hpp:7-12`): its `double` price is floating point, and the queue never reads any field. The element type stays generic.
- The order book (`orderbook.hpp`, `orderbook.cpp`): every method is a stub that returns a constant, so there is no matching logic to model.
- The memory pool (`memory_pool.hpp`, `memory_pool.cpp`): it wraps `malloc` and `free`, which are foreign calls with no logic.
- `ThreadLocalPool`, `OrderBook::add_order` and `match_orders`, which the tests call: they are not part of this model, because the repository does not define them.
- Benchmarks, `main.cpp` and the timing tests: these are drivers that use clocks, threads, random numbers and console output.
