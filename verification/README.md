# spsc_queue — a verified sequential model

This project models `concurrent::spsc_queue<T>` from `include/spsc_queue.hpp`:
a fixed-capacity ring buffer with a slot array, a constant capacity and two
cursors, `reader_` and `writer_`. With the atomics removed, one queue is a
value `Queue(slots, capacity, reader, writer)` and its operations are pure
functions:

- `SpscQueue.Create` — the constructor: both cursors at 0, `capacity` slots
  of storage that hold no value yet (`None`).
- `SpscQueue.Write` — `write(const T&)`: store the item in the slot at the
  writer cursor, then move the writer to `(index + 1) % capacity`, and
  return the slot.
- `SpscQueue.Emplace` — `emplace(args...)`: move the writer first, then
  construct the value in the slot it pointed at, and return the slot. The
  constructor of `T` is a function parameter.
- `SpscQueue.Read` — `read()`: move the reader to `(index + 1) % capacity`
  and return the slot it pointed at.

The queue checks neither fullness nor emptiness. A write never reports a full
queue. It overwrites the oldest slot once the writer has gone round the
buffer. A read never reports an empty queue. It may return a slot that was
never written (`None`), or one it has already returned, because reading does
not empty the slot.

The cursor update is modelled in `size_t` arithmetic (`SpscQueue.Advance`),
with `size_t` taken to be 64-bit here: the increment wraps at 2^64 before the
remainder is taken. For every cursor inside the buffer that wrap cannot
happen, and the update is the next slot, going back to 0 after the last one
(`SpscQueue.Next`).

A capacity of 0 is accepted by the constructor. With it, the first `write`,
`emplace` or `read` would compute `% 0`. The model therefore lets `Create`
take 0. Such a queue is not `Valid`, and every operation requires `Valid`.

`SpscQueueProperties` composes the operations: `WriteAll`, `ReadAll` and
`Run` (a mixed sequence of writes and reads). It proves where the cursors
end up, what every slot holds, and FIFO order for runs that do not overflow.
It also proves what happens on runs that do overflow. `ModArith` holds the
remainder facts these proofs use, and `Wrappers` defines `Option`.

Reading of the source: the bare identifier `capacity` in `emplace`, `write`
and `read` (lines 41, 52, 55, 75) is taken to be the member `capacity_`
(line 18). The code has wrapped cursors and no full or empty results, and
the model follows the code.

## Model

| member | source | states |
|---|---|---|
| SpscQueue.Create | include/spsc_queue.hpp:18-28 | a new queue has reader 0, writer 0, the given capacity and that many slots, none holding a value; it is `Valid` exactly when the capacity is positive |
| SpscQueue.Advance | include/spsc_queue.hpp:41 | the `size_t` cursor update always lands inside the buffer, and from a cursor inside the buffer it is the next slot, wrapping to 0 after the last |
| SpscQueue.AdvanceIsSizeArithmetic | include/spsc_queue.hpp:55 | the cursor update equals `((index + 1) mod 2^64) % capacity` |
| SpscQueue.Remainder | include/spsc_queue.hpp:75 | the unsigned remainder used by the cursor update is below the divisor, and is the number itself when that is already below |
| SpscQueue.RemainderIsMod | include/spsc_queue.hpp:75 | that remainder is the `%` operator |
| SpscQueue.Write | include/spsc_queue.hpp:48-58 | `write` stores the item in the slot at the old writer and returns it; the writer moves to the next slot (wrapping); every other slot, the reader and the capacity are unchanged; validity is preserved |
| SpscQueue.Emplace | include/spsc_queue.hpp:36-45 | `emplace` stores the value constructed from its arguments in the slot at the old writer and returns it; the writer moves to the next slot; all else is unchanged |
| SpscQueue.Read | include/spsc_queue.hpp:72-78 | `read` returns the contents of the slot at the old reader and moves the reader to the next slot (wrapping); the slots, the writer and the capacity are unchanged |
| SpscQueueProperties.EmplaceIsWrite | include/spsc_queue.hpp:38-57 | `emplace` has the same effect and result as `write` of the constructed value, although it moves the cursor before storing |
| SpscQueueProperties.WriteGuardNeverFires | include/spsc_queue.hpp:52 | the guard `index == capacity` in `write` is false in every state reachable from construction with a positive capacity |
| SpscQueueProperties.WriteGuardFiresAtZeroCapacity | include/spsc_queue.hpp:52 | with capacity 0 the guard is true at the first write, the one case in which it fires |
| SpscQueueProperties.NextIsMod | include/spsc_queue.hpp:41 | the one-slot cursor move is `(index + 1) % capacity` |
| SpscQueueProperties.WriteAll | include/spsc_queue.hpp:48-58 | any number of writes keep the queue valid and leave the reader and the capacity unchanged |
| SpscQueueProperties.ReadAll | include/spsc_queue.hpp:72-78 | any number of reads succeed, one value each, and leave the slots, the writer and the capacity unchanged |
| SpscQueueProperties.WriteAllCursor | include/spsc_queue.hpp:55 | after `n` writes the writer has made `n` one-slot moves |
| SpscQueueProperties.WriterAfterWrites | include/spsc_queue.hpp:55 | after `n` writes the writer is `(writer + n) % capacity` |
| SpscQueueProperties.ReaderAfterReads | include/spsc_queue.hpp:75 | after `n` reads the reader is `(reader + n) % capacity` |
| SpscQueueProperties.ReadAllValues | include/spsc_queue.hpp:74-77 | `n` reads return the slots from the reader onwards, in ring order |
| SpscQueueProperties.WriteAllSlots | include/spsc_queue.hpp:54-55 | at most `capacity` writes put the `j`-th value `j` slots past the writer and leave every slot they do not reach unchanged |
| SpscQueueProperties.WrittenSlot | include/spsc_queue.hpp:54 | within at most `capacity` writes, the `j`-th value is found `j` slots past the starting writer |
| SpscQueueProperties.Fifo | include/spsc_queue.hpp:48-78 | from coinciding cursors, `k <= capacity` writes then `k` reads return the values in write order and leave the cursors coinciding |
| SpscQueueProperties.FifoFromFresh | include/spsc_queue.hpp:24-78 | FIFO order for `k <= capacity` writes then `k` reads on a newly constructed queue |
| SpscQueueProperties.WritesWrap | include/spsc_queue.hpp:41 | writes never report a full queue: after exactly `capacity` writes the writer is back at its start |
| SpscQueueProperties.OverwritesOldest | include/spsc_queue.hpp:54-55 | after `capacity` writes one more write replaces the oldest value, and a full round of reads returns the newest value in its place and the rest in order |
| SpscQueueProperties.ReadPastWritesIsEmpty | include/spsc_queue.hpp:27 | storage is not initialised: after `k < capacity` writes to a new queue the `k+1`-th read returns a never-written slot |
| SpscQueueProperties.ReadsRepeat | include/spsc_queue.hpp:72-77 | reads never report an empty queue or empty a slot: the read after a full round returns what the first read of the round returned |
| SpscQueueProperties.WriteAllAppend | include/spsc_queue.hpp:48-58 | successive writes compose: writing `items` then `item` is writing `items + [item]` |
| SpscQueueProperties.FreshSlots | include/spsc_queue.hpp:54-55 | after any number of writes to a new queue each slot holds the last value written at a position congruent to it, or nothing |
| SpscQueueProperties.Run | include/spsc_queue.hpp:38-78 | any sequence of writes and reads succeeds, returns one value per read, keeps the queue valid and never changes the capacity |
| SpscQueueProperties.RunCursors | include/spsc_queue.hpp:40-77 | in a mixed sequence each cursor moves once per call of its own kind only |
| SpscQueueProperties.RunFromFresh | include/spsc_queue.hpp:18-20 | from construction, after any sequence the capacity is unchanged and the cursors are the numbers of writes and reads modulo the capacity |
| SpscQueueProperties.CapacityFourScenario | include/spsc_queue.hpp:48-77 | capacity 4, writes (of lvalues holding) 1..5, five reads: 5, 2, 3, 4, 5 — the fifth write overwrote 1 and the fifth read repeats a slot |

## Left out

- Atomics and memory ordering (`std::atomic`, `memory_order_relaxed`): the model is one queue seen by one thread at a time; producer/consumer interleavings are not modelled.
- The allocator (line 27) and the fact that storage is never deallocated: storage is a sequence of `capacity` empty slots.
- Object lifetimes: placement `new` in `emplace` and assignment into unconstructed storage in `write` are both modelled as storing the value; undefined behaviour for non-trivial `T` is not modelled.
- SpscQueue.Read: a slot never written is returned as `None`; in the original it is a reference to unconstructed storage.
- SpscQueue.Write: an exception from the copy assignment of `T` is not modelled; in the original it reaches the caller and the writer has not moved.
- SpscQueue.Emplace: an exception from the constructor of `T` is not modelled; in the original the writer has already moved when it is thrown.
- References: `write`, `emplace` and `read` return `T&`; the model returns the value, so later changes made through the reference are not modelled.
- The rvalue overload `write(const T&&)` (lines 61-69): it names an undeclared `value`, returns nothing and never moves the cursor, so it has no behaviour to model. Every call with an rvalue argument resolves to this overload, so `SpscQueue.Write` models `write` called with an lvalue only.
- The deleted assignment operators (lines 31-32, naming a class `CircularBuffer` that does not exist) and the `constructible_type` concept (lines 8-9): compile-time only.
- `Full`, `Empty`, `InvalidCapacity` and `AllocationFailed` results and monotonic cursors: the code has none of them.
- SpscQueueProperties.Run: its calls are `write` and `read`; `emplace` is covered by `EmplaceIsWrite`, which shows it acts as `write`.
