/**
  Sequential semantics of one `concurrent::spsc_queue<T>` instance: a slot
  array of fixed capacity and two cursors that index into it. The atomics of
  the original only make each cursor load and store atomic, so one queue
  seen by one thread at a time is a plain value with pure operations.

  The queue does no full or empty check: a write never reports a full queue
  and may overwrite a slot that was never read, and a read never reports an
  empty queue and may return a slot that was never written (`None`) or one it
  has read before.
*/
module SpscQueue {
  import opened Wrappers
  import ModArith

  /** `std::size_t`, taken to be 64-bit here: unsigned arithmetic on it wraps at this modulus. */
  const SizeModulus: nat := 0x1_0000_0000_0000_0000
  const SizeMax: nat := SizeModulus - 1

  /**
    The queue state. `slots` is the allocated storage, one entry per element
    cell; `None` marks a cell that holds no value yet. `reader` and `writer`
    are the slot indices of the next read and the next write.
  */
  datatype Queue<T> = Queue(slots: seq<Option<T>>, capacity: nat, reader: nat, writer: nat)

  /** The result of a write: the queue afterwards and the value now in the written slot. */
  datatype Written<T> = Written(queue: Queue<T>, slot: T)

  /** The result of a read: the queue afterwards and the contents of the slot read. */
  datatype Taken<T> = Taken(queue: Queue<T>, value: Option<T>)

  /**
    The state every operation needs: a positive capacity that fits a
    `size_t` (a zero capacity makes the cursor update divide by zero), storage
    for exactly `capacity` cells, and both cursors inside it.
  */
  predicate Valid<T>(q: Queue<T>) {
    && 0 < q.capacity <= SizeMax
    && |q.slots| == q.capacity
    && q.reader < q.capacity
    && q.writer < q.capacity
  }

  /** The slot after `index` in a ring of `capacity` slots. */
  function Next(index: nat, capacity: nat): nat {
    if index + 1 == capacity then 0 else index + 1
  }

  /**
    Unsigned remainder `x % m`, computed by repeated subtraction so that
    its definition stays linear; `RemainderIsMod` shows it is `x % m`.
  */
  function Remainder(x: nat, m: nat): (r: nat)
    requires m > 0
    ensures r < m
    ensures x < m ==> r == x
    decreases x
  {
    if x < m then x else Remainder(x - m, m)
  }

  /** `Remainder` agrees with the remainder operator. */
  lemma {:induction false} RemainderIsMod(x: nat, m: nat)
    requires m > 0
    ensures Remainder(x, m) == x % m
    decreases x
  {
    if x >= m {
      RemainderIsMod(x - m, m);
      ModArith.AddMod(x - m, m, m);
      ModArith.Small((x - m) % m + m, m);
    }
  }

  /**
    The cursor update `(index + 1) % capacity` evaluated in `size_t`
    arithmetic: the increment wraps at 2^64 before the remainder is taken.
    For a cursor inside the buffer the wrap never happens, and the result is
    the next slot, going back to slot 0 after the last one.
  */
  function Advance(index: nat, capacity: nat): (next: nat)
    requires 0 < capacity <= SizeMax && index < SizeModulus
    ensures next < capacity
    ensures index < capacity ==> next == Next(index, capacity)
  {
    Remainder((index + 1) % SizeModulus, capacity)
  }

  /** `Advance` is the expression `((index + 1) mod 2^64) % capacity`. */
  lemma AdvanceIsSizeArithmetic(index: nat, capacity: nat)
    requires 0 < capacity <= SizeMax && index < SizeModulus
    ensures Advance(index, capacity) == ((index + 1) % SizeModulus) % capacity
  {
    RemainderIsMod((index + 1) % SizeModulus, capacity);
  }

  /**
    The constructor: both cursors start at 0 and the storage holds
    `capacity` cells none of which holds a value. The constructor does not
    reject a zero capacity; such a queue is not `Valid`, so no operation
    may be applied to it.
  */
  function Create<T>(capacity: nat): (q: Queue<T>)
    requires capacity <= SizeMax
    ensures q.capacity == capacity && q.reader == 0 && q.writer == 0
    ensures |q.slots| == capacity
    ensures forall i :: 0 <= i < |q.slots| ==> q.slots[i] == None
    ensures Valid(q) <==> capacity > 0
  {
    Queue(seq(capacity, _ => None), capacity, 0, 0)
  }

  /**
    The condition `index == capacity` that `write` tests before storing;
    its branch is empty, so it does not influence the write in any case.
  */
  predicate WriteGuard<T>(q: Queue<T>) {
    q.writer == q.capacity
  }

  /**
    `write(const T&)`: assigns `item` to the slot at the writer cursor,
    moves the writer one slot on (wrapping), and returns the slot written.
    Nothing else changes: no other slot, not the reader, not the capacity.
  */
  function Write<T>(q: Queue<T>, item: T): (r: Written<T>)
    requires Valid(q)
    ensures Valid(r.queue)
    ensures r.slot == item
    ensures |r.queue.slots| == |q.slots| && r.queue.slots[q.writer] == Some(item)
    ensures forall i :: 0 <= i < |q.slots| && i != q.writer ==> r.queue.slots[i] == q.slots[i]
    ensures r.queue.writer == Next(q.writer, q.capacity)
    ensures r.queue.reader == q.reader && r.queue.capacity == q.capacity
  {
    var index := q.writer;
    var stored := q.(slots := q.slots[index := Some(item)]);
    var advanced := stored.(writer := Advance(index, q.capacity));
    Written(advanced, advanced.slots[index].value)
  }

  /**
    `emplace(args...)`: advances the writer first, then constructs a value
    from `args` in the slot the writer pointed at and returns it. The
    constructor of `T` is the parameter `construct`.
  */
  function Emplace<A, T>(q: Queue<T>, args: A, construct: A -> T): (r: Written<T>)
    requires Valid(q)
    ensures Valid(r.queue)
    ensures r.slot == construct(args)
    ensures |r.queue.slots| == |q.slots| && r.queue.slots[q.writer] == Some(construct(args))
    ensures forall i :: 0 <= i < |q.slots| && i != q.writer ==> r.queue.slots[i] == q.slots[i]
    ensures r.queue.writer == Next(q.writer, q.capacity)
    ensures r.queue.reader == q.reader && r.queue.capacity == q.capacity
  {
    var index := q.writer;
    var advanced := q.(writer := Advance(index, q.capacity));
    var constructed := advanced.(slots := advanced.slots[index := Some(construct(args))]);
    Written(constructed, constructed.slots[index].value)
  }

  /**
    `read()`: moves the reader one slot on (wrapping) and returns what the
    slot it pointed at holds. The slot is not emptied, and the slots, the
    writer and the capacity are unchanged.
  */
  function Read<T>(q: Queue<T>): (r: Taken<T>)
    requires Valid(q)
    ensures Valid(r.queue)
    ensures r.value == q.slots[q.reader]
    ensures r.queue.reader == Next(q.reader, q.capacity)
    ensures r.queue.slots == q.slots && r.queue.writer == q.writer && r.queue.capacity == q.capacity
  {
    var index := q.reader;
    Taken(q.(reader := Advance(index, q.capacity)), q.slots[index])
  }
}
