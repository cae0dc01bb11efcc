/**
  Properties of sequences of queue operations: where the cursors end up,
  what the slots hold after a run of writes, FIFO order on a run that does
  not overflow, and what happens when it does.
*/
module SpscQueueProperties {
  import opened Wrappers
  import opened SpscQueue
  import ModArith

  /** The values returned by a run of reads, together with the queue afterwards. */
  datatype Drained<T> = Drained(queue: Queue<T>, values: seq<Option<T>>)

  /** One call on the queue: a `write` of a value or a `read`. */
  datatype Op<T> = WriteOp(item: T) | ReadOp

  /** Writes `items` one after the other, first element first. */
  function WriteAll<T>(q: Queue<T>, items: seq<T>): (r: Queue<T>)
    requires Valid(q)
    ensures Valid(r)
    ensures r.capacity == q.capacity && r.reader == q.reader
    decreases |items|
  {
    if items == [] then q else WriteAll(Write(q, items[0]).queue, items[1..])
  }

  /** Performs `n` reads and collects what they return, in order. */
  function ReadAll<T>(q: Queue<T>, n: nat): (r: Drained<T>)
    requires Valid(q)
    ensures Valid(r.queue) && |r.values| == n
    ensures r.queue.slots == q.slots && r.queue.writer == q.writer && r.queue.capacity == q.capacity
    decreases n
  {
    if n == 0 then Drained(q, [])
    else
      var taken := Read(q);
      var rest := ReadAll(taken.queue, n - 1);
      Drained(rest.queue, [taken.value] + rest.values)
  }

  /** The slot `steps` single-slot moves after `index` in a ring of `capacity` slots. */
  function Ahead(index: nat, steps: nat, capacity: nat): nat
    decreases steps
  {
    if steps == 0 then index else Ahead(Next(index, capacity), steps - 1, capacity)
  }

  /** Moving `steps` slots around the ring is adding `steps` modulo the capacity. */
  lemma {:induction false} AheadIsMod(index: nat, steps: nat, capacity: nat)
    requires index < capacity
    ensures Ahead(index, steps, capacity) == (index + steps) % capacity
    decreases steps
  {
    ModArith.Small(index, capacity);
    if steps > 0 {
      ModArith.Small(index + 1, capacity);
      AheadIsMod(Next(index, capacity), steps - 1, capacity);
      ModArith.AddMod(index + 1, steps - 1, capacity);
    }
  }

  /**
    How many single-slot moves take a cursor at `from` to slot `to` in a
    ring of `capacity` slots.
  */
  function Offset(from: nat, to: nat, capacity: nat): (d: nat)
    requires from < capacity && to < capacity
    ensures d < capacity
    ensures d == 0 <==> from == to
  {
    if to >= from then to - from else to + capacity - from
  }

  /** Moving `Offset(from, to)` slots from `from` reaches `to`, and moving `j < capacity` slots is measured as `j`. */
  lemma {:induction false} OffsetAhead(from: nat, j: nat, capacity: nat)
    requires from < capacity && j < capacity
    ensures Ahead(from, j, capacity) < capacity
    ensures Offset(from, Ahead(from, j, capacity), capacity) == j
    decreases j
  {
    if j > 0 {
      OffsetAhead(Next(from, capacity), j - 1, capacity);
      OffsetStep(from, Ahead(from, j, capacity), capacity);
    }
  }

  /** Moving the cursor on by one slot shortens the way to every other slot by one. */
  lemma OffsetStep(from: nat, to: nat, capacity: nat)
    requires from < capacity && to < capacity
    ensures to != from ==> Offset(from, to, capacity) == Offset(Next(from, capacity), to, capacity) + 1
    ensures to == from ==> Offset(Next(from, capacity), to, capacity) == capacity - 1
  {}

  /** After any number of writes the writer has moved that many slots around the ring. */
  lemma {:induction false} WriteAllCursor<T>(q: Queue<T>, items: seq<T>)
    requires Valid(q)
    ensures WriteAll(q, items).writer == Ahead(q.writer, |items|, q.capacity)
    decreases |items|
  {
    if items != [] {
      WriteAllCursor(Write(q, items[0]).queue, items[1..]);
    }
  }

  /**
    Reads return the slots from the reader cursor onwards, wrapping, and
    leave the reader that many slots further on.
  */
  lemma {:induction false} ReadAllValues<T>(q: Queue<T>, n: nat)
    requires Valid(q)
    ensures ReadAll(q, n).queue.reader == Ahead(q.reader, n, q.capacity)
    ensures forall j :: 0 <= j < n ==> Ahead(q.reader, j, q.capacity) < q.capacity
    ensures forall j :: 0 <= j < n ==> ReadAll(q, n).values[j] == q.slots[Ahead(q.reader, j, q.capacity)]
    decreases n
  {
    if n > 0 {
      var next := Read(q).queue;
      ReadAllValues(next, n - 1);
      forall j | 0 <= j < n
        ensures Ahead(q.reader, j, q.capacity) < q.capacity
        ensures ReadAll(q, n).values[j] == q.slots[Ahead(q.reader, j, q.capacity)]
      {
        if j > 0 {
          assert Ahead(q.reader, j, q.capacity) == Ahead(next.reader, j - 1, q.capacity);
        }
      }
    }
  }

  /**
    A run of at most `capacity` writes fills the slots from the writer cursor
    onwards with the written values in order and leaves every other slot
    as it was.
  */
  lemma {:induction false} WriteAllSlots<T>(q: Queue<T>, items: seq<T>)
    requires Valid(q) && |items| <= q.capacity
    ensures |WriteAll(q, items).slots| == q.capacity
    ensures forall i :: 0 <= i < q.capacity ==>
      WriteAll(q, items).slots[i]
        == if Offset(q.writer, i, q.capacity) < |items|
           then Some(items[Offset(q.writer, i, q.capacity)])
           else q.slots[i]
    decreases |items|
  {
    if items != [] {
      var next := Write(q, items[0]).queue;
      WriteAllSlots(next, items[1..]);
      forall i | 0 <= i < q.capacity
        ensures WriteAll(q, items).slots[i]
          == if Offset(q.writer, i, q.capacity) < |items|
             then Some(items[Offset(q.writer, i, q.capacity)])
             else q.slots[i]
      {
        OffsetStep(q.writer, i, q.capacity);
      }
    }
  }

  /** Within a run of at most `capacity` writes, the `j`-th value lands `j` slots past the writer. */
  lemma WrittenSlot<T>(q: Queue<T>, items: seq<T>, j: nat)
    requires Valid(q) && |items| <= q.capacity && j < |items|
    ensures Ahead(q.writer, j, q.capacity) < q.capacity
    ensures WriteAll(q, items).slots[Ahead(q.writer, j, q.capacity)] == Some(items[j])
  {
    OffsetAhead(q.writer, j, q.capacity);
    WriteAllSlots(q, items);
  }

  /**
    FIFO order on a run that does not overflow: from a state where the
    cursors coincide, `k <= capacity` writes followed by `k` reads return
    the written values in the order they were written, and the cursors
    coincide again.
  */
  lemma Fifo<T>(q: Queue<T>, items: seq<T>)
    requires Valid(q) && q.reader == q.writer && |items| <= q.capacity
    ensures var drained := ReadAll(WriteAll(q, items), |items|);
      && (forall j :: 0 <= j < |items| ==> drained.values[j] == Some(items[j]))
      && drained.queue.reader == drained.queue.writer
  {
    var filled := WriteAll(q, items);
    ReadAllValues(filled, |items|);
    forall j | 0 <= j < |items|
      ensures ReadAll(filled, |items|).values[j] == Some(items[j])
    {
      WrittenSlot(q, items, j);
    }
    WriteAllCursor(q, items);
  }

  /** FIFO order from a freshly constructed queue. */
  lemma FifoFromFresh<T>(capacity: nat, items: seq<T>)
    requires 0 < capacity <= SizeMax && |items| <= capacity
    ensures forall j :: 0 <= j < |items| ==>
      ReadAll(WriteAll(Create<T>(capacity), items), |items|).values[j] == Some(items[j])
  {
    Fifo(Create<T>(capacity), items);
  }

  /** The cursor update moves to the next slot modulo the capacity. */
  lemma NextIsMod(index: nat, capacity: nat)
    requires index < capacity
    ensures Next(index, capacity) == (index + 1) % capacity
  {
    ModArith.Small(index + 1, capacity);
  }

  /**
    A cursor value `steps` moves past `index` is `index + steps` modulo the
    capacity. This and `AheadFromZero` restate `AheadIsMod` about a named
    value so that the queue lemmas can use it without the solver reasoning
    about `%` in their larger contexts.
  */
  lemma AheadValue(x: nat, index: nat, steps: nat, capacity: nat)
    requires index < capacity && x == Ahead(index, steps, capacity)
    ensures x == (index + steps) % capacity
  {
    AheadIsMod(index, steps, capacity);
  }

  /** A cursor value `steps` moves past slot 0 is `steps` modulo the capacity (a solver aid, as `AheadValue`). */
  lemma AheadFromZero(x: nat, steps: nat, capacity: nat)
    requires 0 < capacity && x == Ahead(0, steps, capacity)
    ensures x == steps % capacity
  {
    AheadIsMod(0, steps, capacity);
  }

  /** A full round of `capacity` moves comes back to the start. */
  lemma FullRound(index: nat, capacity: nat)
    requires index < capacity
    ensures Ahead(index, capacity, capacity) == index
  {
    AheadIsMod(index, capacity, capacity);
    ModArith.Small(index + capacity, capacity);
  }

  /** After any number of writes the writer is its start plus that number, modulo the capacity. */
  lemma WriterAfterWrites<T>(q: Queue<T>, items: seq<T>)
    requires Valid(q)
    ensures WriteAll(q, items).writer == (q.writer + |items|) % q.capacity
  {
    WriteAllCursor(q, items);
    AheadValue(WriteAll(q, items).writer, q.writer, |items|, q.capacity);
  }

  /** After any number of reads the reader is its start plus that number, modulo the capacity. */
  lemma ReaderAfterReads<T>(q: Queue<T>, n: nat)
    requires Valid(q)
    ensures ReadAll(q, n).queue.reader == (q.reader + n) % q.capacity
  {
    ReadAllValues(q, n);
    AheadValue(ReadAll(q, n).queue.reader, q.reader, n, q.capacity);
  }

  /**
    Writes never report a full queue: after exactly `capacity` writes the writer is back
    where it started, so the next write lands on the slot the first of
    them filled.
  */
  lemma WritesWrap<T>(q: Queue<T>, items: seq<T>)
    requires Valid(q) && |items| == q.capacity
    ensures WriteAll(q, items).writer == q.writer
  {
    WriteAllCursor(q, items);
    FullRound(q.writer, q.capacity);
  }

  /**
    Overflow: from coinciding cursors, `capacity` writes and one more
    overwrite the oldest value. Reading a full round afterwards returns the
    newest value where the oldest was, and the others in order.
  */
  lemma OverwritesOldest<T>(q: Queue<T>, items: seq<T>, item: T)
    requires Valid(q) && q.reader == q.writer && |items| == q.capacity
    ensures WriteAll(q, items).slots[q.writer] == Some(items[0])
    ensures var drained := ReadAll(Write(WriteAll(q, items), item).queue, q.capacity);
      && drained.values[0] == Some(item)
      && (forall j :: 1 <= j < q.capacity ==> drained.values[j] == Some(items[j]))
  {
    var full := WriteAll(q, items);
    WritesWrap(q, items);
    WrittenSlot(q, items, 0);
    var over := Write(full, item).queue;
    ReadAllValues(over, q.capacity);
    forall j | 1 <= j < q.capacity
      ensures ReadAll(over, q.capacity).values[j] == Some(items[j])
    {
      WrittenSlot(q, items, j);
      OffsetAhead(q.writer, j, q.capacity);
    }
  }

  /**
    A read can return a slot that was never written: after `k < capacity`
    writes to a fresh queue, the read following the first `k` returns `None`.
  */
  lemma ReadPastWritesIsEmpty<T>(capacity: nat, items: seq<T>)
    requires 0 < capacity <= SizeMax && |items| < capacity
    ensures ReadAll(WriteAll(Create<T>(capacity), items), |items| + 1).values[|items|] == None
  {
    var start := Create<T>(capacity);
    var filled := WriteAll(start, items);
    WriteAllSlots(start, items);
    ReadAllValues(filled, |items| + 1);
    OffsetAhead(0, |items|, capacity);
  }

  /**
    Reads never report an empty queue and never empty a slot: reading one more than a full
    round returns the same slot contents as the first of those reads.
  */
  lemma ReadsRepeat<T>(q: Queue<T>)
    requires Valid(q)
    ensures var drained := ReadAll(q, q.capacity + 1);
      drained.values[q.capacity] == drained.values[0]
  {
    ReadAllValues(q, q.capacity + 1);
    FullRound(q.reader, q.capacity);
  }

  /** Writing `items` and then `item` is writing `items + [item]`. */
  lemma {:induction false} WriteAllAppend<T>(q: Queue<T>, items: seq<T>, item: T)
    requires Valid(q)
    ensures WriteAll(q, items + [item]) == Write(WriteAll(q, items), item).queue
    decreases |items|
  {
    if items == [] {
      assert WriteAll(q, [item]) == WriteAll(Write(q, item).queue, []);
    } else {
      assert (items + [item])[1..] == items[1..] + [item];
      WriteAllAppend(Write(q, items[0]).queue, items[1..], item);
    }
  }

  /**
    Reference contents of slot `slot` after writing `items` to a fresh queue:
    the last value whose position in `items` is congruent to `slot` modulo
    the capacity, or `None` when there is none.
  */
  function LastWrittenAt<T>(items: seq<T>, capacity: nat, slot: nat): Option<T>
    requires capacity > 0
    decreases |items|
  {
    if items == [] then None
    else if (|items| - 1) % capacity == slot then Some(items[|items| - 1])
    else LastWrittenAt(items[..|items| - 1], capacity, slot)
  }

  /**
    Any number of writes to a fresh queue, overflowing or not, leave in each
    slot the last value written to a position congruent to it, and `None`
    in slots never written.
  */
  lemma {:induction false} FreshSlots<T>(capacity: nat, items: seq<T>)
    requires 0 < capacity <= SizeMax
    ensures forall i :: 0 <= i < capacity ==>
      WriteAll(Create<T>(capacity), items).slots[i] == LastWrittenAt(items, capacity, i)
    decreases |items|
  {
    var start := Create<T>(capacity);
    if items != [] {
      var prefix, last := items[..|items| - 1], items[|items| - 1];
      assert items == prefix + [last];
      FreshSlots(capacity, prefix);
      WriteAllAppend(start, prefix, last);
      WriterAfterWrites(start, prefix);
    }
  }

  /** Counts the writes in a run of calls. */
  function Writes<T>(ops: seq<Op<T>>): nat {
    if ops == [] then 0 else (if ops[0].WriteOp? then 1 else 0) + Writes(ops[1..])
  }

  /** Counts the reads in a run of calls. */
  function Reads<T>(ops: seq<Op<T>>): nat {
    if ops == [] then 0 else (if ops[0].ReadOp? then 1 else 0) + Reads(ops[1..])
  }

  /**
    Performs a run of writes and reads in order and collects what the reads
    return. Every call succeeds: there is one value per read, the queue
    stays `Valid` and its capacity never changes.
  */
  function Run<T>(q: Queue<T>, ops: seq<Op<T>>): (r: Drained<T>)
    requires Valid(q)
    ensures Valid(r.queue) && r.queue.capacity == q.capacity
    ensures |r.values| == Reads(ops)
    decreases |ops|
  {
    if ops == [] then Drained(q, [])
    else match ops[0]
      case WriteOp(item) => Run(Write(q, item).queue, ops[1..])
      case ReadOp =>
        var taken := Read(q);
        var rest := Run(taken.queue, ops[1..]);
        Drained(rest.queue, [taken.value] + rest.values)
  }

  /**
    After any run of calls each cursor has moved once per call of its own
    kind and is unaffected by the other kind.
  */
  lemma {:induction false} RunCursors<T>(q: Queue<T>, ops: seq<Op<T>>)
    requires Valid(q)
    ensures Run(q, ops).queue.writer == Ahead(q.writer, Writes(ops), q.capacity)
    ensures Run(q, ops).queue.reader == Ahead(q.reader, Reads(ops), q.capacity)
    decreases |ops|
  {
    if ops != [] {
      match ops[0]
      case WriteOp(item) => RunCursors(Write(q, item).queue, ops[1..]);
      case ReadOp => RunCursors(Read(q).queue, ops[1..]);
    }
  }

  /**
    From a fresh queue, the cursors after any run are the numbers of writes
    and reads modulo the capacity: the wrapped cursors of the original keep
    no more than that.
  */
  lemma RunFromFresh<T>(capacity: nat, ops: seq<Op<T>>)
    requires 0 < capacity <= SizeMax
    ensures Run(Create<T>(capacity), ops).queue.capacity == capacity
    ensures Run(Create<T>(capacity), ops).queue.writer == Writes(ops) % capacity
    ensures Run(Create<T>(capacity), ops).queue.reader == Reads(ops) % capacity
  {
    var start := Create<T>(capacity);
    var after := Run(start, ops).queue;
    RunCursors(start, ops);
    AheadFromZero(after.writer, Writes(ops), capacity);
    AheadFromZero(after.reader, Reads(ops), capacity);
  }

  /**
    The guard `index == capacity` in `write` is false in every state
    reachable from construction with a positive capacity.
  */
  lemma WriteGuardNeverFires<T>(capacity: nat, ops: seq<Op<T>>)
    requires 0 < capacity <= SizeMax
    ensures !WriteGuard(Run(Create<T>(capacity), ops).queue)
  {}

  /**
    With capacity 0 the guard is true at the first write: the one case in
    which it fires. The guard has an empty body, so that write goes on to
    store into storage of size 0 and to take a remainder by 0.
  */
  lemma WriteGuardFiresAtZeroCapacity()
    ensures WriteGuard(Create<int>(0))
  {}

  /** `emplace` and `write` of the constructed value give the same queue and the same slot. */
  lemma EmplaceIsWrite<A, T>(q: Queue<T>, args: A, construct: A -> T)
    requires Valid(q)
    ensures Emplace(q, args, construct) == Write(q, construct(args))
  {}

  /**
    A capacity-4 queue written with 1, 2, 3, 4 and 5 and then read five
    times: the fifth write overwrote 1, and the fifth read returns 5 again
    instead of reporting an empty queue.
  */
  lemma CapacityFourScenario()
    ensures ReadAll(WriteAll(Create<int>(4), [1, 2, 3, 4, 5]), 5).values
      == [Some(5), Some(2), Some(3), Some(4), Some(5)]
  {
    var written := WriteAll(Create<int>(4), [1, 2, 3, 4, 5]);
    FreshSlots(4, [1, 2, 3, 4, 5]);
    WriterAfterWrites(Create<int>(4), [1, 2, 3, 4, 5]);
    ReadAllValues(written, 5);
  }
}
