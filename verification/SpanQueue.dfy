/** The exporter's bounded queue: a ring of 1024 cells with a head, a tail and a count. */
module SpanQueue {

  const MAX_QUEUE: nat := 1024
  const BATCH_SIZE: nat := 128

  /** What an arriving span does to the queue. */
  function Enqueued<T>(q: seq<T>, span: T): seq<T> {
    if |q| < MAX_QUEUE then q + [span] else q
  }

  function BatchLength(n: nat): nat {
    if n < BATCH_SIZE then n else BATCH_SIZE
  }

  /** The cell behind cell `i`. */
  function Succ(i: nat): (j: nat)
    requires i < MAX_QUEUE
    ensures j < MAX_QUEUE
  {
    if i + 1 == MAX_QUEUE then 0 else i + 1
  }

  lemma SuccIsNextModulo(i: nat)
    requires i < MAX_QUEUE
    ensures (i + 1) % MAX_QUEUE == Succ(i)
  {
  }

  /** The cell `n` places behind `head`. */
  function Ahead(head: nat, n: nat): nat
    requires head < MAX_QUEUE && n <= MAX_QUEUE
  {
    if head + n < MAX_QUEUE then head + n else head + n - MAX_QUEUE
  }

  /** `n` cells from `head` on, going round. */
  function Unrolled<T>(cells: seq<T>, head: nat, n: nat): (s: seq<T>)
    requires |cells| == MAX_QUEUE && head < MAX_QUEUE
    ensures |s| == n
    decreases n
  {
    if n == 0 then [] else [cells[head]] + Unrolled(cells, Succ(head), n - 1)
  }

  /** Writing the first free cell adds to the end of what is queued and changes nothing else. */
  lemma {:induction false} WriteTail<T>(cells: seq<T>, head: nat, n: nat, x: T)
    requires |cells| == MAX_QUEUE && head < MAX_QUEUE && n < MAX_QUEUE
    ensures Unrolled(cells[Ahead(head, n) := x], head, n + 1) == Unrolled(cells, head, n) + [x]
    decreases n
  {
    var written := cells[Ahead(head, n) := x];
    if n == 0 {
      assert Unrolled(written, Succ(head), 0) == [];
    } else {
      WriteTail(cells, Succ(head), n - 1, x);
      assert Ahead(Succ(head), n - 1) == Ahead(head, n);
      assert written[head] == cells[head];
    }
  }

  class Ring<T(0)> {
    const cells: array<T>
    var head: nat
    var tail: nat
    var count: nat

    ghost predicate Valid()
      reads this
    {
      cells.Length == MAX_QUEUE && head < MAX_QUEUE && count <= MAX_QUEUE && tail == Ahead(head, count)
    }

    /** The queued spans, oldest first. */
    ghost function Contents(): (s: seq<T>)
      requires Valid()
      reads this, cells
      ensures |s| == count
    {
      Unrolled(cells[..], head, count)
    }

    constructor ()
      ensures Valid() && fresh(cells) && Contents() == []
    {
      cells := new T[MAX_QUEUE];
      head, tail, count := 0, 0, 0;
    }

    /** The locked part of ending a span: the span is queued, or dropped if the ring is full. */
    method Enqueue(span: T) returns (accepted: bool, signal: bool)
      requires Valid()
      modifies this`tail, this`count, cells
      ensures Valid() && Contents() == Enqueued(old(Contents()), span)
      ensures accepted <==> |old(Contents())| < 1024
      ensures Contents() == if accepted then old(Contents()) + [span] else old(Contents())
      ensures signal <==> accepted && 128 <= |Contents()|
    {
      accepted, signal := count < MAX_QUEUE, false;
      if accepted {
        WriteTail(cells[..], head, count, span);
        SuccIsNextModulo(tail);
        cells[tail] := span;
        tail := (tail + 1) % MAX_QUEUE;
        count := count + 1;
        signal := count >= BATCH_SIZE;
      }
    }

    method Dequeue() returns (span: T)
      requires Valid() && 0 < count
      modifies this`head, this`count
      ensures Valid() && count == old(count) - 1
      ensures old(Contents()) == [span] + Contents()
    {
      SuccIsNextModulo(head);
      span := cells[head];
      head := (head + 1) % MAX_QUEUE;
      count := count - 1;
    }

    /** The oldest span goes into cell `n` of the batch. */
    method DequeueInto(batch: array<T>, n: nat, ghost all: seq<T>)
      requires Valid() && 0 < count && n < batch.Length && batch != cells && all == batch[..n] + Contents()
      modifies this`head, this`count, batch
      ensures Valid() && count == old(count) - 1 && all == batch[..n + 1] + Contents()
    {
      ghost var taken := batch[..n];
      var span := Dequeue();
      ghost var rest := Contents();
      batch[n] := span;
      assert batch[..n + 1] == taken + [span];
      assert taken + ([span] + rest) == taken + [span] + rest;
    }

    /** The locked part of the worker: up to a batch of the oldest spans leaves the ring in order. */
    method Drain(batch: array<T>) returns (n: nat)
      requires Valid() && batch.Length == BATCH_SIZE && batch != cells
      modifies this`head, this`count, batch
      ensures Valid() && n == BatchLength(old(count)) <= 128 && (n < 128 ==> Contents() == [])
      ensures old(Contents()) == batch[..n] + Contents()
    {
      n := 0;
      ghost var all := Contents();
      while count > 0 && n < BATCH_SIZE
        invariant Valid() && n <= BATCH_SIZE && n + count == old(count)
        invariant all == batch[..n] + Contents()
      {
        DequeueInto(batch, n, all);
        n := n + 1;
      }
    }
  }
}
