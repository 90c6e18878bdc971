/** The bounded download queue (Streaming-Client/build/src/download_queue.c):
    a ring of frame slots shared by the download threads and the decode
    thread. A push stores at tail and a pop takes from head, both moving
    round the ring modulo the capacity. The mutex and condition variables
    are replaced by preconditions: push is called on a queue that is not
    full, and pop on one that is not empty. */
module DownloadQueue {
  import opened Prelude

  /** A downloaded frame: its index, its bytes and the download time. */
  datatype Frame = Frame(index: int, buffer: seq<byte>, dlMs: real)

  // ---------------------------------------------------------------------
  // The ring, as a value
  // ---------------------------------------------------------------------

  /** The frames a ring holds, oldest first: count slots from head on,
      wrapping round the end of the slots. */
  function Window(slots: seq<Frame>, head: nat, count: nat): (w: seq<Frame>)
    requires |slots| > 0 && head < |slots|
    ensures |w| == count
  {
    seq(count, i requires 0 <= i < count => slots[(head + i) % |slots|])
  }

  /** Within two turns of the ring, the remainder is one subtraction. */
  lemma {:induction false} ModSmall(x: nat, n: nat)
    requires 0 < n && x < 2 * n
    ensures x % n == if x < n then x else x - n
  {
    DivBounds(x, n);
    var q := x / n;
    if q >= 2 {
      MulMono(2, q, n);
    }
  }

  /** Fewer than a full turn apart, two offsets land on different slots. */
  lemma {:induction false} SlotsDistinct(h: nat, i: nat, c: nat, n: nat)
    requires h < n && i < c < n
    ensures (h + i) % n != (h + c) % n
  {
    ModSmall(h + i, n);
    ModSmall(h + c, n);
  }

  /** Storing at the slot after the window appends to the window. */
  lemma {:induction false} WindowAfterStore(slots: seq<Frame>, head: nat, count: nat, f: Frame)
    requires |slots| > 0 && head < |slots| && count < |slots|
    ensures Window(slots[(head + count) % |slots| := f], head, count + 1) == Window(slots, head, count) + [f]
  {
    var n := |slots|;
    var slots' := slots[(head + count) % n := f];
    var w', w := Window(slots', head, count + 1), Window(slots, head, count) + [f];
    forall i | 0 <= i < count + 1
      ensures w'[i] == w[i]
    {
      if i < count {
        SlotsDistinct(head, i, count, n);
      }
    }
    assert w' == w;
  }

  /** Advancing head by one drops the oldest frame of the window. */
  lemma {:induction false} WindowAfterTake(slots: seq<Frame>, head: nat, count: nat)
    requires |slots| > 0 && head < |slots| && 0 < count <= |slots|
    ensures Window(slots, (head + 1) % |slots|, count - 1) == Window(slots, head, count)[1..]
  {
    var n := |slots|;
    var w', w := Window(slots, (head + 1) % n, count - 1), Window(slots, head, count)[1..];
    ModSmall(head + 1, n);
    forall i | 0 <= i < count - 1
      ensures w'[i] == w[i]
    {
      ModSmall((head + 1) % n + i, n);
      ModSmall(head + 1 + i, n);
    }
    assert w' == w;
  }

  /** Moving head on by one slot and shrinking the window by one leaves
      the slot after the window where it was. */
  lemma {:induction false} TakeKeepsTail(head: nat, count: nat, n: nat)
    requires head < n && 0 < count <= n
    ensures ((head + 1) % n + (count - 1)) % n == (head + count) % n
  {
    ModSmall(head + 1, n);
    ModSmall((head + 1) % n + count - 1, n);
    ModSmall(head + count, n);
  }

  // ---------------------------------------------------------------------
  // The queue object
  // ---------------------------------------------------------------------

  /** DownloadQueue: the slot array, its capacity, and the head, tail and
      count of the live window. */
  class Queue {
    var items: array<Frame>
    var capacity: int
    var count: int
    var head: int
    var tail: int

    /** The ring is well formed: head and tail are slots, count is at most
        the capacity, and tail is count slots after head. */
    ghost predicate Valid()
      reads this
    {
      && items.Length == capacity >= 1
      && 0 <= count <= capacity
      && 0 <= head < capacity && 0 <= tail < capacity
      && tail == (head + count) % capacity
    }

    /** The frames in the queue, oldest first. */
    ghost function Contents(): seq<Frame>
      reads this, items
      requires Valid()
    {
      Window(items[..], head, count)
    }

    /** download_queue_init: an empty ring of capacity slots. */
    constructor (capacity: int)
      requires capacity >= 1
      ensures Valid() && fresh(items)
      ensures this.capacity == capacity && count == 0 && head == 0 && tail == 0
      ensures Contents() == []
    {
      items := new Frame[capacity];
      this.capacity := capacity;
      count := 0;
      head := 0;
      tail := 0;
    }

    /** download_queue_push on a queue with room: the frame is stored at
        tail, which moves on by one slot, and count grows by one; the
        frame joins the end of the queue and no other slot changes. */
    method Push(frame: Frame)
      requires Valid() && count < capacity
      modifies this, items
      ensures Valid() && Contents() == old(Contents()) + [frame]
      ensures items == old(items) && items[..] == old(items[..])[old(tail) := frame]
      ensures tail == (old(tail) + 1) % capacity && count == old(count) + 1
      ensures head == old(head) && capacity == old(capacity)
    {
      ghost var before := items[..];
      items[tail] := frame;
      assert items[..] == before[tail := frame];
      WindowAfterStore(before, head, count, frame);
      ModSmall(head + count, capacity);
      ModSmall(tail + 1, capacity);
      ModSmall(head + count + 1, capacity);
      tail := (tail + 1) % capacity;
      count := count + 1;
    }

    /** download_queue_pop on a non-empty queue: the frame at head is
        returned, head moves on by one slot and count drops by one; the
        oldest frame leaves the queue and no slot changes. */
    method Pop() returns (frame: Frame)
      requires Valid() && count > 0
      modifies this
      ensures Valid() && frame == old(Contents())[0] && Contents() == old(Contents())[1..]
      ensures head == (old(head) + 1) % capacity && count == old(count) - 1
      ensures tail == old(tail) && capacity == old(capacity) && items == old(items)
    {
      frame := items[head];
      ghost var slots := items[..];
      ModSmall(head, capacity);
      assert frame == Window(slots, head, count)[0];
      WindowAfterTake(slots, head, count);
      var next := (head + 1) % capacity;
      TakeKeepsTail(head, count, capacity);
      head := next;
      count := count - 1;
    }
  }

  // ---------------------------------------------------------------------
  // FIFO order over a run of operations
  // ---------------------------------------------------------------------

  datatype Op = PushOp(frame: Frame) | PopOp

  /** A run of operations on a queue of the given capacity holding q: the
      final contents and the frames popped, in order; None when a push
      finds the queue full or a pop finds it empty (the calls that would
      block). */
  function Run(ops: seq<Op>, q: seq<Frame>, capacity: nat): Option<(seq<Frame>, seq<Frame>)>
    decreases |ops|
  {
    if ops == [] then Some((q, []))
    else match ops[0]
      case PushOp(f) =>
        if |q| >= capacity then None else Run(ops[1..], q + [f], capacity)
      case PopOp =>
        if q == [] then None
        else match Run(ops[1..], q[1..], capacity)
          case None => None
          case Some((q', out)) => Some((q', [q[0]] + out))
  }

  /** The frames a run pushes, in order. */
  function Pushed(ops: seq<Op>): seq<Frame>
    decreases |ops|
  {
    if ops == [] then []
    else (if ops[0].PushOp? then [ops[0].frame] else []) + Pushed(ops[1..])
  }

  /** Nothing is lost, duplicated or reordered: what was in the queue,
      followed by what was pushed, is what was popped followed by what
      remains. */
  lemma {:induction false} RunIsFifo(ops: seq<Op>, q: seq<Frame>, capacity: nat, final: seq<Frame>, out: seq<Frame>)
    requires Run(ops, q, capacity) == Some((final, out))
    ensures q + Pushed(ops) == out + final
    decreases |ops|
  {
    if ops != [] {
      match ops[0]
      case PushOp(f) =>
        RunIsFifo(ops[1..], q + [f], capacity, final, out);
        assert q + Pushed(ops) == (q + [f]) + Pushed(ops[1..]);
      case PopOp =>
        var rest := Run(ops[1..], q[1..], capacity).value;
        RunIsFifo(ops[1..], q[1..], capacity, rest.0, rest.1);
        assert q == [q[0]] + q[1..];
        assert Pushed(ops) == Pushed(ops[1..]);
        AppendAssoc([q[0]], q[1..], Pushed(ops[1..]));
        AppendAssoc([q[0]], rest.1, final);
    }
  }

  /** Starting empty, the frames come out in the order they went in. */
  lemma {:induction false} PopsArePrefixOfPushes(ops: seq<Op>, capacity: nat, final: seq<Frame>, out: seq<Frame>)
    requires Run(ops, [], capacity) == Some((final, out))
    ensures out <= Pushed(ops) && final == Pushed(ops)[|out|..]
  {
    RunIsFifo(ops, [], capacity, final, out);
    assert [] + Pushed(ops) == Pushed(ops);
  }
}
