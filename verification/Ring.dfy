/** The fixed-size FIFO ring that the kernel instantiates four times: the ready
    queue of a CPU, the reaper queue, the tombstone queue and the system-task
    queue. All four keep `head`, `tail` and an explicit length, and wrap their
    indices at a power-of-two capacity. */
module RingBuffer {

  class Ring<T> {
    const cells: array<T>
    var head: nat
    var tail: nat
    var len: nat

    ghost predicate Valid()
      reads this
    {
      && 0 < cells.Length
      && head < cells.Length
      && len <= cells.Length
      && tail == Wrap(head + len)
    }

    /** `index & MASK` for an index that is at most one lap ahead. */
    function Wrap(i: nat): (r: nat)
    {
      if i < cells.Length then i else i - cells.Length
    }

    /** The queued values, oldest first: a window into the ring unrolled twice. */
    ghost function Contents(): (s: seq<T>)
      requires Valid()
      reads this, cells
      ensures |s| == len
    {
      (cells[..] + cells[..])[head..head + len]
    }

    constructor (capacity: nat, fill: T)
      requires 0 < capacity
      ensures Valid() && fresh(cells) && cells.Length == capacity
      ensures Contents() == []
    {
      cells := new T[capacity](_ => fill);
      head, tail, len := 0, 0, 0;
    }

    /** Appends `x`, or reports failure and leaves the ring alone when it is full. */
    method Push(x: T) returns (ok: bool)
      requires Valid()
      modifies this, cells
      ensures Valid()
      ensures ok <==> old(len) < cells.Length
      ensures Contents() == if ok then old(Contents()) + [x] else old(Contents())
    {
      if len == cells.Length {
        return false;
      }
      cells[tail] := x;
      tail := Wrap(tail + 1);
      len := len + 1;
      return true;
    }

    /** Removes and returns the oldest value. */
    method Pop() returns (x: T)
      requires Valid()
      requires 0 < len
      modifies this
      ensures Valid()
      ensures old(Contents()) == [x] + Contents()
    {
      x := cells[head];
      head := Wrap(head + 1);
      len := len - 1;
    }
  }
}
