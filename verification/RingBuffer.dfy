/**
 The keyboard and mouse rings: 256 slots shared by an interrupt handler that pushes and a main
 loop that pops. `RingBuffer` is the code as one caller sees it; `RingMachine` cuts `push`
 and `pop` into single reads and writes and lets the two sides interleave in any way.
 */
module RingBuffer {

  /** KEYBOARD_BUFFER_SIZE and MOUSE_BUFFER_SIZE */
  const SIZE := 256

  /** How many slots are filled between `tail` and `head`. */
  function Occupied(head: nat, tail: nat): (n: int)
    requires head < SIZE && tail < SIZE
  {
    if head >= tail then head - tail else head + SIZE - tail
  }

  function Slot(tail: nat, i: nat): (k: nat)
    requires tail < SIZE && i < SIZE
    ensures k < SIZE
  {
    if tail + i < SIZE then tail + i else tail + i - SIZE
  }

  /** The items in the ring, oldest first. */
  function Pending<T>(buffer: seq<T>, head: nat, tail: nat): (q: seq<T>)
    requires |buffer| == SIZE && head < SIZE && tail < SIZE
    ensures |q| == Occupied(head, tail)
    ensures forall i :: 0 <= i < |q| ==> q[i] == buffer[Slot(tail, i)]
  {
    seq(Occupied(head, tail), i requires 0 <= i < Occupied(head, tail) => buffer[Slot(tail, i)])
  }

  /** Publishing the item stored in slot `head` appends it. */
  lemma PendingPush<T>(buffer: seq<T>, head: nat, tail: nat)
    requires |buffer| == SIZE && head < SIZE && tail < SIZE && (head + 1) % SIZE != tail
    ensures Pending(buffer, (head + 1) % SIZE, tail) == Pending(buffer, head, tail) + [buffer[head]]
  {
  }

  /** Advancing `tail` removes the oldest item. */
  lemma PendingPop<T>(buffer: seq<T>, head: nat, tail: nat)
    requires |buffer| == SIZE && head < SIZE && tail < SIZE && head != tail
    ensures Pending(buffer, head, tail) == [buffer[tail]] + Pending(buffer, head, (tail + 1) % SIZE)
  {
  }

  /** Writing slot `head` disturbs no item that is pending. */
  lemma PendingStore<T>(buffer: seq<T>, head: nat, tail: nat, v: T)
    requires |buffer| == SIZE && head < SIZE && tail < SIZE
    ensures Pending(buffer[head := v], head, tail) == Pending(buffer, head, tail)
  {
  }

  class RingBuffer<T(0)> {
    const buffer: array<T>
    var head: nat
    var tail: nat

    ghost predicate Valid()
      reads this
    {
      buffer.Length == SIZE && head < SIZE && tail < SIZE
    }

    function Contents(): (q: seq<T>)
      requires Valid()
      reads this, buffer
      ensures |q| < SIZE
    {
      Pending(buffer[..], head, tail)
    }

    constructor ()
      ensures Valid() && Contents() == [] && fresh(buffer)
    {
      buffer := new T[SIZE];
      head, tail := 0, 0;
    }

    method Push(data: T) returns (ok: bool)
      requires Valid()
      modifies this`head, buffer
      ensures Valid()
      ensures ok <==> |old(Contents())| < SIZE - 1
      ensures Contents() == if ok then old(Contents()) + [data] else old(Contents())
    {
      var next := (head + 1) % SIZE;
      if next == tail {
        return false;
      }
      PendingStore(buffer[..], head, tail, data);
      buffer[head] := data;
      PendingPush(buffer[..], head, tail);
      head := next;
      return true;
    }

    method Pop(fallback: T) returns (ok: bool, data: T)
      requires Valid()
      modifies this`tail
      ensures Valid()
      ensures ok <==> old(Contents()) != []
      ensures if ok then old(Contents()) == [data] + Contents() else data == fallback && Contents() == []
    {
      if head == tail {
        return false, fallback;
      }
      data := buffer[tail];
      PendingPop(buffer[..], head, tail);
      tail := (tail + 1) % SIZE;
      return true, data;
    }
  }
}
