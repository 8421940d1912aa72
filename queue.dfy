// The fixed-capacity circular queue that holds the upcoming pieces.

module CircularQueue {
  import opened Pieces

  /** Capacity of the queue; every index computation is modulo this value. */
  const MaxSize: nat := 5

  datatype Option<T> = None | Some(value: T)

  /**
   * The `count` elements of the ring `a` read from index `front` onwards, wrapping
   * around modulo MaxSize: the queue's front-to-back order.
   */
  ghost function Window(a: seq<Piece>, front: nat, count: nat): (w: seq<Piece>)
    requires |a| == MaxSize && front < MaxSize && count <= MaxSize
  {
    seq(count, i requires 0 <= i < count => a[(front + i) % MaxSize])
  }

  /**
   * Writing `p` into the first free slot `(front + count) mod MaxSize` of a ring
   * that is not full appends `p` to the window and leaves its old elements as they were.
   */
  lemma WindowPush(a: seq<Piece>, front: nat, count: nat, p: Piece)
    requires |a| == MaxSize && front < MaxSize && count < MaxSize
    ensures Window(a[(front + count) % MaxSize := p], front, count + 1) == Window(a, front, count) + [p]
  {
    var slot := (front + count) % MaxSize;
    var w, v := Window(a[slot := p], front, count + 1), Window(a, front, count) + [p];
    forall i | 0 <= i < count + 1 ensures w[i] == v[i] {
      if i < count {
        assert (front + i) % MaxSize != slot;
      }
    }
  }

  /** The front of a non-empty window is the slot at `front`; the rest is the window one slot further on. */
  lemma WindowPop(a: seq<Piece>, front: nat, count: nat)
    requires |a| == MaxSize && front < MaxSize && 0 < count <= MaxSize
    ensures Window(a, front, count)[0] == a[front]
    ensures Window(a, front, count)[1..] == Window(a, (front + 1) % MaxSize, count - 1)
  {
    var w, v := Window(a, front, count)[1..], Window(a, (front + 1) % MaxSize, count - 1);
    forall i | 0 <= i < count - 1 ensures w[i] == v[i] {
      assert ((front + 1) % MaxSize + i) % MaxSize == (front + (i + 1)) % MaxSize;
    }
  }

  /** The queue: ring buffer `items`, front index, index of the next free slot, element count. */
  class Queue {
    const items: array<Piece>
    var front: int
    var rear: int
    var size: int

    /** The indices lie in the ring, the count within capacity, and `rear` is `size` places past `front`. */
    ghost predicate Valid()
      reads this
    {
      items.Length == MaxSize &&
      0 <= size <= MaxSize &&
      0 <= front < MaxSize &&
      0 <= rear < MaxSize &&
      rear == (front + size) % MaxSize
    }

    /** The pieces in the queue, front first. Slots outside the window are stale and never read. */
    ghost function Contents(): (s: seq<Piece>)
      reads this, items
      requires Valid()
    {
      Window(items[..], front, size)
    }

    /** A fresh queue with all three indices at zero; the slots' initial values are never read. */
    constructor ()
      ensures Valid() && fresh(items)
      ensures front == 0 && rear == 0 && size == 0
      ensures Contents() == []
    {
      items := new Piece[MaxSize];
      front, rear, size := 0, 0, 0;
    }

    /** The empty test. */
    predicate IsEmpty()
      reads this, items
      ensures IsEmpty() <==> size == 0
      ensures Valid() ==> (IsEmpty() <==> Contents() == [])
    {
      size == 0
    }

    /** The full test. */
    predicate IsFull()
      reads this, items
      ensures IsFull() <==> size == MaxSize
      ensures Valid() ==> (IsFull() <==> |Contents()| == MaxSize)
    {
      size == MaxSize
    }

    /**
     * Inserts `p` at the back. A full queue is left as it was and the call fails;
     * otherwise exactly the slot `rear` is written and `rear` and `size` advance.
     */
    method Enqueue(p: Piece) returns (ok: bool)
      requires Valid()
      modifies this`rear, this`size, items
      ensures Valid() && front == old(front)
      ensures ok <==> old(size) < MaxSize
      ensures rear == (if ok then (old(rear) + 1) % MaxSize else old(rear))
      ensures size == (if ok then old(size) + 1 else old(size))
      ensures items[..] == if ok then old(items[..])[old(rear) := p] else old(items[..])
      ensures Contents() == if ok then old(Contents()) + [p] else old(Contents())
    {
      if IsFull() {
        return false;
      }
      WindowPush(items[..], front, size, p);
      items[rear] := p;
      rear := (rear + 1) % MaxSize;
      size := size + 1;
      ok := true;
    }

    /**
     * Removes the piece at the front. An empty queue is left as it was and the
     * call yields None; otherwise the front slot's piece is returned, `front`
     * advances and `size` drops. The array itself is never written.
     */
    method Dequeue() returns (r: Option<Piece>)
      requires Valid()
      modifies this`front, this`size
      ensures Valid()
      ensures r.Some? <==> old(size) > 0
      ensures r.Some? ==> r.value == old(items[front])
      ensures r.Some? ==> front == (old(front) + 1) % MaxSize && size == old(size) - 1
      ensures r.None? ==> front == old(front) && size == old(size)
      ensures r.Some? ==> r.value == old(Contents())[0] && Contents() == old(Contents())[1..]
      ensures r.None? ==> old(Contents()) == [] && Contents() == []
    {
      if IsEmpty() {
        return None;
      }
      ghost var before := Contents();
      WindowPop(items[..], front, size);
      r := Some(items[front]);
      front := (front + 1) % MaxSize;
      size := size - 1;
      assert Contents() == before[1..];
    }

    /** Front-to-back traversal, as the display walks it: `size` slots from `front`, wrapping around. */
    method Traverse() returns (s: seq<Piece>)
      requires Valid()
      ensures s == Contents()
      ensures |s| == size
      ensures forall i :: 0 <= i < |s| ==> s[i] == items[(front + i) % MaxSize]
    {
      s := [];
      var idx := front;
      var i := 0;
      while i < size
        invariant 0 <= i <= size
        invariant idx == (front + i) % MaxSize
        invariant s == Window(items[..], front, i)
      {
        s := s + [items[idx]];
        idx := (idx + 1) % MaxSize;
        i := i + 1;
      }
    }
  }
}
