/// The fixed-capacity FIFO ring buffer `DataStructures::CircularQueueStruct`.
///
/// Items are stored by value in an array of `size` slots. `front` is where
/// items are removed, `back` where they are inserted, and `count` how many
/// are queued; both indices wrap around to 0 when they reach `size`.
module CircularQueue {

  /// `i` reduced into `[0, n)` when it has run at most `n` past the start:
  /// the single wrap-around step both indices of the queue take.
  function Wrap(i: int, n: int): (r: int)
    requires 0 <= i < 2 * n
    ensures 0 <= r < n && r == i % n
  {
    if i < n then i else i - n
  }

  class CircularQueueStruct<T(0)> {
    // public view: the queued items, oldest first
    ghost var Contents: seq<T>

    // implementation (the source's private members)
    const queue: array<T>
    const size: int
    var front: int  // where items are removed
    var back: int   // where items are inserted
    var count: int

    /// The object invariant: the indices stay inside the array, `back` is
    /// `count` slots after `front` (modulo `size`), and `Contents` is the
    /// circular window of `count` slots that starts at `front`.
    ghost predicate Valid()
      reads this, queue
    {
      && queue.Length == size
      && 1 <= size
      && 0 <= front < size
      && 0 <= back < size
      && 0 <= count <= size
      && back == Wrap(front + count, size)
      && Contents == if front + count <= size then queue[front..front + count]
                     else queue[front..] + queue[..front + count - size]
    }

    /// A requested capacity below 1 is raised to 1; the queue starts empty
    /// with both indices at 0.
    constructor (requested: int)
      ensures Valid() && fresh(queue)
      ensures size == if requested < 1 then 1 else requested
      ensures front == 0 && back == 0 && count == 0
      ensures Contents == []
    {
      var n := requested;
      if n < 1 {
        n := 1;
      }
      queue := new T[n];
      size := n;
      front := 0;
      back := 0;
      count := 0;
      Contents := [];
    }

    /// Appends `item` at the tail; returns false and changes nothing when
    /// the queue is full.
    method Enqueue(item: T) returns (ok: bool)
      requires Valid()
      modifies this, queue
      ensures Valid()
      ensures ok <==> old(|Contents|) < size
      ensures ok ==> Contents == old(Contents) + [item]
      ensures ok ==> back == Wrap(old(back) + 1, size) && count == old(count) + 1
      ensures !ok ==> Contents == old(Contents) && count == old(count) && back == old(back)
      ensures !ok ==> queue[..] == old(queue[..])
      ensures front == old(front)
    {
      if count >= size {
        return false;
      }
      ghost var was := Contents;
      queue[back] := item;
      back := back + 1;
      if back == size {
        back := 0;
      }
      count := count + 1;
      Contents := was + [item];
      return true;
    }

    method IsEmpty() returns (empty: bool)
      requires Valid()
      ensures empty <==> Contents == []
    {
      empty := count <= 0;
    }

    /// Removes and returns the oldest item. The source will also "dequeue"
    /// from an empty queue; callers are told to check `IsEmpty()` first.
    method Dequeue() returns (item: T)
      requires Valid()
      requires Contents != []
      modifies this
      ensures Valid()
      ensures item == old(Contents)[0]
      ensures Contents == old(Contents)[1..]
      ensures front == Wrap(old(front) + 1, size) && count == old(count) - 1
      ensures back == old(back)
    {
      var i := front;
      front := front + 1;
      count := count - 1;
      if count < 0 {
        count := 0;
      }
      if front == size {
        front := 0;
      }
      item := queue[i];
      Contents := Contents[1..];
    }

    method GetSize() returns (n: int)
      requires Valid()
      ensures n == size && n >= 1
    {
      n := size;
    }

    method GetCount() returns (n: int)
      requires Valid()
      ensures n == |Contents| && 0 <= n <= size
    {
      n := count;
    }
  }
}
