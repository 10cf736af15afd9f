/** The FIFO queue the library builds on its growable array: the front of the
    queue is the array's first element. */
module Queues {
  import opened Outcomes
  import opened GrowableArray

  class QueueArray<T(==)> {
    var data: Array<T>

    ghost predicate Valid()
      reads this, data, data.data
    {
      data.Valid() && data.Tidy()
    }

    /** The queue from front to back. */
    function Elements(): (s: seq<Option<T>>)
      reads this, data, data.data
      requires Valid()
      ensures |s| == data.size
    {
      data.Elements()
    }

    /** `new QueueArray()`: a queue over an array of capacity 10. */
    constructor ()
      ensures Valid() && fresh(data) && fresh(data.data)
      ensures Elements() == [] && data.capacity == 10
    {
      data := new Array<T>(10);
    }

    /** `new QueueArray(capacity)`. */
    constructor WithCapacity(capacity: nat)
      ensures Valid() && fresh(data) && fresh(data.data)
      ensures Elements() == [] && data.capacity == capacity
    {
      data := new Array<T>(capacity);
    }

    /** `enQueue(e)`: `addLast(e)`, which throws only on a zero-capacity array. */
    method EnQueue(e: Option<T>) returns (s: Status)
      requires Valid()
      modifies data, data.data
      ensures Valid()
      ensures data.data == old(data.data) || fresh(data.data)
      ensures s == if old(data.capacity) == 0 then Failed(IndexOutOfBound) else Done
      ensures s.Done? ==> Elements() == old(Elements()) + [e]
      ensures s.Failed? ==> Elements() == old(Elements())
    {
      s := data.AddLast(e);
    }

    /** `deQueue()`: `delete(0)`; removes and returns the front, keeping the
        order of the rest, and throws "index out of bound" on an empty queue. */
    method DeQueue() returns (r: Result<Option<T>>)
      requires Valid()
      modifies data, data.data
      ensures Valid()
      ensures data.data == old(data.data) || fresh(data.data)
      ensures old(Elements()) == [] ==> r == Err(IndexOutOfBound) && Elements() == []
      ensures old(Elements()) != [] ==> r == Ok(old(Elements())[0]) && Elements() == old(Elements())[1..]
    {
      r := data.Delete(0);
    }

    /** `getFront()`: the cell at index 0, read without changing the queue;
        null on an empty queue, an array-bounds failure at capacity 0. */
    function GetFront(): (r: Result<Option<T>>)
      reads this, data, data.data
      requires Valid()
      ensures Elements() != [] ==> r == Ok(Elements()[0])
      ensures Elements() == [] ==> r == if data.capacity == 0 then Err(ArrayIndexOutOfBounds) else Ok(None)
    {
      data.Get(0)
    }

    /** `size()`. */
    function Size(): (n: nat)
      reads this, data, data.data
      requires Valid()
      ensures n == |Elements()|
    {
      data.Size()
    }

    /** `isEmpty()`. */
    function IsEmpty(): (b: bool)
      reads this, data, data.data
      requires Valid()
      ensures b <==> Size() == 0
      ensures b <==> Elements() == []
    {
      data.Size() == 0
    }

    /** `isNotEmpty()`. */
    function IsNotEmpty(): (b: bool)
      reads this, data, data.data
      requires Valid()
      ensures b <==> Elements() != []
    {
      !IsEmpty()
    }
  }
}
