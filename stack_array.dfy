/** The LIFO stack the library builds on its growable array: the top of the
    stack is the array's last element. */
module Stacks {
  import opened Outcomes
  import opened GrowableArray

  class StackArray<T(==)> {
    var data: Array<T>

    ghost predicate Valid()
      reads this, data, data.data
    {
      data.Valid() && data.Tidy()
    }

    /** The stack from bottom to top. */
    function Elements(): (s: seq<Option<T>>)
      reads this, data, data.data
      requires Valid()
      ensures |s| == data.size
    {
      data.Elements()
    }

    /** `new StackArray()`: a stack over an array of capacity 10. */
    constructor ()
      ensures Valid() && fresh(data) && fresh(data.data)
      ensures Elements() == [] && data.capacity == 10
    {
      data := new Array<T>(10);
    }

    /** `new StackArray(capacity)`. */
    constructor WithCapacity(capacity: nat)
      ensures Valid() && fresh(data) && fresh(data.data)
      ensures Elements() == [] && data.capacity == capacity
    {
      data := new Array<T>(capacity);
    }

    /** `push(e)`: `addLast(e)`, which throws only on a zero-capacity array. */
    method Push(e: Option<T>) returns (s: Status)
      requires Valid()
      modifies data, data.data
      ensures Valid()
      ensures data.data == old(data.data) || fresh(data.data)
      ensures s == if old(data.capacity) == 0 then Failed(IndexOutOfBound) else Done
      ensures s.Done? ==> Elements() == old(Elements()) + [e]
      ensures s.Failed? ==> Elements() == old(Elements())
    {
      s := data.AddLast(e);
    }

    /** `pop()`: `deleteLast()`; removes and returns the top, and fails on an
        empty stack because the array is indexed at -1. */
    method Pop() returns (r: Result<Option<T>>)
      requires Valid()
      modifies data, data.data
      ensures Valid()
      ensures data.data == old(data.data) || fresh(data.data)
      ensures old(Elements()) == [] ==> r == Err(ArrayIndexOutOfBounds) && Elements() == []
      ensures old(Elements()) != [] ==> r == Ok(old(Elements())[|old(Elements())| - 1])
                                        && Elements() == old(Elements())[..|old(Elements())| - 1]
    {
      r := data.DeleteLast();
    }

    /** `peek()`: the top, read without changing the stack. */
    function Peek(): (r: Result<Option<T>>)
      reads this, data, data.data
      requires Valid()
      ensures Elements() == [] ==> r == Err(ArrayIndexOutOfBounds)
      ensures Elements() != [] ==> r == Ok(Elements()[|Elements()| - 1])
    {
      data.GetLast()
    }

    /** `size()`. */
    function Size(): (n: nat)
      reads this, data, data.data
      requires Valid()
      ensures n == |Elements()|
    {
      data.Size()
    }

    /** `isEmpty()`; the array reference is never null here, so this is `size() == 0`. */
    function IsEmpty(): (b: bool)
      reads this, data, data.data
      requires Valid()
      ensures b <==> Size() == 0
      ensures b <==> Elements() == []
    {
      data.Size() == 0
    }

    /** `isNotEmpty()`. */
    function IsNotEmpty(): (b: bool)
      reads this, data, data.data
      requires Valid()
      ensures b <==> Elements() != []
    {
      !IsEmpty()
    }

    /** `popPeek()`: null on an empty stack; otherwise pops one element and
        returns the new top, or null when nothing is left. */
    method PopPeek() returns (r: Result<Option<T>>)
      requires Valid()
      modifies data, data.data
      ensures Valid()
      ensures data.data == old(data.data) || fresh(data.data)
      ensures old(Elements()) == [] ==> r == Ok(None) && Elements() == []
      ensures |old(Elements())| == 1 ==> r == Ok(None) && Elements() == []
      ensures |old(Elements())| >= 2 ==> r == Ok(old(Elements())[|old(Elements())| - 2])
                                          && Elements() == old(Elements())[..|old(Elements())| - 1]
    {
      if IsEmpty() {
        return Ok(None);
      }
      var _ := Pop();
      r := if IsEmpty() then Ok(None) else Peek();
    }
  }

  /** The demonstration in the stack's test class: push 1, 2 and 5, read the
      size and the top, pop, read them again. */
  method PushThreeThenPop() returns (size1: nat, top1: Result<Option<int>>, popped: Result<Option<int>>,
                                     size2: nat, top2: Result<Option<int>>)
    ensures size1 == 3 && top1 == Ok(Some(5))
    ensures popped == Ok(Some(5))
    ensures size2 == 2 && top2 == Ok(Some(2))
  {
    var stack := new StackArray<int>();
    var _ := stack.Push(Some(1));
    var _ := stack.Push(Some(2));
    var _ := stack.Push(Some(5));
    size1, top1 := stack.Size(), stack.Peek();
    popped := stack.Pop();
    size2, top2 := stack.Size(), stack.Peek();
  }
}
