/** The library's growable array: a buffer `data` of length `capacity` whose
    first `size` cells hold the elements. Elements are Java references, so a
    cell holds an Option (None is null). */
module GrowableArray {
  import opened Outcomes

  /** The buffer `resize` allocates: the first `size` cells copied, the rest null. */
  function Resized<T>(d: seq<Option<T>>, size: nat, newCapacity: nat): (r: seq<Option<T>>)
    requires size <= |d| && size <= newCapacity
    ensures |r| == newCapacity
    ensures r[..size] == d[..size]
    ensures forall k :: size <= k < newCapacity ==> r[k] == None
  {
    seq(newCapacity, k requires 0 <= k < newCapacity => if k < size then d[k] else None)
  }

  /** The buffer after the capacity check at the head of `add`: doubled when full. */
  function Grown<T>(d: seq<Option<T>>, size: nat): (r: seq<Option<T>>)
    requires size <= |d|
    ensures |r| == if size == |d| then 2 * |d| else |d|
    ensures r[..size] == d[..size]
  {
    if size == |d| then Resized(d, size, 2 * |d|) else d
  }

  /** The buffer after `add(index, e)` has run its forward copy loop and stored
      `e`: every cell from index + 1 up to the old size receives a copy of the
      old cell `index`, so the tail is not shifted (see Findings). */
  function AddAsWritten<T>(d: seq<Option<T>>, size: nat, index: nat, e: Option<T>): (r: seq<Option<T>>)
    requires size < |d| && index < |d|
    ensures |r| == |d|
  {
    seq(|d|, k requires 0 <= k < |d| => if k == index then e else if index < k <= size then d[index] else d[k])
  }

  /** The buffer after `delete(index)` has shifted the tail left and nulled the vacated cell. */
  function RemovedAt<T>(d: seq<Option<T>>, size: nat, index: nat): (r: seq<Option<T>>)
    requires index < size <= |d|
    ensures |r| == |d|
    ensures r[..size - 1] == d[..index] + d[index + 1..size]
    ensures r[size - 1] == None
    ensures r[size..] == d[size..]
  {
    var r := seq(|d|, k requires 0 <= k < |d| => if index <= k < size - 1 then d[k + 1] else if k == size - 1 then None else d[k]);
    assert r[..size - 1] == d[..index] + d[index + 1..size];
    r
  }

  /** The elements after `delete(index)`, with or without the shrink, are the
      old ones less the one at `index`. */
  lemma RemovedElements<T>(d: seq<Option<T>>, size: nat, index: nat, newCapacity: nat)
    requires index < size <= |d|
    ensures RemovedAt(d, size, index)[..size - 1] == d[..size][..index] + d[..size][index + 1..]
    ensures size - 1 <= newCapacity ==>
              (Resized(RemovedAt(d, size, index), size - 1, newCapacity)[..size - 1]
               == d[..size][..index] + d[..size][index + 1..])
  {
    assert d[..size][..index] == d[..index];
    assert d[..size][index + 1..] == d[index + 1..size];
  }

  /** Appending through `add(size, e)` leaves the old elements in place and puts `e` last. */
  lemma AddAtEndAppends<T>(d: seq<Option<T>>, size: nat, e: Option<T>)
    requires size < |d|
    ensures AddAsWritten(d, size, size, e)[..size + 1] == d[..size] + [e]
    ensures AddAsWritten(d, size, size, e)[size + 1..] == d[size + 1..]
  {
    var r := AddAsWritten(d, size, size, e);
    assert r[..size + 1] == d[..size] + [e];
  }

  /** Before the end, the forward copy repeats the old cell `index` over the
      tail: two different elements after the insertion point do not both
      survive, so the result is not the old elements with `e` inserted. */
  lemma AddBeforeEndLosesElement<T>(d: seq<Option<T>>, size: nat, index: nat, e: Option<T>)
    requires index + 1 < size < |d| && d[index] != d[index + 1]
    ensures AddAsWritten(d, size, index, e)[..size + 1] != d[..index] + [e] + d[index..size]
  {
    var r := AddAsWritten(d, size, index, e);
    var w := d[..index] + [e] + d[index..size];
    assert r[index + 2] == d[index];
    assert w[index + 2] == d[index + 1];
    assert r[..size + 1][index + 2] != w[index + 2];
  }

  /** The insertion `add(index, e)` evidently intends: the copy runs from the
      end down to `index`, so every element from `index` on moves up one. */
  function AddShifted<T>(d: seq<Option<T>>, size: nat, index: nat, e: Option<T>): (r: seq<Option<T>>)
    requires size < |d| && index < |d|
    ensures |r| == |d|
  {
    seq(|d|, k requires 0 <= k < |d| => if k == index then e else if index < k <= size then d[k - 1] else d[k])
  }

  /** The shifted insertion keeps the old elements in order with `e` at
      `index`, and leaves the cells past them alone. */
  lemma AddShiftedInserts<T>(d: seq<Option<T>>, size: nat, index: nat, e: Option<T>)
    requires index <= size < |d|
    ensures AddShifted(d, size, index, e)[..size + 1] == d[..index] + [e] + d[index..size]
    ensures AddShifted(d, size, index, e)[size + 1..] == d[size + 1..]
  {
    var r := AddShifted(d, size, index, e);
    var w := d[..index] + [e] + d[index..size];
    assert |r[..size + 1]| == |w|;
    forall k | 0 <= k < size + 1
      ensures r[..size + 1][k] == w[k]
    {
      if k < index {
      } else if k == index {
      } else {
        assert w[k] == d[index..size][k - index - 1];
      }
    }
  }

  class Array<T(==)> {
    var size: nat
    var capacity: nat
    var data: array<Option<T>>

    /** The bookkeeping fields agree with the buffer. */
    ghost predicate Valid()
      reads this
    {
      size <= capacity && data.Length == capacity
    }

    /** The stored elements, first to last. */
    function Elements(): (s: seq<Option<T>>)
      reads this, data
      requires Valid()
      ensures |s| == size
    {
      data[..size]
    }

    /** Every cell past the elements is null; `add` with an index beyond the
        size is the only operation that breaks this. */
    ghost predicate Tidy()
      reads this, data
      requires Valid()
    {
      forall k :: size <= k < capacity ==> data[k] == None
    }

    constructor (capacity: nat)
      ensures Valid() && Tidy() && fresh(data)
      ensures this.capacity == capacity && Elements() == []
    {
      this.capacity := capacity;
      size := 0;
      data := new Option<T>[capacity](_ => None);
    }

    /** Replaces the buffer with a fresh one of length newCapacity holding the
        first `size` cells; the caller has already updated `capacity`. */
    method Resize(newCapacity: nat)
      requires size <= data.Length && size <= newCapacity
      modifies this
      ensures size == old(size) && capacity == old(capacity)
      ensures fresh(data) && data[..] == Resized(old(data[..]), size, newCapacity)
    {
      var newData := new Option<T>[newCapacity](_ => None);
      var i := 0;
      while i < size
        modifies newData
        invariant 0 <= i <= size
        invariant forall k :: 0 <= k < i ==> newData[k] == data[k]
        invariant forall k :: i <= k < newCapacity ==> newData[k] == None
      {
        newData[i] := data[i];
        i := i + 1;
      }
      data := newData;
    }

    /** `add(index, e)`: grows a full buffer to twice its capacity, then throws
        unless 0 <= index < capacity, then copies forward and stores `e`. */
    method Add(index: int, element: Option<T>) returns (s: Status)
      requires Valid()
      modifies this, data
      ensures Valid()
      ensures capacity == if old(size) == old(capacity) then 2 * old(capacity) else old(capacity)
      ensures data == old(data) || fresh(data)
      ensures s == if 0 <= index < capacity then Done else Failed(IndexOutOfBound)
      ensures s.Failed? ==> size == old(size) && data[..] == Grown(old(data[..]), old(size))
      ensures s.Done? ==> size == old(size) + 1
                          && data[..] == AddAsWritten(Grown(old(data[..]), old(size)), old(size), index, element)
      ensures old(Tidy()) && (s.Failed? || index <= old(size)) ==> Tidy()
    {
      if size == capacity {
        capacity := capacity * 2;
        Resize(capacity);
      }
      if index < 0 || index >= capacity {
        return Failed(IndexOutOfBound);
      }
      CopyAndStore(index, element);
      size := size + 1;
      s := Done;
    }

    /** The tail of `add`: the forward copy loop over the cells from `index`
        to the size, then the store of `e` at `index`. */
    method CopyAndStore(index: nat, element: Option<T>)
      requires Valid() && size < capacity && index < capacity
      modifies data
      ensures data[..] == AddAsWritten(old(data[..]), size, index, element)
    {
      ghost var d := data[..];
      var i := index;
      while i < size
        invariant index <= i <= if index <= size then size else index
        invariant forall k :: 0 <= k < data.Length ==> data[k] == if index < k <= i then d[index] else d[k]
      {
        data[i + 1] := data[i];
        i := i + 1;
      }
      data[index] := element;
      assert forall k :: 0 <= k < data.Length ==> data[k] == AddAsWritten(d, size, index, element)[k];
    }

    /** `addLast(e)`: appends `e`; throws only when the capacity is zero. */
    method AddLast(element: Option<T>) returns (s: Status)
      requires Valid()
      modifies this, data
      ensures Valid()
      ensures data == old(data) || fresh(data)
      ensures s == if old(capacity) == 0 then Failed(IndexOutOfBound) else Done
      ensures s.Done? ==> Elements() == old(Elements()) + [element]
      ensures s.Failed? ==> Elements() == old(Elements())
      ensures capacity == if old(size) == old(capacity) then 2 * old(capacity) else old(capacity)
      ensures old(Tidy()) ==> Tidy()
    {
      ghost var before := Grown(data[..], size);
      s := Add(size, element);
      if s.Done? {
        AddAtEndAppends(before, size - 1, element);
        assert Elements() == before[..size - 1] + [element];
      }
    }

    /** `replace(index, e)`: throws past the last element, otherwise overwrites one cell. */
    method Replace(index: int, e: Option<T>) returns (s: Status)
      requires Valid()
      modifies data
      ensures Valid()
      ensures s == if size - 1 < index then Failed(IndexOutOfBound)
                   else if index < 0 then Failed(ArrayIndexOutOfBounds) else Done
      ensures s.Done? ==> data[..] == old(data[..])[index := e]
      ensures s.Failed? ==> data[..] == old(data[..])
      ensures old(Tidy()) ==> Tidy()
    {
      if size - 1 < index {
        return Failed(IndexOutOfBound);
      }
      if index < 0 {
        return Failed(ArrayIndexOutOfBounds);
      }
      data[index] := e;
      s := Done;
    }

    /** The body of `delete` between the bounds checks and the shrink test:
        shift the cells after `index` left by one, decrement `size`, null the
        vacated cell. */
    method CloseGap(index: nat)
      requires Valid() && index < size
      modifies this, data
      ensures Valid() && data == old(data) && capacity == old(capacity)
      ensures size == old(size) - 1
      ensures data[..] == RemovedAt(old(data[..]), old(size), index)
    {
      ghost var d := data[..];
      var i := index;
      while i < size - 1
        modifies data
        invariant index <= i <= size - 1
        invariant |d| == data.Length
        invariant data[..i] == d[..index] + d[index + 1..i + 1]
        invariant data[i..] == d[i..]
      {
        data[i] := data[i + 1];
        i := i + 1;
      }
      size := size - 1;
      data[size] := None;
      forall k | 0 <= k < data.Length
        ensures data[k] == RemovedAt(d, size + 1, index)[k]
      {
        if k < index {
          assert data[k] == data[..size][k];
        } else if k < size {
          assert data[k] == data[..size][k] == (d[..index] + d[index + 1..size + 1])[k];
        }
      }
      assert data[..] == RemovedAt(d, size + 1, index);
    }

    /** `delete(index)`: throws past the last element; otherwise returns the old
        cell, shifts the tail left, nulls the vacated cell and halves the
        capacity once fewer than capacity / 3 elements remain. */
    method Delete(index: int) returns (r: Result<Option<T>>)
      requires Valid()
      modifies this, data
      ensures Valid()
      ensures data == old(data) || fresh(data)
      ensures r.Err? <==> !(0 <= index < old(size))
      ensures r.Err? ==> r.fault == (if old(size) - 1 < index then IndexOutOfBound else ArrayIndexOutOfBounds)
      ensures r.Err? ==> size == old(size) && capacity == old(capacity) && data[..] == old(data[..])
      ensures r.Ok? ==> r.value == old(data[index])
                        && size == old(size) - 1
                        && capacity == (if size < old(capacity) / 3 then old(capacity) / 2 else old(capacity))
                        && Elements() == old(Elements())[..index] + old(Elements())[index + 1..]
      ensures r.Ok? ==> data[..] == if size < old(capacity) / 3
                                    then Resized(RemovedAt(old(data[..]), old(size), index), size, capacity)
                                    else RemovedAt(old(data[..]), old(size), index)
      ensures old(Tidy()) ==> Tidy()
    {
      if size - 1 < index {
        return Err(IndexOutOfBound);
      }
      if index < 0 {
        return Err(ArrayIndexOutOfBounds);
      }
      var oldValue := data[index];
      RemovedElements(data[..], size, index, capacity / 2);
      CloseGap(index);
      if size < capacity / 3 {
        capacity := capacity / 2;
        Resize(capacity);
      }
      r := Ok(oldValue);
    }

    /** `get(index)`: the raw cell; only the JVM's bounds check can fail. */
    function Get(index: int): (r: Result<Option<T>>)
      reads this, data
      requires Valid()
      ensures r.Ok? <==> 0 <= index < capacity
      ensures 0 <= index < size ==> r == Ok(Elements()[index])
    {
      if 0 <= index < data.Length then Ok(data[index]) else Err(ArrayIndexOutOfBounds)
    }

    /** `indexOf(e)`: scans the elements calling `equals` on each, so a null
        element met before a match throws a NullPointerException. */
    method IndexOf(e: Option<T>) returns (r: Result<int>)
      requires Valid()
      ensures r.Ok? ==> -1 <= r.value < size
      ensures r.Ok? && r.value >= 0 ==> e.Some? && data[r.value] == e
      ensures r.Ok? ==> forall j :: 0 <= j < size && (r.value == -1 || j < r.value) ==> data[j].Some? && data[j] != e
      ensures r.Err? ==> r.fault == NullPointer
                         && exists k :: 0 <= k < size && data[k] == None && forall j :: 0 <= j < k ==> data[j] != e
    {
      var i := 0;
      while i < size
        invariant 0 <= i <= size
        invariant forall j :: 0 <= j < i ==> data[j].Some? && data[j] != e
      {
        if data[i].None? {
          return Err(NullPointer);
        }
        if data[i] == e {
          return Ok(i);
        }
        i := i + 1;
      }
      r := Ok(-1);
    }

    /** `contains(e)`: whether `indexOf(e)` found a position. */
    method Contains(e: Option<T>) returns (r: Result<bool>)
      requires Valid()
      ensures r.Ok? ==> (r.value <==> e in Elements())
      ensures r.Err? ==> r.fault == NullPointer && None in Elements()
      ensures None !in Elements() ==> r.Ok?
    {
      var i := IndexOf(e);
      if i.Err? {
        assert None in Elements() by {
          var k :| 0 <= k < size && data[k] == None && forall j :: 0 <= j < k ==> data[j] != e;
          assert Elements()[k] == None;
        }
        return Err(i.fault);
      }
      r := Ok(i.value > -1);
      if i.value == -1 {
        assert forall j :: 0 <= j < size ==> Elements()[j] != e;
      } else {
        assert Elements()[i.value] == e;
      }
      if None !in Elements() {
        assert forall k :: 0 <= k < size ==> Elements()[k] != None;
      }
    }

    /** `deleteLast()`: `delete(size - 1)`; on an empty array the index is -1
        and the raw array access throws. */
    method DeleteLast() returns (r: Result<Option<T>>)
      requires Valid()
      modifies this, data
      ensures Valid()
      ensures data == old(data) || fresh(data)
      ensures old(size) == 0 ==> r == Err(ArrayIndexOutOfBounds) && Elements() == old(Elements())
      ensures old(size) > 0 ==> r == Ok(old(Elements())[old(size) - 1])
                                && Elements() == old(Elements())[..old(size) - 1]
      ensures old(Tidy()) ==> Tidy()
    {
      r := Delete(size - 1);
    }

    /** `size()`. */
    function Size(): (n: nat)
      reads this, data
      requires Valid()
      ensures n == |Elements()|
    {
      size
    }

    /** `getLast()`: the cell at size - 1, which the JVM rejects on an empty array. */
    function GetLast(): (r: Result<Option<T>>)
      reads this, data
      requires Valid()
      ensures size == 0 ==> r == Err(ArrayIndexOutOfBounds)
      ensures size > 0 ==> r == Ok(Elements()[size - 1])
    {
      if size == 0 then Err(ArrayIndexOutOfBounds) else Ok(data[size - 1])
    }
  }
}
