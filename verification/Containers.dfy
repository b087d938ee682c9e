/**
 The two bounded containers of the unseen library, as their headers document them.
 */
module Containers {

  datatype Option<+T> = None | Some(value: T)

  datatype QueueResult = QueueSuccess | QueueOverflow | QueueDataNotFound

  class Queue<T> {
    const capacity: nat
    var items: seq<T>

    ghost predicate Valid()
      reads this
    {
      |items| <= capacity
    }

    constructor (size: nat)
      ensures Valid() && items == [] && capacity == size
    {
      capacity := size;
      items := [];
    }

    method Insert(item: T) returns (result: QueueResult)
      requires Valid()
      modifies this
      ensures Valid()
      ensures if |old(items)| < capacity
              then result == QueueSuccess && items == old(items) + [item]
              else result == QueueOverflow && items == old(items)
    {
      if |items| == capacity {
        return QueueOverflow;
      }
      items := items + [item];
      result := QueueSuccess;
    }

    method Remove() returns (result: QueueResult, item: Option<T>)
      requires Valid()
      modifies this
      ensures Valid()
      ensures if old(items) == []
              then result == QueueDataNotFound && item == None && items == []
              else result == QueueSuccess && item == Some(old(items)[0]) && items == old(items)[1..]
    {
      if items == [] {
        return QueueDataNotFound, None;
      }
      item := Some(items[0]);
      items := items[1..];
      result := QueueSuccess;
    }
  }

  datatype VectorResult = VectorSuccess | VectorOverflow

  /** A vector created with block size 0, which never grows. */
  class Vector<T> {
    const capacity: nat
    var items: seq<T>

    ghost predicate Valid()
      reads this
    {
      |items| <= capacity
    }

    constructor (initialCapacity: nat)
      ensures Valid() && items == [] && capacity == initialCapacity
    {
      capacity := initialCapacity;
      items := [];
    }

    method Append(item: T) returns (result: VectorResult)
      requires Valid()
      modifies this
      ensures Valid()
      ensures if |old(items)| < capacity
              then result == VectorSuccess && items == old(items) + [item]
              else result == VectorOverflow && items == old(items)
    {
      if |items| == capacity {
        return VectorOverflow;
      }
      items := items + [item];
      result := VectorSuccess;
    }
  }
}
