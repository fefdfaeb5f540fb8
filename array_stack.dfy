// Model of Data_Struct_Implementation/stack/stack.c: a bounded LIFO stack of
// ints in an array, with `topIdx` the index of the top element (-1 when
// empty) and INT_MIN as the "nothing there" answer of pop and top.
module ArrayStack {

  const IntMin: int := -0x8000_0000

  class Stack {
    var topIdx: int
    var capacity: int
    var data: array<int>

    ghost predicate Valid()
      reads this
    {
      data.Length == capacity && -1 <= topIdx <= capacity - 1
    }

    /** The stacked values, bottom first. */
    ghost function Contents(): (s: seq<int>)
      requires Valid()
      reads this, data
      ensures |s| == topIdx + 1
    {
      data[..topIdx + 1]
    }

    /** `createStack`: an empty stack over a buffer of `capacity` ints.
        (The allocation-failure exits are not modelled.) */
    constructor (cap: int)
      requires cap >= 0
      ensures Valid() && fresh(data) && capacity == cap && topIdx == -1 && Contents() == []
    {
      data := new int[cap];
      topIdx := -1;
      capacity := cap;
    }

    /** `isFull`: the top index has reached the last cell. */
    method IsFull() returns (r: bool)
      requires Valid()
      ensures r <==> topIdx >= capacity - 1
      ensures r <==> |Contents()| == capacity
    {
      return topIdx >= capacity - 1;
    }

    /** `isEmpty`: nothing is stacked. */
    method IsEmpty() returns (r: bool)
      requires Valid()
      ensures r <==> topIdx == -1
      ensures r <==> Contents() == []
    {
      return topIdx == -1;
    }

    /** `push`: a no-op when full, otherwise the value goes on top. */
    method Push(x: int)
      requires Valid()
      modifies this`topIdx, data
      ensures Valid()
      ensures old(|Contents()|) == capacity ==> topIdx == old(topIdx) && data[..] == old(data[..])
      ensures old(|Contents()|) < capacity ==> Contents() == old(Contents()) + [x] && topIdx == old(topIdx) + 1
    {
      var full := IsFull();
      if full {
        return;
      }
      topIdx := topIdx + 1;
      data[topIdx] := x;
    }

    /** `pop`: INT_MIN and no change when empty, otherwise the top value,
        which is removed. */
    method Pop() returns (r: int)
      requires Valid()
      modifies this`topIdx
      ensures Valid()
      ensures old(Contents()) == [] ==> r == IntMin && topIdx == old(topIdx)
      ensures old(Contents()) != [] ==>
                r == old(Contents())[|old(Contents())| - 1] && Contents() == old(Contents())[..|old(Contents())| - 1]
    {
      var empty := IsEmpty();
      if empty {
        return IntMin;
      }
      r := data[topIdx];
      topIdx := topIdx - 1;
    }

    /** `top`: what `pop` would return, without removing it. */
    method Top() returns (r: int)
      requires Valid()
      ensures Contents() == [] ==> r == IntMin
      ensures Contents() != [] ==> r == Contents()[|Contents()| - 1]
    {
      var empty := IsEmpty();
      if empty {
        return IntMin;
      }
      return data[topIdx];
    }
  }

  /** A push followed by a pop returns the pushed value and restores the
      stack, whatever it held before (when there was room). */
  method PushThenPop(s: Stack, x: int) returns (r: int)
    requires s.Valid() && s.topIdx < s.capacity - 1
    modifies s, s.data
    ensures s.Valid() && r == x
    ensures s.Contents() == old(s.Contents())
  {
    s.Push(x);
    r := s.Pop();
  }

  /** The driver: three pushes onto a stack of ten, then top and three pops
      see the values in reverse order. */
  method DriverScenario() returns (t: int, p1: int, p2: int, p3: int)
    ensures t == 30 && p1 == 30 && p2 == 20 && p3 == 10
  {
    var s := new Stack(10);
    s.Push(10);
    s.Push(20);
    s.Push(30);
    t := s.Top();
    p1 := s.Pop();
    p2 := s.Pop();
    p3 := s.Pop();
  }
}
