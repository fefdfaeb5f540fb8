// Model of Data_Struct_Implementation/queue/queue_advance.c: a FIFO queue of
// ints kept as a singly linked list with head and tail pointers, a size and
// a capacity. The node chain is modelled by the sequence of its values,
// head first. A queue pointer may be NULL; every operation but `pop`
// checks for that.
module LinkedQueue {

  /** What `front` / `back` hand back: NULL, a live node (by its value), or
      the tail pointer that `pop` leaves pointing at a freed node once the
      last element is gone. */
  datatype NodeRef = Null | Live(val: int) | Dangling

  class Queue {
    var size: int
    var cap: int
    var items: seq<int>
    var tailDangling: bool

    ghost predicate Valid()
      reads this
    {
      0 <= size <= cap && |items| == size && (tailDangling ==> size == 0)
    }

    /** The body of `create_Q` past its size check: an empty queue. */
    constructor (capacity: int)
      requires capacity > 0
      ensures Valid() && cap == capacity && size == 0 && items == [] && !tailDangling
    {
      size := 0;
      cap := capacity;
      items := [];
      tailDangling := false;
    }
  }

  /** `create_Q`: NULL for a non-positive size, otherwise an empty queue with
      that capacity (the missing `return new_Q;` of the source is taken as
      intended). */
  method CreateQ(size: int) returns (q: Queue?)
    ensures q == null <==> size <= 0
    ensures q != null ==> fresh(q) && q.Valid() && q.cap == size && q.items == []
  {
    if size <= 0 {
      return null;
    }
    q := new Queue(size);
  }

  /** `pushQ`: -1 and no change for NULL or a full queue; otherwise the value
      joins the back and the size goes up by one. */
  method PushQ(q: Queue?, val: int) returns (r: int)
    requires q != null ==> q.Valid()
    modifies q
    ensures q != null ==> q.Valid() && q.cap == old(q.cap)
    ensures r == 0 || r == -1
    ensures r == -1 <==> q == null || old(q.size) >= old(q.cap)
    ensures r == -1 && q != null ==> q.items == old(q.items) && q.size == old(q.size) && q.tailDangling == old(q.tailDangling)
    ensures r == 0 ==> q.items == old(q.items) + [val] && q.size == old(q.size) + 1 && !q.tailDangling
  {
    if q == null {
      return -1;
    }
    if q.size >= q.cap {
      return -1;
    }
    q.size := q.size + 1;
    if q.size == 1 {
      q.items := [val];
    } else {
      q.items := q.items + [val];
    }
    q.tailDangling := false;
    return 0;
  }

  /** `front`: the head node. */
  method Front(q: Queue?) returns (n: NodeRef)
    requires q != null ==> q.Valid()
    ensures q == null ==> n == Null
    ensures q != null && q.items != [] ==> n == Live(q.items[0])
    ensures q != null && q.items == [] ==> n == Null
  {
    if q == null {
      return Null;
    }
    if q.items == [] {
      return Null;
    }
    return Live(q.items[0]);
  }

  /** `back`: the tail node; after the last element was popped the tail
      still points at the freed node. */
  method Back(q: Queue?) returns (n: NodeRef)
    requires q != null ==> q.Valid()
    ensures q == null ==> n == Null
    ensures q != null && q.items != [] ==> n == Live(q.items[|q.items| - 1])
    ensures q != null && q.items == [] ==> n == (if q.tailDangling then Dangling else Null)
  {
    if q == null {
      return Null;
    }
    if q.items == [] {
      return if q.tailDangling then Dangling else Null;
    }
    return Live(q.items[|q.items| - 1]);
  }

  /** `pop`: drops the head. There is no emptiness check in the source (it
      would dereference NULL), so a non-empty queue is required. */
  method Pop(q: Queue?)
    requires q != null ==> q.Valid() && q.size > 0
    modifies q
    ensures q != null ==> q.Valid() && q.cap == old(q.cap)
    ensures q != null ==> q.items == old(q.items)[1..] && q.size == old(q.size) - 1
    ensures q != null ==> q.tailDangling == (old(q.size) == 1)
  {
    if q == null {
      return;
    }
    q.items := q.items[1..];
    q.size := q.size - 1;
    q.tailDangling := q.size == 0;
  }

  /** `is_empty`: -1 for NULL, else 1 exactly when the size is 0. */
  method IsEmpty(q: Queue?) returns (r: int)
    requires q != null ==> q.Valid()
    ensures q == null ==> r == -1
    ensures q != null ==> (r == 1 <==> q.items == []) && (r == 0 <==> q.items != [])
  {
    if q == null {
      return -1;
    }
    return if q.size == 0 then 1 else 0;
  }

  /** `size`: -1 for NULL, else the number of stored values. */
  method Size(q: Queue?) returns (r: int)
    requires q != null ==> q.Valid()
    ensures q == null ==> r == -1
    ensures q != null ==> r == |q.items| && 0 <= r <= q.cap
  {
    if q == null {
      return -1;
    }
    return q.size;
  }

  /** The driver's sequence of calls: six pushes and two pops on a queue of
      capacity 10 leave 3 at the front and 6 at the back, with size 4. */
  method DriverScenario() returns (frontVal: NodeRef, backVal: NodeRef, count: int)
    ensures frontVal == Live(3) && backVal == Live(6) && count == 4
  {
    var q := CreateQ(10);
    var r := PushQ(q, 1);
    r := PushQ(q, 2);
    r := PushQ(q, 3);
    r := PushQ(q, 4);
    r := PushQ(q, 5);
    r := PushQ(q, 6);
    Pop(q);
    Pop(q);
    frontVal := Front(q);
    backVal := Back(q);
    count := Size(q);
  }
}
