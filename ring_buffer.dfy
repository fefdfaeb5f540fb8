// Model of Data_Struct_Implementation/circularRingBuffer/ring_buffer.c (with
// the constants of ring_buffer.h): a 24-cell ring buffer indexed by a head
// (next write) and a tail (next read), one cell always left unused so that
// "full" and "empty" can be told apart. The pthread reader and writer of the
// same file are not modelled.
module RingBuffer {

  const RingBufferSize: nat := 24
  const BufferIsFull: int := 1
  const BufferNotFull: int := 0
  const BufferIsEmpty: int := 1
  const BufferNotEmpty: int := 0
  const AccessSuccess: int := 1
  const AccessFail: int := 0

  /** The values stored in `cells` between tail `t` and head `h`, oldest
      first: the cells from the tail up to (not including) the head, going
      round the end of the array. */
  function Window(cells: seq<int>, t: nat, h: nat): seq<int>
    requires |cells| == RingBufferSize && t < RingBufferSize && h < RingBufferSize
  {
    if t <= h then cells[t..h] else cells[t..] + cells[..h]
  }

  /** The window holds `(h - t) mod 24` values, never all 24. */
  lemma WindowLength(cells: seq<int>, t: nat, h: nat)
    requires |cells| == RingBufferSize && t < RingBufferSize && h < RingBufferSize
    ensures |Window(cells, t, h)| == (h - t) % RingBufferSize < RingBufferSize
    ensures Window(cells, t, h) == [] <==> h == t
    ensures |Window(cells, t, h)| == RingBufferSize - 1 <==> (h + 1) % RingBufferSize == t
  {
  }

  /** Advancing the tail of a non-empty window drops its oldest value. */
  lemma WindowPop(cells: seq<int>, t: nat, h: nat)
    requires |cells| == RingBufferSize && t < RingBufferSize && h < RingBufferSize && t != h
    ensures Window(cells, t, h) == [cells[t]] + Window(cells, (t + 1) % RingBufferSize, h)
  {
    var t' := if t + 1 == RingBufferSize then 0 else t + 1;
    assert (t + 1) % RingBufferSize == t';
    WindowDropsOldest(cells, t, h, t');
  }

  lemma WindowDropsOldest(cells: seq<int>, t: nat, h: nat, t': nat)
    requires |cells| == RingBufferSize && t < RingBufferSize && h < RingBufferSize && t != h
    requires t' == if t + 1 == RingBufferSize then 0 else t + 1
    ensures Window(cells, t, h) == [cells[t]] + Window(cells, t', h)
  {
    var x := [cells[t]];
    if t < h {
      assert Window(cells, t', h) == cells[t + 1..h];
      assert cells[t..h] == x + cells[t + 1..h];
    } else if t' == 0 {
      assert Window(cells, 0, h) == cells[..h];
      assert cells[t..] == x;
    } else {
      var rest, front := cells[t + 1..], cells[..h];
      assert Window(cells, t', h) == rest + front;
      assert cells[t..] == x + rest;
      assert (x + rest) + front == x + (rest + front);
    }
  }


  /** Writing the head cell of a window that is not full and advancing the
      head adds the value at the back. */
  lemma {:induction false} WindowPush(cells: seq<int>, t: nat, h: nat, d: int)
    requires |cells| == RingBufferSize && t < RingBufferSize && h < RingBufferSize
    requires (h + 1) % RingBufferSize != t
    ensures Window(cells[h := d], t, (h + 1) % RingBufferSize) == Window(cells, t, h) + [d]
  {
    var c := cells[h := d];
    if h + 1 == RingBufferSize {
      assert (h + 1) % RingBufferSize == 0 && 0 < t <= h;
      assert Window(c, t, 0) == c[t..] + c[..0];
      assert c[t..] == cells[t..h] + [d];
    } else {
      assert (h + 1) % RingBufferSize == h + 1;
      if t <= h {
        assert c[t..h + 1] == cells[t..h] + [d];
      } else {
        assert c[t..] == cells[t..];
        assert c[..h + 1] == cells[..h] + [d];
      }
    }
  }

  class Ring {
    var ringBuffer: array<int>
    var headIdx: nat
    var tailIdx: nat

    ghost predicate Valid()
      reads this
    {
      ringBuffer.Length == RingBufferSize && headIdx < RingBufferSize && tailIdx < RingBufferSize
    }

    /** The stored values, oldest first. */
    ghost function Contents(): seq<int>
      requires Valid()
      reads this, ringBuffer
    {
      Window(ringBuffer[..], tailIdx, headIdx)
    }

    /** The static zero-initialised storage. */
    constructor ()
      ensures Valid() && fresh(ringBuffer)
      ensures headIdx == 0 && tailIdx == 0 && Contents() == []
    {
      ringBuffer := new int[RingBufferSize](_ => 0);
      headIdx, tailIdx := 0, 0;
    }

    /** `ringBufferInit`: both indices back to 0, which empties the buffer. */
    method RingBufferInit()
      requires Valid()
      modifies this`headIdx, this`tailIdx
      ensures Valid()
      ensures headIdx == 0 && tailIdx == 0 && Contents() == []
    {
      headIdx := 0;
      tailIdx := 0;
    }

    /** `isBufferFull`: the head is one step behind the tail, which happens
        exactly when 23 values are stored. */
    method IsBufferFull() returns (r: int)
      requires Valid()
      ensures r == BufferIsFull || r == BufferNotFull
      ensures r == BufferIsFull <==> (headIdx + 1) % RingBufferSize == tailIdx
      ensures r == BufferIsFull <==> |Contents()| == RingBufferSize - 1
    {
      WindowLength(ringBuffer[..], tailIdx, headIdx);
      if (headIdx + 1) % RingBufferSize == tailIdx {
        return BufferIsFull;
      }
      return BufferNotFull;
    }

    /** `isBufferEmpty`: head and tail coincide exactly when nothing is stored. */
    method IsBufferEmpty() returns (r: int)
      requires Valid()
      ensures r == BufferIsEmpty || r == BufferNotEmpty
      ensures r == BufferIsEmpty <==> headIdx == tailIdx
      ensures r == BufferIsEmpty <==> Contents() == []
    {
      WindowLength(ringBuffer[..], tailIdx, headIdx);
      if headIdx == tailIdx {
        return BufferIsEmpty;
      }
      return BufferNotEmpty;
    }

    /** `writeToBuffer`: refused when full; otherwise the value goes into the
        head cell, the head advances, and the value joins the back of the queue. */
    method WriteToBuffer(data: int) returns (status: int)
      requires Valid()
      modifies this`headIdx, ringBuffer
      ensures Valid() && tailIdx == old(tailIdx)
      ensures status == AccessSuccess || status == AccessFail
      ensures status == AccessFail <==> |old(Contents())| == RingBufferSize - 1
      ensures status == AccessFail ==> headIdx == old(headIdx) && ringBuffer[..] == old(ringBuffer[..])
      ensures status == AccessSuccess ==>
                && ringBuffer[..] == old(ringBuffer[..])[old(headIdx) := data]
                && headIdx == (old(headIdx) + 1) % RingBufferSize
                && Contents() == old(Contents()) + [data]
    {
      var full := IsBufferFull();
      if full == BufferIsFull {
        return AccessFail;
      }
      WindowLength(ringBuffer[..], tailIdx, headIdx);
      WindowPush(ringBuffer[..], tailIdx, headIdx, data);
      ringBuffer[headIdx] := data;
      headIdx := (headIdx + 1) % RingBufferSize;
      status := AccessSuccess;
    }

    /** `readFromBuffer`: refused when empty, leaving `*data` as it was;
        otherwise hands out the oldest value and advances the tail. */
    method ReadFromBuffer(prev: int) returns (status: int, data: int)
      requires Valid()
      modifies this`tailIdx
      ensures Valid() && headIdx == old(headIdx)
      ensures status == AccessSuccess || status == AccessFail
      ensures status == AccessFail <==> old(Contents()) == []
      ensures status == AccessFail ==> data == prev && tailIdx == old(tailIdx)
      ensures status == AccessSuccess ==>
                && data == old(Contents())[0]
                && tailIdx == (old(tailIdx) + 1) % RingBufferSize
                && Contents() == old(Contents())[1..]
    {
      ghost var cells := ringBuffer[..];
      ghost var w := Contents();
      var empty := IsBufferEmpty();
      if empty == BufferIsEmpty {
        return AccessFail, prev;
      }
      var next := (tailIdx + 1) % RingBufferSize;
      WindowPop(cells, tailIdx, headIdx);
      assert w[0] == cells[tailIdx] && w[1..] == Window(cells, next, headIdx);
      data := ringBuffer[tailIdx];
      tailIdx := next;
      assert Contents() == Window(cells, next, headIdx) == w[1..];
      status := AccessSuccess;
    }
  }

  /** Values come out in the order they went in: after initialisation,
      writing x and then y and reading twice yields x and then y. */
  method FifoScenario(x: int, y: int) returns (first: int, second: int)
    ensures first == x && second == y
  {
    var b := new Ring();
    b.RingBufferInit();
    var w1 := b.WriteToBuffer(x);
    var w2 := b.WriteToBuffer(y);
    var s1;
    s1, first := b.ReadFromBuffer(0);
    var s2;
    s2, second := b.ReadFromBuffer(0);
  }
}
