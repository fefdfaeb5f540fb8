// Model of Data_Struct_Implementation/endianessSwap/endianess.c:
// a 32-bit byte-order reversal written as two mask-and-shift steps.
module EndianSwap {

  /** Byte k (k = 0 is the least significant byte) of a 32-bit word. */
  function ByteAt(x: bv32, k: nat): (b: bv32)
    requires k < 4
    ensures b < 256
  {
    if k == 0 then x & 0xff
    else if k == 1 then (x >> 8) & 0xff
    else if k == 2 then (x >> 16) & 0xff
    else x >> 24
  }

  /** First step: exchange the two 16-bit halves. */
  function SwapHalves(num: bv32): (r: bv32)
    ensures ByteAt(r, 0) == ByteAt(num, 2) && ByteAt(r, 1) == ByteAt(num, 3)
    ensures ByteAt(r, 2) == ByteAt(num, 0) && ByteAt(r, 3) == ByteAt(num, 1)
  {
    ((num & 0xffff0000) >> 16) | ((num & 0x0000ffff) << 16)
  }

  /** Second step: exchange the two bytes inside each 16-bit half. */
  function SwapBytesInHalves(num: bv32): (r: bv32)
    ensures ByteAt(r, 0) == ByteAt(num, 1) && ByteAt(r, 1) == ByteAt(num, 0)
    ensures ByteAt(r, 2) == ByteAt(num, 3) && ByteAt(r, 3) == ByteAt(num, 2)
  {
    ((num & 0xff00ff00) >> 8) | ((num & 0x00ff00ff) << 8)
  }

  /** endianess_swap: the two steps one after the other. */
  function EndianessSwap(num: bv32): (r: bv32)
    ensures ByteAt(r, 0) == ByteAt(num, 3) && ByteAt(r, 1) == ByteAt(num, 2)
    ensures ByteAt(r, 2) == ByteAt(num, 1) && ByteAt(r, 3) == ByteAt(num, 0)
  {
    SwapBytesInHalves(SwapHalves(num))
  }

  /** Byte k of the swapped word is byte 3 - k of the input. */
  lemma {:induction false} SwapReversesBytes(num: bv32, k: nat)
    requires k < 4
    ensures ByteAt(EndianessSwap(num), k) == ByteAt(num, 3 - k)
  {
    var r := EndianessSwap(num);
    if k == 0 {
    } else if k == 1 {
    } else if k == 2 {
    } else {
    }
  }

  /** Two words with the same four bytes are equal. */
  lemma {:induction false} BytesDetermineWord(x: bv32, y: bv32)
    requires forall k :: 0 <= k < 4 ==> ByteAt(x, k) == ByteAt(y, k)
    ensures x == y
  {
    assert ByteAt(x, 0) == ByteAt(y, 0) && ByteAt(x, 1) == ByteAt(y, 1);
    assert ByteAt(x, 2) == ByteAt(y, 2) && ByteAt(x, 3) == ByteAt(y, 3);
  }

  /** Swapping twice gives the word back. */
  lemma {:induction false} SwapInvolution(x: bv32)
    ensures EndianessSwap(EndianessSwap(x)) == x
  {
    var y := EndianessSwap(EndianessSwap(x));
    forall k | 0 <= k < 4 ensures ByteAt(y, k) == ByteAt(x, k) {
      SwapReversesBytes(EndianessSwap(x), k);
      SwapReversesBytes(x, 3 - k);
    }
    BytesDetermineWord(y, x);
  }

  /** The value used by the driver. */
  lemma SwapExample()
    ensures EndianessSwap(0x12345678) == 0x78563412
  {
  }
}
