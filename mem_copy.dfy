// Model of Data_Struct_Implementation/memcpy_memmove/memcpy.c: `myMemcpy`
// copies `n` bytes from `src` to `dest`, choosing the copy direction from
// the two addresses so that an overlapping destination above the source
// is still copied correctly. Memory is one array of bytes and a pointer is
// an index into it.
module MemCopy {

  newtype Byte = b: int | 0 <= b < 256

  /** The two copy directions (`CPY_DIR_LOWER_TO_HIGHER` and
      `CPY_DIR_HIGHER_TO_LOWER`); which one ran is what the function
      reports on standard output. */
  datatype Direction = LowerToHigher | HigherToLower

  /** The test of `myMemcpy`: `dest <= src + n && src + n <= dest + n`,
      that is, the destination starts within the source range or just
      past it, and not below the source. */
  predicate Backward(dest: nat, src: nat, n: nat)
  {
    dest <= src + n && src + n <= dest + n
  }

  /** `myMemcpy(mem + dest, mem + src, n)`: afterwards `dest[0..n)` holds
      what `src[0..n)` held before, overlapping or not, and no other byte
      changes. The direction is backward exactly when
      `src <= dest <= src + n`. */
  method MyMemcpy(mem: array<Byte>, dest: nat, src: nat, n: nat) returns (dir: Direction)
    requires dest + n <= mem.Length && src + n <= mem.Length
    modifies mem
    ensures dir == HigherToLower <==> src <= dest <= src + n
    ensures mem[dest..dest + n] == old(mem[src..src + n])
    ensures forall k :: 0 <= k < mem.Length && !(dest <= k < dest + n) ==> mem[k] == old(mem[k])
    ensures n == 0 ==> mem[..] == old(mem[..])
  {
    dir := LowerToHigher;
    if Backward(dest, src, n) {
      dir := HigherToLower;
    }
    if dir == LowerToHigher {
      CopyForward(mem, dest, src, n);
    } else {
      CopyBackward(mem, dest, src, n);
    }
  }

  /** The `for (i = 0; i < n; i++) *pDest++ = *pSrc++;` loop: correct
      whenever the destination does not start inside the source range
      above its first byte. */
  method CopyForward(mem: array<Byte>, dest: nat, src: nat, n: nat)
    requires dest + n <= mem.Length && src + n <= mem.Length
    requires dest <= src || src + n <= dest
    modifies mem
    ensures mem[dest..dest + n] == old(mem[src..src + n])
    ensures forall k :: 0 <= k < mem.Length && !(dest <= k < dest + n) ==> mem[k] == old(mem[k])
  {
    ghost var m0 := mem[..];
    var i := 0;
    while i < n
      invariant 0 <= i <= n
      invariant forall k :: dest <= k < dest + i ==> mem[k] == m0[k - dest + src]
      invariant forall k :: 0 <= k < mem.Length && !(dest <= k < dest + i) ==> mem[k] == m0[k]
    {
      mem[dest + i] := mem[src + i];
      i := i + 1;
    }
    SameSlices(mem[..], m0, dest, src, n);
  }

  /** The `for (i = n - 1; i >= 0; i--) *(pDest + i) = *(pSrc + i);` loop:
      correct whenever the destination does not start below the source. */
  method CopyBackward(mem: array<Byte>, dest: nat, src: nat, n: nat)
    requires dest + n <= mem.Length && src + n <= mem.Length
    requires src <= dest
    modifies mem
    ensures mem[dest..dest + n] == old(mem[src..src + n])
    ensures forall k :: 0 <= k < mem.Length && !(dest <= k < dest + n) ==> mem[k] == old(mem[k])
  {
    ghost var m0 := mem[..];
    var i: int := n - 1;
    while i >= 0
      invariant -1 <= i < n
      invariant forall k :: dest + i < k < dest + n ==> mem[k] == m0[k - dest + src]
      invariant forall k :: 0 <= k < mem.Length && !(dest + i < k < dest + n) ==> mem[k] == m0[k]
    {
      mem[dest + i] := mem[src + i];
      i := i - 1;
    }
    SameSlices(mem[..], m0, dest, src, n);
  }

  /** Cells `[dest, dest + n)` of `m` matching cells `[src, src + n)` of
      `m0` one by one make the two slices equal. */
  lemma {:induction false} SameSlices(m: seq<Byte>, m0: seq<Byte>, dest: nat, src: nat, n: nat)
    requires dest + n <= |m| && src + n <= |m0|
    requires forall k :: dest <= k < dest + n ==> m[k] == m0[k - dest + src]
    ensures m[dest..dest + n] == m0[src..src + n]
  {
    var a, b := m[dest..dest + n], m0[src..src + n];
    forall k | 0 <= k < n
      ensures a[k] == b[k]
    {
      assert m[dest + k] == m0[dest + k - dest + src];
    }
  }
}
