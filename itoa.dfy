// Model of Data_Struct_Implementation/atoi_itoa/itoa.c: `itoa` writes the
// digits of |value| into the caller's buffer least significant first, adds
// a '-' for a negative value in base 10, terminates the string and then
// reverses it in place with `reverse`.
module Itoa {

  import opened DigitText

  /** `my_swap`: exchanges two cells of the buffer. */
  method MySwap(b: array<char>, x: nat, y: nat)
    requires x < b.Length && y < b.Length
    modifies b
    ensures b[..] == old(b[..])[x := old(b[y])][y := old(b[x])]
  {
    var t := b[x];
    b[x] := b[y];
    b[y] := t;
  }

  /** `reverse(buffer, i, j)`: the cells `[i, j]` come out in reverse order
      and no other cell changes; an empty range (`j == i - 1`) is a no-op.
      The buffer itself is returned. */
  method Reverse(b: array<char>, i: int, j: int) returns (r: array<char>)
    requires 0 <= i <= j + 1 <= b.Length
    modifies b
    ensures r == b
    ensures b[..] == old(b[..i]) + Rev(old(b[i..j + 1])) + old(b[j + 1..])
  {
    ghost var b0 := b[..];
    var lo, hi := i, j;
    while lo < hi
      invariant i <= lo <= hi + 1 <= j + 1 && lo - i == j - hi
      invariant forall k :: 0 <= k < i || j < k < b.Length ==> b[k] == b0[k]
      invariant forall k :: i <= k < lo ==> b[k] == b0[i + j - k] && b[i + j - k] == b0[k]
      invariant forall k :: lo <= k <= hi ==> b[k] == b0[k]
    {
      MySwap(b, lo, hi);
      lo, hi := lo + 1, hi - 1;
    }
    RevSlices(b0, b[..], i, j);
    r := b;
  }

  /** Cells `[i, j]` mirrored and every other cell kept is the middle slice
      reversed. */
  lemma {:induction false} RevSlices(b0: seq<char>, b: seq<char>, i: nat, j: int)
    requires i <= j + 1 <= |b0| == |b|
    requires forall k :: 0 <= k < i || j < k < |b| ==> b[k] == b0[k]
    requires forall k :: i <= k <= j ==> b[k] == b0[i + j - k]
    ensures b == b0[..i] + Rev(b0[i..j + 1]) + b0[j + 1..]
  {
    var mid := b0[i..j + 1];
    forall k | 0 <= k < j + 1 - i
      ensures Rev(mid)[k] == b[i + k]
    {
      RevAt(mid, k);
    }
  }

  /** `buffer[i] = c` for the first cell `i` after what has been written
      so far, `w`, over what the buffer held before, `b0`. */
  method WriteAt(b: array<char>, i: nat, c: char, ghost w: seq<char>, ghost b0: seq<char>)
    requires i == |w| < |b0| && b[..] == w + b0[|w|..]
    modifies b
    ensures b[..] == (w + [c]) + b0[|w| + 1..]
  {
    b[i] := c;
    assert b[..] == (w + b0[|w|..])[|w| := c];
  }

  /** Replacing the written part `w` of the buffer by `v` of the same
      length (its reversal), the terminator after it and the rest of the
      buffer staying put. */
  lemma {:induction false} ReplaceWritten(w: seq<char>, rest: seq<char>, v: seq<char>)
    requires |v| == |w|
    ensures var b := (w + ['\0']) + rest;
            b[0..|w|] == w && b[..0] + v + b[|w|..] == (v + ['\0']) + rest
  {
    var b := (w + ['\0']) + rest;
    assert b[0..|w|] == w && b[|w|..] == ['\0'] + rest;
  }

  /** `itoa`: with a base outside `[2, 32]` the buffer comes back untouched;
      otherwise it starts with `Text(value, base)` followed by the
      terminating '\0', the cells beyond are untouched, and the buffer is
      returned. The buffer must have room for the text and its
      terminator. */
  method Itoa(value: int, buffer: array<char>, base: int) returns (r: array<char>)
    requires IntMin < value <= IntMax
    requires 2 <= base <= 32 ==> |Text(value, base)| < buffer.Length
    modifies buffer
    ensures r == buffer
    ensures !(2 <= base <= 32) ==> buffer[..] == old(buffer[..])
    ensures 2 <= base <= 32 ==>
              var t := Text(value, base);
              buffer[..] == t + ['\0'] + old(buffer[|t| + 1..])
  {
    if base < 2 || base > 32 {
      return buffer;
    }
    ghost var b0 := buffer[..];
    ghost var sign: seq<char> := if value < 0 && base == 10 then ['-'] else [];
    var n := Abs(value);
    assert |WhileDigits(n, base)| + |sign| + 1 <= buffer.Length by {
      LowFirstReversed(n, base);
      if n > 0 {
        WhileDigitsLowFirst(n, base);
      }
    }
    var i := WriteDigits(buffer, n, base, |sign| + 1);
    ghost var w := WhileDigits(n, base);
    if i == 0 {
      WriteAt(buffer, i, '0', w, b0);
      i := i + 1;
      w := w + ['0'];
    }
    assert w == LowFirst(n, base) by {
      if n > 0 {
        WhileDigitsLowFirst(n, base);
      }
    }
    assert |w| + |sign| + 1 <= |b0| by {
      LowFirstReversed(n, base);
    }
    i := SignAndEnd(buffer, i, value < 0 && base == 10, w, b0[i..]);
    assert b0[|w|..][|sign| + 1..] == b0[i + 1..];
    ReverseWritten(buffer, 0, i - 1, w + sign, b0[i + 1..]);
    r := buffer;
    assert Rev(w + sign) == Text(value, base) by {
      SignedText(n, value, base);
    }
  }

  /** The end of both conversions once the digits `w` are in the buffer:
      a '-' after them when `neg`, then the terminating '\0', whose index
      is returned. */
  method SignAndEnd(b: array<char>, i: nat, neg: bool, ghost w: seq<char>, ghost rest: seq<char>) returns (j: nat)
    requires b[..] == w + rest && i == |w| && (if neg then 2 else 1) <= |rest|
    modifies b
    ensures var sign: seq<char> := if neg then ['-'] else [];
            j == i + |sign| && b[..] == ((w + sign) + ['\0']) + rest[|sign| + 1..]
  {
    ghost var b0 := b[..];
    assert b0[i..] == rest;
    ghost var v := w;
    j := i;
    if neg {
      WriteAt(b, j, '-', v, b0);
      j := j + 1;
      v := v + ['-'];
    }
    WriteAt(b, j, '\0', v, b0);
  }

  /** The in-place reversal both conversions end with, of the cells
      `[head, tail]` written before the terminator, which start the
      buffer: they come out in reverse order, the terminator and the cells
      after it staying put. */
  method ReverseWritten(b: array<char>, head: nat, tail: int, ghost w: seq<char>, ghost rest: seq<char>)
    requires b[..] == (w + ['\0']) + rest && head == 0 && tail == |w| - 1
    modifies b
    ensures b[..] == (Rev(w) + ['\0']) + rest
  {
    ReplaceWritten(w, rest, Rev(w));
    var _ := Reverse(b, head, tail);
  }

  /** The `while (n)` loop of `itoa`: the digit of `n % base` goes into
      the next cell and `n` is divided by the base, until it is 0. `room`
      is what the caller still needs after the digits. */
  method WriteDigits(buffer: array<char>, n0: nat, base: int, ghost room: nat) returns (i: nat)
    requires 2 <= base <= 32 && |WhileDigits(n0, base)| + room <= buffer.Length
    modifies buffer
    ensures i == |WhileDigits(n0, base)| && (i == 0 <==> n0 == 0)
    ensures buffer[..] == WhileDigits(n0, base) + old(buffer[i..])
  {
    ghost var b0 := buffer[..];
    ghost var w: seq<char> := [];
    var n: nat := n0;
    i := 0;
    while n != 0
      invariant i == |w| && w + WhileDigits(n, base) == WhileDigits(n0, base)
      invariant buffer[..] == w + b0[i..]
      invariant i == 0 <==> n == n0
      invariant n0 == 0 ==> n == 0
    {
      var c;
      c, n := NextDigit(n, base);
      Assoc(w, [c], WhileDigits(n, base));
      WriteAt(buffer, i, c, w, b0);
      i := i + 1;
      w := w + [c];
    }
    assert w == WhileDigits(n0, base);
  }

  /** The arithmetic of one round of that loop: `r = n % base` gives the
      character 'A' + (r - 10) from 10 on and '0' + r below, and `n`
      becomes `n / base`. */
  method NextDigit(n: nat, base: int) returns (c: char, q: nat)
    requires 2 <= base <= 32 && n != 0
    ensures q < n && WhileDigits(n, base) == [c] + WhileDigits(q, base)
  {
    DivIsQuot(n, base);
    var r := n % base;
    if r >= 10 {
      c := ('A' as int + (r - 10)) as char;
    } else {
      c := ('0' as int + r) as char;
    }
    q := n / base;
  }
}
