// Model of Data_Struct_Implementation/atoi_itoa/atoi_iota.c: `myitoa`
// accepts only bases 2, 10 and 16, writes the digits of the magnitude with
// a do-while loop (so 0 gives one digit), appends '-' for a negative value
// in base 10, terminates the string and reverses it between `head` and
// `tail`. A NULL string pointer is `null`.
module MyItoa {

  import opened DigitText
  import Itoa

  /** `myitoa`: NULL for a NULL buffer or a base other than 2, 10 and 16,
      with nothing written; otherwise the buffer, which then starts with
      `Text(val, base)` and its terminating '\0', the cells beyond
      untouched. The buffer must have room for the text and its
      terminator. */
  method MyItoa(val: int, str: array?<char>, base: int) returns (r: array?<char>)
    requires IntMin < val <= IntMax
    requires str != null && (base == 2 || base == 10 || base == 16) ==> |Text(val, base)| < str.Length
    modifies str
    ensures str == null || !(base == 2 || base == 10 || base == 16) ==> r == null
    ensures str != null && !(base == 2 || base == 10 || base == 16) ==> str[..] == old(str[..])
    ensures str != null && (base == 2 || base == 10 || base == 16) ==>
              var t := Text(val, base);
              r == str && str[..] == t + ['\0'] + old(str[|t| + 1..])
  {
    if str == null {
      return null;
    }
    if base != 2 && base != 10 && base != 16 {
      return null;
    }
    var v := val;
    var isNegative := false;
    if base == 10 && v < 0 {
      isNegative := true;
      v := -v;
    }
    if v < 0 {
      v := -v;
    }
    WriteText(str, v, isNegative, base, val);
    r := str;
  }

  /** The rest of `myitoa` once `val` has been made non-negative (`v`,
      the magnitude of the original value) and `isNegative` records a
      negative value in base 10: the do-while loop writes the digits,
      then come the '-', the terminator and the reversal between `head`
      and `tail`. */
  method WriteText(str: array<char>, v0: nat, isNegative: bool, base: int, ghost val: int)
    requires (base == 2 || base == 10 || base == 16) && v0 == Abs(val)
    requires isNegative == (val < 0 && base == 10) && |Text(val, base)| < str.Length
    modifies str
    ensures var t := Text(val, base);
            str[..] == t + ['\0'] + old(str[|t| + 1..])
  {
    ghost var s0 := str[..];
    ghost var sign: seq<char> := if isNegative then ['-'] else [];
    assert |LowFirst(v0, base)| + |sign| + 1 <= str.Length by {
      LowFirstReversed(v0, base);
    }
    var i, v := WriteDigitsDo(str, v0, base, |sign| + 1);
    FinishText(str, i, v, isNegative, base, val, s0[i..]);
    assert |Text(val, base)| == i + |sign| by {
      LowFirstReversed(v0, base);
      SignedText(v0, val, base);
    }
    assert s0[i..][|sign| + 1..] == s0[|Text(val, base)| + 1..];
  }

  /** After the digits, least significant first, fill the first `i`
      cells: the '-' for a negative value, the terminator, and the
      reversal between `head` and `tail`. */
  method FinishText(str: array<char>, i: nat, v: nat, isNegative: bool, base: int, ghost val: int,
                    ghost rest: seq<char>)
    requires (base == 2 || base == 10 || base == 16) && v == 0
    requires isNegative == (val < 0 && base == 10)
    requires i == |LowFirst(Abs(val), base)| && str[..] == LowFirst(Abs(val), base) + rest
    requires (if isNegative then 2 else 1) <= |rest|
    modifies str
    ensures str[..] == (Text(val, base) + ['\0']) + rest[(if isNegative then 1 else 0) + 1..]
  {
    ghost var w := LowFirst(Abs(val), base);
    ghost var sign: seq<char> := if isNegative then ['-'] else [];
    var j := Itoa.SignAndEnd(str, i, isNegative, w, rest);
    // `head` would skip a leading '-' only for a value still negative
    // after the negation above, which cannot happen here.
    var head := if base == 10 && v < 0 then 1 else 0;
    var tail := j - 1;
    // The head/tail exchange loop is the same in-place reversal as
    // `reverse` in itoa.c.
    Itoa.ReverseWritten(str, head, tail, w + sign, rest[|sign| + 1..]);
    assert Rev(w + sign) == Text(val, base) by {
      SignedText(Abs(val), val, base);
    }
  }

  /** The do-while loop of `myitoa`, its `while (val)` test the flag
      `go`: the body runs at least once, writing the digit of `val % base`
      into the next cell and dividing `val` by the base, until `val` is 0.
      `room` is what the caller still needs after the digits. */
  method WriteDigitsDo(str: array<char>, v0: nat, base: int, ghost room: nat) returns (i: nat, v: nat)
    requires 2 <= base <= 32 && |LowFirst(v0, base)| + room <= str.Length
    modifies str
    ensures i == |LowFirst(v0, base)| && v == 0
    ensures str[..] == LowFirst(v0, base) + old(str[i..])
  {
    ghost var s0 := str[..];
    ghost var w: seq<char> := [];
    v := v0;
    i := 0;
    var go := true;
    while go
      invariant i == |w| && (!go ==> v == 0)
      invariant go ==> w + LowFirst(v, base) == LowFirst(v0, base)
      invariant !go ==> w == LowFirst(v0, base)
      invariant str[..] == w + s0[i..]
      decreases v, go
    {
      var digit;
      digit, v := DigitStep(v, base);
      Assoc(w, [digit], if v == 0 then [] else LowFirst(v, base));
      Itoa.WriteAt(str, i, digit, w, s0);
      i := i + 1;
      w := w + [digit];
      go := v != 0;
    }
  }

  /** The arithmetic of one round of the do-while body: the digit of
      `val % base` ('0' onwards below 10, 'A' onwards from 10, as the
      conditional expression picks) and the quotient `val / base`. */
  method DigitStep(v: nat, base: int) returns (digit: char, q: nat)
    requires 2 <= base <= 32
    ensures q == 0 ==> LowFirst(v, base) == [digit]
    ensures q != 0 ==> q < v && LowFirst(v, base) == [digit] + LowFirst(q, base)
  {
    DivIsQuot(v, base);
    var d := v % base;
    digit := if d < 10 then ('0' as int + d) as char else ('A' as int + (d - 10)) as char;
    q := v / base;
  }
}
