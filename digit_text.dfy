// What both integer-to-text conversions of Data_Struct_Implementation/
// atoi_itoa produce, stated independently of their loops: the digits of a
// magnitude most significant first ('0'-'9', then 'A', 'B', ... for digit
// values from 10 on), a leading '-' for a negative value in base 10 only,
// and the reading of such digits back into a number.
module DigitText {

  import opened Division

  const IntMin: int := -0x8000_0000
  const IntMax: int := 0x7fff_ffff

  /** The character of digit value `d`: '0' + d below 10, 'A' + (d - 10)
      from 10 on. */
  function DigitChar(d: nat): (c: char)
    requires d < 32
    ensures d < 10 ==> '0' <= c <= '9'
    ensures d >= 10 ==> 'A' <= c <= 'V'
  {
    if d >= 10 then ('A' as int + (d - 10)) as char else ('0' as int + d) as char
  }

  /** The value of a digit character, the inverse of `DigitChar`. */
  function DigitVal(c: char): nat
  {
    if '0' <= c <= '9' then c as int - '0' as int
    else if 'A' <= c <= 'V' then c as int - 'A' as int + 10
    else 0
  }

  lemma DigitRoundTrip(d: nat)
    requires d < 32
    ensures DigitVal(DigitChar(d)) == d
  {
  }

  /** The quotient of `n` by `b`, by repeated subtraction. */
  function Quot(n: nat, b: nat): (q: nat)
    requires b >= 2
    ensures n < b ==> q == 0
    ensures n >= b ==> 1 <= q < n
    decreases n
  {
    if n < b then 0 else 1 + Quot(n - b, b)
  }

  /** The remainder of `n` by `b`, by repeated subtraction. */
  function Rem(n: nat, b: nat): (r: nat)
    requires b >= 2
    ensures r < b
    ensures n < b ==> r == n
    decreases n
  {
    if n < b then n else Rem(n - b, b)
  }

  /** `n` is `Quot(n, b)` whole `b`s and `Rem(n, b)` left over. */
  lemma {:induction false} QuotRem(n: nat, b: nat)
    requires b >= 2
    ensures n == Quot(n, b) * b + Rem(n, b)
    decreases n
  {
    if n >= b {
      QuotRem(n - b, b);
      assert (1 + Quot(n - b, b)) * b == b + Quot(n - b, b) * b;
    }
  }

  /** For the non-negative operands here C's `/` and `%`, and Dafny's,
      are `Quot` and `Rem`. */
  lemma {:induction false} DivIsQuot(n: nat, b: nat)
    requires b >= 2
    ensures n / b == Quot(n, b) && n % b == Rem(n, b)
  {
    QuotRem(n, b);
    QuotUnique(n, b, Quot(n, b), Rem(n, b), n / b, n % b);
  }

  /** The digits of `n` in `base`, most significant first, with no leading
      zero; 0 is the single digit "0". */
  function Digits(n: nat, base: nat): (s: seq<char>)
    requires 2 <= base <= 32
    ensures |s| >= 1
    decreases n
  {
    if n < base then [DigitChar(n)] else Digits(Quot(n, base), base) + [DigitChar(Rem(n, base))]
  }

  /** What both conversions print: the magnitude's digits, preceded by '-'
      only for a negative value in base 10. */
  function Text(value: int, base: nat): seq<char>
    requires 2 <= base <= 32
  {
    (if value < 0 && base == 10 then ['-'] else []) + Digits(Abs(value), base)
  }

  function Abs(x: int): nat
  {
    if x < 0 then -x else x
  }

  /** Reading digits back, most significant first. */
  function ValueOf(s: seq<char>, base: nat): nat
  {
    if s == [] then 0 else ValueOf(s[..|s| - 1], base) * base + DigitVal(s[|s| - 1])
  }

  /** Every character of `s` is a digit of `base`. */
  ghost predicate IsDigits(s: seq<char>, base: nat)
  {
    forall k :: 0 <= k < |s| ==> DigitVal(s[k]) < base && ('0' <= s[k] <= '9' || 'A' <= s[k] <= 'V')
  }

  /** The digits read back give the number: the round trip. */
  lemma {:induction false} DigitsRoundTrip(n: nat, base: nat)
    requires 2 <= base <= 32
    ensures ValueOf(Digits(n, base), base) == n
    decreases n
  {
    if n >= base {
      var q, d := Quot(n, base), Rem(n, base);
      var s := Digits(n, base);
      assert s == Digits(q, base) + [DigitChar(d)];
      assert s[..|s| - 1] == Digits(q, base);
      DigitsRoundTrip(q, base);
      DigitRoundTrip(d);
      QuotRem(n, base);
      assert ValueOf(s, base) == q * base + d;
    }
  }

  /** Only digits of the base appear. */
  lemma {:induction false} DigitsAreDigits(n: nat, base: nat)
    requires 2 <= base <= 32
    ensures IsDigits(Digits(n, base), base)
    decreases n
  {
    if n >= base {
      var q, d := Quot(n, base), Rem(n, base);
      assert Digits(n, base) == Digits(q, base) + [DigitChar(d)];
      DigitsAreDigits(q, base);
      DigitRoundTrip(d);
    }
  }

  /** The first digit is not '0' unless the number is 0. */
  lemma {:induction false} NoLeadingZero(n: nat, base: nat)
    requires 2 <= base <= 32 && n > 0
    ensures Digits(n, base)[0] != '0'
    decreases n
  {
    if n >= base {
      var q := Quot(n, base);
      assert Digits(n, base) == Digits(q, base) + [DigitChar(Rem(n, base))];
      NoLeadingZero(q, base);
    }
  }

  /** The whole text read back: a leading '-' negates, and in any other
      base than 10 the magnitude comes back. */
  lemma {:induction false} TextRoundTrip(value: int, base: nat)
    requires 2 <= base <= 32
    ensures var t := Text(value, base);
            if value < 0 && base == 10 then t[0] == '-' && value == -(ValueOf(t[1..], base) as int)
            else ValueOf(t, base) == Abs(value) && t[0] != '-'
  {
    var t := Text(value, base);
    DigitsRoundTrip(Abs(value), base);
    DigitsAreDigits(Abs(value), base);
    if value < 0 && base == 10 {
      assert t[1..] == Digits(Abs(value), base);
    } else {
      assert t == Digits(Abs(value), base);
      assert DigitVal(t[0]) < base;
    }
  }

  /** 0 prints as "0" in every base. */
  lemma ZeroText(base: nat)
    requires 2 <= base <= 32
    ensures Text(0, base) == ['0']
  {
  }

  /** The digits least significant first, as the conversion loops write
      them: one digit, then the digits of the quotient if that is not 0. */
  function LowFirst(n: nat, base: nat): (s: seq<char>)
    requires 2 <= base <= 32
    ensures |s| >= 1
    decreases n
  {
    [DigitChar(Rem(n, base))] + (if n < base then [] else LowFirst(Quot(n, base), base))
  }

  /** The digits the `while (n)` loop of `itoa` writes, least significant
      first: none at all for 0. */
  function WhileDigits(n: nat, base: nat): seq<char>
    requires 2 <= base <= 32
    decreases n
  {
    if n == 0 then [] else [DigitChar(Rem(n, base))] + WhileDigits(Quot(n, base), base)
  }

  /** For a non-zero number the `while` loop writes what the `do`-`while`
      loop does. */
  lemma {:induction false} WhileDigitsLowFirst(n: nat, base: nat)
    requires 2 <= base <= 32 && n > 0
    ensures WhileDigits(n, base) == LowFirst(n, base)
    decreases n
  {
    if n >= base {
      WhileDigitsLowFirst(Quot(n, base), base);
    }
  }

  lemma Assoc(a: seq<char>, b: seq<char>, c: seq<char>)
    ensures (a + b) + c == a + (b + c)
  {
  }

  /** A sequence backwards. */
  function Rev(s: seq<char>): (r: seq<char>)
    ensures |r| == |s|
  {
    if s == [] then [] else Rev(s[1..]) + [s[0]]
  }

  lemma {:induction false} RevAt(s: seq<char>, k: nat)
    requires k < |s|
    ensures Rev(s)[k] == s[|s| - 1 - k]
    decreases |s|
  {
    if k < |s| - 1 {
      RevAt(s[1..], k);
    }
  }

  /** Reversing twice gives the sequence back. */
  lemma {:induction false} RevRev(s: seq<char>)
    ensures Rev(Rev(s)) == s
  {
    forall k | 0 <= k < |s|
      ensures Rev(Rev(s))[k] == s[k]
    {
      RevAt(Rev(s), k);
      RevAt(s, |s| - 1 - k);
    }
  }

  lemma {:induction false} RevAppend(a: seq<char>, b: seq<char>)
    ensures Rev(a + b) == Rev(b) + Rev(a)
    decreases |a|
  {
    if a != [] {
      RevAppend(a[1..], b);
      assert (a + b)[1..] == a[1..] + b;
    } else {
      assert a + b == b;
    }
  }

  /** The loops' order, reversed, is the printed order. */
  lemma {:induction false} LowFirstReversed(n: nat, base: nat)
    requires 2 <= base <= 32
    ensures Rev(LowFirst(n, base)) == Digits(n, base)
    decreases n
  {
    var c := [DigitChar(Rem(n, base))];
    if n < base {
      assert LowFirst(n, base) == c;
      assert Rev(c) == Rev(c[1..]) + [c[0]];
    } else {
      LowFirstReversed(Quot(n, base), base);
      RevAppend(c, LowFirst(Quot(n, base), base));
      assert Rev(c) == Rev(c[1..]) + [c[0]];
    }
  }

  /** A '-' written after the low-first digits ends up in front once the
      buffer is reversed. */
  lemma {:induction false} SignedText(n: nat, value: int, base: nat)
    requires 2 <= base <= 32 && n == Abs(value)
    ensures Rev(LowFirst(n, base) + (if value < 0 && base == 10 then ['-'] else [])) == Text(value, base)
  {
    var sign: seq<char> := if value < 0 && base == 10 then ['-'] else [];
    RevAppend(LowFirst(n, base), sign);
    LowFirstReversed(n, base);
    if sign != [] {
      assert Rev(sign) == Rev(sign[1..]) + [sign[0]];
    }
  }
}
