// Facts about division with a remainder that the verifier does not find
// by itself once the divisor is a variable.
module Division {

  /** Division with a remainder below the divisor has one answer. */
  lemma {:induction false} QuotUnique(n: nat, b: nat, q1: nat, r1: nat, q2: nat, r2: nat)
    requires b >= 1 && r1 < b && r2 < b
    requires n == q1 * b + r1 && n == q2 * b + r2
    ensures q1 == q2 && r1 == r2
  {
    MulAtLeastOne(q2 - q1, b);
    MulAtLeastOne(q1 - q2, b);
    assert q1 * b - q2 * b == (q1 - q2) * b;
  }

  lemma {:induction false} MulAtLeastOne(k: int, b: nat)
    ensures k >= 1 ==> k * b >= b
    decreases if k < 1 then 0 else k
  {
    if k > 1 {
      MulAtLeastOne(k - 1, b);
      assert k * b == (k - 1) * b + b;
    }
  }

  /** A multiple of `b` leaves no remainder. */
  lemma {:induction false} MultipleMod(s: nat, b: nat)
    requires b >= 1
    ensures (s * b) % b == 0
  {
    QuotUnique(s * b, b, s, 0, (s * b) / b, (s * b) % b);
  }

  /** A number below the divisor has quotient 0. */
  lemma {:induction false} SmallQuot(n: nat, b: nat)
    requires b >= 1
    ensures n < b ==> n / b == 0
  {
    if n < b {
      QuotUnique(n, b, 0, n, n / b, n % b);
    }
  }
}
