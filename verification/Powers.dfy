/** Powers of two, as naturals and as exact reals. */
module Powers {
  function Pow2(n: nat): (r: nat)
    ensures r > 0
  {
    if n == 0 then 1 else 2 * Pow2(n - 1)
  }

  lemma {:induction false} Pow2Sum(a: nat, b: nat)
    ensures Pow2(a + b) == Pow2(a) * Pow2(b)
  {
    if a > 0 {
      Pow2Sum(a - 1, b);
      assert Pow2(a + b) == 2 * (Pow2(a - 1) * Pow2(b));
    }
  }

  lemma {:induction false} Pow2Mono(a: nat, b: nat)
    requires a <= b
    ensures 0 < Pow2(a) <= Pow2(b)
  {
    if b > 0 {
      Pow2Mono(if a < b then a else a - 1, b - 1);
    }
  }

  lemma SquareMono(a: nat, b: nat)
    requires a <= b
    ensures a * a <= b * b
  {
    assert a * a <= a * b;
    assert a * b <= b * b;
  }

  /** 2 to any integer power. */
  ghost function Exp2(e: int): real
    decreases if e < 0 then -e else e
  {
    if e == 0 then 1.0 else if e > 0 then 2.0 * Exp2(e - 1) else Exp2(e + 1) / 2.0
  }

  lemma {:induction false} Exp2Positive(e: int)
    ensures Exp2(e) > 0.0
    decreases if e < 0 then -e else e
  {
    if e > 0 { Exp2Positive(e - 1); } else if e < 0 { Exp2Positive(e + 1); }
  }

  lemma Exp2Double(e: int)
    ensures Exp2(e + 1) == 2.0 * Exp2(e)
  {
  }

  lemma {:induction false} Exp2Mono(a: int, b: int)
    requires a <= b
    ensures 0.0 < Exp2(a) <= Exp2(b)
    decreases b - a
  {
    Exp2Positive(a);
    if a < b {
      Exp2Mono(a, b - 1);
      Exp2Double(b - 1);
    }
  }

  /** `n` times `u`, by repeated addition: multiplication that keeps proofs linear. */
  ghost function Times(n: nat, u: real): real {
    if n == 0 then 0.0 else Times(n - 1, u) + u
  }

  lemma {:induction false} TimesIsProduct(n: nat, u: real)
    ensures Times(n, u) == (n as real) * u
  {
    if n > 0 {
      TimesIsProduct(n - 1, u);
      assert (n as real) * u == ((n - 1) as real) * u + u;
    }
  }

  lemma {:induction false} TimesSum(a: nat, b: nat, u: real)
    ensures Times(a + b, u) == Times(a, u) + Times(b, u)
  {
    if b > 0 { TimesSum(a, b - 1, u); }
  }

  lemma TimesMono(a: nat, b: nat, u: real)
    requires a <= b && u > 0.0
    ensures 0.0 <= Times(a, u) <= Times(b, u)
    ensures a < b ==> Times(a, u) < Times(b, u)
  {
    TimesSum(a, b - a, u);
    TimesNonNegative(b - a, u);
    TimesNonNegative(a, u);
  }

  lemma {:induction false} TimesNonNegative(n: nat, u: real)
    requires u > 0.0
    ensures Times(n, u) >= 0.0 && (n > 0 ==> Times(n, u) > 0.0)
  {
    if n > 0 { TimesNonNegative(n - 1, u); }
  }

  /** Scaling by a natural power. */
  lemma {:induction false} Exp2Scale(e: int, n: nat)
    ensures Exp2(e + n) == Times(Pow2(n), Exp2(e))
  {
    if n > 0 {
      Exp2Scale(e, n - 1);
      Exp2Double(e + (n - 1));
      TimesSum(Pow2(n - 1), Pow2(n - 1), Exp2(e));
    }
  }

  lemma {:induction false} TimesTwice(n: nat, u: real)
    ensures Times(n, 2.0 * u) == 2.0 * Times(n, u)
  {
    if n > 0 { TimesTwice(n - 1, u); }
  }

  // ---------- shifts and masks on naturals ----------

  /** n >> s */
  function ShiftRight(n: nat, s: nat): nat {
    if s == 0 then n else ShiftRight(n / 2, s - 1)
  }

  /** n << s */
  function ShiftLeft(n: nat, s: nat): nat {
    if s == 0 then n else 2 * ShiftLeft(n, s - 1)
  }

  /** n & ((1 << s) - 1) */
  function LowBits(n: nat, s: nat): nat {
    if s == 0 then 0 else n % 2 + 2 * LowBits(n / 2, s - 1)
  }

  lemma {:induction false} ShiftSplit(n: nat, s: nat)
    ensures n == ShiftLeft(ShiftRight(n, s), s) + LowBits(n, s) && LowBits(n, s) < Pow2(s)
  {
    if s > 0 { ShiftSplit(n / 2, s - 1); }
  }

  lemma {:induction false} ShiftRightBelow(n: nat, s: nat, t: nat)
    requires n < Pow2(s + t)
    ensures ShiftRight(n, s) < Pow2(t)
  {
    if s > 0 { ShiftRightBelow(n / 2, s - 1, t); }
  }

  lemma {:induction false} ShiftLeftSum(a: nat, b: nat, s: nat)
    ensures ShiftLeft(a + b, s) == ShiftLeft(a, s) + ShiftLeft(b, s)
  {
    if s > 0 { ShiftLeftSum(a, b, s - 1); }
  }

  lemma {:induction false} ShiftLeftPow2(t: nat, s: nat)
    ensures ShiftLeft(Pow2(t), s) == Pow2(t + s)
  {
    if s > 0 { ShiftLeftPow2(t, s - 1); }
  }

  lemma {:induction false} ShiftLeftIsProduct(n: nat, s: nat)
    ensures ShiftLeft(n, s) == n * Pow2(s)
  {
    if s > 0 {
      ShiftLeftIsProduct(n, s - 1);
      assert n * (2 * Pow2(s - 1)) == 2 * (n * Pow2(s - 1));
    }
  }

  /** Joining bits and taking them apart again. */
  lemma {:induction false} ShiftJoin(q: nat, r: nat, s: nat)
    requires r < Pow2(s)
    ensures ShiftRight(ShiftLeft(q, s) + r, s) == q && LowBits(ShiftLeft(q, s) + r, s) == r
  {
    if s > 0 {
      ShiftJoin(q, r / 2, s - 1);
      assert (ShiftLeft(q, s) + r) / 2 == ShiftLeft(q, s - 1) + r / 2;
    }
  }

  lemma {:induction false} ShiftRightTwice(n: nat, a: nat, b: nat)
    ensures ShiftRight(n, a + b) == ShiftRight(ShiftRight(n, a), b)
  {
    if a > 0 { ShiftRightTwice(n / 2, a - 1, b); }
  }

  lemma {:induction false} ShiftLeftTwice(n: nat, a: nat, b: nat)
    ensures ShiftLeft(n, a + b) == ShiftLeft(ShiftLeft(n, a), b)
  {
    if b > 0 { ShiftLeftTwice(n, a, b - 1); }
  }

  lemma {:induction false} ShiftLeftBelow(n: nat, s: nat, t: nat)
    requires n < Pow2(t)
    ensures ShiftLeft(n, s) < Pow2(s + t)
    ensures ShiftLeft(n, s) + Pow2(s) <= Pow2(s + t)
  {
    if s > 0 { ShiftLeftBelow(n, s - 1, t); }
  }

  /** Shifting left and lowering the exponent keep the value. */
  lemma {:induction false} TimesShift(q: nat, s: nat, e: int)
    ensures Times(ShiftLeft(q, s), Exp2(e)) == Times(q, Exp2(e + s))
  {
    if s > 0 {
      TimesShift(q, s - 1, e);
      TimesSum(ShiftLeft(q, s - 1), ShiftLeft(q, s - 1), Exp2(e));
      Exp2Double(e + (s - 1));
      TimesTwice(q, Exp2(e + (s - 1)));
    }
  }
}
