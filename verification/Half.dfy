/** Half-precision conversion, src/include/CL/cl_half.h, against the rounding rules of
    IEEE 754-2008 (sections 3.4, 4.3.1, 4.3.2 and 7.4). */
module Half {
  import opened Powers

  // ---------- what the bits mean ----------

  /** A binary interchange format: `p` bits of precision, `w` exponent bits. */
  datatype Format = Format(p: nat, w: nat) {
    ghost predicate Valid() { p >= 12 && w >= 6 }

    function MaxExp(): nat
      requires w > 0
    {
      Pow2(w - 1)
    }
  }

  const FLOAT := Format(24, 8)
  const DOUBLE := Format(53, 11)

  datatype Mode = RTE | RTZ | RTP | RTN

  /** The three fields of an encoding `i`. */
  function SignOf(f: Format, i: nat): nat
    requires f.p > 0
  {
    ShiftRight(i, f.p + f.w - 1)
  }

  function ExpOf(f: Format, i: nat): nat
    requires f.p > 0
  {
    LowBits(ShiftRight(i, f.p - 1), f.w)
  }

  function MantOf(f: Format, i: nat): nat
    requires f.p > 0
  {
    LowBits(i, f.p - 1)
  }

  ghost predicate IsEncoding(f: Format, i: nat) {
    f.Valid() && i < Pow2(f.p + f.w)
  }

  ghost predicate IsFinite(f: Format, i: nat)
    requires f.Valid()
  {
    ExpOf(f, i) < Pow2(f.w) - 1
  }

  /** The exact magnitude of a finite encoding (section 3.4). */
  ghost function Magnitude(f: Format, i: nat): real
    requires f.Valid()
  {
    FieldMagnitude(f, ExpOf(f, i), MantOf(f, i))
  }

  ghost function FieldMagnitude(f: Format, e: nat, m: nat): real
    requires f.Valid()
  {
    if e == 0 then Times(m, Exp2(1 - (f.MaxExp() - 1) - (f.p - 1)))
    else Times(m + Pow2(f.p - 1), Exp2(e - (f.MaxExp() - 1) - (f.p - 1)))
  }

  /** The value of an encoding as a formula (section 3.4). */
  lemma FieldValue(f: Format, e: nat, m: nat)
    requires f.Valid()
    ensures var fraction := (m as real) / (Pow2(f.p - 1) as real);
      FieldMagnitude(f, e, m)
      == if e == 0 then fraction * Exp2(2 - f.MaxExp()) else (1.0 + fraction) * Exp2(e - (f.MaxExp() - 1))
  {
    var top := if e == 0 then 2 - f.MaxExp() else e - (f.MaxExp() - 1);
    var u, n := Exp2(top - (f.p - 1)), Pow2(f.p - 1);
    assert FieldMagnitude(f, e, m) == Times(if e == 0 then m else m + n, u);
    hide FieldMagnitude, Exp2, Times, Pow2;
    Exp2Scale(top - (f.p - 1), f.p - 1);
    TimesIsProduct(n, u);
    TimesIsProduct(if e == 0 then m else m + n, u);
    ScaledFraction(m, n, u, Exp2(top));
  }

  lemma ScaledFraction(m: nat, n: nat, u: real, power: real)
    requires n > 0 && power == (n as real) * u
    ensures ((m as real) / (n as real)) * power == (m as real) * u
    ensures (1.0 + (m as real) / (n as real)) * power == ((m + n) as real) * u
  {
    var q := (m as real) / (n as real);
    assert q * (n as real) == m as real;
    assert q * ((n as real) * u) == (q * (n as real)) * u;
    assert (1.0 + q) * power == power + q * power;
  }

  /** The fields of a float, as cl_half.h:120-124 takes them from its 32 bits. */
  lemma FloatFields(i: nat)
    requires i < 0x1_0000_0000
    ensures IsEncoding(FLOAT, i) && SignOf(FLOAT, i) == i / 0x8000_0000
    ensures ExpOf(FLOAT, i) == i / 0x80_0000 % 0x100 && MantOf(FLOAT, i) == i % 0x80_0000
    ensures IsFinite(FLOAT, i) <==> ExpOf(FLOAT, i) != 0xFF
  {
    hide Pow2, ShiftRight, LowBits;
    Pow2Values();
    Shifted(i, 31, 0x8000_0000);
    Shifted(i, 23, 0x80_0000);
    assert ShiftRight(i, 23) == i / 0x80_0000;
    Shifted(i / 0x80_0000, 8, 0x100);
  }

  /** The fields of a double, as cl_half.h:246-250 takes them from its 64 bits. */
  lemma DoubleFields(i: nat)
    requires i < 0x1_0000_0000_0000_0000
    ensures IsEncoding(DOUBLE, i) && SignOf(DOUBLE, i) == i / 0x8000_0000_0000_0000
    ensures ExpOf(DOUBLE, i) == i / 0x10_0000_0000_0000 % 0x800 && MantOf(DOUBLE, i) == i % 0x10_0000_0000_0000
    ensures IsFinite(DOUBLE, i) <==> ExpOf(DOUBLE, i) != 0x7FF
  {
    hide Pow2, ShiftRight, LowBits;
    Pow2Values();
    Shifted(i, 63, 0x8000_0000_0000_0000);
    Shifted(i, 52, 0x10_0000_0000_0000);
    assert ShiftRight(i, 52) == i / 0x10_0000_0000_0000;
    Shifted(i / 0x10_0000_0000_0000, 11, 0x800);
  }

  lemma Pow2Values()
    ensures Pow2(8) == 0x100 && Pow2(11) == 0x800 && Pow2(32) == 0x1_0000_0000 && Pow2(64) == 0x1_0000_0000_0000_0000
    ensures Pow2(23) == 0x80_0000 && Pow2(31) == 0x8000_0000
    ensures Pow2(52) == 0x10_0000_0000_0000 && Pow2(63) == 0x8000_0000_0000_0000
  {
    assert Pow2(11) == 0x800;
    assert Pow2(23) == 0x80_0000;
    assert Pow2(31) == 0x8000_0000;
    assert Pow2(42) == 0x400_0000_0000;
    assert Pow2(52) == 0x10_0000_0000_0000;
    assert Pow2(64) == 0x1_0000_0000_0000_0000;
  }

  lemma Shifted(n: nat, s: nat, power: nat)
    requires power == Pow2(s)
    ensures n == ShiftRight(n, s) * power + LowBits(n, s) && LowBits(n, s) < power
  {
    ShiftSplit(n, s);
    ShiftLeftIsProduct(ShiftRight(n, s), s);
  }

  const INFINITY: nat := 0x7C00
  const MAX_FINITE: nat := 0x7BFF

  /** The magnitude of the half with exponent-and-mantissa bits `k`; at 0x7C00 it continues
      the scale one step beyond the largest finite half. */
  ghost function Mag(k: nat): real {
    if k / 1024 == 0 then Times(k, Exp2(-24))
    else Times(1024 + k % 1024, Exp2(k / 1024 - 25))
  }

  ghost function Spacing(k: nat): real {
    Exp2(if k / 1024 == 0 then -24 else k / 1024 - 25)
  }

  lemma TimesDouble(n: nat, u: real)
    ensures Times(n, 2.0 * u) == Times(2 * n, u)
  {
    TimesTwice(n, u);
    TimesSum(n, n, u);
  }

  lemma MagStep(k: nat)
    ensures Mag(k + 1) == Mag(k) + Spacing(k)
  {
    var e := k / 1024;
    if k % 1024 == 1023 {
      assert (k + 1) / 1024 == e + 1 && (k + 1) % 1024 == 0;
      Exp2Double(e - 25);
      TimesDouble(1024, Exp2(e - 25));
    } else {
      assert (k + 1) / 1024 == e && (k + 1) % 1024 == k % 1024 + 1;
    }
  }

  lemma {:induction false} MagMono(j: nat, k: nat)
    requires j <= k
    ensures Mag(j) <= Mag(k)
    ensures j < k ==> Mag(j) < Mag(k)
  {
    if j < k {
      MagMono(j, k - 1);
      MagStep(k - 1);
      Exp2Positive(if (k - 1) / 1024 == 0 then -24 else (k - 1) / 1024 - 25);
    }
  }

  lemma MagEnds()
    ensures Mag(0) == 0.0 && Mag(MAX_FINITE) == 65504.0 && Mag(INFINITY) == 65536.0
  {
    TimesIsProduct(2047, Exp2(5));
    TimesIsProduct(1024, Exp2(6));
    SmallPowers();
    hide Times, Exp2;
  }

  lemma SmallPowers()
    ensures Exp2(5) == 32.0 && Exp2(6) == 64.0
  {
    assert Exp2(3) == 8.0;
    assert Exp2(5) == 32.0;
  }

  // ---------- the rounding rules ----------

  ghost function Distance(x: real, y: real): real {
    if x <= y then y - x else x - y
  }

  /** Section 4.3.1: from the halfway point beyond the largest finite number on, infinity;
      below it the nearest number, and of two nearest ones the one with an even last bit. */
  ghost predicate NearestEven(x: real, k: nat) {
    if x >= 65520.0 then k == INFINITY
    else
      && k <= MAX_FINITE
      && (forall j: nat | j <= MAX_FINITE :: Distance(x, Mag(k)) <= Distance(x, Mag(j)))
      && (forall j: nat | j <= MAX_FINITE && j != k && Distance(x, Mag(j)) == Distance(x, Mag(k)) :: k % 2 == 0)
  }

  /** Section 4.3.2: the closest number of no greater magnitude. */
  ghost predicate TowardZero(x: real, k: nat) {
    k <= MAX_FINITE && Mag(k) <= x && forall j: nat | j <= MAX_FINITE && Mag(j) <= x :: j <= k
  }

  /** Section 4.3.2: the closest number, possibly infinity, of no smaller magnitude. */
  ghost predicate AwayFromZero(x: real, k: nat) {
    k <= INFINITY && (k == INFINITY || x <= Mag(k)) && forall j: nat | j <= MAX_FINITE && x <= Mag(j) :: k <= j
  }

  ghost predicate Away(sign: nat, mode: Mode) {
    (mode.RTP? && sign == 0) || (mode.RTN? && sign != 0)
  }

  ghost predicate Rounds(x: real, sign: nat, mode: Mode, k: nat) {
    if mode.RTE? then NearestEven(x, k)
    else if Away(sign, mode) then AwayFromZero(x, k)
    else TowardZero(x, k)
  }

  /** `h` is the correctly rounded half of the given sign and exact magnitude. */
  ghost predicate CorrectlyRounded(x: real, sign: nat, mode: Mode, h: nat) {
    h / 0x8000 == sign && Rounds(x, sign, mode, h % 0x8000)
  }

  // ---------- why the steps of the conversion are right ----------

  lemma FieldBounds(f: Format, i: nat)
    requires IsEncoding(f, i)
    ensures SignOf(f, i) <= 1 && ExpOf(f, i) < Pow2(f.w) && MantOf(f, i) < Pow2(f.p - 1)
    ensures FormatBounds(f)
  {
    Pow2Mono(5, f.w - 1);
    ShiftRightBelow(i, f.p + f.w - 1, 1);
    ShiftSplit(ShiftRight(i, f.p - 1), f.w);
    ShiftSplit(i, f.p - 1);
  }

  ghost predicate FormatBounds(f: Format) {
    f.Valid() && Pow2(f.w) == 2 * f.MaxExp() && f.MaxExp() >= 32
  }

  lemma ZeroRounds(sign: nat, mode: Mode)
    requires sign <= 1
    ensures CorrectlyRounded(0.0, sign, mode, sign * 0x8000)
  {
    MagEnds();
    forall j: nat | j >= 1
      ensures Mag(j) > 0.0
    {
      MagMono(0, j);
    }
  }

  lemma OverflowMagnitude(f: Format, e: nat, m: nat)
    requires FormatBounds(f) && e - f.MaxExp() + 1 >= 16
    ensures FieldMagnitude(f, e, m) >= 65536.0
  {
    var u := e - f.MaxExp() + 1 - (f.p - 1);
    Exp2Positive(u);
    Exp2Scale(u, f.p - 1);
    TimesMono(Pow2(f.p - 1), m + Pow2(f.p - 1), Exp2(u));
    Exp2Mono(16, u + (f.p - 1));
    assert Exp2(6) == 64.0;
    assert Exp2(11) == 2048.0;
    assert Exp2(16) == 65536.0;
  }

  lemma UnderflowMagnitude(f: Format, e: nat, m: nat)
    requires FormatBounds(f) && m < Pow2(f.p - 1) && e - f.MaxExp() + 1 < -25
    requires e != 0 || m != 0
    ensures 0.0 < FieldMagnitude(f, e, m) < Exp2(-25)
  {
    if e == 0 {
      SmallProduct(m, 2 - f.MaxExp() - (f.p - 1), f.p - 1);
    } else {
      SmallProduct(m + Pow2(f.p - 1), e - f.MaxExp() + 1 - (f.p - 1), f.p);
    }
  }

  lemma SmallProduct(m: nat, e: int, n: nat)
    requires 0 < m < Pow2(n) && e + n <= -25
    ensures 0.0 < Times(m, Exp2(e)) < Exp2(-25)
  {
    Exp2Positive(e);
    Exp2Scale(e, n);
    TimesMono(m, Pow2(n), Exp2(e));
    TimesNonNegative(m, Exp2(e));
    Exp2Mono(e + n, -25);
  }

  /** The truncated half `k`, and how far above it the exact value is. */
  ghost predicate Bracketed(x: real, k: nat, rest: nat, halfway: nat, u: real) {
    && k <= MAX_FINITE && rest < 2 * halfway && u > 0.0
    && x == Mag(k) + Times(rest, u)
    && Mag(k + 1) == Mag(k) + Times(2 * halfway, u)
  }

  lemma BracketFrom(x: real, k: nat, q: nat, s: nat, rest: nat, e: int)
    requires k <= MAX_FINITE && s > 0 && rest < Pow2(s)
    requires Mag(k) == Times(q, Spacing(k)) && Spacing(k) == Exp2(e + s)
    requires x == Times(ShiftLeft(q, s) + rest, Exp2(e))
    ensures Bracketed(x, k, rest, Pow2(s - 1), Exp2(e))
  {
    TimesSum(ShiftLeft(q, s), rest, Exp2(e));
    TimesShift(q, s, e);
    Exp2Scale(e, s);
    Exp2Positive(e);
    MagStep(k);
  }

  lemma TenBits()
    ensures Pow2(10) == 1024
  {
  }

  lemma NormalMag(hExp: nat, hMant: nat)
    requires 1 <= hExp && hMant < 1024
    ensures var k := hExp * 1024 + hMant;
      Mag(k) == Times(1024 + hMant, Exp2(hExp - 25)) && Spacing(k) == Exp2(hExp - 25)
  {
    var k := hExp * 1024 + hMant;
    assert k / 1024 == hExp && k % 1024 == hMant;
    hide Times, Exp2;
  }

  lemma SubnormalMag(k: nat)
    requires k < 1024
    ensures Mag(k) == Times(k, Exp2(-24)) && Spacing(k) == Exp2(-24)
  {
    hide Times, Exp2;
  }

  lemma ShiftedNormal(f: Format, e: nat, m: nat, hExp: nat, hMant: nat)
    requires FormatBounds(f) && m < Pow2(f.p - 1) && hExp == e - f.MaxExp() + 16 && 1 <= hExp <= 30
    requires hMant == ShiftRight(m, f.p - 11)
    ensures hMant < 1024
    ensures Bracketed(FieldMagnitude(f, e, m), hExp * 1024 + hMant, LowBits(m, f.p - 11), Pow2(f.p - 12),
                      Exp2(hExp - 14 - f.p))
  {
    hide Mag, Spacing, Bracketed, ShiftRight, ShiftLeft, LowBits, Times, Exp2, Pow2;
    var s, k := f.p - 11, hExp * 1024 + hMant;
    TenBits();
    ShiftRightBelow(m, s, 10);
    ShiftSplit(m, s);
    ShiftLeftSum(1024, hMant, s);
    ShiftLeftPow2(10, s);
    NormalMag(hExp, hMant);
    BracketFrom(FieldMagnitude(f, e, m), k, 1024 + hMant, s, LowBits(m, s), hExp - 14 - f.p);
  }

  lemma ShiftedSubnormal(f: Format, e: nat, m: nat, exp: int, hMant: nat)
    requires FormatBounds(f) && m < Pow2(f.p - 1) && exp == e - f.MaxExp() + 1 && -25 <= exp < -14
    requires hMant == ShiftRight(m + Pow2(f.p - 1), -exp + (f.p - 25))
    ensures hMant < 1024
    ensures Bracketed(FieldMagnitude(f, e, m), hMant, LowBits(m + Pow2(f.p - 1), -exp + (f.p - 25)),
                      Pow2(-exp + (f.p - 26)), Exp2(exp - f.p + 1))
  {
    var s, M := -exp + (f.p - 25), m + Pow2(f.p - 1);
    assert Pow2(f.p) == 2 * Pow2(f.p - 1);
    hide Mag, Spacing, Bracketed, ShiftRight, ShiftLeft, LowBits, Times, Exp2, Pow2;
    TenBits();
    Pow2Mono(f.p, s + 10);
    ShiftRightBelow(M, s, 10);
    ShiftSplit(M, s);
    SubnormalMag(hMant);
    BracketFrom(FieldMagnitude(f, e, m), hMant, hMant, s, LowBits(M, s), exp - f.p + 1);
  }

  function RoundsUp(sign: nat, mode: Mode, odd: bool, rest: nat, halfway: nat): bool {
    match mode
    case RTE => rest > halfway || (rest == halfway && odd)
    case RTZ => false
    case RTP => rest != 0 && sign == 0
    case RTN => rest != 0 && sign != 0
  }

  lemma RoundedOk(x: real, sign: nat, mode: Mode, k: nat, rest: nat, halfway: nat, u: real)
    requires Bracketed(x, k, rest, halfway, u)
    ensures Rounds(x, sign, mode, if RoundsUp(sign, mode, k % 2 == 1, rest, halfway) then k + 1 else k)
  {
    TimesSum(halfway, halfway, u);
    assert halfway + halfway == 2 * halfway;
    TimesMono(rest, 2 * halfway, u);
    TimesNonNegative(rest, u);
    if rest <= halfway { TimesMono(rest, halfway, u); } else { TimesMono(halfway, rest, u); }
    if mode.RTE? {
      NearestOk(x, k, RoundsUp(sign, mode, k % 2 == 1, rest, halfway));
    } else {
      DirectedOk(x, k);
    }
  }

  function RoundedMantissa(sign: nat, mode: Mode, hMant: nat, rest: nat, halfway: nat): nat {
    if RoundsUp(sign, mode, hMant % 2 == 1, rest, halfway) then hMant + 1 else hMant
  }

  /** The encoding after a carry out of the ten mantissa bits. */
  function HalfBits(sign: nat, hExp: nat, hMant: nat): nat {
    sign * 0x8000 + if hMant == 1024 then (hExp + 1) * 1024 else hExp * 1024 + hMant
  }

  lemma RoundedEncoding(x: real, sign: nat, mode: Mode, hExp: nat, hMant: nat, rest: nat, halfway: nat, u: real)
    requires sign <= 1 && hExp <= 30 && hMant < 1024 && Bracketed(x, hExp * 1024 + hMant, rest, halfway, u)
    ensures CorrectlyRounded(x, sign, mode, HalfBits(sign, hExp, RoundedMantissa(sign, mode, hMant, rest, halfway)))
  {
    hide Rounds, RoundsUp, Bracketed;
    var k := hExp * 1024 + hMant;
    assert k % 2 == hMant % 2;
    RoundedOk(x, sign, mode, k, rest, halfway, u);
    HalfParts(sign, if RoundsUp(sign, mode, k % 2 == 1, rest, halfway) then k + 1 else k);
  }

  lemma HalfParts(sign: nat, k: nat)
    requires sign <= 1 && k < 0x8000
    ensures (sign * 0x8000 + k) / 0x8000 == sign && (sign * 0x8000 + k) % 0x8000 == k
  {
  }

  /** Choosing between the two halves around `x`. */
  lemma NearestOk(x: real, k: nat, up: bool)
    requires k <= MAX_FINITE && Mag(k) <= x < Mag(k + 1)
    requires up ==> x - Mag(k) >= Mag(k + 1) - x && (x - Mag(k) == Mag(k + 1) - x ==> k % 2 == 1)
    requires !up ==> x - Mag(k) <= Mag(k + 1) - x && (x - Mag(k) == Mag(k + 1) - x ==> k % 2 == 0)
    ensures NearestEven(x, if up then k + 1 else k)
  {
    hide Mag;
    MagEnds();
    MagMono(k + 1, if k < MAX_FINITE then MAX_FINITE else k + 1);
    forall j: nat | j <= MAX_FINITE
      ensures j <= k ==> Mag(j) <= Mag(k) && (j < k ==> Mag(j) < Mag(k))
      ensures j > k ==> Mag(j) >= Mag(k + 1) && (j > k + 1 ==> Mag(j) > Mag(k + 1))
    {
      if j <= k { MagMono(j, k); } else { MagMono(k + 1, j); }
    }
  }

  lemma DirectedOk(x: real, k: nat)
    requires k <= MAX_FINITE && Mag(k) <= x < Mag(k + 1)
    ensures TowardZero(x, k)
    ensures AwayFromZero(x, if x == Mag(k) then k else k + 1)
  {
    forall j: nat | j <= MAX_FINITE
      ensures j < k ==> Mag(j) < Mag(k)
      ensures j > k ==> Mag(j) >= Mag(k + 1)
    {
      if j <= k { MagMono(j, k); } else { MagMono(k + 1, j); }
    }
  }

  // ---------- the conversions ----------

  /** cl_half_handle_overflow (cl_half.h:61-82) */
  function HandleOverflow(mode: Mode, sign: nat): (h: nat)
    requires sign <= 1
    ensures forall x: real :: x >= 65536.0 ==> CorrectlyRounded(x, sign, mode, h)
  {
    MagEnds();
    assert forall j: nat :: j <= MAX_FINITE ==> Mag(j) <= 65504.0 by {
      forall j: nat | j <= MAX_FINITE ensures Mag(j) <= 65504.0 { MagMono(j, MAX_FINITE); }
    }
    if mode == RTZ then sign * 0x8000 + MAX_FINITE
    else if mode == RTP && sign != 0 then 0x8000 + MAX_FINITE
    else if mode == RTN && sign == 0 then MAX_FINITE
    else sign * 0x8000 + INFINITY
  }

  /** cl_half_handle_underflow (cl_half.h:87-103) */
  function HandleUnderflow(mode: Mode, sign: nat): (h: nat)
    requires sign <= 1
    ensures forall x: real :: 0.0 < x < Exp2(-25) ==> CorrectlyRounded(x, sign, mode, h)
  {
    UnderflowFacts();
    if mode == RTP && sign == 0 then sign * 0x8000 + 1
    else if mode == RTN && sign != 0 then sign * 0x8000 + 1
    else sign * 0x8000
  }

  lemma UnderflowFacts()
    ensures Mag(0) == 0.0 && Mag(1) == 2.0 * Exp2(-25) && Exp2(-25) < 1.0
    ensures forall j: nat :: j >= 1 ==> Mag(j) >= Mag(1)
  {
    MagEnds();
    Exp2Double(-25);
    Exp2Mono(-25, -1);
    forall j: nat | j >= 1
      ensures Mag(j) >= Mag(1)
    {
      MagMono(1, j);
    }
  }

  /** Infinity stays infinity; a NaN keeps the top of its payload and is silenced (section 6.2.1). */
  function SpecialHalf(f: Format, sign: nat, mant: nat): nat
    requires f.Valid()
  {
    sign * 0x8000 + INFINITY + if mant == 0 then 0 else Quiet(ShiftRight(mant, f.p - 11))
  }

  /** What that is, bit by bit. */
  lemma SpecialBits(f: Format, sign: nat, mant: nat)
    requires f.Valid() && sign <= 1 && mant < Pow2(f.p - 1)
    ensures var h := SpecialHalf(f, sign, mant);
      && h / 0x8000 == sign && (mant == 0 ==> h % 0x8000 == 0x7C00)
      && (mant != 0 ==> h % 0x8000 > 0x7C00 && h / 0x200 % 2 == 1)
      && (mant != 0 ==> h % 0x200 == ShiftRight(mant, f.p - 11) % 0x200)
  {
    TenBits();
    ShiftRightBelow(mant, f.p - 11, 10);
    hide ShiftRight, Pow2, Quiet;
    HalfParts(sign, INFINITY + if mant == 0 then 0 else Quiet(ShiftRight(mant, f.p - 11)));
    if mant != 0 {
      QuietBits(sign, Quiet(ShiftRight(mant, f.p - 11)));
    }
  }

  lemma QuietBits(sign: nat, q: nat)
    requires sign <= 1 && q < 0x400 && q / 0x200 % 2 == 1
    ensures var h := sign * 0x8000 + INFINITY + q;
      h / 0x200 % 2 == 1 && h % 0x200 == q % 0x200
  {
  }

  /** cl_half_from_float and cl_half_from_double (cl_half.h:109-229, 235-355), one text. */
  method FromFloat(f: Format, i: nat, mode: Mode) returns (h: nat)
    requires IsEncoding(f, i)
    ensures IsFinite(f, i) ==> CorrectlyRounded(Magnitude(f, i), SignOf(f, i), mode, h)
    ensures !IsFinite(f, i) ==>
      && h == SpecialHalf(f, SignOf(f, i), MantOf(f, i))
      && h / 0x8000 == SignOf(f, i) && (MantOf(f, i) == 0 ==> h % 0x8000 == 0x7C00)
      && (MantOf(f, i) != 0 ==> h % 0x8000 > 0x7C00 && h / 0x200 % 2 == 1)
      && (MantOf(f, i) != 0 ==> h % 0x200 == ShiftRight(MantOf(f, i), f.p - 11) % 0x200)
  {
    FieldBounds(f, i);
    h := FromFields(f, SignOf(f, i), ExpOf(f, i), MantOf(f, i), mode);
  }

  lemma ZeroMagnitude(f: Format)
    requires f.Valid()
    ensures FieldMagnitude(f, 0, 0) == 0.0
  {
  }

  /** The same, once sign, exponent and mantissa have been extracted (cl_half.h:126-228). */
  method FromFields(f: Format, sign: nat, fExp: nat, mant: nat, mode: Mode) returns (h: nat)
    requires FormatBounds(f) && sign <= 1 && fExp < Pow2(f.w) && mant < Pow2(f.p - 1)
    ensures fExp < Pow2(f.w) - 1 ==> CorrectlyRounded(FieldMagnitude(f, fExp, mant), sign, mode, h)
    ensures fExp == Pow2(f.w) - 1 ==>
      && h == SpecialHalf(f, sign, mant) && h / 0x8000 == sign && (mant == 0 ==> h % 0x8000 == 0x7C00)
      && (mant != 0 ==> h % 0x8000 > 0x7C00 && h / 0x200 % 2 == 1)
      && (mant != 0 ==> h % 0x200 == ShiftRight(mant, f.p - 11) % 0x200)
  {
    hide ShiftRight, LowBits, CorrectlyRounded, FieldMagnitude, Bracketed, HandleOverflow, HandleUnderflow, Quiet;
    hide RoundedMantissa, HalfBits, Exp2;
    var fMant := mant;
    var exp := fExp - f.MaxExp() + 1;
    var hExp := (exp + 15) % 0x10000;
    var lsbPos := f.p - 11;
    if fExp == Pow2(f.w) - 1 {
      SpecialBits(f, sign, mant);
      if fMant != 0 {
        return sign * 0x8000 + INFINITY + Quiet(ShiftRight(fMant, lsbPos));
      } else {
        return sign * 0x8000 + INFINITY;
      }
    }
    if fExp == 0 && fMant == 0 {
      ZeroRounds(sign, mode);
      ZeroMagnitude(f);
      return sign * 0x8000;
    }
    if exp >= 16 {
      OverflowMagnitude(f, fExp, mant);
      return HandleOverflow(mode, sign);
    }
    if exp < -25 {
      UnderflowMagnitude(f, fExp, mant);
      return HandleUnderflow(mode, sign);
    }
    if exp < -14 {
      hExp := 0;
      fMant := fMant + Pow2(f.p - 1);
      lsbPos := -exp + (f.p - 25);
      ShiftedSubnormal(f, fExp, mant, exp, ShiftRight(fMant, lsbPos));
    } else {
      ShiftedNormal(f, fExp, mant, hExp, ShiftRight(fMant, lsbPos));
    }
    RoundedEncoding(FieldMagnitude(f, fExp, mant), sign, mode, hExp, ShiftRight(fMant, lsbPos),
                    LowBits(fMant, lsbPos), Pow2(lsbPos - 1), Exp2(exp - f.p + 1));
    h := RoundShifted(sign, mode, hExp, fMant, lsbPos);
  }

  /** The shift and the carry into the exponent (cl_half.h:181-186, 221-228). */
  method RoundShifted(sign: nat, mode: Mode, hExp0: nat, fMant: nat, lsbPos: nat) returns (h: nat)
    requires lsbPos > 0 && ShiftRight(fMant, lsbPos) < 1024
    ensures var hMant, rest := ShiftRight(fMant, lsbPos), LowBits(fMant, lsbPos);
      h == HalfBits(sign, hExp0, RoundedMantissa(sign, mode, hMant, rest, Pow2(lsbPos - 1)))
  {
    hide ShiftRight, LowBits, Pow2, RoundsUp;
    CarryBit(ShiftRight(fMant, lsbPos));
    var hExp, hMant := hExp0, ShiftRight(fMant, lsbPos) % 0x10000;
    var halfway := Pow2(lsbPos - 1);
    var rest := LowBits(fMant, lsbPos);
    hMant := RoundMantissa(sign, mode, hMant, rest, halfway);
    CarryBit(hMant);
    if hMant / 1024 % 2 == 1 {
      hExp := hExp + 1;
      hMant := 0;
    }
    h := sign * 0x8000 + hExp * 1024 + hMant;
  }

  lemma CarryBit(hMant: nat)
    requires hMant <= 1024
    ensures hMant % 0x10000 == hMant && (hMant / 1024 % 2 == 1 <==> hMant == 1024)
  {
  }

  /** The switch on the rounding mode (cl_half.h:187-219). */
  method RoundMantissa(sign: nat, mode: Mode, hMant0: nat, rest: nat, halfway: nat) returns (hMant: nat)
    ensures hMant == RoundedMantissa(sign, mode, hMant0, rest, halfway)
  {
    hMant := hMant0;
    match mode {
      case RTE =>
        if rest > halfway {
          hMant := hMant + 1;
        } else if rest == halfway {
          if hMant % 2 == 1 {
            hMant := hMant + 1;
          }
        }
      case RTZ =>
      case RTP =>
        if rest != 0 && sign == 0 {
          hMant := hMant + 1;
        }
      case RTN =>
        if rest != 0 && sign != 0 {
          hMant := hMant + 1;
        }
    }
  }

  /** A NaN's payload with the quiet bit set. */
  function Quiet(mant: nat): (r: nat)
    ensures mant < 0x400 ==> mant <= r < 0x400
    ensures r / 0x200 % 2 == 1 && r % 0x200 == mant % 0x200
    ensures mant / 0x200 % 2 == 1 ==> r == mant
  {
    if mant / 0x200 % 2 == 1 then mant else mant + 0x200
  }

  /** cl_half_to_float (cl_half.h:361-428) */
  method ToFloat(h: nat) returns (i: nat)
    requires h < 0x10000
    ensures EncodesHalf(FLOAT, i, h / 0x8000, h % 0x8000)
  {
    FloatBounds();
    var sign := h / 0x8000;
    var fExp, hMant := WideFields(h % 0x8000);
    WidenedFields(FLOAT, sign, h % 0x8000, fExp, hMant);
    i := Joined(FLOAT, sign, fExp, ShiftLeft(hMant, FLOAT.p - 11));
  }

  /** `i` is the encoding in format `f` of the half with sign `sign` and remaining bits `k`. */
  ghost predicate EncodesHalf(f: Format, i: nat, sign: nat, k: nat) {
    && IsEncoding(f, i) && SignOf(f, i) == sign && (IsFinite(f, i) <==> k < INFINITY)
    && (k < INFINITY ==> Magnitude(f, i) == Mag(k))
    && (k >= INFINITY ==> MantOf(f, i) == if k % 1024 == 0 then 0 else ShiftLeft(Quiet(k % 1024), f.p - 11))
  }

  lemma WidenedFields(f: Format, sign: nat, k: nat, e: nat, m: nat)
    requires FormatBounds(f) && sign <= 1 && k < 0x8000
    requires k < INFINITY ==> Widens(f, k, e, m)
    requires k >= INFINITY ==> e == Pow2(f.w) - 1 && m == if k % 1024 == 0 then 0 else Quiet(k % 1024)
    ensures EncodesHalf(f, Joined(f, sign, e, ShiftLeft(m, f.p - 11)), sign, k)
  {
    Widened(f, m);
    JoinedFields(f, sign, e, ShiftLeft(m, f.p - 11));
    if k < INFINITY {
      WidenedMagnitude(f, k, e, m);
    } else {
      ShiftLeftSum(0, 0, f.p - 11);
    }
  }

  /** What the exponent `e` and the ten-bit mantissa `m` have to do with a finite half `k`. */
  predicate Widens(f: Format, k: nat, e: nat, m: nat)
    requires f.w > 0
  {
    m < 1024 &&
    if k == 0 then e == 0 && m == 0
    else if k < 1024 then f.MaxExp() - 25 <= e <= f.MaxExp() - 16 && m + 1024 == ShiftLeft(k, f.MaxExp() - 15 - e)
    else e == k / 1024 + f.MaxExp() - 16 && m == k % 1024
  }

  /** The new exponent and mantissa, before shifting (cl_half.h:373-424). */
  method WideFields(k: nat) returns (fExp: nat, hMant: nat)
    requires k < 0x8000
    ensures k < INFINITY ==> fExp < 255 && Widens(FLOAT, k, fExp, hMant)
    ensures k >= INFINITY ==> fExp == 255 && hMant == if k % 1024 == 0 then 0 else Quiet(k % 1024)
  {
    FloatBounds();
    HalfFields(k);
    hide ShiftLeft, Quiet, Pow2;
    var hExp := k / 1024 % 32;
    hMant := k % 1024;
    if hExp == 31 {
      fExp := 0xFF;
      if hMant != 0 {
        hMant := Quiet(hMant);
      }
      return;
    }
    var exp := hExp - 15;
    fExp := exp + FLOAT.MaxExp() - 1;
    if hExp == 0 {
      if hMant == 0 {
        fExp := 0;
      } else {
        var shift;
        hMant, shift := Normalize(hMant);
        fExp := fExp - (shift - 1);
      }
    }
  }

  lemma HalfFields(k: nat)
    requires k < 0x8000
    ensures k / 1024 % 32 == k / 1024 <= 31 && (k / 1024 == 31 <==> k >= INFINITY)
    ensures (k / 1024 == 0 <==> k < 1024) && (k < 1024 ==> k % 1024 == k)
  {
  }

  lemma FloatBounds()
    ensures FLOAT.Valid() && FLOAT.MaxExp() == 128 && Pow2(FLOAT.w) == 256
  {
    assert Pow2(7) == 128;
  }

  /** The loop that makes the leading bit of a subnormal implicit (cl_half.h:415-421). */
  method Normalize(hMant0: nat) returns (hMant: nat, shift: nat)
    requires 0 < hMant0 < 1024
    ensures hMant < 1024 && 1 <= shift <= 10
    ensures hMant + 1024 == ShiftLeft(hMant0, shift)
  {
    hMant, shift := hMant0, 0;
    while hMant / 1024 % 2 == 0
      invariant 0 < hMant < 2048 && hMant == ShiftLeft(hMant0, shift)
      invariant shift <= 10 && Pow2(shift) <= hMant
      decreases 2048 - hMant
    {
      hMant := hMant * 2;
      shift := shift + 1;
      assert Pow2(10) == 1024;
      if shift > 10 { Pow2Mono(11, shift); }
    }
    hMant := hMant - 1024;
  }

  /** Sign, exponent and mantissa or-ed together (cl_half.h:426). */
  function Joined(f: Format, sign: nat, e: nat, m: nat): nat
    requires f.p > 0
  {
    ShiftLeft(sign, f.p + f.w - 1) + ShiftLeft(e, f.p - 1) + m
  }

  lemma JoinedFields(f: Format, sign: nat, e: nat, m: nat)
    requires f.Valid() && sign <= 1 && e < Pow2(f.w) && m < Pow2(f.p - 1)
    ensures var i := Joined(f, sign, e, m);
      IsEncoding(f, i) && SignOf(f, i) == sign && ExpOf(f, i) == e && MantOf(f, i) == m
  {
    var i, top, p, w := Joined(f, sign, e, m), ShiftLeft(sign, f.w) + e, f.p - 1, f.w;
    assert Pow2(1) == 2;
    ShiftLeftTwice(sign, w, p);
    ShiftLeftSum(ShiftLeft(sign, w), e, p);
    ShiftJoin(top, m, p);
    ShiftJoin(sign, e, w);
    ShiftRightTwice(i, p, w);
    ShiftLeftBelow(sign, w, 1);
    ShiftLeftBelow(top, p, w + 1);
  }

  /** The mantissa of `FLOAT` that a ten-bit mantissa is moved to. */
  lemma Widened(f: Format, m: nat)
    requires f.Valid() && m < 1024
    ensures ShiftLeft(m, f.p - 11) < Pow2(f.p - 1)
  {
    assert Pow2(10) == 1024;
    ShiftLeftBelow(m, f.p - 11, 10);
  }

  /** The widened fields have the half's magnitude. */
  lemma WidenedMagnitude(f: Format, k: nat, e: nat, m: nat)
    requires f.Valid() && f.MaxExp() >= 32 && k < INFINITY && Widens(f, k, e, m)
    ensures FieldMagnitude(f, e, ShiftLeft(m, f.p - 11)) == Mag(k)
  {
    var s := f.p - 11;
    if k == 0 {
      ShiftLeftSum(0, 0, s);
    } else {
      assert Pow2(10) == 1024;
      ShiftLeftPow2(10, s);
      ShiftLeftSum(m, 1024, s);
      TimesShift(m + 1024, s, e - (f.MaxExp() - 1) - (f.p - 1));
      if k < 1024 {
        TimesShift(k, f.MaxExp() - 15 - e, e - f.MaxExp() - 9);
      }
    }
  }

  // ---------- what correct rounding brings ----------

  /** No half lies between two neighbours, and of two neighbours one is odd. */
  lemma NearestOrdered(x: real, y: real, j: nat, k: nat)
    requires 0.0 <= x <= y && NearestEven(x, j) && NearestEven(y, k)
    ensures j <= k
  {
    if k < j && y < 65520.0 {
      MagMono(k, j);
      assert x == y;
      MagMono(k, k + 1);
      MagMono(k + 1, j);
    }
  }

  /** In each mode and for each sign, a larger magnitude never rounds to a smaller one. */
  lemma RoundsOrdered(x: real, y: real, sign: nat, mode: Mode, j: nat, k: nat)
    requires 0.0 <= x <= y && Rounds(x, sign, mode, j) && Rounds(y, sign, mode, k)
    ensures j <= k
  {
    if mode.RTE? { NearestOrdered(x, y, j, k); }
  }

  /** The correctly rounded half is unique. */
  lemma RoundingUnique(x: real, sign: nat, mode: Mode, h: nat, h': nat)
    requires x >= 0.0 && CorrectlyRounded(x, sign, mode, h) && CorrectlyRounded(x, sign, mode, h')
    ensures h == h'
  {
    RoundsOrdered(x, x, sign, mode, h % 0x8000, h' % 0x8000);
    RoundsOrdered(x, x, sign, mode, h' % 0x8000, h % 0x8000);
  }

  /** The place of a half that is not NaN on the real line; both zeros are at 0. */
  function Place(h: nat): int {
    if h / 0x8000 == 0 then h % 0x8000 else -(h % 0x8000)
  }

  ghost function Signed(sign: nat, x: real): real {
    if sign == 0 then x else -x
  }

  /** Narrowing is monotone. */
  lemma NarrowingMonotone(s: nat, x: real, h: nat, s': nat, x': real, h': nat, mode: Mode)
    requires s <= 1 && s' <= 1 && x >= 0.0 && x' >= 0.0 && Signed(s, x) <= Signed(s', x')
    requires CorrectlyRounded(x, s, mode, h) && CorrectlyRounded(x', s', mode, h')
    ensures Place(h) <= Place(h')
  {
    if s == s' == 0 {
      RoundsOrdered(x, x', s, mode, h % 0x8000, h' % 0x8000);
    } else if s == s' {
      RoundsOrdered(x', x, s, mode, h' % 0x8000, h % 0x8000);
    } else if s == 0 {
      ZeroRounds(s, mode);
      ZeroRounds(s', mode);
      RoundingUnique(x, s, mode, h, 0);
      RoundingUnique(x', s', mode, h', 0x8000);
    }
  }

  /** The number encoded by `i` is at most that encoded by `j`, infinities included. A NaN has no order. */
  ghost predicate NotAbove(f: Format, i: nat, j: nat)
    requires f.Valid()
  {
    if IsFinite(f, i) && IsFinite(f, j) then
      Signed(SignOf(f, i), Magnitude(f, i)) <= Signed(SignOf(f, j), Magnitude(f, j))
    else
      && (IsFinite(f, i) || MantOf(f, i) == 0) && (IsFinite(f, j) || MantOf(f, j) == 0)
      && ((!IsFinite(f, i) && SignOf(f, i) != 0) || (!IsFinite(f, j) && SignOf(f, j) == 0))
  }

  /** The conversion keeps the order of all numbers of a format. */
  method NarrowInOrder(f: Format, i: nat, j: nat, mode: Mode) returns (h: nat, h': nat)
    requires IsEncoding(f, i) && IsEncoding(f, j)
    ensures NotAbove(f, i, j) ==> Place(h) <= Place(h')
  {
    h := FromFloat(f, i, mode);
    h' := FromFloat(f, j, mode);
    FieldBounds(f, i);
    FieldBounds(f, j);
    if NotAbove(f, i, j) && IsFinite(f, i) && IsFinite(f, j) {
      MagnitudeNonNegative(f, i);
      MagnitudeNonNegative(f, j);
      NarrowingMonotone(SignOf(f, i), Magnitude(f, i), h, SignOf(f, j), Magnitude(f, j), h', mode);
    }
  }

  /** Toward negative, to nearest, toward positive: in this order. */
  lemma ModesOrdered(s: nat, x: real, down: nat, near: nat, up: nat)
    requires s <= 1 && x >= 0.0
    requires CorrectlyRounded(x, s, RTN, down) && CorrectlyRounded(x, s, RTE, near) && CorrectlyRounded(x, s, RTP, up)
    ensures Place(down) <= Place(near) <= Place(up)
  {
    var lo, hi := if s == 0 then down else up, if s == 0 then up else down;
    NearestBetween(x, lo % 0x8000, near % 0x8000, hi % 0x8000);
  }

  lemma NearestBetween(x: real, lo: nat, k: nat, hi: nat)
    requires x >= 0.0 && TowardZero(x, lo) && NearestEven(x, k) && AwayFromZero(x, hi)
    ensures lo <= k <= hi
  {
    MagEnds();
    if k < lo {
      MagMono(k, lo);
    }
    if hi < k {
      MagMono(hi, MAX_FINITE);
      MagMono(hi, k);
    }
  }

  /** A half's own value is rounded to that half. */
  lemma ExactRounds(k: nat, sign: nat, mode: Mode)
    requires k <= MAX_FINITE
    ensures Rounds(Mag(k), sign, mode, k)
  {
    MagMono(0, k);
    MagMono(k, k + 1);
    MagEnds();
    MagMono(k, MAX_FINITE);
    DirectedOk(Mag(k), k);
    NearestOk(Mag(k), k, false);
  }

  /** Widening a half and narrowing it again gives it back; a NaN comes back silenced. */
  method RoundTrip(h: nat, mode: Mode) returns (h': nat)
    requires h < 0x10000
    ensures h % 0x8000 <= INFINITY ==> h' == h
    ensures h % 0x8000 > INFINITY ==> h' == h / 0x8000 * 0x8000 + INFINITY + Quiet(h % 1024)
  {
    var i := ToFloat(h);
    h' := FromFloat(FLOAT, i, mode);
    TripOk(FLOAT, mode, i, h, h');
  }

  lemma TripOk(f: Format, mode: Mode, i: nat, h: nat, h': nat)
    requires f.Valid() && h < 0x10000 && EncodesHalf(f, i, h / 0x8000, h % 0x8000)
    requires IsFinite(f, i) ==> CorrectlyRounded(Magnitude(f, i), SignOf(f, i), mode, h')
    requires !IsFinite(f, i) ==> h' == SpecialHalf(f, SignOf(f, i), MantOf(f, i))
    ensures h' == if h % 0x8000 <= INFINITY then h else h / 0x8000 * 0x8000 + INFINITY + Quiet(h % 1024)
  {
    var s, k := h / 0x8000, h % 0x8000;
    assert k % 1024 == h % 1024;
    if k < INFINITY {
      ExactRounds(k, s, mode);
      MagnitudeNonNegative(f, i);
      RoundingUnique(Magnitude(f, i), s, mode, h, h');
    } else {
      SpecialTrip(f, i, s, k);
    }
  }

  lemma SpecialTrip(f: Format, i: nat, s: nat, k: nat)
    requires EncodesHalf(f, i, s, k) && INFINITY <= k < 0x8000
    ensures SpecialHalf(f, s, MantOf(f, i)) == s * 0x8000 + INFINITY + if k == INFINITY then 0 else Quiet(k % 1024)
  {
    assert k == INFINITY <==> k % 1024 == 0;
    if k != INFINITY {
      NaNTrip(f, Quiet(k % 1024));
    }
  }

  lemma NaNTrip(f: Format, q: nat)
    requires f.Valid() && q / 0x200 % 2 == 1
    ensures ShiftLeft(q, f.p - 11) != 0 && Quiet(ShiftRight(ShiftLeft(q, f.p - 11), f.p - 11)) == q
  {
    ShiftJoin(q, 0, f.p - 11);
    ShiftRightBelow(0, f.p - 11, 0);
  }

  /** The double `d` is what widening the float `i` gives: the same sign and value, or the same special with
      its payload moved to the top. */
  ghost predicate SameDatum(i: nat, d: nat) {
    && SignOf(FLOAT, i) == SignOf(DOUBLE, d) && (IsFinite(FLOAT, i) <==> IsFinite(DOUBLE, d))
    && if IsFinite(FLOAT, i) then Magnitude(FLOAT, i) == Magnitude(DOUBLE, d)
       else MantOf(DOUBLE, d) == ShiftLeft(MantOf(FLOAT, i), DOUBLE.p - FLOAT.p)
  }

  /** A float and the double it widens to narrow to the same half, in every mode. */
  method NarrowBoth(i: nat, d: nat, mode: Mode) returns (h: nat, h': nat)
    requires IsEncoding(FLOAT, i) && IsEncoding(DOUBLE, d)
    ensures SameDatum(i, d) ==> h == h'
  {
    h := FromFloat(FLOAT, i, mode);
    h' := FromFloat(DOUBLE, d, mode);
    if SameDatum(i, d) {
      if IsFinite(FLOAT, i) {
        MagnitudeNonNegative(FLOAT, i);
        RoundingUnique(Magnitude(FLOAT, i), SignOf(FLOAT, i), mode, h, h');
      } else {
        SamePayload(SignOf(FLOAT, i), MantOf(FLOAT, i));
      }
    }
  }

  lemma SamePayload(sign: nat, m: nat)
    ensures SpecialHalf(DOUBLE, sign, ShiftLeft(m, DOUBLE.p - FLOAT.p)) == SpecialHalf(FLOAT, sign, m)
  {
    var wide := ShiftLeft(m, DOUBLE.p - FLOAT.p);
    ShiftJoin(m, 0, DOUBLE.p - FLOAT.p);
    ShiftJoin(0, 0, DOUBLE.p - FLOAT.p);
    ShiftLeftSum(0, 0, DOUBLE.p - FLOAT.p);
    ShiftRightTwice(wide, DOUBLE.p - FLOAT.p, FLOAT.p - 11);
  }

  lemma MagnitudeNonNegative(f: Format, i: nat)
    requires f.Valid()
    ensures Magnitude(f, i) >= 0.0
  {
    var e, m, s := ExpOf(f, i), MantOf(f, i), f.MaxExp() - 1 + f.p - 1;
    Exp2Positive(1 - s);
    Exp2Positive(e - s);
    TimesNonNegative(m, Exp2(1 - s));
    TimesNonNegative(m + Pow2(f.p - 1), Exp2(e - s));
  }
}
