/** `trunc`, `floor`, `ceil` and `round` on the bits of 64-bit IEEE 754 numbers. */
module Float64 {
  import opened Bytes

  function Pow2(n: nat): (r: nat)
    ensures r > 0
  {
    if n == 0 then 1 else 2 * Pow2(n - 1)
  }

  lemma {:induction false} Pow2Add(a: nat, b: nat)
    ensures Pow2(a + b) == Pow2(a) * Pow2(b)
    decreases a
  {
    if a > 0 {
      Pow2Add(a - 1, b);
      assert 2 * (Pow2(a - 1) * Pow2(b)) == (2 * Pow2(a - 1)) * Pow2(b);
    }
  }

  const MANTISSA: nat := 0x10_0000_0000_0000
  const EXPONENT: nat := 0x800
  const SPECIAL: nat := 0x7FF
  const BIAS: nat := 1023

  lemma MantissaIsPow2()
    ensures Pow2(52) == MANTISSA
  {
    assert Pow2(2) == 4 && Pow2(10) == 1024;
    hide Pow2;
    Pow2Add(10, 10);
    Pow2Add(20, 20);
    Pow2Add(40, 10);
    Pow2Add(50, 2);
  }

  // ----- the bits -----

  /** Sign, biased exponent and mantissa of a 64-bit word. */
  datatype Double = Double(negative: bool, exponent: nat, mantissa: nat)

  predicate IsDouble(d: Double) { d.exponent < EXPONENT && d.mantissa < MANTISSA }

  predicate Finite(d: Double) { IsDouble(d) && d.exponent != SPECIAL }

  function Split(bits: nat): (d: Double)
    requires bits < 0x1_0000_0000_0000_0000
  {
    Double(bits / 0x8000_0000_0000_0000 == 1, bits / MANTISSA % EXPONENT, bits % MANTISSA)
  }

  function Join(d: Double): nat {
    (if d.negative then 0x8000_0000_0000_0000 else 0) + d.exponent * MANTISSA + d.mantissa
  }

  lemma SplitJoin(bits: nat)
    requires bits < 0x1_0000_0000_0000_0000
    ensures IsDouble(Split(bits)) && Join(Split(bits)) == bits
  {
  }

  lemma JoinSplit(d: Double)
    requires IsDouble(d)
    ensures Join(d) < 0x1_0000_0000_0000_0000 && Split(Join(d)) == d
  {
    var bits := Join(d);
    DivMod(bits, MANTISSA, (if d.negative then EXPONENT else 0) + d.exponent, d.mantissa);
  }

  // ----- the number, in units of 2^-1074 -----

  function Significand(d: Double): nat {
    if d.exponent == 0 then d.mantissa else MANTISSA + d.mantissa
  }

  function Shift(d: Double): nat { if d.exponent == 0 then 0 else d.exponent - 1 }

  /** The magnitude of a finite number; 1 is `Pow2(1074)`. */
  function Magnitude(d: Double): nat { Significand(d) * Pow2(Shift(d)) }

  function Value(d: Double): int { if d.negative then 0 - Magnitude(d) else Magnitude(d) }

  function One(): (u: nat)
    ensures u > 0
  {
    Pow2(1074)
  }

  // ----- trunc -----

  /** The code's masking: nothing when no fraction bits are left, only the sign below 1. */
  function Trunc(d: Double): Double
    requires IsDouble(d)
  {
    if d.exponent == SPECIAL then d
    else if d.exponent >= BIAS + 52 then d
    else if d.exponent < BIAS then Double(d.negative, 0, 0)
    else d.(mantissa := Masked(d.mantissa, BIAS + 52 - d.exponent))
  }

  function LowBits(m: nat, p: nat): (r: nat)
    requires p > 0
    ensures r < p && r <= m
  {
    DivisionOf(m, p);
    m % p
  }

  lemma DivisionOf(m: nat, p: nat)
    requires p > 0
    ensures m == m / p * p + m % p && m / p >= 0 && m / p * p >= 0
  {
    MulLe(0, m / p, p);
  }

  /** `m & ~((1 << n) - 1)`. */
  function Masked(m: nat, n: nat): (r: nat)
    ensures r <= m
  {
    m - LowBits(m, Pow2(n))
  }

  lemma MaskedTwice(m: nat, n: nat)
    ensures Masked(Masked(m, n), n) == Masked(m, n)
  {
    hide Pow2;
    var p := Pow2(n);
    DivisionOf(m, p);
    DivMod(m / p * p, p, m / p, 0);
  }

  // ----- products -----

  lemma Distribute(q: nat, p: nat, r: nat, s: nat)
    ensures (q * p + r) * s == q * (p * s) + r * s
  {
    assert (q * p) * s == q * (p * s);
  }

  lemma MulLt(r: nat, p: nat, s: nat)
    requires r < p && s > 0
    ensures 0 <= r * s < p * s
  {
    MulLe(r + 1, p, s);
    assert (r + 1) * s == r * s + s;
    MulLe(0, r, s);
  }

  /** Adding the hidden bit, a multiple of `p`, leaves the fraction bits alone. */
  lemma UpperBits(m: nat, p: nat, k: nat)
    requires p > 0
    ensures LowBits(p * k + m, p) == LowBits(m, p) && p * k + (m - LowBits(m, p)) == (p * k + m) / p * p
  {
    var q, r := m / p, m % p;
    DivisionOf(m, p);
    assert p * k == k * p && (k + q) * p == k * p + q * p;
    DivMod(p * k + m, p, k + q, r);
  }

  /** Scaling a number by `s` and its unit with it leaves the quotient. */
  lemma ScaledQuotient(f: nat, p: nat, s: nat)
    requires p > 0 && s > 0
    ensures p * s > 0 && f * s / (p * s) == f / p && f * s == f / p * (p * s) + LowBits(f, p) * s
    ensures 0 <= LowBits(f, p) * s < p * s
  {
    var q, r := f / p, LowBits(f, p);
    DivisionOf(f, p);
    Distribute(q, p, r, s);
    MulLt(r, p, s);
    DivMod(f * s, p * s, q, r * s);
  }

  // ----- trunc rounds toward zero -----

  /** Below 2^52, the unit is `Pow2(n)` times the weight of the lowest bit. */
  lemma UnitSplits(d: Double, n: nat)
    requires IsDouble(d) && BIAS <= d.exponent < BIAS + 52 && n == BIAS + 52 - d.exponent
    ensures One() == Pow2(n) * Pow2(Shift(d)) && MANTISSA == Pow2(n) * Pow2(52 - n)
  {
    Pow2Add(n, Shift(d));
    Pow2Add(n, 52 - n);
    MantissaIsPow2();
  }

  lemma SignificandMasked(d: Double, n: nat)
    requires IsDouble(d) && BIAS <= d.exponent < BIAS + 52 && n == BIAS + 52 - d.exponent
    ensures Significand(Trunc(d)) == Significand(d) / Pow2(n) * Pow2(n)
    ensures Shift(Trunc(d)) == Shift(d) && Finite(Trunc(d))
  {
    UnitSplits(d, n);
    hide Pow2, LowBits, One;
    UpperBits(d.mantissa, Pow2(n), Pow2(52 - n));
  }

  lemma IntegerPart(d: Double, n: nat)
    requires IsDouble(d) && BIAS <= d.exponent < BIAS + 52 && n == BIAS + 52 - d.exponent
    ensures Magnitude(d) / One() == Significand(d) / Pow2(n)
    ensures Magnitude(Trunc(d)) == Significand(d) / Pow2(n) * One()
    ensures Magnitude(d) == Magnitude(Trunc(d)) + LowBits(Significand(d), Pow2(n)) * Pow2(Shift(d))
    ensures 0 <= LowBits(Significand(d), Pow2(n)) * Pow2(Shift(d)) < One()
  {
    UnitSplits(d, n);
    SignificandMasked(d, n);
    hide Pow2, LowBits, One, Significand, Shift, Trunc;
    ScaledQuotient(Significand(d), Pow2(n), Pow2(Shift(d)));
    Distribute(Significand(d) / Pow2(n), Pow2(n), 0, Pow2(Shift(d)));
  }

  /** From 2^52 on there are no fraction bits. */
  lemma Whole(d: Double)
    requires Finite(d) && d.exponent >= BIAS + 52
    ensures Magnitude(d) / One() * One() == Magnitude(d)
  {
    var k := Shift(d) - 1074;
    Pow2Add(k, 1074);
    hide Pow2;
    var u, f := One(), Significand(d);
    assert f * (Pow2(k) * u) == (f * Pow2(k)) * u;
    hide Significand;
    DivMod(Magnitude(d), u, f * Pow2(k), 0);
  }

  lemma Small(d: Double)
    requires Finite(d) && d.exponent < BIAS
    ensures Magnitude(d) < One()
  {
    var s := Shift(d);
    SmallUnit(s);
    hide Pow2, One;
    MulLt(Significand(d), 2 * MANTISSA, Pow2(s));
  }

  lemma SmallUnit(s: nat)
    requires s <= 1021
    ensures 2 * MANTISSA * Pow2(s) <= One()
  {
    hide Pow2, One;
    DoubleMantissa();
    UnitIs();
    Pow2Add(53, s);
    var w, r := Pow2(53 + s), Pow2(1021 - s);
    Pow2Add(1021 - s, 53 + s);
    assert One() == r * w;
    MulLe(1, r, w);
  }

  lemma DoubleMantissa()
    ensures Pow2(53) == 2 * MANTISSA
  {
    MantissaIsPow2();
  }

  /** Masking rounds toward zero, exactly. */
  lemma TruncIsTowardZero(d: Double)
    requires Finite(d)
    ensures Finite(Trunc(d)) && Trunc(d).negative == d.negative
    ensures Magnitude(Trunc(d)) == Magnitude(d) / One() * One()
  {
    hide Magnitude, One, Masked;
    if d.exponent >= BIAS + 52 {
      Whole(d);
    } else if d.exponent < BIAS {
      Small(d);
      ZeroMagnitude(d.negative);
      DivMod(Magnitude(d), One(), 0, Magnitude(d));
    } else {
      IntegerPart(d, BIAS + 52 - d.exponent);
    }
  }

  lemma ZeroMagnitude(negative: bool)
    ensures Magnitude(Double(negative, 0, 0)) == 0
  {
  }

  /** Truncating again changes nothing, bit for bit. */
  lemma TruncIsIdempotent(d: Double)
    requires IsDouble(d)
    ensures IsDouble(Trunc(d)) && Trunc(Trunc(d)) == Trunc(d)
  {
    hide Masked;
    if BIAS <= d.exponent < BIAS + 52 { MaskedTwice(d.mantissa, BIAS + 52 - d.exponent); }
  }

  // ----- sums and differences that are exact -----

  /** The number `k * 2^j` units, normalised. */
  function Encode(negative: bool, k: nat, j: nat): Double
    requires k < 2 * MANTISSA
    decreases j
  {
    if k < MANTISSA && j > 0 then Encode(negative, 2 * k, j - 1)
    else if k < MANTISSA then Double(negative, 0, k)
    else Double(negative, j + 1, k - MANTISSA)
  }

  /** Every such number is representable. */
  lemma {:induction false} EncodeIsExact(negative: bool, k: nat, j: nat)
    requires k < 2 * MANTISSA && j <= 2045
    ensures var d := Encode(negative, k, j); Finite(d) && d.negative == negative && Magnitude(d) == k * Pow2(j)
    decreases j
  {
    if k < MANTISSA && j > 0 {
      EncodeIsExact(negative, 2 * k, j - 1);
      assert Pow2(j) == 2 * Pow2(j - 1);
      assert (2 * k) * Pow2(j - 1) == k * (2 * Pow2(j - 1));
    }
  }

  /** The whole units in a number. */
  function Units(d: Double): (q: nat)
    ensures q == Magnitude(d) / One()
  {
    hide Magnitude, One;
    DivisionOf(Magnitude(d), One());
    Magnitude(d) / One()
  }

  /** The integer after `t`, away from zero: `t + 1.0` or `t - 1.0`. */
  function Away(t: Double): Double
    requires Units(t) < MANTISSA
  {
    Encode(t.negative, Units(t) + 1, 1074)
  }

  /** Below 2^52 that sum is exact. */
  lemma AwayIsExact(t: Double, q: nat)
    requires Magnitude(t) == q * One() && q < MANTISSA
    ensures Units(t) == q
    ensures Finite(Away(t)) && Away(t).negative == t.negative && Magnitude(Away(t)) == Magnitude(t) + One()
  {
    hide Pow2, Magnitude, Encode, One;
    DivMod(Magnitude(t), One(), q, 0);
    EncodeIsExact(t.negative, q + 1, 1074);
    MulStep(q + 1, One());
    UnitIs();
  }

  lemma UnitIs()
    ensures One() == Pow2(1074)
  {
  }

  /** So is the difference between a number and its integer part. */
  lemma FractionIsExact(d: Double)
    requires Finite(d)
    ensures exists x :: Finite(x) && Value(x) == Value(d) - Value(Trunc(d))
  {
    TruncIsTowardZero(d);
    if d.exponent >= BIAS + 52 {
      ZeroMagnitude(false);
      assert Finite(Double(false, 0, 0)) && Value(Double(false, 0, 0)) == 0;
    } else if d.exponent < BIAS {
      ZeroMagnitude(d.negative);
      assert Finite(d) && Value(d) == Value(d) - Value(Trunc(d));
    } else {
      var n := BIAS + 52 - d.exponent;
      IntegerPart(d, n);
      FractionFits(d, n);
      EncodeIsExact(d.negative, LowBits(Significand(d), Pow2(n)), Shift(d));
      hide Pow2, Magnitude, LowBits, Encode, Trunc, One;
      assert Value(Encode(d.negative, LowBits(Significand(d), Pow2(n)), Shift(d))) == Value(d) - Value(Trunc(d));
    }
  }

  lemma FractionFits(d: Double, n: nat)
    requires IsDouble(d)
    ensures LowBits(Significand(d), Pow2(n)) < 2 * MANTISSA
  {
  }

  // ----- floor, ceil, round -----

  /** A number with a fraction is below 2^52. */
  lemma FractionIsSmall(d: Double)
    requires Finite(d) && Magnitude(Trunc(d)) != Magnitude(d)
    ensures Units(d) < MANTISSA
  {
    if d.exponent < BIAS {
      Small(d);
      hide Magnitude, One;
      DivMod(Magnitude(d), One(), 0, Magnitude(d));
    } else {
      var n := BIAS + 52 - d.exponent;
      IntegerPart(d, n);
      assert Pow2(n) == 2 * Pow2(n - 1);
      hide Magnitude, One;
      HalfAtLeast(Significand(d), Pow2(n));
    }
  }

  lemma HalfAtLeast(f: nat, p: nat)
    requires f < 2 * MANTISSA && p >= 2
    ensures f / p < MANTISSA
  {
    DivisionOf(f, p);
    if f / p >= MANTISSA { MulLe(MANTISSA, f / p, p); MulLe(2, p, MANTISSA); }
  }

  function Floor(x: Double): Double
    requires Finite(x)
  {
    var t := Trunc(x);
    if Value(x) < Value(t) then MovedAway(x); Away(t) else t
  }

  function Ceil(x: Double): Double
    requires Finite(x)
  {
    var t := Trunc(x);
    if Value(x) > Value(t) then MovedAway(x); Away(t) else t
  }

  function Round(x: Double): Double
    requires Finite(x)
  {
    var t := Trunc(x);
    if 2 * (Value(x) - Value(t)) >= One() then MovedAway(x); Away(t)
    else if 2 * (Value(x) - Value(t)) <= -1 * One() then MovedAway(x); Away(t)
    else t
  }

  /** What `Away` needs, and what it gives, when a number has a fraction. */
  lemma MovedAway(x: Double)
    requires Finite(x)
    ensures Value(Trunc(x)) != Value(x) ==>
      && Units(Trunc(x)) < MANTISSA && Finite(Away(Trunc(x)))
      && Away(Trunc(x)).negative == x.negative && Magnitude(Away(Trunc(x))) == (Units(x) + 1) * One()
  {
    hide Magnitude, One, Trunc, Away, Units;
    TruncIsTowardZero(x);
    if Value(Trunc(x)) != Value(x) {
      FractionIsSmall(x);
      AwayIsExact(Trunc(x), Units(x));
      MulStep(Units(x) + 1, One());
    }
  }

  /** `floor` is the largest integer not above the number. */
  lemma FloorIsExact(x: Double)
    requires Finite(x)
    ensures Finite(Floor(x)) && Value(Floor(x)) == Value(x) / One() * One()
  {
    TruncIsTowardZero(x);
    MovedAway(x);
    hide Magnitude, One, Trunc, Away, Units;
    FloorOfSigned(Magnitude(x), One());
  }

  /** Flooring and ceiling quotients of a number and its negation. */
  lemma FloorOfSigned(m: nat, u: nat)
    requires u > 0
    ensures m / u * u <= m < m / u * u + u && (m / u + 1) * u == m / u * u + u
    ensures (-1 * m) / u * u == if m / u * u == m then -1 * m else -1 * ((m / u + 1) * u)
  {
    DivisionOf(m, u);
    var q, r := m / u, m % u;
    assert (q + 1) * u == q * u + u;
    if r == 0 {
      assert (-1 * q) * u == -1 * (q * u);
      DivMod(-1 * m, u, -1 * q, 0);
    } else {
      assert (-1 * (q + 1)) * u == -1 * ((q + 1) * u);
      DivMod(-1 * m, u, -1 * (q + 1), u - r);
    }
  }

  /** `ceil` is the smallest integer not below the number. */
  lemma CeilIsExact(x: Double)
    requires Finite(x)
    ensures Finite(Ceil(x)) && Value(Ceil(x)) == -1 * ((-1 * Value(x)) / One() * One())
  {
    TruncIsTowardZero(x);
    MovedAway(x);
    hide Magnitude, One, Trunc, Away, Units;
    FloorOfSigned(Magnitude(x), One());
  }

  /** `round` is the nearest integer, halves away from zero. */
  lemma RoundIsExact(x: Double)
    requires Finite(x)
    ensures Finite(Round(x)) && Round(x).negative == x.negative
    ensures Magnitude(Round(x)) == (2 * Magnitude(x) + One()) / (2 * One()) * One()
  {
    TruncIsTowardZero(x);
    MovedAway(x);
    hide Magnitude, One, Trunc, Away, Units;
    HalfUp(Magnitude(x), One());
    FloorOfSigned(Magnitude(x), One());
  }

  lemma HalfUp(m: nat, u: nat)
    requires u > 0
    ensures (2 * m + u) / (2 * u) == if 2 * (m - m / u * u) >= u then m / u + 1 else m / u
  {
    DivisionOf(m, u);
    var q, r := m / u, m % u;
    assert (2 * u) * q == 2 * (q * u) && (q + 1) * (2 * u) == 2 * (q * u) + 2 * u && q * (2 * u) == 2 * (q * u);
    if 2 * r >= u {
      DivMod(2 * m + u, 2 * u, q + 1, 2 * r - u);
    } else {
      DivMod(2 * m + u, 2 * u, q, 2 * r + u);
    }
  }
}
