/** IEEE-754 binary64 values (Rust's `f64`), kept as their bit pattern, and
    the one operation the decoder applies to them: the saturating `as u8`
    cast. No floating-point arithmetic is modelled. */
module Floats {
  import opened Strings

  /** An `f64`, as the 64-bit pattern of sign, 11-bit biased exponent and
      52-bit fraction. */
  datatype Float = Float(bits: u64)

  const FractionBound: nat := 0x10_0000_0000_0000   // 2^52
  const SignBound: nat := 0x8000_0000_0000_0000     // 2^63
  const ExponentBias: nat := 1023
  const MaxExponent: nat := 2047

  function Pow2(n: nat): (p: nat)
    ensures p >= 1
  {
    if n == 0 then 1 else 2 * Pow2(n - 1)
  }

  lemma {:induction false} Pow2Monotone(a: nat, b: nat)
    requires a <= b
    ensures Pow2(a) <= Pow2(b)
    decreases b
  {
    if a < b {
      Pow2Monotone(a, b - 1);
    }
  }

  lemma {:induction false} Pow2Add(a: nat, b: nat)
    ensures Pow2(a + b) == Pow2(a) * Pow2(b)
    decreases b
  {
    if b > 0 {
      Pow2Add(a, b - 1);
    }
  }

  lemma Pow2Values()
    ensures Pow2(8) == 256
    ensures Pow2(52) == FractionBound
    ensures Pow2(53) == 2 * FractionBound
  {
    Pow2Byte();
    Pow2Add(8, 8);
    Pow2Add(16, 16);
    Pow2Add(32, 16);
    Pow2Add(48, 4);
  }

  lemma Pow2Byte()
    ensures Pow2(4) == 16 && Pow2(8) == 256
  {
    assert Pow2(2) == 4;
    Pow2Add(2, 2);
    Pow2Add(4, 4);
  }

  /** `m / d < c` over the reals when `m < c * d`. */
  lemma QuotientBelow(m: nat, d: nat, c: nat)
    requires d > 0 && m < c * d
    ensures (m as real) / (d as real) < c as real
  {
    assert (m as real) < (c as real) * (d as real);
  }

  /** `m / d >= c` over the reals when `m >= c * d`. */
  lemma QuotientAtLeast(m: nat, d: nat, c: nat)
    requires d > 0 && m >= c * d
    ensures (m as real) / (d as real) >= c as real
  {
    assert (m as real) >= (c as real) * (d as real);
  }

  function Negative(f: Float): bool {
    f.bits >= SignBound
  }

  function Exponent(f: Float): (e: nat)
    ensures e <= MaxExponent
  {
    (f.bits / FractionBound) % (MaxExponent + 1)
  }

  function Fraction(f: Float): (m: nat)
    ensures m < FractionBound
  {
    f.bits % FractionBound
  }

  predicate IsNaN(f: Float) {
    Exponent(f) == MaxExponent && Fraction(f) != 0
  }

  predicate IsInfinite(f: Float) {
    Exponent(f) == MaxExponent && Fraction(f) == 0
  }

  /** The significand with its hidden bit: `1.fraction` for normal numbers and
      `0.fraction` for subnormal ones, scaled by 2^52. */
  function Significand(f: Float): (m: nat)
    ensures m < 2 * FractionBound
  {
    if Exponent(f) == 0 then Fraction(f) else FractionBound + Fraction(f)
  }

  /** `m * 2^e` as a real. */
  function Scale(m: nat, e: int): real {
    if e >= 0 then (m * Pow2(e)) as real else (m as real) / (Pow2(-e) as real)
  }

  /** The absolute value of a finite float: `Significand * 2^(E - 1075)`,
      with `E` raised to 1 for subnormals. */
  function Magnitude(f: Float): real
    requires Exponent(f) < MaxExponent
  {
    var e := if Exponent(f) == 0 then 1 else Exponent(f);
    Scale(Significand(f), e - ExponentBias - 52)
  }

  /** The `as u8` cast: rounds toward zero and saturates, so NaN and every
      value below 1 give 0 and every value of 256 or more (infinity
      included) gives 255. */
  function F64ToU8(f: Float): (r: u8)
    ensures IsNaN(f) ==> r == 0
    ensures !IsNaN(f) && Negative(f) ==> r == 0
    ensures IsInfinite(f) && !Negative(f) ==> r == 255
    ensures Exponent(f) < MaxExponent && !Negative(f) && Magnitude(f) >= 256.0 ==> r == 255
    ensures Exponent(f) < MaxExponent && !Negative(f) && Magnitude(f) < 256.0 ==> r == Magnitude(f).Floor
  {
    var e := Exponent(f);
    if e == MaxExponent then
      if Fraction(f) != 0 || Negative(f) then 0 else 255
    else if Negative(f) then 0
    else if e < ExponentBias then
      SmallMagnitude(f);
      0
    else if e >= ExponentBias + 8 then
      LargeMagnitude(f);
      255
    else
      var k: nat := ExponentBias + 52 - e;
      MidMagnitude(f, k);
      Significand(f) / Pow2(k)
  }

  /** Below the bias the value is under 1. */
  lemma SmallMagnitude(f: Float)
    requires Exponent(f) < ExponentBias
    ensures 0.0 <= Magnitude(f) < 1.0
  {
    var e := if Exponent(f) == 0 then 1 else Exponent(f);
    var k: nat := ExponentBias + 52 - e;
    var m := Significand(f);
    Pow2Values();
    Pow2Monotone(53, k);
    assert Magnitude(f) == Scale(m, -(k as int));
    QuotientBelow(m, Pow2(k), 1);
  }

  /** From 8 above the bias on, the value is at least 256. */
  lemma LargeMagnitude(f: Float)
    requires ExponentBias + 8 <= Exponent(f) < MaxExponent
    ensures Magnitude(f) >= 256.0
  {
    var e := Exponent(f);
    var m := Significand(f);
    Pow2Values();
    if e >= ExponentBias + 52 {
      var s: nat := e - ExponentBias - 52;
      MulAtLeast(m, Pow2(s), 1);
      assert Magnitude(f) == (m * Pow2(s)) as real;
    } else {
      var k: nat := ExponentBias + 52 - e;
      Pow2Add(k, 52 - k);
      Pow2Monotone(8, 52 - k);
      MulAtLeast(Pow2(k), Pow2(52 - k), 256);
      assert Magnitude(f) == Scale(m, -(k as int));
      QuotientAtLeast(m, Pow2(k), 256);
    }
  }

  lemma MulAtLeast(x: nat, y: nat, z: nat)
    requires y >= z
    ensures x * y >= x * z
  {
  }

  /** In between, the value is the significand over `2^k`, below 256, and its
      integer part is the integer quotient. */
  lemma MidMagnitude(f: Float, k: nat)
    requires ExponentBias <= Exponent(f) < ExponentBias + 8
    requires k == ExponentBias + 52 - Exponent(f)
    ensures Magnitude(f) < 256.0
    ensures Significand(f) / Pow2(k) < 256
    ensures Magnitude(f).Floor == Significand(f) / Pow2(k)
  {
    var m := Significand(f);
    var d := Pow2(k);
    assert Magnitude(f) == Scale(m, -(k as int));
    Pow2Values();
    Pow2Add(k, 53 - k);
    Pow2Monotone(53 - k, 8);
    assert m < 256 * d;
    FloorOfQuotient(m, d);
  }

  lemma FloorOfQuotient(m: nat, d: nat)
    requires d > 0
    ensures ((m as real) / (d as real)).Floor == m / d
    ensures m < 256 * d ==> (m as real) / (d as real) < 256.0 && m / d < 256
  {
    var q := m / d;
    var r := m % d;
    assert m == q * d + r;
    var x := (m as real) / (d as real);
    assert x == (q as real) + (r as real) / (d as real);
    QuotientBelow(r, d, 1);
    if m < 256 * d {
      QuotientBelow(m, d, 256);
    }
  }

  /** The largest `e` with `2^e <= n`. */
  function Log2(n: nat): (e: nat)
    requires n >= 1
    ensures Pow2(e) <= n < Pow2(e + 1)
  {
    if n == 1 then 0 else 1 + Log2(n / 2)
  }

  /** The bit pattern of a positive integer `p` with `2^e <= p < 2^(e+1)`:
      exponent `1023 + e` and the bits of `p` below the leading one. */
  function SmallIntegerBits(p: nat, e: nat): nat
    requires e <= 52 && Pow2(e) <= p
  {
    (ExponentBias + e) * FractionBound + (p - Pow2(e)) * Pow2(52 - e)
  }

  lemma SmallIntegerPattern(p: nat, e: nat)
    requires 1 <= p < 256 && Pow2(e) <= p < Pow2(e + 1)
    ensures e < 8
    ensures SmallIntegerBits(p, e) < SignBound
    ensures Exponent(Float(SmallIntegerBits(p, e))) < MaxExponent
    ensures Magnitude(Float(SmallIntegerBits(p, e))) == p as real
  {
    Pow2Values();
    if e >= 8 {
      Pow2Monotone(8, e);
    }
    var k: nat := 52 - e;
    LowBitsFit(p, e, k);
    var fraction: nat := (p - Pow2(e)) * Pow2(k);
    FieldsOf(ExponentBias + e, fraction);
    var f := Float(SmallIntegerBits(p, e));
    assert Significand(f) == FractionBound + fraction;
    assert Significand(f) == p * Pow2(k);
    assert Magnitude(f) == Scale(p * Pow2(k), -(k as int));
    ScaleBack(p, Pow2(k));
  }

  /** The bits below the leading one, shifted into the fraction field. */
  lemma LowBitsFit(p: nat, e: nat, k: nat)
    requires Pow2(e) <= p < Pow2(e + 1) && e + k == 52
    ensures 0 <= (p - Pow2(e)) * Pow2(k) < FractionBound
    ensures FractionBound + (p - Pow2(e)) * Pow2(k) == p * Pow2(k)
  {
    Pow2Values();
    Pow2Add(e, k);
    var a, b := Pow2(e), Pow2(k);
    assert FractionBound == a * b;
    var low := p - a;
    assert low < a;
    MulMonotone(low, a, b);
    MulDistributes(a, low, b);
  }

  lemma MulMonotone(x: nat, y: nat, z: nat)
    requires x < y && z > 0
    ensures x * z < y * z
  {
  }

  lemma MulDistributes(x: nat, y: nat, z: nat)
    ensures (x + y) * z == x * z + y * z
  {
  }

  lemma ScaleBack(p: nat, d: nat)
    requires d > 0
    ensures ((p * d) as real) / (d as real) == p as real
  {
    assert ((p * d) as real) == (p as real) * (d as real);
  }

  /** `p as f64` for a `u8`: exact, as every such integer is representable. */
  function U8ToF64(p: u8): (f: Float)
    ensures Exponent(f) < MaxExponent && !Negative(f)
    ensures Magnitude(f) == p as real
  {
    if p == 0 then
      assert Magnitude(Float(0)) == Scale(0, 1 - ExponentBias - 52);
      Float(0)
    else
      SmallIntegerPattern(p, Log2(p));
      Float(SmallIntegerBits(p, Log2(p)))
  }

  /** The exponent and fraction fields of a non-negative finite pattern. */
  lemma FieldsOf(e: nat, fraction: nat)
    requires 1 <= e < MaxExponent && fraction < FractionBound
    ensures (e * FractionBound + fraction) < SignBound
    ensures Exponent(Float(e * FractionBound + fraction)) == e
    ensures Fraction(Float(e * FractionBound + fraction)) == fraction
  {
    var bits := e * FractionBound + fraction;
    assert bits < 2047 * FractionBound + FractionBound;
    assert bits / FractionBound == e;
    assert bits % FractionBound == fraction;
  }

  /** Casting a `u8` to `f64` and back gives it unchanged. */
  lemma CastRoundTrip(p: u8)
    ensures F64ToU8(U8ToF64(p)) == p
  {
  }
}
