/** Widening to the 80-bit floats of the x87 stack (internal/cpu/x87.go), proved
    exact.  Numbers are compared as reals: significand times a power of two. */
module Ext80 {
  import opened Words

  type I64 = x: int | -0x8000_0000_0000_0000 <= x < 0x8000_0000_0000_0000

  type U16 = x: nat | x < 0x1_0000

  datatype Ext = Ext(significand: U64, signExponent: U16)

  // ---- bits ------------------------------------------------------------------

  function Pow2(n: nat): nat {
    if n == 0 then 1 else 2 * Pow2(n - 1)
  }

  /** bits.Len64. */
  function Len64(x: nat): (n: nat)
    ensures x < Pow2(n)
    ensures x > 0 ==> n > 0 && Pow2(n - 1) <= x
  {
    if x == 0 then 0 else 1 + Len64(x / 2)
  }

  lemma {:induction false} Pow2Less(m: nat, n: nat)
    requires m <= n
    ensures Pow2(m) <= Pow2(n)
    decreases n
  {
    if m < n {
      Pow2Less(m, n - 1);
    }
  }

  lemma {:induction false} Pow2Sum(m: nat, n: nat)
    ensures Pow2(m + n) == Pow2(m) * Pow2(n)
    decreases m
  {
    if m > 0 {
      Pow2Sum(m - 1, n);
      assert Pow2(m + n) == 2 * Pow2(m - 1 + n);
    }
  }

  lemma Pow2Values()
    ensures Pow2(11) == 0x800 && Pow2(52) == 0x10_0000_0000_0000 && Pow2(63) == 0x8000_0000_0000_0000
    ensures Pow2(64) == 0x1_0000_0000_0000_0000
  {
    assert Pow2(11) == 0x800;
    Pow2Sum(11, 11); Pow2Sum(22, 11); Pow2Sum(33, 11); Pow2Sum(44, 8); Pow2Sum(52, 11);
    assert Pow2(8) == 0x100;
  }

  /** A value of `len` bits moved up to fill the word: its top bit ends at bit 63. */
  lemma Normalise(x: U64, len: nat)
    requires x > 0 && len == Len64(x)
    ensures 1 <= len <= 64
    ensures Pow2(63) <= Shifted(x, 64 - len) < Pow2(64)
  {
    if len > 64 {
      Pow2Less(64, len - 1);
      Pow2Values();
      assert false;
    }
    Pow2Sum(len - 1, 64 - len);
    Pow2Sum(len, 64 - len);
    Times(Pow2(len - 1), x, Pow2(64 - len));
    Pow2Positive(64 - len);
    TimesLess(x, Pow2(len), Pow2(64 - len));
  }

  lemma Times(a: nat, b: nat, c: nat)
    requires a <= b
    ensures a * c <= b * c
  {
  }

  lemma TimesLess(a: nat, b: nat, c: nat)
    requires a < b && c > 0
    ensures a * c < b * c
  {
  }

  lemma {:induction false} Pow2Positive(n: nat)
    ensures Pow2(n) > 0
  {
    if n > 0 {
      Pow2Positive(n - 1);
    }
  }

  // ---- what the patterns denote ----------------------------------------------

  /** 2 to an integer power. */
  function Two(e: int): (r: real)
    ensures r > 0.0
    decreases if e >= 0 then e else -e
  {
    if e == 0 then 1.0 else if e > 0 then 2.0 * Two(e - 1) else Two(e + 1) / 2.0
  }

  lemma {:induction false} TwoStep(e: int)
    ensures Two(e + 1) == 2.0 * Two(e)
  {
  }

  lemma {:induction false} TwoShift(e: int, n: nat)
    ensures Two(e + n) == Pow2(n) as real * Two(e)
    decreases n
  {
    hide Two;
    if n == 0 {
      assert Pow2(0) as real * Two(e) == 1.0 * Two(e) && e + 0 == e;
    } else {
      TwoShift(e, n - 1);
      TwoStep(e + n - 1);
      RealDouble(Pow2(n - 1), Two(e));
    }
  }

  lemma RealDouble(x: nat, t: real)
    ensures (2 * x) as real * t == 2.0 * (x as real * t)
  {
    assert (2 * x) as real == 2.0 * (x as real);
  }

  /** m times 2 to the e. */
  function Num(m: nat, e: int): real {
    m as real * Two(e)
  }

  function Shifted(x: nat, n: nat): nat {
    x * Pow2(n)
  }

  lemma ShiftedBy11(x: nat)
    ensures Shifted(x, 11) == x * 0x800
  {
    Pow2Values();
  }

  /** Moving the significand up and the exponent down leaves the number alone. */
  lemma Scaled(x: nat, n: nat, e: int)
    ensures Num(Shifted(x, n), e) == Num(x, e + n)
  {
    TwoShift(e, n);
    assert (x * Pow2(n)) as real == x as real * (Pow2(n) as real);
  }

  function WithSign(negative: bool, v: real): real {
    if negative then -v else v
  }

  /** The fields of a binary64 pattern (IEEE 754-2008, section 3.4). */
  predicate Negative(bits: U64) {
    bits / 0x8000_0000_0000_0000 == 1
  }

  function Exponent(bits: U64): nat {
    bits / 0x10_0000_0000_0000 % 0x800
  }

  function Fraction(bits: U64): nat {
    bits % 0x10_0000_0000_0000
  }

  /** The number a finite binary64 pattern denotes. */
  function Float64Value(bits: U64): real
    requires Exponent(bits) != 0x7FF
  {
    var f, e := Fraction(bits), Exponent(bits);
    WithSign(Negative(bits), if e == 0 then Num(f, -1074) else Num(0x10_0000_0000_0000 + f, e - 1075))
  }

  function ExtExponent(x: Ext): nat {
    x.signExponent % 0x8000
  }

  predicate ExtNegative(x: Ext) {
    x.signExponent >= 0x8000
  }

  /** The number a finite 80-bit pattern denotes. */
  function ExtValue(x: Ext): real
    requires ExtExponent(x) != 0x7FFF
  {
    WithSign(ExtNegative(x), Num(x.significand, ExtExponent(x) - 16383 - 63))
  }

  // ---- the conversions -------------------------------------------------------

  function SignBit(negative: bool): U16 {
    if negative then 0x8000 else 0
  }

  /** ext80FromFloat64Bits.  The bitwise ors join disjoint fields. */
  function FromFloat64Bits(bits: U64): Ext {
    var sign, e, f := SignBit(bits / 0x8000_0000_0000_0000 == 1), Exponent(bits), Fraction(bits);
    if e == 0x7FF then
      Ext(0x8000_0000_0000_0000 + (if f != 0 then QuietFraction(f) else 0), sign + 0x7FFF)
    else if e == 0 then
      if f == 0 then Ext(0, sign)
      else
        var shift := (64 - Len64(f)) - 11;
        Ext(Shl(f, if shift + 11 >= 0 then shift + 11 else 0), (sign + 16383 - 1022 - shift) % 0x1_0000)
    else Ext(Wrap64(0x8000_0000_0000_0000 + f * 0x800), (sign + e - 1023 + 16383) % 0x1_0000)
  }

  /** A left shift, losing what leaves the word. */
  function Shl(x: U64, n: nat): U64 {
    Wrap64(x * Pow2(n))
  }

  lemma ShlExact(x: U64, n: nat)
    requires Shifted(x, n) < 0x1_0000_0000_0000_0000
    ensures Shl(x, n) == Shifted(x, n)
  {
    WrapIs(x * Pow2(n));
  }

  /** The fraction of a NaN with the quiet bit, bit 62, set. */
  function QuietFraction(f: nat): (q: nat)
    requires f < 0x10_0000_0000_0000
    ensures 0x4000_0000_0000_0000 <= q < 0x8000_0000_0000_0000
  {
    var s := f * 0x800;
    if s >= 0x4000_0000_0000_0000 then s else s + 0x4000_0000_0000_0000
  }

  /** ext80FromInt64. */
  function FromInt64(v: I64): Ext {
    if v == 0 then Ext(0, 0)
    else
      var magnitude: U64 := if v < 0 then -(v + 1) + 1 else v;
      var exponent := Len64(magnitude) - 1;
      Ext(Shl(magnitude, if exponent <= 63 then 63 - exponent else 0),
          (SignBit(v < 0) + 16383 + exponent) % 0x1_0000)
  }

  // ---- exactness -------------------------------------------------------------

  lemma FractionLength(f: nat)
    requires 0 < f < 0x10_0000_0000_0000
    ensures 1 <= Len64(f) <= 52
  {
    if Len64(f) > 52 {
      Pow2Less(52, Len64(f) - 1);
      Pow2Values();
      assert false;
    }
  }

  lemma SubnormalFields(bits: U64)
    requires Exponent(bits) == 0 && Fraction(bits) != 0
    ensures
      var x, f, len := FromFloat64Bits(bits), Fraction(bits), Len64(Fraction(bits));
      && 1 <= len <= 52
      && x.significand == Shifted(f, 64 - len) >= 0x8000_0000_0000_0000
      && ExtExponent(x) == 15308 + len && ExtNegative(x) == Negative(bits)
  {
    hide Len64, Pow2, Shl, Shifted;
    var f := Fraction(bits);
    FractionLength(f);
    var len := Len64(f);
    Normalise(f, len);
    Pow2Values();
    ShlExact(f, 64 - len);
    assert FromFloat64Bits(bits).significand == Shl(f, 64 - len);
  }

  /** A denormal is normalised without losing anything. */
  lemma SubnormalExact(bits: U64)
    requires Exponent(bits) == 0 && Fraction(bits) != 0
    ensures
      var x := FromFloat64Bits(bits);
      && ExtExponent(x) != 0x7FFF && ExtValue(x) == Float64Value(bits)
      && ExtNegative(x) == Negative(bits) && x.significand >= 0x8000_0000_0000_0000
  {
    SubnormalFields(bits);
    hide Len64, Pow2, Two, Num, Shifted, FromFloat64Bits, Negative, Fraction, Exponent;
    var f := Fraction(bits);
    var up: int := 64 - Len64(f);
    Scaled(f, up, -1074 - up);
    assert -1074 - up + up == -1074;
  }

  lemma NormalExact(bits: U64)
    requires 0 < Exponent(bits) < 0x7FF
    ensures
      var x := FromFloat64Bits(bits);
      && ExtExponent(x) != 0x7FFF && ExtValue(x) == Float64Value(bits)
      && ExtNegative(x) == Negative(bits) && x.significand >= 0x8000_0000_0000_0000
  {
    hide Pow2, Two, Num, Shifted;
    var f := Fraction(bits);
    var e: int := Exponent(bits);
    Pow2Values();
    var x := FromFloat64Bits(bits);
    assert x.significand == Shifted(0x10_0000_0000_0000 + f, 11) by {
      ShiftedBy11(0x10_0000_0000_0000 + f);
    }
    assert ExtExponent(x) == e + 15360 && ExtNegative(x) == Negative(bits);
    Scaled(0x10_0000_0000_0000 + f, 11, e + 15360 - 16446);
    assert e + 15360 - 16446 + 11 == e - 1075;
  }

  /** Every finite double keeps its value and its sign, and the explicit top bit of
      the result is set unless it is a zero. */
  lemma Float64Exact(bits: U64)
    requires Exponent(bits) != 0x7FF
    ensures
      var x := FromFloat64Bits(bits);
      && ExtExponent(x) != 0x7FFF && ExtValue(x) == Float64Value(bits)
      && ExtNegative(x) == Negative(bits)
      && (x.significand >= 0x8000_0000_0000_0000 <==> Float64Value(bits) != 0.0)
      && (x.significand == 0 <==> Float64Value(bits) == 0.0)
  {
    hide Len64, Pow2, Two, ExtValue, Float64Value, Wrap64;
    if Exponent(bits) != 0 {
      NormalExact(bits);
    } else if Fraction(bits) != 0 {
      SubnormalExact(bits);
    } else {
      ZeroExact(bits);
    }
    hide FromFloat64Bits;
    ExtZero(FromFloat64Bits(bits));
  }

  lemma ZeroExact(bits: U64)
    requires Exponent(bits) == 0 && Fraction(bits) == 0
    ensures
      var x := FromFloat64Bits(bits);
      && ExtExponent(x) == 0 && x.significand == 0 && ExtValue(x) == Float64Value(bits)
      && ExtNegative(x) == Negative(bits)
  {
    hide Two;
  }

  lemma ExtZero(x: Ext)
    requires ExtExponent(x) != 0x7FFF
    ensures ExtValue(x) == 0.0 <==> x.significand == 0
  {
    hide Two;
    if x.significand > 0 {
      Positive(x.significand as real, Two(ExtExponent(x) - 16383 - 63));
    }
  }

  lemma Positive(a: real, b: real)
    requires a > 0.0 && b > 0.0
    ensures a * b > 0.0
  {
  }

  /** Infinities and NaNs stay what they are, with their sign. */
  lemma Float64Special(bits: U64)
    requires Exponent(bits) == 0x7FF
    ensures
      var x := FromFloat64Bits(bits);
      && ExtExponent(x) == 0x7FFF && ExtNegative(x) == Negative(bits)
      && x.significand >= 0x8000_0000_0000_0000
      && (x.significand == 0x8000_0000_0000_0000 <==> Fraction(bits) == 0)
  {
  }

  /** Every 64-bit integer keeps its value. */
  lemma Int64Exact(v: I64)
    ensures
      var x := FromInt64(v);
      && ExtExponent(x) != 0x7FFF && ExtValue(x) == v as real
      && (x.significand >= 0x8000_0000_0000_0000 <==> v != 0)
  {
    hide Len64, Pow2, Two, Num, Shifted;
    if v != 0 {
      Int64Fields(v);
      hide FromInt64;
      var x, n := FromInt64(v), Magnitude(v);
      var up: int := 64 - Len64(n);
      Scaled(n, up, -up);
      assert ExtExponent(x) - 16383 - 63 == -up;
      NumWhole(n);
    } else {
      ExtZero(FromInt64(v));
    }
  }

  function Magnitude(v: I64): nat {
    var n: int := v;
    if n < 0 then -n else n
  }

  lemma Int64Fields(v: I64)
    requires v != 0
    ensures
      var x, len := FromInt64(v), Len64(Magnitude(v));
      && 1 <= len <= 64
      && x.significand == Shifted(Magnitude(v), 64 - len) >= 0x8000_0000_0000_0000
      && ExtExponent(x) == 16383 + len - 1 && ExtNegative(x) == (v < 0)
  {
    hide Len64, Pow2, Shl, Shifted;
    var m, len := Magnitude(v), Len64(Magnitude(v));
    Normalise(m, len);
    Pow2Values();
    var x := FromInt64(v);
    ShlExact(m, 64 - len);
    var se := SignBit(v < 0) + 16383 + (len - 1);
    assert x.signExponent == se;
  }

  lemma NumWhole(n: nat)
    ensures Num(n, 0) == n as real
  {
  }
}
