/** Double-width multiplication and division (internal/cpu/exec.go) and
    multi-limb addition and subtraction built from ADD/ADC and SUB/SBB. */
module WideArithmetic {
  import opened Words
  import opened Registers
  import opened Arithmetic

  // ---- multiply --------------------------------------------------------------

  datatype Pair = Pair(hi: U64, lo: U64)

  /** The 128-bit product of math/bits. */
  function Mul64(a: U64, b: U64): Pair {
    ProductRange(a, b, 0x1_0000_0000_0000_0000);
    Pair(a * b / 0x1_0000_0000_0000_0000, a * b % 0x1_0000_0000_0000_0000)
  }

  function MulUnsigned(a: U64, b: U64, w: Width): Pair {
    var x, y := Low(a, w), Low(b, w);
    if w == 8 then Mul64(x, y)
    else
      var full := Wrap64(x * y);
      Pair(full / Span(w) % Span(w), full % Span(w))
  }

  function MulSigned(a: U64, b: U64, w: Width): Pair {
    var sa, sb := Signed(a, w), Signed(b, w);
    if w == 8 then
      var p := Mul64(Wrap64(sa), Wrap64(sb));
      var h1 := if sa < 0 then Wrap64(p.hi - Wrap64(sb)) else p.hi;
      var h2 := if sb < 0 then Wrap64(h1 - Wrap64(sa)) else h1;
      Pair(h2, p.lo)
    else
      var full := sa * sb;
      Pair(Wrap64(full / Span(w)) % Span(w), Wrap64(full) % Span(w))
  }

  /** High half of `lo` sign-extended to double width. */
  function ExtendSignHi(lo: U64, w: Width): U64 {
    if Signed(lo, w) < 0 then Span(w) - 1 else 0
  }

  lemma ProductRange(x: nat, y: nat, m: nat)
    requires x < m && y < m
    ensures 0 <= x * y < m * m && x * y / m < m
  {
    MulMonotone(x, m - 1, y);
    MulMonotone(y, m - 1, m - 1);
    assert (m - 1) * (m - 1) == m * m - 2 * m + 1;
    DivBelow(x * y, m, m);
  }

  lemma DivBelow(t: nat, m: nat, n: nat)
    requires m > 0 && t < n * m
    ensures t / m < n
  {
    if t / m >= n {
      DivAtLeast(t, m, n);
    }
  }

  lemma DivAtLeast(t: nat, m: nat, n: nat)
    requires m > 0 && t / m >= n
    ensures t >= n * m
  {
    MulMonotone(n, t / m, m);
    assert t == m * (t / m) + t % m;
  }

  lemma MulMonotone(x: int, y: int, m: int)
    requires m >= 0 && x <= y
    ensures x * m <= y * m
  {
  }

  /** MUL: high and low halves are the exact unsigned product. */
  lemma MulUnsignedExact(a: U64, b: U64, w: Width)
    ensures
      var p := MulUnsigned(a, b, w);
      && p.hi < Span(w) && p.lo < Span(w)
      && p.hi * Span(w) + p.lo == Low(a, w) * Low(b, w)
      && (p.hi != 0 <==> Low(a, w) * Low(b, w) >= Span(w))
  {
    hide Low;
    LowRange(a, w);
    LowRange(b, w);
    var x: nat, y: nat, m: nat := Low(a, w), Low(b, w), Span(w);
    ProductRange(x, y, m);
    var t := x * y;
    assert t == m * (t / m) + t % m;
    if w != 8 {
      assert m * m <= 0x1_0000_0000_0000_0000;
      assert Wrap64(t) == t;
      ModUnique(t / m, m, 0, t / m);
    }
    if t / m >= 1 {
      MulMonotone(1, t / m, m);
    }
  }

  /** The signed number that a pair of halves denotes. */
  function SignedPair(p: Pair, w: Width): int {
    Signed(p.hi, w) * Span(w) + p.lo
  }

  lemma SignedRange(v: U64, w: Width)
    ensures FitsSigned(Signed(v, w), w)
    ensures Low(v, w) == Signed(v, w) || Low(v, w) == Signed(v, w) + Span(w)
    ensures Low(v, w) == if Signed(v, w) < 0 then Signed(v, w) + Span(w) else Signed(v, w)
  {
    hide Low;
    LowRange(v, w);
    Halves(w);
  }

  /** IMUL: the halves are the exact signed product, and CF = OF is set iff the
      product does not fit the truncated result. */
  lemma MulSignedExact(a: U64, b: U64, w: Width)
    ensures
      var p := MulSigned(a, b, w);
      && p.hi < Span(w) && p.lo < Span(w)
      && SignedPair(p, w) == Signed(a, w) * Signed(b, w)
      && (p.hi != ExtendSignHi(p.lo, w) <==> !FitsSigned(Signed(a, w) * Signed(b, w), w))
  {
    var t, m := Signed(a, w) * Signed(b, w), Span(w);
    MulSignedHalves(a, b, w);
    var p := MulSigned(a, b, w);
    SignedProductRange(a, b, w);
    hide MulSigned;
    HalvesDenote(p, t, w);
  }

  /** Halves of a product taken modulo the width denote the product. */
  lemma HalvesDenote(p: Pair, t: int, w: Width)
    requires p.hi == t / Span(w) % Span(w) && p.lo == t % Span(w)
    requires FitsSigned(t / Span(w), w)
    ensures p.hi < Span(w) && p.lo < Span(w)
    ensures SignedPair(p, w) == t
    ensures p.hi != ExtendSignHi(p.lo, w) <==> !FitsSigned(t, w)
  {
    var m, h := Span(w), t / Span(w);
    Halves(w);
    hide Span;
    ModOnce(h, m);
    LowRange(p.hi, w);
    LowRange(p.lo, w);
    hide Low;
    MulCases(h, m);
    var hm := h * m;
    assert t == hm + p.lo;
    assert Signed(p.hi, w) == h;
    assert Signed(p.lo, w) < 0 <==> p.lo >= m / 2;
  }

  lemma MulCases(h: int, m: int)
    requires m > 0
    ensures h == 0 ==> h * m == 0
    ensures h == -1 ==> h * m == -m
    ensures h >= 1 ==> h * m >= m
    ensures h <= -2 ==> h * m <= -2 * m
  {
  }

  lemma SignedProductRange(a: U64, b: U64, w: Width)
    ensures FitsSigned(Signed(a, w) * Signed(b, w) / Span(w), w)
  {
    var x, y, m, h := Signed(a, w), Signed(b, w), Span(w), Span(w) / 2;
    hide Low, Span, Signed;
    SignedRange(a, w);
    SignedRange(b, w);
    Halves(w);
    SquareBound(x, y, h);
    var q := x * y / m;
    assert x * y == m * q + x * y % m;
    assert h * m == 2 * (h * h);
    assert (-h - 1) * m == -2 * (h * h) - m;
    if q >= h {
      MulMonotone(h, q, m);
    } else if q < -h {
      MulMonotone(q, -h - 1, m);
    }
  }

  lemma SquareBound(x: int, y: int, h: int)
    requires h >= 0 && -h <= x <= h && -h <= y <= h
    ensures -(h * h) <= x * y <= h * h
  {
    var ax, ay := if x < 0 then -x else x, if y < 0 then -y else y;
    MulMonotone(ax, h, ay);
    MulMonotone(ay, h, h);
    assert x * y == ax * ay || x * y == -(ax * ay);
  }

  lemma MulSignedHalves(a: U64, b: U64, w: Width)
    ensures MulSigned(a, b, w).hi == Signed(a, w) * Signed(b, w) / Span(w) % Span(w)
    ensures MulSigned(a, b, w).lo == Signed(a, w) * Signed(b, w) % Span(w)
  {
    var x, y := Signed(a, w), Signed(b, w);
    SignedRange(a, w);
    SignedRange(b, w);
    hide Low, Signed;
    if w == 8 {
      MulSigned64(a, b);
    } else {
      WrapThenReduce(x * y / Span(w), w);
      WrapThenReduce(x * y, w);
    }
  }

  lemma MulSigned64(a: U64, b: U64)
    ensures MulSigned(a, b, 8).hi == Signed(a, 8) * Signed(b, 8) / Span(8) % Span(8)
    ensures MulSigned(a, b, 8).lo == Signed(a, 8) * Signed(b, 8) % Span(8)
  {
    var x, y, m := Signed(a, 8), Signed(b, 8), 0x1_0000_0000_0000_0000;
    SignedRange(a, 8);
    SignedRange(b, 8);
    MulSigned64Is(a, b);
    hide Low, Signed, MulSigned;
    var ux: int, uy: int := Wrap64(x), Wrap64(y);
    WrapSigned(x);
    WrapSigned(y);
    hide Wrap64;
    CorrectedHigh(x, y, ux, uy, m);
    Mul64Is(ux, uy);
    WrapCongruent(Mul64(ux, uy).hi, if x < 0 then -uy else 0, if y < 0 then -ux else 0);
    hide Mul64;
  }

  lemma Mul64Is(a: U64, b: U64)
    ensures Mul64(a, b).hi == a * b / 0x1_0000_0000_0000_0000 && Mul64(a, b).lo == a * b % 0x1_0000_0000_0000_0000
  {
  }

  /** The correction of the unsigned product, as one sum. */
  lemma MulSigned64Is(a: U64, b: U64)
    ensures
      var x, y := Signed(a, 8), Signed(b, 8);
      var p := Mul64(Wrap64(x), Wrap64(y));
      var ux: int, uy: int := Wrap64(x), Wrap64(y);
      var d, e := if x < 0 then -uy else 0, if y < 0 then -ux else 0;
      MulSigned(a, b, 8) == Pair(Wrap64(Wrap64(p.hi + d) + e), p.lo)
  {
    hide Mul64, Wrap64, Signed;
    var x, y := Signed(a, 8), Signed(b, 8);
    var h := Mul64(Wrap64(x), Wrap64(y)).hi;
    WrapSmall(h);
    WrapSmall(Wrap64(h - Wrap64(y)));
  }

  lemma WrapSmall(x: U64)
    ensures Wrap64(x) == x
  {
  }

  lemma WrapSigned(x: int)
    requires -0x8000_0000_0000_0000 <= x < 0x8000_0000_0000_0000
    ensures Wrap64(x) == if x < 0 then x + 0x1_0000_0000_0000_0000 else x
  {
  }

  /** Subtracting step by step modulo 2^64 is subtracting the sum. */
  lemma WrapCongruent(h: U64, d: int, e: int)
    ensures Wrap64(Wrap64(h + d) + e) == (h + d + e) % 0x1_0000_0000_0000_0000
  {
  }

  /** The unsigned product of two's complement operands, corrected. */
  lemma CorrectedHigh(x: int, y: int, ux: int, uy: int, m: int)
    requires m > 0 && ux == (if x < 0 then x + m else x) && uy == (if y < 0 then y + m else y)
    ensures x * y % m == ux * uy % m
    ensures (ux * uy / m + (if x < 0 then -uy else 0) + (if y < 0 then -ux else 0)) % m == x * y / m % m
  {
    var u := ux * uy;
    var both := if x < 0 && y < 0 then 1 else 0;
    var k := (if x < 0 then uy else 0) + (if y < 0 then ux else 0) - both * m;
    SignedProductIs(x, y, ux, uy, m, k);
    var q := u / m - k;
    QuotientMinus(u, m, k);
    AddMultiple(q, -both, m);
  }

  /** x*y from the unsigned product u: the borrowed 2^n multiplied out. */
  lemma SignedProductIs(x: int, y: int, ux: int, uy: int, m: int, k: int)
    requires ux == (if x < 0 then x + m else x) && uy == (if y < 0 then y + m else y)
    requires k == (if x < 0 then uy else 0) + (if y < 0 then ux else 0) - (if x < 0 && y < 0 then m else 0)
    ensures x * y == ux * uy - m * k
  {
    if x < 0 {
      MulMinus(ux, uy, m);
      if y < 0 {
        MulMinus(uy, x, m);
        assert x * y == x * uy - m * x;
        assert m * k == m * uy + m * ux - m * m;
      }
    } else if y < 0 {
      MulMinus(uy, ux, m);
    }
  }

  lemma MulMinus(a: int, b: int, m: int)
    ensures (a - m) * b == a * b - m * b && b * (a - m) == b * a - m * b
  {
  }

  lemma QuotientMinus(u: int, m: int, k: int)
    requires m > 0
    ensures (u - m * k) / m == u / m - k && (u - m * k) % m == u % m
  {
    assert u == m * (u / m) + u % m;
    assert m * (u / m - k) == m * (u / m) - m * k;
    ModUnique(u - m * k, m, u / m - k, u % m);
  }

  lemma AddMultiple(t: int, k: int, m: int)
    requires m > 0
    ensures (t + k * m) % m == t % m
  {
    assert t == m * (t / m) + t % m;
    assert t + k * m == m * (t / m + k) + t % m;
    ModUnique(t + k * m, m, t / m + k, t % m);
  }

  // ---- divide ----------------------------------------------------------------

  datatype DivResult = Quot(q: U64, r: U64) | Overflow | Unsupported

  /** DIV of the double-width dividend dx:ax; callers have excluded a zero divisor. */
  function DivUnsigned(dx: U64, ax: U64, divisor: U64, w: Width): DivResult
    requires Low(divisor, w) != 0
  {
    var hi, lo, d := Low(dx, w), Low(ax, w), Low(divisor, w);
    if w == 8 then
      if hi >= d then Overflow
      else
        WideQuotient(hi, lo, d);
        var full := hi * 0x1_0000_0000_0000_0000 + lo;
        QuotientNat(full, d);
        Quot(full / d, full % d)
    else
      var full := hi * Span(w) + lo;
      QuotientNat(full, d);
      if full / d >= Span(w) then Overflow else Quot(full / d, full % d)
  }

  lemma QuotientNat(t: nat, d: nat)
    requires d > 0
    ensures t / d >= 0 && 0 <= t % d < d
  {
  }

  lemma WideQuotient(hi: nat, lo: nat, d: nat)
    requires hi < d && lo < 0x1_0000_0000_0000_0000
    ensures (hi * 0x1_0000_0000_0000_0000 + lo) / d < 0x1_0000_0000_0000_0000
  {
    DivBelow(hi * 0x1_0000_0000_0000_0000 + lo, d, 0x1_0000_0000_0000_0000);
  }

  /** DIV gives the Euclidean quotient and remainder, or reports overflow exactly
      when the quotient does not fit. */
  lemma DivUnsignedExact(dx: U64, ax: U64, divisor: U64, w: Width)
    requires Low(divisor, w) != 0
    ensures
      var full := Low(dx, w) * Span(w) + Low(ax, w);
      var d := Low(divisor, w);
      match DivUnsigned(dx, ax, divisor, w)
      case Quot(q, r) => q < Span(w) && r < d && full == q * d + r
      case Overflow => full / d >= Span(w)
      case Unsupported => false
  {
    var hi: nat, lo: nat, d: nat, m: nat := Low(dx, w), Low(ax, w), Low(divisor, w), Span(w);
    LowRange(ax, w);
    QuotientFits(hi, lo, d, m);
  }

  /** The quotient of a double-width dividend fits iff the high half is smaller. */
  lemma QuotientFits(hi: nat, lo: nat, d: nat, m: nat)
    requires lo < m && d > 0
    ensures hi >= d <==> (hi * m + lo) / d >= m
    ensures hi * m + lo == (hi * m + lo) / d * d + (hi * m + lo) % d
  {
    var full := hi * m + lo;
    var q := full / d;
    assert full == q * d + full % d;
    if hi >= d {
      MulMonotone(d, hi, m);
      assert (m - 1) * d == d * m - d;
      if q < m {
        MulMonotone(q, m - 1, d);
      }
    } else {
      MulMonotone(hi, d - 1, m);
      assert (d - 1) * m == m * d - m;
      DivBelow(full, d, m);
    }
  }

  /** Dividing a product by one factor gives back the other. */
  lemma DivUndoesMul(a: U64, b: U64, w: Width)
    requires Low(b, w) != 0
    ensures var p := MulUnsigned(a, b, w);
            DivUnsigned(p.hi, p.lo, b, w) == Quot(Low(a, w), 0)
  {
    var p := MulUnsigned(a, b, w);
    MulUnsignedExact(a, b, w);
    DivUnsignedExact(p.hi, p.lo, b, w);
    LowRange(p.hi, w);
    LowRange(p.lo, w);
    LowRange(a, w);
    var x, d: int := Low(a, w), Low(b, w);
    ModUnique(x * d, d, x, 0);
    match DivUnsigned(p.hi, p.lo, b, w)
    case Quot(q, r) =>
      ModUnique(x * d, d, q, r);
    case Overflow =>
  }

  /** Division truncating toward zero, as Go's and the processor's. */
  function Trunc(n: int, d: int): int
    requires d != 0
  {
    var q := Abs(n) / Abs(d);
    if (n < 0) == (d < 0) then q else -q
  }

  function Abs(n: int): nat {
    if n < 0 then -n else n
  }

  /** IDIV; for 64-bit operands only sign-extended dividends are supported. */
  function DivSigned(dx: U64, ax: U64, divisor: U64, w: Width): DivResult
    requires Low(divisor, w) != 0
  {
    var d := Signed(divisor, w);
    if w == 8 then
      if dx != 0 && dx != 0xffff_ffff_ffff_ffff then Unsupported
      else
        var n := Signed(ax, 8);
        Quot(Wrap64(Trunc(n, d)), Wrap64(n - d * Trunc(n, d)))
    else
      var n := Signed(dx, w) * Span(w) + Low(ax, w);
      Quot(Wrap64(Trunc(n, d)) % Span(w), Wrap64(n - d * Trunc(n, d)) % Span(w))
  }

  /** The dividend that the pair of registers denotes. */
  function Dividend(dx: U64, ax: U64, w: Width): int {
    Signed(dx, w) * Span(w) + Low(ax, w)
  }

  /** The registers hold the quotient and remainder truncated toward zero. */
  predicate Divides(res: DivResult, n: int, d: int, w: Width)
    requires d != 0
  {
    res.Quot? && Signed(res.q, w) == Trunc(n, d) && Signed(res.r, w) == n - d * Trunc(n, d)
  }

  /** When IDIV can be trusted: the quotient fits and, for 64-bit operands, the
      high half is the sign extension of the low one.  The second alternative is
      a coincidence: 2^63 read as -2^63, divided by -1, wraps to the right answer. */
  predicate IdivTrusted(dx: U64, ax: U64, divisor: U64, w: Width)
    requires Low(divisor, w) != 0
  {
    var d := Signed(divisor, w);
    || (FitsSigned(Trunc(Dividend(dx, ax, w), d), w) && (w == 8 ==> dx == ExtendSignHi(ax, 8)))
    || (w == 8 && dx == 0 && ax == 0x8000_0000_0000_0000 && d == -1)
  }

  lemma TruncFacts(n: int, d: int)
    requires d != 0
    ensures Abs(n - d * Trunc(n, d)) < Abs(d)
    ensures Abs(Trunc(n, d)) * Abs(d) <= Abs(n)
    ensures Abs(Trunc(n, d)) <= Abs(n)
  {
    var a, b: int, q: int := Abs(n), Abs(d), Abs(n) / Abs(d);
    assert a == b * q + a % b;
    MulMonotone(1, b, q);
    SignedProduct(b, q);
  }

  lemma SignedProduct(b: int, q: int)
    ensures -b * q == -(b * q) && b * -q == -(b * q) && -b * -q == b * q && q * b == b * q
  {
  }

  lemma SignedOfMod(v: int, w: Width)
    ensures Signed(Wrap64(v) % Span(w), w) == v <==> FitsSigned(v, w)
    ensures w == 8 ==> Wrap64(v) % Span(w) == Wrap64(v)
  {
    WrapThenReduce(v, w);
    var m, r := Span(w), v % Span(w);
    Halves(w);
    LowRange(r, w);
    hide Span, Low;
    if FitsSigned(v, w) {
      ModOnce(v, m);
    }
  }

  lemma DivSignedTrusted(dx: U64, ax: U64, divisor: U64, w: Width)
    requires Low(divisor, w) != 0
    requires w == 8 ==> dx == ExtendSignHi(ax, 8)
    ensures Divides(DivSigned(dx, ax, divisor, w), Dividend(dx, ax, w), Signed(divisor, w), w)
       <==> FitsSigned(Trunc(Dividend(dx, ax, w), Signed(divisor, w)), w)
  {
    DivSignedIs(dx, ax, divisor, w);
    SignedRange(divisor, w);
    hide Dividend, Signed, Low, Wrap64, Span, DivSigned, Trunc;
    var n, d := Dividend(dx, ax, w), Signed(divisor, w);
    TruncFacts(n, d);
    RemainderFits(n - d * Trunc(n, d), d, w);
    SignedOfMod(Trunc(n, d), w);
    SignedOfMod(n - d * Trunc(n, d), w);
  }

  lemma DivSignedIs(dx: U64, ax: U64, divisor: U64, w: Width)
    requires Low(divisor, w) != 0 && (w == 8 ==> dx == ExtendSignHi(ax, 8))
    ensures
      var n, d := Dividend(dx, ax, w), Signed(divisor, w);
      && d != 0
      && DivSigned(dx, ax, divisor, w) ==
         Quot(Wrap64(Trunc(n, d)) % Span(w), Wrap64(n - d * Trunc(n, d)) % Span(w))
  {
    hide Trunc, Wrap64;
    if w == 8 {
      DivSignedWide(dx, ax, divisor);
    }
  }

  lemma DivSignedWide(dx: U64, ax: U64, divisor: U64)
    requires Low(divisor, 8) != 0 && dx == ExtendSignHi(ax, 8)
    ensures
      var n, d := Dividend(dx, ax, 8), Signed(divisor, 8);
      && d != 0
      && DivSigned(dx, ax, divisor, 8) ==
         Quot(Wrap64(Trunc(n, d)) % Span(8), Wrap64(n - d * Trunc(n, d)) % Span(8))
  {
    hide Trunc, Wrap64, Dividend, ExtendSignHi;
    ExtendedDividend(dx, ax);
    var n, d := Dividend(dx, ax, 8), Signed(divisor, 8);
    SignedOfMod(Trunc(n, d), 8);
    SignedOfMod(n - d * Trunc(n, d), 8);
  }

  /** A sign-extended dividend is the low half read as signed. */
  lemma ExtendedDividend(dx: U64, ax: U64)
    requires dx == ExtendSignHi(ax, 8)
    ensures Dividend(dx, ax, 8) == Signed(ax, 8) && (dx == 0 || dx == 0xffff_ffff_ffff_ffff)
  {
  }

  lemma RemainderFits(r: int, d: int, w: Width)
    requires Abs(r) < Abs(d) && -(Span(w) / 2) <= d < Span(w) / 2
    ensures FitsSigned(r, w)
  {
  }

  /** A 64-bit dividend whose high half is not the sign extension. */
  lemma DivSignedMisread(dx: U64, ax: U64, divisor: U64)
    requires Low(divisor, 8) != 0 && dx != ExtendSignHi(ax, 8)
    ensures Divides(DivSigned(dx, ax, divisor, 8), Dividend(dx, ax, 8), Signed(divisor, 8), 8)
       <==> dx == 0 && ax == 0x8000_0000_0000_0000 && Signed(divisor, 8) == -1
  {
    var n, d, s := Dividend(dx, ax, 8), Signed(divisor, 8), Signed(ax, 8);
    if dx == 0 || dx == 0xffff_ffff_ffff_ffff {
      Misread(dx, ax);
      MinByMinusOne();
      SignedRange(divisor, 8);
      SignedRange(ax, 8);
      SignedOfMod(Trunc(s, d), 8);
      SignedOfMod(s - d * Trunc(s, d), 8);
      hide Trunc, Low, Wrap64, Dividend, ExtendSignHi;
      TruncFacts(s, d);
      NotTheSameDivision(n, s, d);
      if !FitsSigned(Trunc(s, d), 8) {
        OnlyMinOverflows(s, d);
      }
    }
  }

  lemma Misread(dx: U64, ax: U64)
    requires dx != ExtendSignHi(ax, 8) && (dx == 0 || dx == 0xffff_ffff_ffff_ffff)
    ensures Dividend(dx, ax, 8) != Signed(ax, 8)
    ensures ax == 0x8000_0000_0000_0000 ==> dx == 0 && Dividend(dx, ax, 8) == 0x8000_0000_0000_0000
    ensures Signed(ax, 8) == -0x8000_0000_0000_0000 <==> ax == 0x8000_0000_0000_0000
  {
  }

  lemma NotTheSameDivision(n: int, s: int, d: int)
    requires d != 0 && n != s
    ensures !(Trunc(n, d) == Trunc(s, d) && n - d * Trunc(n, d) == s - d * Trunc(s, d))
  {
  }

  lemma MinByMinusOne()
    ensures Trunc(-0x8000_0000_0000_0000, -1) == 0x8000_0000_0000_0000
    ensures Trunc(0x8000_0000_0000_0000, -1) == -0x8000_0000_0000_0000
  {
  }

  lemma OnlyMinOverflows(s: int, d: int)
    requires FitsSigned(s, 8) && FitsSigned(d, 8) && d != 0 && !FitsSigned(Trunc(s, d), 8)
    ensures s == -0x8000_0000_0000_0000 && d == -1 && Trunc(s, d) == 0x8000_0000_0000_0000
  {
    TruncFacts(s, d);
    assert Abs(Trunc(s, d)) * Abs(d) == Abs(d) * Abs(Trunc(s, d));
    var t := Abs(Trunc(s, d));
    if Abs(d) >= 2 {
      MulMonotone(2, Abs(d), t);
    }
  }

  /** IDIV truncates toward zero exactly when it can be trusted. */
  lemma DivSignedExactlyWhen(dx: U64, ax: U64, divisor: U64, w: Width)
    requires Low(divisor, w) != 0
    ensures Divides(DivSigned(dx, ax, divisor, w), Dividend(dx, ax, w), Signed(divisor, w), w)
       <==> IdivTrusted(dx, ax, divisor, w)
  {
    if w == 8 && dx != ExtendSignHi(ax, 8) {
      DivSignedMisread(dx, ax, divisor);
    } else {
      DivSignedTrusted(dx, ax, divisor, w);
    }
  }

  /** IDIV reports nothing but a 64-bit dividend whose high half is neither 0 nor all
      ones.  Every other dividend whose quotient does not fit is answered, and the
      answer is not the quotient and remainder. */
  lemma IdivOverflowAnswered(dx: U64, ax: U64, divisor: U64, w: Width)
    requires Low(divisor, w) != 0
    requires !FitsSigned(Trunc(Dividend(dx, ax, w), Signed(divisor, w)), w)
    ensures DivSigned(dx, ax, divisor, w).Quot? <==> w != 8 || dx == 0 || dx == 0xffff_ffff_ffff_ffff
    ensures !Divides(DivSigned(dx, ax, divisor, w), Dividend(dx, ax, w), Signed(divisor, w), w)
  {
    DivSignedExactlyWhen(dx, ax, divisor, w);
    hide Divides;
    MinByMinusOne();
  }

  /** Two such inputs: 2^40 by 1 in 32 bits, and the least 64-bit number by -1. */
  lemma IdivOverflows()
    ensures !FitsSigned(Trunc(Dividend(0x100, 0, 4), Signed(1, 4)), 4)
    ensures Signed(0xffff_ffff_ffff_ffff, 8) == -1
    ensures !FitsSigned(Trunc(Dividend(0xffff_ffff_ffff_ffff, 0x8000_0000_0000_0000, 8), -1), 8)
  {
  }

  /** An input on which IDIV answers wrongly without reporting it: 2^63 / 2. */
  lemma IdivWrongAnswer()
    ensures
      var res := DivSigned(0, 0x8000_0000_0000_0000, 2, 8);
      && res.Quot?
      && Dividend(0, 0x8000_0000_0000_0000, 8) == 0x8000_0000_0000_0000
      && Signed(res.q, 8) == -0x4000_0000_0000_0000
      && Trunc(0x8000_0000_0000_0000, 2) == 0x4000_0000_0000_0000
  {
    var s := -0x8000_0000_0000_0000;
    assert Signed(0x8000_0000_0000_0000, 8) == s && Signed(2, 8) == 2;
    assert Trunc(s, 2) == -0x4000_0000_0000_0000;
    assert Wrap64(-0x4000_0000_0000_0000) == 0xc000_0000_0000_0000;
  }

  // ---- limb chains -----------------------------------------------------------

  /** The number whose little-endian digits of width w are the limbs. */
  function LimbValue(limbs: seq<U64>, w: Width): nat {
    if limbs == [] then 0 else Low(limbs[0], w) + Span(w) * LimbValue(limbs[1..], w)
  }

  function SpanPower(w: Width, n: nat): nat {
    if n == 0 then 1 else Span(w) * SpanPower(w, n - 1)
  }

  /** ADC over the limbs, lowest first, threading CF; from a clear CF the first
      step is ADD. */
  function AddChain(f: Flags, xs: seq<U64>, ys: seq<U64>, w: Width): (r: (seq<U64>, Flags))
    requires |xs| == |ys|
    ensures |r.0| == |xs|
    decreases |xs|
  {
    if xs == [] then ([], f)
    else
      var (z, g) := Add(f, xs[0], ys[0], w, f.cf);
      var (zs, h) := AddChain(g, xs[1..], ys[1..], w);
      ([z] + zs, h)
  }

  function SubChain(f: Flags, xs: seq<U64>, ys: seq<U64>, w: Width): (r: (seq<U64>, Flags))
    requires |xs| == |ys|
    ensures |r.0| == |xs|
    decreases |xs|
  {
    if xs == [] then ([], f)
    else
      var (z, g) := Sub(f, xs[0], ys[0], w, f.cf);
      var (zs, h) := SubChain(g, xs[1..], ys[1..], w);
      ([z] + zs, h)
  }

  function CarryIn(f: Flags): nat {
    if f.cf then 1 else 0
  }

  lemma AddStep(f: Flags, a: U64, b: U64, w: Width)
    ensures
      var (z, g) := Add(f, a, b, w, f.cf);
      Low(z, w) == z && z + Span(w) * CarryIn(g) == Low(a, w) + Low(b, w) + CarryIn(f)
  {
    AddCases(a, b, w, f.cf);
    LowRange(a, w);
    LowRange(b, w);
    LowRange(AddWithCarry(a, b, w, f.cf).result, w);
  }

  lemma SubStep(f: Flags, a: U64, b: U64, w: Width)
    ensures
      var (z, g) := Sub(f, a, b, w, f.cf);
      Low(z, w) == z && z - Span(w) * CarryIn(g) == Low(a, w) - Low(b, w) - CarryIn(f)
  {
    SubCases(a, b, w, f.cf);
    LowRange(a, w);
    LowRange(b, w);
    LowRange(SubWithBorrow(a, b, w, f.cf).result, w);
  }

  lemma AddLimbs(m: int, p: int, x0: int, y0: int, z0: int, cf: int, cg: int, ch: int, x: int, y: int, z: int)
    requires z0 + m * cg == x0 + y0 + cf && z + ch * p == x + y + cg
    ensures (z0 + m * z) + ch * (m * p) == (x0 + m * x) + (y0 + m * y) + cf
  {
    assert m * (z + ch * p) == m * (x + y + cg);
  }

  lemma SubLimbs(m: int, p: int, x0: int, y0: int, z0: int, cf: int, cg: int, ch: int, x: int, y: int, z: int)
    requires z0 - m * cg == x0 - y0 - cf && z - ch * p == x - y - cg
    ensures (z0 + m * z) - ch * (m * p) == (x0 + m * x) - (y0 + m * y) - cf
  {
    assert m * (z - ch * p) == m * (x - y - cg);
  }

  /** A chain of n limbs adds n-limb numbers exactly; CF is the outgoing carry. */
  lemma {:induction false} AddChainExact(f: Flags, xs: seq<U64>, ys: seq<U64>, w: Width)
    requires |xs| == |ys|
    ensures
      var (zs, g) := AddChain(f, xs, ys, w);
      LimbValue(zs, w) + CarryIn(g) * SpanPower(w, |xs|) == LimbValue(xs, w) + LimbValue(ys, w) + CarryIn(f)
    decreases |xs|
  {
    hide Low, Span, Add;
    if xs != [] {
      var (z, g) := Add(f, xs[0], ys[0], w, f.cf);
      AddStep(f, xs[0], ys[0], w);
      var (zs, h) := AddChain(g, xs[1..], ys[1..], w);
      AddChainExact(g, xs[1..], ys[1..], w);
      assert ([z] + zs)[1..] == zs;
      AddLimbs(Span(w), SpanPower(w, |xs| - 1), Low(xs[0], w), Low(ys[0], w), z, CarryIn(f), CarryIn(g), CarryIn(h),
               LimbValue(xs[1..], w), LimbValue(ys[1..], w), LimbValue(zs, w));
    }
  }

  /** A chain of n limbs subtracts n-limb numbers exactly; CF is the outgoing borrow. */
  lemma {:induction false} SubChainExact(f: Flags, xs: seq<U64>, ys: seq<U64>, w: Width)
    requires |xs| == |ys|
    ensures
      var (zs, g) := SubChain(f, xs, ys, w);
      LimbValue(zs, w) - CarryIn(g) * SpanPower(w, |xs|) == LimbValue(xs, w) - LimbValue(ys, w) - CarryIn(f)
    decreases |xs|
  {
    hide Low, Span, Sub;
    if xs != [] {
      var (z, g) := Sub(f, xs[0], ys[0], w, f.cf);
      SubStep(f, xs[0], ys[0], w);
      var (zs, h) := SubChain(g, xs[1..], ys[1..], w);
      SubChainExact(g, xs[1..], ys[1..], w);
      assert ([z] + zs)[1..] == zs;
      SubLimbs(Span(w), SpanPower(w, |xs| - 1), Low(xs[0], w), Low(ys[0], w), z, CarryIn(f), CarryIn(g), CarryIn(h),
               LimbValue(xs[1..], w), LimbValue(ys[1..], w), LimbValue(zs, w));
    }
  }
}
