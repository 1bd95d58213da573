/** Integer arithmetic and its flags (internal/cpu/flags.go and the multiply and
    divide helpers of internal/cpu/exec.go), computed the way the engine does. */
module Arithmetic {
  import opened Words
  import opened Registers

  // ---- flags -----------------------------------------------------------------

  function Ones(n: nat, bits: nat): nat {
    if bits == 0 then 0 else n % 2 + Ones(n / 2, bits - 1)
  }

  predicate EvenParity(b: Byte) {
    Ones(b, 8) % 2 == 0
  }

  /** Bit 4, the one that tells a carry out of the low nibble. */
  function Bit4(x: U64): nat {
    x / 0x10 % 2
  }

  function ResultFlags(f: Flags, result: U64, w: Width): Flags {
    f.(zf := Low(result, w) == 0, sf := SignSet(result, w), pf := EvenParity(result % 0x100))
  }

  datatype Sum = Sum(result: U64, carry: bool)

  function AddWithCarry(a: U64, b: U64, w: Width, cin: bool): Sum {
    var x, y, c := Low(a, w), Low(b, w), if cin then 1 else 0;
    if w == 8 then
      var sum1 := Wrap64(x + y);
      var sum2 := Wrap64(sum1 + c);
      Sum(sum2, x + y >= 0x1_0000_0000_0000_0000 || sum1 + c >= 0x1_0000_0000_0000_0000)
    else
      var sum := Wrap64(x + y + c);
      Sum(sum % Span(w), sum >= Span(w))
  }

  function SubWithBorrow(a: U64, b: U64, w: Width, bin: bool): Sum {
    var x, y, c := Low(a, w), Low(b, w), if bin then 1 else 0;
    if w == 8 then
      var diff1 := Wrap64(x - y);
      var diff2 := Wrap64(diff1 - c);
      Sum(diff2, x < y || diff1 < c)
    else
      var diff := Wrap64(x - y - c);
      Sum(diff % Span(w), x < y + c)
  }

  function NibbleFlag(a: U64, b: U64, result: U64, w: Width): bool {
    (Bit4(Low(a, w)) + Bit4(Low(b, w)) + Bit4(result)) % 2 == 1
  }

  /** addWithFlagsCarry: result and flags of a + b + cin. */
  function Add(f: Flags, a: U64, b: U64, w: Width, cin: bool): (U64, Flags) {
    var s := AddWithCarry(a, b, w, cin);
    var of := SignSet(a, w) == SignSet(b, w) && SignSet(s.result, w) != SignSet(a, w);
    (s.result, ResultFlags(f.(cf := s.carry, of := of, af := NibbleFlag(a, b, s.result, w)), s.result, w))
  }

  /** subWithFlagsBorrow: result and flags of a - b - bin. */
  function Sub(f: Flags, a: U64, b: U64, w: Width, bin: bool): (U64, Flags) {
    var s := SubWithBorrow(a, b, w, bin);
    var of := SignSet(a, w) != SignSet(b, w) && SignSet(s.result, w) != SignSet(a, w);
    (s.result, ResultFlags(f.(cf := s.carry, of := of, af := NibbleFlag(a, b, s.result, w)), s.result, w))
  }

  function Inc(f: Flags, a: U64, w: Width): (U64, Flags) {
    var (r, g) := Add(f, a, 1, w, false);
    (r, g.(cf := f.cf))
  }

  function Dec(f: Flags, a: U64, w: Width): (U64, Flags) {
    var (r, g) := Sub(f, a, 1, w, false);
    (r, g.(cf := f.cf))
  }

  function LogicFlags(f: Flags, result: U64, w: Width): Flags {
    ResultFlags(f.(cf := false, of := false, af := false), result, w)
  }

  // ---- the 32-bit fast paths -------------------------------------------------

  function Add32(f: Flags, a: U64, b: U64): (U64, Flags) {
    var x, y := a % 0x1_0000_0000, b % 0x1_0000_0000;
    var sum := x + y;
    var r := sum % 0x1_0000_0000;
    (r, f.(cf := sum / 0x1_0000_0000 != 0,
           of := (x >= 0x8000_0000) == (y >= 0x8000_0000) && (x >= 0x8000_0000) != (r >= 0x8000_0000),
           af := (Bit4(x) + Bit4(y) + Bit4(r)) % 2 == 1,
           zf := r == 0, sf := r >= 0x8000_0000, pf := EvenParity(r % 0x100)))
  }

  function Inc32(f: Flags, a: U64): (U64, Flags) {
    var x := a % 0x1_0000_0000;
    var r := (x + 1) % 0x1_0000_0000;
    (r, f.(of := x == 0x7fff_ffff, af := (Bit4(x) + Bit4(1) + Bit4(r)) % 2 == 1,
           zf := r == 0, sf := r >= 0x8000_0000, pf := EvenParity(r % 0x100)))
  }

  function Dec32(f: Flags, a: U64): (U64, Flags) {
    var x := a % 0x1_0000_0000;
    var r := (x - 1) % 0x1_0000_0000;
    (r, f.(of := x == 0x8000_0000, af := (Bit4(x) + Bit4(1) + Bit4(r)) % 2 == 1,
           zf := r == 0, sf := r >= 0x8000_0000, pf := EvenParity(r % 0x100)))
  }

  // ---- condition codes -------------------------------------------------------

  function EvalCC(f: Flags, cc: nat): bool {
    match cc % 16
    case 0 => f.of
    case 1 => !f.of
    case 2 => f.cf
    case 3 => !f.cf
    case 4 => f.zf
    case 5 => !f.zf
    case 6 => f.cf || f.zf
    case 7 => !f.cf && !f.zf
    case 8 => f.sf
    case 9 => !f.sf
    case 10 => f.pf
    case 11 => !f.pf
    case 12 => f.sf != f.of
    case 13 => f.sf == f.of
    case 14 => f.zf || f.sf != f.of
    case _ => !f.zf && f.sf == f.of
  }

  /** What a condition asks of the operands compared (Intel SDM Vol. 1, Appendix B). */
  predicate Condition(cc: nat, a: U64, b: U64, w: Width) {
    var ua, ub, sa, sb := Low(a, w), Low(b, w), Signed(a, w), Signed(b, w);
    match cc % 16
    case 0 => !FitsSigned(sa - sb, w)
    case 1 => FitsSigned(sa - sb, w)
    case 2 => ua < ub
    case 3 => ua >= ub
    case 4 => ua == ub
    case 5 => ua != ub
    case 6 => ua <= ub
    case 7 => ua > ub
    case 8 => (ua - ub) % Span(w) >= Span(w) / 2
    case 9 => (ua - ub) % Span(w) < Span(w) / 2
    case 10 => EvenParity((ua - ub) % Span(w) % 0x100)
    case 11 => !EvenParity((ua - ub) % Span(w) % 0x100)
    case 12 => sa < sb
    case 13 => sa >= sb
    case 14 => sa <= sb
    case _ => sa > sb
  }

  lemma ModOnce(t: int, m: int)
    requires m > 0 && -m <= t < 2 * m
    ensures t % m == if t < 0 then t + m else if t < m then t else t - m
  {
    if t < 0 {
      ModUnique(t, m, -1, t + m);
    } else if t < m {
      ModUnique(t, m, 0, t);
    } else {
      ModUnique(t, m, 1, t - m);
    }
  }

  lemma Halves(w: Width)
    ensures Span(w) == 2 * (Span(w) / 2) && Span(w) >= 0x100
  {
  }

  lemma LowRange(v: U64, w: Width)
    ensures 0 <= Low(v, w) < Span(w)
    ensures v < Span(w) ==> Low(v, w) == v
  {
  }

  lemma AddCases(a: U64, b: U64, w: Width, cin: bool)
    ensures
      var s, t := AddWithCarry(a, b, w, cin), Low(a, w) + Low(b, w) + if cin then 1 else 0;
      && s.result == t % Span(w) && (s.carry <==> t >= Span(w))
      && s.result == if t < Span(w) then t else t - Span(w)
  {
    hide Low;
    var x: int, y: int, c: int := Low(a, w), Low(b, w), if cin then 1 else 0;
    LowRange(a, w);
    LowRange(b, w);
    ModOnce(x + y + c, Span(w));
    if w == 8 {
      ModOnce(x + y, Span(w));
      ModOnce(Wrap64(x + y) + c, Span(w));
    }
  }

  lemma SubCases(a: U64, b: U64, w: Width, bin: bool)
    ensures
      var s, t := SubWithBorrow(a, b, w, bin), Low(a, w) - Low(b, w) - if bin then 1 else 0;
      && s.result == t % Span(w) && (s.carry <==> t < 0)
      && s.result == if t < 0 then t + Span(w) else t
  {
    hide Low;
    var x: int, y: int, c: int := Low(a, w), Low(b, w), if bin then 1 else 0;
    LowRange(a, w);
    LowRange(b, w);
    ModOnce(x - y - c, Span(w));
    if w == 8 {
      ModOnce(x - y, Span(w));
      ModOnce(Wrap64(x - y) - c, Span(w));
    } else {
      WrapThenReduce(x - y - c, w);
    }
  }

  /** Arithmetic modulo 2^64 loses nothing for a narrower width. */
  lemma WrapThenReduce(t: int, w: Width)
    ensures Wrap64(t) % Span(w) == t % Span(w)
  {
    var q := Wrap64(t) - t;
    assert exists k: int :: Wrap64(t) == t + k * 0x1_0000_0000_0000_0000 by {
      assert t == t / 0x1_0000_0000_0000_0000 * 0x1_0000_0000_0000_0000 + t % 0x1_0000_0000_0000_0000;
      assert Wrap64(t) == t + -(t / 0x1_0000_0000_0000_0000) * 0x1_0000_0000_0000_0000;
    }
    var k: int :| Wrap64(t) == t + k * 0x1_0000_0000_0000_0000;
    var m := 0x1_0000_0000_0000_0000 / Span(w);
    assert m * Span(w) == 0x1_0000_0000_0000_0000;
    assert Wrap64(t) == Span(w) * (t / Span(w) + k * m) + t % Span(w);
    ModUnique(Wrap64(t), Span(w), t / Span(w) + k * m, t % Span(w));
  }

  /** CF and OF are the mathematical carry and overflow, also with carry-in. */
  lemma AddExact(f: Flags, a: U64, b: U64, w: Width, cin: bool)
    ensures
      var (r, g) := Add(f, a, b, w, cin);
      var c := if cin then 1 else 0;
      && r == (Low(a, w) + Low(b, w) + c) % Span(w)
      && (g.cf <==> Low(a, w) + Low(b, w) + c >= Span(w))
      && (g.of <==> !FitsSigned(Signed(a, w) + Signed(b, w) + c, w))
  {
    hide EvenParity, Bit4, Span, Low, AddWithCarry;
    AddCases(a, b, w, cin);
    Halves(w);
    LowRange(a, w);
    LowRange(b, w);
    LowRange(AddWithCarry(a, b, w, cin).result, w);
  }

  lemma SubExact(f: Flags, a: U64, b: U64, w: Width, bin: bool)
    ensures
      var (r, g) := Sub(f, a, b, w, bin);
      var c := if bin then 1 else 0;
      && r == (Low(a, w) - Low(b, w) - c) % Span(w)
      && (g.cf <==> Low(a, w) < Low(b, w) + c)
      && (g.of <==> !FitsSigned(Signed(a, w) - Signed(b, w) - c, w))
  {
    hide EvenParity, Bit4, Span, Low, SubWithBorrow;
    SubCases(a, b, w, bin);
    Halves(w);
    LowRange(a, w);
    LowRange(b, w);
    LowRange(SubWithBorrow(a, b, w, bin).result, w);
  }

  /** Bit 4 of a sum shows whether the low nibbles carried. */
  lemma NibbleCarry(x: nat, y: nat, c: nat, r: nat, k: int)
    requires c <= 1 && (r == x + y + c || r == x + y + c - 0x20 * k)
    ensures (x / 0x10 % 2 + y / 0x10 % 2 + r / 0x10 % 2) % 2 == 1 <==> x % 0x10 + y % 0x10 + c >= 0x10
  {
    var p, q, carry := x / 0x10, y / 0x10, if x % 0x10 + y % 0x10 + c >= 0x10 then 1 else 0;
    assert r / 0x10 == p + q + carry || r / 0x10 == p + q + carry - 2 * k;
    Parity(p, q, r / 0x10, carry, if r == x + y + c then 0 else -k);
  }

  lemma NibbleBorrow(x: nat, y: nat, c: nat, r: nat, k: int)
    requires c <= 1 && (r == x - y - c || r == x - y - c + 0x20 * k)
    ensures (x / 0x10 % 2 + y / 0x10 % 2 + r / 0x10 % 2) % 2 == 1 <==> x % 0x10 < y % 0x10 + c
  {
    var p, q, borrow := x / 0x10, y / 0x10, if x % 0x10 < y % 0x10 + c then 1 else 0;
    assert r / 0x10 == p - q - borrow || r / 0x10 == p - q - borrow + 2 * k;
    Parity(p, q, r / 0x10, borrow, if r == x - y - c then -q - borrow else k - q - borrow);
  }

  lemma Parity(p: int, q: int, r: int, odd: int, k: int)
    requires 0 <= odd <= 1 && r == p + q + odd + 2 * k
    ensures (p % 2 + q % 2 + r % 2) % 2 == odd
  {
  }

  /** AF is the carry (borrow) out of the low nibble. */
  lemma AuxiliaryCarry(f: Flags, a: U64, b: U64, w: Width, c: bool)
    ensures Add(f, a, b, w, c).1.af <==> a % 0x10 + b % 0x10 + (if c then 1 else 0) >= 0x10
    ensures Sub(f, a, b, w, c).1.af <==> a % 0x10 < b % 0x10 + (if c then 1 else 0)
  {
    hide Add, Sub;
    AddNibble(f, a, b, w, c);
    SubNibble(f, a, b, w, c);
  }

  lemma AddNibble(f: Flags, a: U64, b: U64, w: Width, c: bool)
    ensures Add(f, a, b, w, c).1.af <==> a % 0x10 + b % 0x10 + (if c then 1 else 0) >= 0x10
  {
    hide EvenParity, Span, Low, AddWithCarry, SignSet;
    var x: int, y: int, n: int := Low(a, w), Low(b, w), if c then 1 else 0;
    AddCases(a, b, w, c);
    LowNibble(a, w);
    LowNibble(b, w);
    NibbleCarry(x, y, n, AddWithCarry(a, b, w, c).result, Span(w) / 0x20);
  }

  lemma SubNibble(f: Flags, a: U64, b: U64, w: Width, c: bool)
    ensures Sub(f, a, b, w, c).1.af <==> a % 0x10 < b % 0x10 + (if c then 1 else 0)
  {
    hide EvenParity, Span, Low, SubWithBorrow, SignSet;
    var x: int, y: int, n: int := Low(a, w), Low(b, w), if c then 1 else 0;
    SubCases(a, b, w, c);
    LowNibble(a, w);
    LowNibble(b, w);
    NibbleBorrow(x, y, n, SubWithBorrow(a, b, w, c).result, Span(w) / 0x20);
  }

  lemma LowNibble(v: U64, w: Width)
    ensures Low(v, w) % 0x10 == v % 0x10 && Span(w) == 0x20 * (Span(w) / 0x20)
  {
    var k, low: int := Span(w) / 0x10, Low(v, w);
    var q := v / Span(w);
    assert v == Span(w) * q + low && Span(w) == 0x10 * k;
    assert v == 0x10 * (k * q + low / 0x10) + low % 0x10;
    ModUnique(v, 0x10, k * q + low / 0x10, low % 0x10);
  }

  /** After a compare, every condition code decides the comparison it names. */
  lemma ConditionCodesDecide(f: Flags, a: U64, b: U64, w: Width, cc: nat)
    ensures EvalCC(Sub(f, a, b, w, false).1, cc) <==> Condition(cc, a, b, w)
  {
    hide EvenParity, Bit4, Span, Low, SubWithBorrow;
    SubExact(f, a, b, w, false);
    SubCases(a, b, w, false);
    Halves(w);
    LowRange(a, w);
    LowRange(b, w);
    LowRange(SubWithBorrow(a, b, w, false).result, w);
  }

  /** The specialised 32-bit paths change result and flags exactly as the generic
      ones do, the untouched flags included. */
  lemma FastPathsAgree(f: Flags, a: U64, b: U64)
    ensures Add32(f, a, b) == Add(f, a, b, 4, false)
    ensures Inc32(f, a) == Inc(f, a, 4)
    ensures Dec32(f, a) == Dec(f, a, 4)
  {
    hide Add32, Inc32, Dec32, Add, Inc, Dec;
    FastAdd(f, a, b);
    FastInc(f, a);
    FastDec(f, a);
  }

  lemma FastAdd(f: Flags, a: U64, b: U64)
    ensures Add32(f, a, b) == Add(f, a, b, 4, false)
  {
    hide EvenParity, Bit4, AddWithCarry;
    AddCases(a, b, 4, false);
    ModOnce(a % 0x1_0000_0000 + b % 0x1_0000_0000, 0x1_0000_0000);
  }

  lemma FastInc(f: Flags, a: U64)
    ensures Inc32(f, a) == Inc(f, a, 4)
  {
    hide EvenParity, Bit4, AddWithCarry, Low;
    Up32(a);
  }

  lemma Up32(a: U64)
    ensures
      var x, r := a % 0x1_0000_0000, AddWithCarry(a, 1, 4, false).result;
      && Low(a, 4) == x && Low(1, 4) == 1 && Low(r, 4) == r == (x + 1) % 0x1_0000_0000
      && r == if x == 0xffff_ffff then 0 else x + 1
  {
    hide AddWithCarry, Low;
    AddCases(a, 1, 4, false);
    Low32(a);
    Low32(1);
    Low32(AddWithCarry(a, 1, 4, false).result);
  }

  lemma FastDec(f: Flags, a: U64)
    ensures Dec32(f, a) == Dec(f, a, 4)
  {
    hide EvenParity, Bit4, SubWithBorrow, Low;
    Down32(a);
  }

  lemma Down32(a: U64)
    ensures
      var x, r := a % 0x1_0000_0000, SubWithBorrow(a, 1, 4, false).result;
      && Low(a, 4) == x && Low(1, 4) == 1 && Low(r, 4) == r == (x - 1) % 0x1_0000_0000
      && r == if x == 0 then 0xffff_ffff else x - 1
  {
    hide SubWithBorrow, Low;
    SubCases(a, 1, 4, false);
    Low32(a);
    Low32(1);
    Low32(SubWithBorrow(a, 1, 4, false).result);
  }

  lemma Low32(v: U64)
    ensures Low(v, 4) == v % 0x1_0000_0000 && (v < 0x1_0000_0000 ==> Low(v, 4) == v)
  {
  }
}
