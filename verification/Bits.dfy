/** The bits of machine words, and AND, OR and XOR bit by bit. */
module Bits {
  import opened Words
  import opened Registers
  import opened Semantics

  // ---- bits ------------------------------------------------------------------

  /** Bit i of a number. */
  predicate BitAt(x: nat, i: nat) {
    if i == 0 then x % 2 == 1 else BitAt(x / 2, i - 1)
  }

  function Pow2(n: nat): (p: nat)
    ensures p > 0
  {
    if n == 0 then 1 else 2 * Pow2(n - 1)
  }

  lemma Pow2Widths()
    ensures Pow2(8) == 0x100 && Pow2(16) == 0x1_0000 && Pow2(32) == 0x1_0000_0000
    ensures Pow2(64) == 0x1_0000_0000_0000_0000
  {
    assert Pow2(4) == 16;
    Pow2Add(4, 4);
    Pow2Add(8, 8);
    Pow2Add(16, 16);
    Pow2Add(32, 32);
  }

  lemma {:induction false} Pow2Add(m: nat, n: nat)
    ensures Pow2(m + n) == Pow2(m) * Pow2(n)
  {
    if m > 0 {
      Pow2Add(m - 1, n);
      assert Pow2(m + n) == 2 * Pow2(m - 1 + n);
    }
  }

  lemma SpanIsPow2(w: Width)
    ensures Span(w) == Pow2(8 * w)
  {
    hide Pow2;
    Pow2Widths();
  }

  /** Cutting a number off above bit n leaves the bits below. */
  lemma {:induction false} ModBits(x: nat, n: nat, i: nat)
    requires i < n
    ensures BitAt(x % Pow2(n), i) == BitAt(x, i)
  {
    var p := Pow2(n - 1);
    var q, r := x / 2 / p, x / 2 % p;
    assert x == 2 * p * q + (2 * r + x % 2);
    ModUnique(x, 2 * p, q, 2 * r + x % 2);
    assert (x % Pow2(n)) / 2 == r && x % Pow2(n) % 2 == x % 2;
    if i > 0 {
      ModBits(x / 2, n - 1, i - 1);
    }
  }

  lemma LowBits(v: U64, w: Width, i: nat)
    requires i < 8 * w
    ensures BitAt(Low(v, w), i) == BitAt(v, i)
  {
    SpanIsPow2(w);
    ModBits(v, 8 * w, i);
  }

  /** The sign is the top bit. */
  lemma {:induction false} TopBit(x: nat, n: nat)
    requires n > 0 && x < Pow2(n)
    ensures BitAt(x, n - 1) <==> x >= Pow2(n - 1)
  {
    if n > 1 {
      TopBit(x / 2, n - 1);
    }
  }

  /** A number is determined by its bits. */
  lemma {:induction false} BitsDetermine(x: nat, y: nat, n: nat)
    requires x < Pow2(n) && y < Pow2(n) && forall i: nat :: i < n ==> BitAt(x, i) == BitAt(y, i)
    ensures x == y
  {
    if n > 0 {
      assert BitAt(x, 0) == BitAt(y, 0);
      forall i: nat | i < n - 1
        ensures BitAt(x / 2, i) == BitAt(y / 2, i)
      {
        assert BitAt(x, i + 1) == BitAt(y, i + 1);
      }
      BitsDetermine(x / 2, y / 2, n - 1);
    }
  }

  lemma {:induction false} FlippedBits(x: nat, n: nat, i: nat)
    requires x < Pow2(n) && i < n
    ensures BitAt(Pow2(n) - 1 - x, i) == !BitAt(x, i)
  {
    if i > 0 {
      assert (Pow2(n) - 1 - x) / 2 == Pow2(n - 1) - 1 - x / 2;
      FlippedBits(x / 2, n - 1, i - 1);
    }
  }

  // ---- AND, OR and XOR -------------------------------------------------------

  lemma {:induction false} BitwiseBits(op: Logic, a: nat, b: nat, n: nat, i: nat)
    requires i < n
    ensures
      BitAt(Bitwise(op, a, b, n), i) ==
      match op
      case AND => BitAt(a, i) && BitAt(b, i)
      case OR => BitAt(a, i) || BitAt(b, i)
      case XOR => BitAt(a, i) != BitAt(b, i)
  {
    var low, rest := Bit(LogicBit(op, Odd(a), Odd(b)), 1), Bitwise(op, a / 2, b / 2, n - 1);
    assert Bitwise(op, a, b, n) == low + 2 * rest;
    assert (low + 2 * rest) % 2 == low && (low + 2 * rest) / 2 == rest;
    if i > 0 {
      BitwiseBits(op, a / 2, b / 2, n - 1, i - 1);
    }
  }

  lemma {:induction false} BitwiseBound(op: Logic, a: nat, b: nat, n: nat)
    ensures Bitwise(op, a, b, n) < Pow2(n)
  {
    if n > 0 {
      BitwiseBound(op, a / 2, b / 2, n - 1);
    }
  }

  lemma LogicalIs(op: Logic, a: U64, b: U64)
    ensures Logical(op, a, b) == Bitwise(op, a, b, 64)
  {
    hide Bitwise, Pow2;
    BitwiseBound(op, a, b, 64);
    Pow2Widths();
  }

  /** The three operations, bit by bit. */
  lemma LogicalBits(a: U64, b: U64, i: nat)
    requires i < 64
    ensures BitAt(Logical(AND, a, b), i) <==> BitAt(a, i) && BitAt(b, i)
    ensures BitAt(Logical(OR, a, b), i) <==> BitAt(a, i) || BitAt(b, i)
    ensures BitAt(Logical(XOR, a, b), i) <==> BitAt(a, i) != BitAt(b, i)
  {
    hide Bitwise, BitAt, Logical;
    LogicalIs(AND, a, b);
    LogicalIs(OR, a, b);
    LogicalIs(XOR, a, b);
    BitwiseBits(AND, a, b, 64, i);
    BitwiseBits(OR, a, b, 64, i);
    BitwiseBits(XOR, a, b, 64, i);
  }

  lemma {:induction false} AddFromBits(a: nat, b: nat, n: nat)
    requires a < Pow2(n) && b < Pow2(n)
    ensures a + b == Bitwise(XOR, a, b, n) + 2 * Bitwise(AND, a, b, n)
    ensures Bitwise(OR, a, b, n) == Bitwise(XOR, a, b, n) + Bitwise(AND, a, b, n)
  {
    if n > 0 {
      AddFromBits(a / 2, b / 2, n - 1);
    }
  }

  /** A sum is the bits without their carries, and the carries one place up; OR is
      the first and the carries in place.  So a XOR a is 0. */
  lemma LogicAndSums(a: U64, b: U64)
    ensures a + b == Logical(XOR, a, b) + 2 * Logical(AND, a, b)
    ensures Logical(OR, a, b) == Logical(XOR, a, b) + Logical(AND, a, b)
    ensures Logical(XOR, a, a) == 0 && Logical(AND, a, a) == a && Logical(OR, a, a) == a
  {
    hide Bitwise, Logical, Pow2;
    LogicalIs(XOR, a, b);
    LogicalIs(AND, a, b);
    LogicalIs(OR, a, b);
    Pow2Widths();
    AddFromBits(a, b, 64);
    LogicSelf(a, 64);
    LogicalIs(XOR, a, a);
    LogicalIs(AND, a, a);
    LogicalIs(OR, a, a);
  }

  lemma {:induction false} LogicSelf(a: nat, n: nat)
    requires a < Pow2(n)
    ensures Bitwise(XOR, a, a, n) == 0 && Bitwise(AND, a, a, n) == a && Bitwise(OR, a, a, n) == a
  {
    if n > 0 {
      LogicSelf(a / 2, n - 1);
    }
  }

  // ---- EFLAGS ----------------------------------------------------------------

  /** The flags are the bits of the EFLAGS word that the manual numbers them by: CF 0,
      PF 2, AF 4, ZF 6, SF 7, DF 10 and OF 11 (Intel SDM Vol. 1, section 3.4.3). */
  lemma EflagsBits(v: nat)
    ensures
      var f := Unpack(v);
      && f.cf == BitAt(v, 0) && f.pf == BitAt(v, 2) && f.af == BitAt(v, 4) && f.zf == BitAt(v, 6)
      && f.sf == BitAt(v, 7) && f.df == BitAt(v, 10) && f.of == BitAt(v, 11)
  {
    hide Bit, BitAt;
    BitsDown(v);
    BitsDown(v / 2 / 2 / 2 / 2);
    BitsDown(v / 2 / 2 / 2 / 2 / 2 / 2 / 2 / 2);
  }

  lemma BitsDown(v: nat)
    ensures BitAt(v, 0) == Odd(v) && BitAt(v, 1) == Odd(v / 2) && BitAt(v, 2) == Odd(v / 2 / 2)
    ensures BitAt(v, 3) == Odd(v / 2 / 2 / 2)
    ensures forall i: nat :: BitAt(v, i + 4) == BitAt(v / 2 / 2 / 2 / 2, i)
  {
    forall i: nat
      ensures BitAt(v, i + 4) == BitAt(v / 2 / 2 / 2 / 2, i)
    {
      assert BitAt(v, i + 4) == BitAt(v / 2, i + 3);
      assert BitAt(v / 2, i + 3) == BitAt(v / 2 / 2, i + 2);
      assert BitAt(v / 2 / 2, i + 2) == BitAt(v / 2 / 2 / 2, i + 1);
    }
  }
}
