/** MUL, IMUL, DIV and IDIV as a program sees them: what rDX:rAX and the flags hold
    afterwards.  For 8-bit operands the code uses DL:AL, where the architecture has
    AX; when that makes a difference to MUL is stated exactly. */
module MulDiv {
  import opened Words
  import opened Registers
  import opened Arithmetic
  import opened WideArithmetic
  import opened Instructions
  import opened Semantics

  const MUL: nat := 4
  const IMUL: nat := 5
  const DIV: nat := 6
  const IDIV: nat := 7

  function RegOf(a: Arch, i: RegIdx, w: Width): U64 {
    ReadWidth(a.regs.gpr, i, w, true)
  }

  /** rDX:rAX as an unsigned number. */
  function Whole(a: Arch, w: Width): nat {
    RegOf(a, RDX, w) * Span(w) + RegOf(a, RAX, w)
  }

  /** rDX:rAX as a signed number. */
  function WholeSigned(a: Arch, w: Width): int {
    Dividend(RegOf(a, RDX, w), RegOf(a, RAX, w), w)
  }

  lemma RegLow(a: Arch, i: RegIdx, w: Width)
    ensures RegOf(a, i, w) < Span(w) && Low(RegOf(a, i, w), w) == RegOf(a, i, w)
  {
    LowRange(a.regs.gpr[i], w);
    LowRange(Low(a.regs.gpr[i], w), w);
  }

  /** Nothing but rAX, rDX, CF and OF has changed. */
  ghost predicate OnlyPair(a: Arch, b: Arch) {
    && b.mem == a.mem
    && b.regs == a.regs.(gpr := b.regs.gpr, flags := a.regs.flags.(cf := b.regs.flags.cf, of := b.regs.flags.of))
    && forall j: RegIdx :: j != RAX && j != RDX ==> b.regs.gpr[j] == a.regs.gpr[j]
  }

  lemma PairOnly(a: Arch, w: Width, lo: U64, hi: U64, on: bool)
    ensures OnlyPair(a, WithPair(a, w, lo, hi)) && OnlyPair(a, WithOverflow(WithPair(a, w, lo, hi), on))
  {
    hide WriteWidth;
    var g := WriteWidth(a.regs.gpr, RAX, w, true, lo);
    WriteFrame(a.regs.gpr, RAX, w, true, lo);
    WriteFrame(g, RDX, w, true, hi);
  }

  lemma PairBack(a: Arch, w: Width, lo: U64, hi: U64)
    requires lo < Span(w) && hi < Span(w)
    ensures var b := WithPair(a, w, lo, hi); RegOf(b, RAX, w) == lo && RegOf(b, RDX, w) == hi && b.mem == a.mem
  {
    hide WriteWidth, ReadWidth, Low;
    var g := WriteWidth(a.regs.gpr, RAX, w, true, lo);
    WriteThenRead(a.regs.gpr, RAX, w, true, lo);
    WriteThenRead(g, RDX, w, true, hi);
    OtherReg(g, w, hi);
    LowRange(lo, w);
    LowRange(hi, w);
  }

  lemma OtherReg(g: Gprs, w: Width, v: U64)
    ensures ReadWidth(WriteWidth(g, RDX, w, true, v), RAX, w, true) == ReadWidth(g, RAX, w, true)
  {
    hide Low;
  }

  /** MUL: the registers hold the true product, and CF and OF say whether it
      needs rDX. */
  lemma MulRegisters(a: Arch, end: U64, rm: Operand, w: Width)
    requires ReadOperand(a, end, rm, w).Ok?
    ensures
      var e, t := Exec(a, end, Grp3(MUL, rm, w)), RegOf(a, RAX, w) * Low(ReadOperand(a, end, rm, w).value, w);
      && e.error.None? && OnlyPair(a, e.arch) && Whole(e.arch, w) == t
      && e.arch.regs.flags.cf == e.arch.regs.flags.of == (t >= Span(w))
  {
    hide Low, WithPair, MulUnsigned, ReadOperand, ReadWidth, Span;
    var x := ReadOperand(a, end, rm, w).value;
    var p := MulUnsigned(RegOf(a, RAX, w), x, w);
    RegLow(a, RAX, w);
    MulUnsignedExact(RegOf(a, RAX, w), x, w);
    PairBack(a, w, p.lo, p.hi);
    PairOnly(a, w, p.lo, p.hi, p.hi != 0);
  }

  /** IMUL: the same for signed numbers; CF and OF say that the product does not fit rAX. */
  lemma ImulRegisters(a: Arch, end: U64, rm: Operand, w: Width)
    requires ReadOperand(a, end, rm, w).Ok?
    ensures
      var e := Exec(a, end, Grp3(IMUL, rm, w));
      var t := Signed(RegOf(a, RAX, w), w) * Signed(ReadOperand(a, end, rm, w).value, w);
      && e.error.None? && OnlyPair(a, e.arch) && WholeSigned(e.arch, w) == t
      && e.arch.regs.flags.cf == e.arch.regs.flags.of == !FitsSigned(t, w)
  {
    hide Low, WithPair, MulSigned, ReadOperand, ReadWidth, Span, Signed, ExtendSignHi, FitsSigned;
    var x := ReadOperand(a, end, rm, w).value;
    var p := MulSigned(RegOf(a, RAX, w), x, w);
    MulSignedExact(RegOf(a, RAX, w), x, w);
    PairBack(a, w, p.lo, p.hi);
    PairOnly(a, w, p.lo, p.hi, p.hi != ExtendSignHi(p.lo, w));
    LowRange(p.lo, w);
  }

  /** DIV: rAX and rDX are the Euclidean quotient and remainder of rDX:rAX, or an
      error is reported and nothing changed, exactly when the divisor is zero or
      the quotient does not fit. */
  lemma DivRegisters(a: Arch, end: U64, rm: Operand, w: Width)
    requires ReadOperand(a, end, rm, w).Ok?
    ensures
      var e, n, d := Exec(a, end, Grp3(DIV, rm, w)), Whole(a, w), Low(ReadOperand(a, end, rm, w).value, w);
      && (e.error.None? <==> d != 0 && n / d < Span(w))
      && (e.error.None? ==> RegOf(e.arch, RAX, w) == n / d && RegOf(e.arch, RDX, w) == n % d && OnlyPair(a, e.arch))
      && (e.error.Some? ==> e.arch == a)
  {
    hide Low, WithPair, DivUnsigned, ReadOperand, ReadWidth, Span;
    var x := ReadOperand(a, end, rm, w).value;
    if Low(x, w) != 0 {
      RegLow(a, RAX, w);
      RegLow(a, RDX, w);
      DivUnsignedExact(RegOf(a, RDX, w), RegOf(a, RAX, w), x, w);
      LowRange(x, w);
      match DivUnsigned(RegOf(a, RDX, w), RegOf(a, RAX, w), x, w)
      case Quot(q, r) =>
        Quotient(Whole(a, w), Low(x, w), q, r);
        PairBack(a, w, q, r);
        PairOnly(a, w, q, r, false);
      case Overflow =>
    }
  }

  lemma Quotient(n: nat, d: nat, q: nat, r: nat)
    requires d > 0 && r < d && n == q * d + r
    ensures n / d == q && n % d == r
  {
    ModUnique(n, d, q, r);
  }

  /** IDIV: the registers hold the quotient truncated toward zero and its remainder
      exactly when `IdivTrusted`. */
  lemma IdivRegisters(a: Arch, end: U64, rm: Operand, w: Width)
    requires ReadOperand(a, end, rm, w).Ok? && Low(ReadOperand(a, end, rm, w).value, w) != 0
    ensures
      var x := ReadOperand(a, end, rm, w).value;
      var e, n, d := Exec(a, end, Grp3(IDIV, rm, w)), WholeSigned(a, w), Signed(x, w);
      && d != 0
      && (IdivTrusted(RegOf(a, RDX, w), RegOf(a, RAX, w), x, w) <==>
            && e.error.None?
            && Signed(RegOf(e.arch, RAX, w), w) == Trunc(n, d)
            && Signed(RegOf(e.arch, RDX, w), w) == n - d * Trunc(n, d))
      && OnlyPair(a, e.arch)
  {
    hide Low, WithPair, DivSigned, ReadOperand, ReadWidth, Span, Trunc, Dividend, IdivTrusted, Signed;
    var x := ReadOperand(a, end, rm, w).value;
    SignedNonzero(x, w);
    DivSignedExactlyWhen(RegOf(a, RDX, w), RegOf(a, RAX, w), x, w);
    match DivSigned(RegOf(a, RDX, w), RegOf(a, RAX, w), x, w)
    case Quot(q, r) =>
      QuotientLow(RegOf(a, RDX, w), RegOf(a, RAX, w), x, w);
      PairBack(a, w, q, r);
      PairOnly(a, w, q, r, false);
    case Unsupported =>
    case Overflow =>
  }

  lemma SignedNonzero(v: U64, w: Width)
    requires Low(v, w) != 0
    ensures Signed(v, w) != 0
  {
  }

  lemma QuotientLow(dx: U64, ax: U64, divisor: U64, w: Width)
    requires Low(divisor, w) != 0
    ensures var res := DivSigned(dx, ax, divisor, w); res.Quot? ==> res.q < Span(w) && res.r < Span(w)
  {
    hide Trunc, Wrap64;
  }

  /** DIV undoes MUL: with the same operand it brings rAX back and clears rDX. */
  lemma DivAfterMul(a: Arch, end: U64, rm: Operand, next: U64, again: Operand, w: Width)
    requires ReadOperand(a, end, rm, w).Ok? && Low(ReadOperand(a, end, rm, w).value, w) != 0
    requires ReadOperand(Exec(a, end, Grp3(MUL, rm, w)).arch, next, again, w) == ReadOperand(a, end, rm, w)
    ensures
      var e := Exec(Exec(a, end, Grp3(MUL, rm, w)).arch, next, Grp3(DIV, again, w));
      e.error.None? && RegOf(e.arch, RAX, w) == RegOf(a, RAX, w) && RegOf(e.arch, RDX, w) == 0 && e.arch.mem == a.mem
  {
    hide Low, Exec, ReadOperand, ReadWidth, Span, Whole;
    var m, x := Exec(a, end, Grp3(MUL, rm, w)).arch, ReadOperand(a, end, rm, w).value;
    MulRegisters(a, end, rm, w);
    DivRegisters(m, next, again, w);
    RegLow(a, RAX, w);
    Quotient(Whole(m, w), Low(x, w), RegOf(a, RAX, w), 0);
  }

  /** 8-bit MUL puts the high byte of the product into DL and not into AH, so AX is
      the product, as the manual has it, exactly if AH held that byte before. */
  lemma ByteMulExactlyWhen(a: Arch, end: U64, rm: Operand)
    requires ReadOperand(a, end, rm, 1).Ok?
    ensures
      var t := RegOf(a, RAX, 1) * Low(ReadOperand(a, end, rm, 1).value, 1);
      Exec(a, end, Grp3(MUL, rm, 1)).arch.regs.gpr[RAX] % 0x1_0000 == t <==>
      a.regs.gpr[RAX] / 0x100 % 0x100 == t / 0x100
  {
    hide ReadOperand, MulUnsigned, Low, Whole;
    MulRegisters(a, end, rm, 1);
    var b := Exec(a, end, Grp3(MUL, rm, 1)).arch;
    var t := RegOf(a, RAX, 1) * Low(ReadOperand(a, end, rm, 1).value, 1);
    ByteParts(b, t);
    HighKept(a, end, rm);
    TwoBytes(b.regs.gpr[RAX]);
  }

  lemma ByteParts(b: Arch, t: nat)
    requires Whole(b, 1) == t
    ensures t / 0x100 == RegOf(b, RDX, 1) && t % 0x100 == RegOf(b, RAX, 1) && RegOf(b, RAX, 1) == b.regs.gpr[RAX] % 0x100
  {
    ModUnique(t, 0x100, RegOf(b, RDX, 1), RegOf(b, RAX, 1));
  }

  lemma TwoBytes(x: nat)
    ensures x % 0x1_0000 == x / 0x100 % 0x100 * 0x100 + x % 0x100
  {
    ModSplit(x, 0x100);
  }

  lemma HighKept(a: Arch, end: U64, rm: Operand)
    requires ReadOperand(a, end, rm, 1).Ok?
    ensures Exec(a, end, Grp3(MUL, rm, 1)).arch.regs.gpr[RAX] / 0x100 == a.regs.gpr[RAX] / 0x100
  {
    hide ReadOperand, MulUnsigned, Low, WriteWidth;
    var p := MulUnsigned(RegOf(a, RAX, 1), ReadOperand(a, end, rm, 1).value, 1);
    var g := WriteWidth(a.regs.gpr, RAX, 1, true, p.lo);
    WriteFrame(a.regs.gpr, RAX, 1, true, p.lo);
    WriteFrame(g, RDX, 1, true, p.hi);
    Pow256Widths();
  }
}
