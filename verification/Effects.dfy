/** What instructions do to the values a guest program sees: laws about `Exec` that
    name none of the functions it is made of.  Logic is stated bit by bit, sums and
    differences as numbers, the stack by what comes back from it. */
module Effects {
  import opened Words
  import opened FlatMemory
  import opened Registers
  import opened Arithmetic
  import opened Instructions
  import opened Semantics
  import opened Bits

  // ---- operands --------------------------------------------------------------

  const TWO64: int := 0x1_0000_0000_0000_0000

  /** An FS or GS prefix adds that segment's base and not the other's; without one
      base, scaled index and displacement add up, a missing part being 0, and a
      RIP-relative address counts from the end of the instruction. */
  lemma AddressParts(r: Registers, end: U64, b: RegIdx, x: RegIdx, scale: nat, d: int)
    ensures EffAddr(r, end, Mem(Some(b), Some(x), scale, d, NoSeg)) == (r.gpr[b] + r.gpr[x] * scale + d) % TWO64
    ensures EffAddr(r, end, Mem(Some(b), None, scale, d, NoSeg)) == (r.gpr[b] + d) % TWO64
    ensures EffAddr(r, end, Mem(None, Some(x), scale, d, NoSeg)) == (r.gpr[x] * scale + d) % TWO64
    ensures EffAddr(r, end, Mem(None, None, scale, d, NoSeg)) == d % TWO64
    ensures EffAddr(r, end, Rip(d)) == (end + d) % TWO64
  {
    hide Wrap64;
    WrapIs(r.gpr[b] + r.gpr[x] * scale + d);
    WrapIs(r.gpr[b] + d);
    WrapIs(r.gpr[x] * scale + d);
    WrapIs(d);
    WrapIs(end + d);
  }

  lemma SegmentBases(r: Registers, end: U64, base: Option<RegIdx>, index: Option<RegIdx>, scale: nat, d: int)
    ensures
      var plain := EffAddr(r, end, Mem(base, index, scale, d, NoSeg));
      && EffAddr(r, end, Mem(base, index, scale, d, SegFS)) == (plain + r.fsbase) % TWO64
      && EffAddr(r, end, Mem(base, index, scale, d, SegGS)) == (plain + r.gsbase) % TWO64
  {
    hide Wrap64;
    var b := if base.Some? then r.gpr[base.value] else 0;
    var i := if index.Some? then r.gpr[index.value] * scale else 0;
    WrapSum(r.fsbase, b + i + d);
    WrapSum(r.gsbase, b + i + d);
    WrapIs(Wrap64(b + i + d) + r.fsbase);
    WrapIs(Wrap64(b + i + d) + r.gsbase);
  }

  /** Nothing but the bytes of the operand in memory has changed. */
  ghost predicate OnlyAt(before: Flat, after: Flat, addr: U64, n: nat) {
    && after.Keys == before.Keys
    && (forall a: U64 :: a in before ==> after[a].prot == before[a].prot)
    && (forall a: U64 :: a in before && (forall i: nat :: i < n ==> At(addr, i) != a) ==> after[a] == before[a])
  }

  /** Nothing but the operand has changed: of the registers only the one that holds
      it, and nothing at all if it is in memory. */
  ghost predicate OnlyOperand(before: Arch, after: Arch, end: U64, o: Operand, w: Width) {
    if o.Reg? then
      && after.mem == before.mem && after.regs == before.regs.(gpr := after.regs.gpr)
      && forall j: RegIdx :: j != Holder(o.reg, w, o.rex).0 ==> after.regs.gpr[j] == before.regs.gpr[j]
    else after.regs == before.regs && OnlyAt(before.mem, after.mem, EffAddr(before.regs, end, o), w)
  }

  lemma WordStored(mem: Flat, addr: U64, v: U64, w: Width)
    requires Store(mem, addr, NatToLe(v, w), NeedWrite).fault.None? && Reach(mem, addr, w, NeedRead) == w
    ensures
      var after := Store(mem, addr, NatToLe(v, w), NeedWrite).mem;
      OnlyAt(mem, after, addr, w) && ReadMem(after, addr, w) == Ok(Low(v, w))
  {
    hide LeToNat, NatToLe, Pow256;
    var data := NatToLe(v, w);
    StoreOnlyAt(mem, addr, data);
    LoadAfterStore(mem, addr, data, NeedWrite, NeedRead);
    LeRoundTrip(v, w);
    Pow256Widths();
    assert Pow256(w) == Span(w);
  }

  lemma StoreOnlyAt(mem: Flat, addr: U64, data: seq<Byte>)
    requires |data| <= 8
    ensures OnlyAt(mem, Store(mem, addr, data, NeedWrite).mem, addr, |data|)
  {
    StoreExact(mem, addr, data, NeedWrite);
  }

  lemma ReadableReaches(mem: Flat, addr: U64, w: Width)
    requires ReadMem(mem, addr, w).Ok?
    ensures Reach(mem, addr, w, NeedRead) == w
  {
  }

  /** What an instruction writes to an operand is what the next one reads there. */
  lemma WrittenReadsBack(a: Arch, end: U64, o: Operand, w: Width, v: U64)
    requires ReadOperand(a, end, o, w).Ok? && WriteOperand(a, end, o, w, v).error.None?
    ensures
      var after := WriteOperand(a, end, o, w, v).arch;
      ReadOperand(after, end, o, w) == Ok(Low(v, w)) && OnlyOperand(a, after, end, o, w)
  {
    hide Low, ReadWidth, WriteWidth, Store, NatToLe, ReadMem, EffAddr, OnlyAt;
    if o.Reg? {
      WriteThenRead(a.regs.gpr, o.reg, w, o.rex, v);
      WriteFrame(a.regs.gpr, o.reg, w, o.rex, v);
    } else {
      var addr := EffAddr(a.regs, end, o);
      ReadableReaches(a.mem, addr, w);
      WordStored(a.mem, addr, v, w);
    }
  }

  // ---- the eight ALU operations ----------------------------------------------

  /** ADD, OR, ADC, SBB, AND, SUB, XOR and CMP in the order the manual numbers them:
      the w bytes r that the operation gives for x and y and the carry before it. */
  ghost predicate AluMeans(op: nat, x: U64, y: U64, cf: bool, r: U64, w: Width) {
    var c := if cf then 1 else 0;
    && r < Span(w)
    && match op
       case 0 => r == (Low(x, w) + Low(y, w)) % Span(w)
       case 1 => forall i: nat :: i < 8 * w ==> (BitAt(r, i) <==> BitAt(x, i) || BitAt(y, i))
       case 2 => r == (Low(x, w) + Low(y, w) + c) % Span(w)
       case 3 => r == (Low(x, w) - Low(y, w) - c) % Span(w)
       case 4 => forall i: nat :: i < 8 * w ==> (BitAt(r, i) <==> BitAt(x, i) && BitAt(y, i))
       case 5 => r == (Low(x, w) - Low(y, w)) % Span(w)
       case 6 => forall i: nat :: i < 8 * w ==> (BitAt(r, i) <==> BitAt(x, i) != BitAt(y, i))
       case _ => r == (Low(x, w) - Low(y, w)) % Span(w)
  }

  /** That is one value only. */
  lemma AluMeansOne(op: nat, x: U64, y: U64, cf: bool, r: U64, s: U64, w: Width)
    requires AluMeans(op, x, y, cf, r, w) && AluMeans(op, x, y, cf, s, w)
    ensures r == s
  {
    hide BitAt, Low;
    if op == 1 || op == 4 || op == 6 {
      SpanIsPow2(w);
      assert forall i: nat :: i < 8 * w ==> BitAt(r, i) == BitAt(s, i);
      BitsDetermine(r, s, 8 * w);
    }
  }

  /** Carry, overflow and auxiliary carry of the operation. */
  ghost predicate CarriesMean(op: nat, x: U64, y: U64, cf: bool, w: Width, g: Flags) {
    var c := if cf && (op == 2 || op == 3) then 1 else 0;
    if op == 0 || op == 2 then
      && (g.cf <==> Low(x, w) + Low(y, w) + c >= Span(w))
      && (g.of <==> !FitsSigned(Signed(x, w) + Signed(y, w) + c, w))
      && (g.af <==> x % 0x10 + y % 0x10 + c >= 0x10)
    else if op == 3 || op == 5 || op == 7 then
      && (g.cf <==> Low(x, w) < Low(y, w) + c)
      && (g.of <==> !FitsSigned(Signed(x, w) - Signed(y, w) - c, w))
      && (g.af <==> x % 0x10 < y % 0x10 + c)
    else !g.cf && !g.of && !g.af
  }

  /** Exclusive or of the low n bits. */
  predicate OddBits(r: nat, n: nat) {
    n > 0 && BitAt(r, n - 1) != OddBits(r, n - 1)
  }

  /** Zero, sign and parity of a w-byte result. */
  ghost predicate ResultMeans(r: nat, w: Width, g: Flags) {
    g.zf == (r == 0) && g.sf == BitAt(r, 8 * w - 1) && g.pf == !OddBits(r, 8)
  }

  /** DF and the bits the engine does not compute stay as they were. */
  predicate KeepsOthers(f: Flags, g: Flags) {
    g.df == f.df && g.rest == f.rest
  }

  lemma ParityIs(r: nat)
    ensures EvenParity(r % 0x100) == !OddBits(r, 8)
  {
    OnesParity(r % 0x100, 8);
    Pow2Widths();
    OddBitsLow(r, 8, 8);
  }

  lemma {:induction false} OddBitsLow(r: nat, n: nat, m: nat)
    requires m <= n
    ensures OddBits(r % Pow2(n), m) == OddBits(r, m)
  {
    if m > 0 {
      OddBitsLow(r, n, m - 1);
      ModBits(r, n, m - 1);
    }
  }

  lemma {:induction false} OnesParity(r: nat, n: nat)
    ensures Ones(r, n) % 2 == 1 <==> OddBits(r, n)
  {
    if n > 0 {
      OnesParity(r / 2, n - 1);
      OddBitsShift(r, n);
    }
  }

  lemma {:induction false} OddBitsShift(r: nat, n: nat)
    requires n > 0
    ensures OddBits(r, n) <==> (r % 2 == 1) != OddBits(r / 2, n - 1)
  {
    if n > 1 {
      OddBitsShift(r, n - 1);
    }
  }

  lemma SignIsTopBit(r: U64, w: Width)
    ensures SignSet(r, w) == BitAt(r, 8 * w - 1)
  {
    hide BitAt;
    SpanIsPow2(w);
    LowRange(r, w);
    TopBit(Low(r, w), 8 * w);
    LowBits(r, w, 8 * w - 1);
    assert Pow2(8 * w) == 2 * Pow2(8 * w - 1);
  }

  lemma ResultFlagsMean(f: Flags, r: U64, w: Width)
    ensures ResultMeans(Low(r, w), w, ResultFlags(f, r, w)) && KeepsOthers(f, ResultFlags(f, r, w))
  {
    hide Low, EvenParity, BitAt, OddBits, SignSet;
    SignIsTopBit(r, w);
    LowBits(r, w, 8 * w - 1);
    ParityIs(r);
    SpanIsPow2(w);
    OddBitsLow(r, 8 * w, 8) by { hide Pow2; }
    LowIs(r, w);
  }

  lemma LowIs(r: U64, w: Width)
    ensures Low(r, w) == r % Span(w)
  {
  }

  lemma LogicMeans(op: nat, f: Flags, x: U64, y: U64, w: Width)
    requires op == 1 || op == 4 || op == 6
    ensures
      var (r, g) := AluResult(op, f, x, y, w);
      AluMeans(op, x, y, f.cf, Low(r, w), w) && CarriesMean(op, x, y, f.cf, w, g) && ResultMeans(Low(r, w), w, g)
      && KeepsOthers(f, g)
  {
    hide BitAt, Logical, Low, ResultFlags, ResultMeans, KeepsOthers;
    var (r, g) := AluResult(op, f, x, y, w);
    forall i: nat | i < 8 * w
      ensures BitAt(Low(r, w), i) == BitAt(r, i)
      ensures BitAt(Logical(AND, x, y), i) <==> BitAt(x, i) && BitAt(y, i)
      ensures BitAt(Logical(OR, x, y), i) <==> BitAt(x, i) || BitAt(y, i)
      ensures BitAt(Logical(XOR, x, y), i) <==> BitAt(x, i) != BitAt(y, i)
    {
      LowBits(r, w, i);
      LogicalBits(x, y, i);
    }
    LowRange(r, w);
    var f1 := f.(cf := false, of := false, af := false);
    ResultFlagsMean(f1, r, w);
    KeepsFlags(f1, r, w);
    KeepsTrans(f, f1, g);
  }

  lemma KeepsFlags(f: Flags, r: U64, w: Width)
    ensures var g := ResultFlags(f, r, w); g.cf == f.cf && g.of == f.of && g.af == f.af
  {
  }

  lemma KeepsTrans(f: Flags, g: Flags, h: Flags)
    requires g.df == f.df && g.rest == f.rest && KeepsOthers(g, h)
    ensures KeepsOthers(f, h)
  {
  }

  lemma SumMeans(f: Flags, x: U64, y: U64, w: Width, c: bool)
    ensures
      var (r, g) := Add(f, x, y, w, c);
      Low(r, w) == r && ResultMeans(r, w, g) && KeepsOthers(f, g)
  {
    hide Low, ResultFlags, ResultMeans, KeepsOthers, AddWithCarry, NibbleFlag, SignSet;
    AddCases(x, y, w, c);
    var r := AddWithCarry(x, y, w, c).result;
    LowRange(r, w);
    var f1 := f.(cf := AddWithCarry(x, y, w, c).carry,
                 of := SignSet(x, w) == SignSet(y, w) && SignSet(r, w) != SignSet(x, w), af := NibbleFlag(x, y, r, w));
    ResultFlagsMean(f1, r, w);
    KeepsTrans(f, f1, ResultFlags(f1, r, w));
  }

  lemma DifferenceMeans(f: Flags, x: U64, y: U64, w: Width, c: bool)
    ensures
      var (r, g) := Sub(f, x, y, w, c);
      Low(r, w) == r && ResultMeans(r, w, g) && KeepsOthers(f, g)
  {
    hide Low, ResultFlags, ResultMeans, KeepsOthers, SubWithBorrow, NibbleFlag, SignSet;
    SubCases(x, y, w, c);
    var r := SubWithBorrow(x, y, w, c).result;
    LowRange(r, w);
    var f1 := f.(cf := SubWithBorrow(x, y, w, c).carry,
                 of := SignSet(x, w) != SignSet(y, w) && SignSet(r, w) != SignSet(x, w), af := NibbleFlag(x, y, r, w));
    ResultFlagsMean(f1, r, w);
    KeepsTrans(f, f1, ResultFlags(f1, r, w));
  }

  lemma AddMeans(op: nat, f: Flags, x: U64, y: U64, w: Width)
    requires op == 0 || op == 2
    ensures
      var (r, g) := AluResult(op, f, x, y, w);
      AluMeans(op, x, y, f.cf, Low(r, w), w) && CarriesMean(op, x, y, f.cf, w, g) && ResultMeans(Low(r, w), w, g)
      && KeepsOthers(f, g)
  {
    hide Low, ResultMeans, KeepsOthers, Add, AluMeans, CarriesMean;
    var c := op == 2 && f.cf;
    SumMeans(f, x, y, w, c);
    SumValue(op, f, x, y, w);
    SumCarries(op, f, x, y, w);
    assert AluResult(op, f, x, y, w) == Add(f, x, y, w, c);
  }

  lemma SumValue(op: nat, f: Flags, x: U64, y: U64, w: Width)
    requires op == 0 || op == 2
    ensures AluMeans(op, x, y, f.cf, Add(f, x, y, w, op == 2 && f.cf).0, w)
  {
    hide BitAt, Low, Add, FitsSigned, Signed;
    AddExact(f, x, y, w, op == 2 && f.cf);
  }

  lemma SumCarries(op: nat, f: Flags, x: U64, y: U64, w: Width)
    requires op == 0 || op == 2
    ensures CarriesMean(op, x, y, f.cf, w, Add(f, x, y, w, op == 2 && f.cf).1)
  {
    hide Low, Add, FitsSigned, Signed, Span;
    AddExact(f, x, y, w, op == 2 && f.cf);
    AuxiliaryCarry(f, x, y, w, op == 2 && f.cf);
  }

  lemma SubMeans(op: nat, f: Flags, x: U64, y: U64, w: Width)
    requires op == 3 || op == 5 || op == 7
    ensures
      var (r, g) := AluResult(op, f, x, y, w);
      AluMeans(op, x, y, f.cf, Low(r, w), w) && CarriesMean(op, x, y, f.cf, w, g) && ResultMeans(Low(r, w), w, g)
      && KeepsOthers(f, g)
  {
    hide Low, ResultMeans, KeepsOthers, Sub, AluMeans, CarriesMean;
    var c := op == 3 && f.cf;
    DifferenceMeans(f, x, y, w, c);
    DifferenceValue(op, f, x, y, w);
    DifferenceCarries(op, f, x, y, w);
    assert AluResult(op, f, x, y, w) == Sub(f, x, y, w, c);
  }

  lemma DifferenceValue(op: nat, f: Flags, x: U64, y: U64, w: Width)
    requires op == 3 || op == 5 || op == 7
    ensures AluMeans(op, x, y, f.cf, Sub(f, x, y, w, op == 3 && f.cf).0, w)
  {
    hide BitAt, Low, Sub, FitsSigned, Signed;
    SubExact(f, x, y, w, op == 3 && f.cf);
  }

  lemma DifferenceCarries(op: nat, f: Flags, x: U64, y: U64, w: Width)
    requires op == 3 || op == 5 || op == 7
    ensures CarriesMean(op, x, y, f.cf, w, Sub(f, x, y, w, op == 3 && f.cf).1)
  {
    hide Low, Sub, FitsSigned, Signed, Span;
    SubExact(f, x, y, w, op == 3 && f.cf);
    AuxiliaryCarry(f, x, y, w, op == 3 && f.cf);
  }

  /** Result and flags of every ALU operation. */
  lemma AluIs(op: nat, f: Flags, x: U64, y: U64, w: Width)
    requires op <= 7
    ensures
      var (r, g) := AluResult(op, f, x, y, w);
      AluMeans(op, x, y, f.cf, Low(r, w), w) && CarriesMean(op, x, y, f.cf, w, g) && ResultMeans(Low(r, w), w, g)
      && KeepsOthers(f, g)
  {
    hide AluMeans, CarriesMean, ResultMeans, KeepsOthers, AluResult, Low;
    if op == 0 || op == 2 {
      AddMeans(op, f, x, y, w);
    } else if op == 1 || op == 4 || op == 6 {
      LogicMeans(op, f, x, y, w);
    } else {
      SubMeans(op, f, x, y, w);
    }
  }

  /** An ALU instruction that succeeds: its destination reads back as the operation
      on what its operands read as before, nothing else of registers and memory has
      changed (for CMP nothing at all), and the flags are those of the operation. */
  lemma AluExecutes(a: Arch, end: U64, op: nat, dst: Operand, src: Operand, w: Width)
    returns (r: U64)
    requires op <= 7 && ReadOperand(a, end, dst, w).Ok? && ReadOperand(a, end, src, w).Ok?
    requires Exec(a, end, Alu(op, dst, src, w)).error.None?
    ensures
      var x, y := ReadOperand(a, end, dst, w).value, ReadOperand(a, end, src, w).value;
      var after := Exec(a, end, Alu(op, dst, src, w)).arch;
      && AluMeans(op, x, y, a.regs.flags.cf, r, w)
      && CarriesMean(op, x, y, a.regs.flags.cf, w, after.regs.flags) && ResultMeans(r, w, after.regs.flags)
      && KeepsOthers(a.regs.flags, after.regs.flags)
      && if op == 7 then after == WithFlags(a, after.regs.flags)
         else ReadOperand(after, end, dst, w) == Ok(r) && OnlyOperand(WithFlags(a, after.regs.flags), after, end, dst, w)
  {
    hide AluMeans, CarriesMean, ResultMeans, KeepsOthers, AluResult, Low, ReadMem, WriteMem, EffAddr, ReadWidth, WriteWidth, OnlyOperand;
    var x, y := ReadOperand(a, end, dst, w).value, ReadOperand(a, end, src, w).value;
    AluIs(op, a.regs.flags, x, y, w);
    var (v, f) := AluResult(op, a.regs.flags, x, y, w);
    r := Low(v, w);
    if op != 7 {
      var b := WithFlags(a, f);
      SameOperand(a, b, end, dst, w);
      WrittenReadsBack(b, end, dst, w, v);
      FlagsStay(b, end, dst, w, v);
    }
  }

  lemma SameOperand(a: Arch, b: Arch, end: U64, o: Operand, w: Width)
    requires b == WithFlags(a, b.regs.flags)
    ensures ReadOperand(b, end, o, w) == ReadOperand(a, end, o, w)
  {
    hide ReadMem, ReadWidth, Wrap64;
  }

  lemma SameAddress(a: Arch, f: Flags, end: U64, o: Operand)
    ensures EffAddr(WithFlags(a, f).regs, end, o) == EffAddr(a.regs, end, o)
  {
  }

  lemma FlagsStay(a: Arch, end: U64, o: Operand, w: Width, v: U64)
    ensures WriteOperand(a, end, o, w, v).arch.regs.flags == a.regs.flags
  {
    hide WriteWidth, Store, EffAddr;
  }

  /** TEST: the flags of AND, and nothing else. */
  lemma TestExecutes(a: Arch, end: U64, o: Operand, p: Operand, w: Width)
    returns (r: U64)
    requires ReadOperand(a, end, o, w).Ok? && ReadOperand(a, end, p, w).Ok?
    ensures
      var x, y := ReadOperand(a, end, o, w).value, ReadOperand(a, end, p, w).value;
      var after := Exec(a, end, Test(o, p, w)).arch;
      && Exec(a, end, Test(o, p, w)) == Done(WithFlags(a, after.regs.flags))
      && r < Span(w) && (forall i: nat :: i < 8 * w ==> (BitAt(r, i) <==> BitAt(x, i) && BitAt(y, i)))
      && ResultMeans(r, w, after.regs.flags) && KeepsOthers(a.regs.flags, after.regs.flags)
      && !after.regs.flags.cf && !after.regs.flags.of
  {
    hide ResultMeans, KeepsOthers, Low, ReadOperand, LogicFlags, Logical, BitAt;
    var x, y := ReadOperand(a, end, o, w).value, ReadOperand(a, end, p, w).value;
    LogicMeans(4, a.regs.flags, x, y, w);
    r := Low(Logical(AND, x, y), w);
  }

  /** A compare and a conditional jump: the jump is taken exactly if the condition
      it names holds of the values compared. */
  lemma CompareAndBranch(a: Arch, mid: U64, end: U64, x: Operand, y: Operand, w: Width, cc: nat, rel: int)
    requires ReadOperand(a, mid, x, w).Ok? && ReadOperand(a, mid, y, w).Ok?
    ensures
      var u, v := ReadOperand(a, mid, x, w).value, ReadOperand(a, mid, y, w).value;
      var b := Exec(a, mid, Alu(7, x, y, w)).arch;
      var e := Exec(b, end, Jcc(cc, rel));
      && e.error.None? && (e.branched <==> Condition(cc, u, v, w))
      && e.arch == (if e.branched then b.(regs := b.regs.(rip := (end + rel) % TWO64)) else b)
      && b == a.(regs := a.regs.(flags := b.regs.flags))
  {
    hide ReadOperand, Sub, EvalCC, Condition, Wrap64;
    ConditionCodesDecide(a.regs.flags, ReadOperand(a, mid, x, w).value, ReadOperand(a, mid, y, w).value, w, cc);
    WrapIs(end + rel);
  }

  // ---- INC, DEC, NOT, NEG ----------------------------------------------------

  /** What INC and DEC ask of value and flags. */
  ghost predicate StepMeans(f: Flags, up: bool, x: U64, w: Width, r: nat, g: Flags) {
    && r == (Low(x, w) + if up then 1 else -1) % Span(w) && g.cf == f.cf
    && (g.of <==> !FitsSigned(Signed(x, w) + (if up then 1 else -1), w))
    && (g.af <==> x % 0x10 == if up then 0xF else 0)
    && ResultMeans(r, w, g) && KeepsOthers(f, g)
  }

  lemma LowOne(w: Width)
    ensures Low(1, w) == 1 && Signed(1, w) == 1
  {
  }

  lemma IncMeans(f: Flags, x: U64, w: Width)
    ensures var (v, g) := Inc(f, x, w); StepMeans(f, true, x, w, Low(v, w), g)
  {
    hide Low, Add, FitsSigned, Signed, ResultMeans, BitAt;
    LowOne(w);
    SumMeans(f, x, 1, w, false);
    AddExact(f, x, 1, w, false);
    AuxiliaryCarry(f, x, 1, w, false);
    CarryApart(Low(Inc(f, x, w).0, w), w, Add(f, x, 1, w, false).1, f.cf);
  }

  lemma DecMeans(f: Flags, x: U64, w: Width)
    ensures var (v, g) := Dec(f, x, w); StepMeans(f, false, x, w, Low(v, w), g)
  {
    hide Low, Sub, FitsSigned, Signed, ResultMeans, BitAt;
    LowOne(w);
    DifferenceMeans(f, x, 1, w, false);
    SubExact(f, x, 1, w, false);
    AuxiliaryCarry(f, x, 1, w, false);
    CarryApart(Low(Dec(f, x, w).0, w), w, Sub(f, x, 1, w, false).1, f.cf);
  }

  lemma CarryApart(r: nat, w: Width, f: Flags, c: bool)
    ensures ResultMeans(r, w, f.(cf := c)) == ResultMeans(r, w, f)
  {
  }

  /** INC and DEC: one more or less, modulo the width; CF stays. */
  lemma IncDecExecutes(a: Arch, end: U64, up: bool, o: Operand, w: Width)
    requires ReadOperand(a, end, o, w).Ok? && Exec(a, end, IncDec(up, o, w)).error.None?
    ensures
      var after := Exec(a, end, IncDec(up, o, w)).arch;
      var r := ReadOperand(after, end, o, w);
      && r.Ok? && StepMeans(a.regs.flags, up, ReadOperand(a, end, o, w).value, w, r.value, after.regs.flags)
      && OnlyOperand(WithFlags(a, after.regs.flags), after, end, o, w)
  {
    hide Low, ReadMem, WriteMem, EffAddr, ReadWidth, WriteWidth, OnlyOperand, Inc, Dec, StepMeans;
    var x := ReadOperand(a, end, o, w).value;
    var (v, f) := if up then Inc(a.regs.flags, x, w) else Dec(a.regs.flags, x, w);
    IncMeans(a.regs.flags, x, w);
    DecMeans(a.regs.flags, x, w);
    var b := WithFlags(a, f);
    SameOperand(a, b, end, o, w);
    WrittenReadsBack(b, end, o, w, v);
    FlagsStay(b, end, o, w, v);
  }

  /** The specialised 32-bit forms are the general instructions on that register. */
  lemma FastForms(a: Arch, end: U64, reg: RegIdx, imm: U64)
    ensures Exec(a, end, FastAdd(reg, imm)) == Exec(a, end, Alu(0, Reg(reg, true), Imm(imm), 4))
    ensures Exec(a, end, FastInc(reg)) == Exec(a, end, IncDec(true, Reg(reg, true), 4))
    ensures Exec(a, end, FastDec(reg)) == Exec(a, end, IncDec(false, Reg(reg, true), 4))
  {
    hide Add, Inc, Dec, Add32, Inc32, Dec32, ReadWidth, WriteWidth;
    FastPathsAgree(a.regs.flags, ReadWidth(a.regs.gpr, reg, 4, true), imm);
  }

  /** NOT flips every bit of its operand and no flag. */
  lemma NotExecutes(a: Arch, end: U64, o: Operand, w: Width)
    requires ReadOperand(a, end, o, w).Ok? && Exec(a, end, Grp3(2, o, w)).error.None?
    ensures
      var after := Exec(a, end, Grp3(2, o, w)).arch;
      && ReadOperand(after, end, o, w).Ok? && OnlyOperand(a, after, end, o, w)
      && forall i: nat :: i < 8 * w ==>
           BitAt(ReadOperand(after, end, o, w).value, i) == !BitAt(ReadOperand(a, end, o, w).value, i)
  {
    hide Low, ReadMem, WriteMem, EffAddr, ReadWidth, WriteWidth, OnlyOperand, BitAt;
    var x := ReadOperand(a, end, o, w).value;
    LowRange(x, w);
    var v := Span(w) - 1 - Low(x, w);
    LowRange(v, w);
    WrittenReadsBack(a, end, o, w, v);
    SpanIsPow2(w);
    forall i: nat | i < 8 * w
      ensures BitAt(v, i) == !BitAt(x, i)
    {
      FlippedBits(Low(x, w), 8 * w, i);
      LowBits(x, w, i);
    }
  }

  /** NEG: the operand and the result add up to 0, and CF says it was not 0. */
  ghost predicate NegMeans(f: Flags, x: U64, w: Width, r: nat, g: Flags) {
    && r < Span(w) && (r + Low(x, w)) % Span(w) == 0
    && (g.cf <==> Low(x, w) != 0) && (g.of <==> !FitsSigned(-Signed(x, w), w)) && (g.af <==> x % 0x10 != 0)
    && ResultMeans(r, w, g) && KeepsOthers(f, g)
  }

  lemma NegIs(f: Flags, x: U64, w: Width)
    ensures var (v, g) := Sub(f, 0, x, w, false); NegMeans(f, x, w, Low(v, w), g.(cf := Low(x, w) != 0))
  {
    hide Low, Sub, FitsSigned, Signed, ResultMeans, BitAt, Span;
    NegValue(f, x, w);
    NegFlags(f, x, w);
    DifferenceMeans(f, 0, x, w, false);
    var (v, g) := Sub(f, 0, x, w, false);
    CarryApart(v, w, g, Low(x, w) != 0);
  }

  lemma NegValue(f: Flags, x: U64, w: Width)
    ensures var v := Low(Sub(f, 0, x, w, false).0, w); v < Span(w) && (v + Low(x, w)) % Span(w) == 0
  {
    hide Low, Sub, FitsSigned, Signed, Span;
    LowZero(w);
    LowRange(x, w);
    LowRange(Sub(f, 0, x, w, false).0, w);
    DifferenceMeans(f, 0, x, w, false);
    SubExact(f, 0, x, w, false);
    Opposite(Low(x, w), w);
  }

  lemma NegFlags(f: Flags, x: U64, w: Width)
    ensures var g := Sub(f, 0, x, w, false).1; g.of == !FitsSigned(-Signed(x, w), w) && g.af == (x % 0x10 != 0)
  {
    hide Low, Sub, FitsSigned, Signed, Span;
    LowZero(w);
    SubExact(f, 0, x, w, false);
    AuxiliaryCarry(f, 0, x, w, false);
    assert 0 - Signed(x, w) - 0 == -Signed(x, w);
  }

  lemma Opposite(u: int, w: Width)
    requires 0 <= u < Span(w)
    ensures ((-u) % Span(w) + u) % Span(w) == 0
  {
    ModOnce(-u, Span(w));
    ModOnce((-u) % Span(w) + u, Span(w));
  }

  lemma LowZero(w: Width)
    ensures Low(0, w) == 0 && Signed(0, w) == 0
  {
  }

  lemma NegExecutes(a: Arch, end: U64, o: Operand, w: Width)
    requires ReadOperand(a, end, o, w).Ok? && !o.Imm? && Exec(a, end, Grp3(3, o, w)).error.None?
    ensures
      var after := Exec(a, end, Grp3(3, o, w)).arch;
      var r := ReadOperand(after, end, o, w);
      && r.Ok? && NegMeans(a.regs.flags, ReadOperand(a, end, o, w).value, w, r.value, after.regs.flags)
      && OnlyOperand(WithFlags(a, after.regs.flags), after, end, o, w)
  {
    hide Low, ReadMem, WriteMem, EffAddr, ReadWidth, WriteWidth, OnlyOperand, Sub, NegMeans;
    var x := ReadOperand(a, end, o, w).value;
    ReadIsLow(a, end, o, w);
    NegIs(a.regs.flags, x, w);
    var (v, f) := Sub(a.regs.flags, 0, x, w, false);
    var b := WithFlags(a, f.(cf := x != 0));
    SameOperand(a, b, end, o, w);
    WrittenReadsBack(b, end, o, w, v);
    FlagsStay(b, end, o, w, v);
  }

  /** Registers and memory hold no more than the width. */
  lemma ReadIsLow(a: Arch, end: U64, o: Operand, w: Width)
    requires ReadOperand(a, end, o, w).Ok? && !o.Imm?
    ensures Low(ReadOperand(a, end, o, w).value, w) == ReadOperand(a, end, o, w).value
  {
    hide Load, EffAddr, LeToNat, Pow256, Low;
    var x := ReadOperand(a, end, o, w).value;
    if o.Reg? {
      LowRange(a.regs.gpr[o.reg], w);
      ByteRange(a.regs.gpr, o.reg, w, o.rex);
    } else {
      var b := Load(a.mem, EffAddr(a.regs, end, o), w, NeedRead).value;
      LeBound(b);
      Pow256Widths();
      assert Pow256(w) == Span(w);
    }
    LowRange(x, w);
  }

  lemma ByteRange(g: Gprs, i: RegIdx, w: Width, rex: bool)
    ensures ReadWidth(g, i, w, rex) < Span(w)
  {
  }

  // ---- moves -----------------------------------------------------------------

  /** MOV: the destination reads back as the source read before, cut to the width. */
  lemma MovExecutes(a: Arch, end: U64, dst: Operand, src: Operand, w: Width)
    requires ReadOperand(a, end, dst, w).Ok? && ReadOperand(a, end, src, w).Ok?
    requires Exec(a, end, Mov(dst, src, w)).error.None?
    ensures
      var after := Exec(a, end, Mov(dst, src, w)).arch;
      && ReadOperand(after, end, dst, w) == Ok(ReadOperand(a, end, src, w).value % Span(w))
      && OnlyOperand(a, after, end, dst, w)
  {
    hide ReadMem, WriteMem, EffAddr, ReadWidth, WriteWidth, OnlyOperand;
    WrittenReadsBack(a, end, dst, w, ReadOperand(a, end, src, w).value);
  }

  /** LEA: the register gets the address, and memory is not read. */
  lemma LeaExecutes(a: Arch, end: U64, dst: Operand, m: Operand, w: Width)
    requires dst.Reg? && (m.Mem? || m.Rip?)
    ensures
      var e := Exec(a, end, Lea(dst, m, w));
      && e.error.None? && !e.branched
      && ReadOperand(e.arch, end, dst, w) == Ok(EffAddr(a.regs, end, m) % Span(w)) && OnlyOperand(a, e.arch, end, dst, w)
  {
    hide EffAddr, ReadWidth, WriteWidth, OnlyOperand;
    WrittenReadsBack(a, end, dst, w, EffAddr(a.regs, end, m));
  }

  // ---- the stack -------------------------------------------------------------

  /** The word at a stack address. */
  function WordAt(mem: Flat, sp: U64): Result<U64, EngineError> {
    ReadMem(mem, sp, 8)
  }

  lemma PushIs(a: Arch, v: U64)
    requires PushWord(a, v).error.None? && WordAt(a.mem, (a.regs.gpr[RSP] - 8) % TWO64).Ok?
    ensures
      var sp := (a.regs.gpr[RSP] - 8) % TWO64;
      var after := PushWord(a, v).arch;
      && after.regs == a.regs.(gpr := a.regs.gpr[RSP := sp]) && OnlyAt(a.mem, after.mem, sp, 8)
      && WordAt(after.mem, sp) == Ok(v)
  {
    hide Store, NatToLe, ReadMem, Low, OnlyAt, Wrap64;
    var top: int := a.regs.gpr[RSP];
    WrapIs(top - 8);
    ReadableReaches(a.mem, At(a.regs.gpr[RSP], -8), 8);
    WordStored(a.mem, At(a.regs.gpr[RSP], -8), v, 8);
    LowRange(v, 8);
  }

  lemma PopIs(a: Arch)
    ensures
      match WordAt(a.mem, a.regs.gpr[RSP])
      case Ok(v) => PopWord(a) == Ok((a.(regs := a.regs.(gpr := a.regs.gpr[RSP := (a.regs.gpr[RSP] + 8) % TWO64])), v))
      case Err(e) => PopWord(a) == Err(e)
  {
    hide ReadMem, Wrap64;
    var top: int := a.regs.gpr[RSP];
    WrapIs(top + 8);
  }

  lemma UpAndDown(x: U64, n: int)
    ensures ((x - 8) % TWO64 + 8) % TWO64 == x && (x + n) % TWO64 == Wrap64(x + n)
  {
  }

  /** PUSH puts the operand, as it was before, into the eight bytes below the stack
      pointer; POP into another register brings the pointer back with that value. */
  lemma PopUndoesPush(a: Arch, end: U64, src: Operand, reg: RegIdx, next: U64)
    requires ReadOperand(a, end, src, 8).Ok? && Exec(a, end, Push(src)).error.None?
    requires WordAt(a.mem, (a.regs.gpr[RSP] - 8) % TWO64).Ok?
    ensures
      var v, sp := ReadOperand(a, end, src, 8).value, (a.regs.gpr[RSP] - 8) % TWO64;
      var b := Exec(a, end, Push(src)).arch;
      && b.regs == a.regs.(gpr := a.regs.gpr[RSP := sp]) && OnlyAt(a.mem, b.mem, sp, 8) && WordAt(b.mem, sp) == Ok(v)
      && Exec(b, next, Pop(reg)) == Done(b.(regs := a.regs.(gpr := a.regs.gpr[reg := v])))
  {
    hide ReadOperand, ReadMem, OnlyAt, PushWord, PopWord, Wrap64;
    var v := ReadOperand(a, end, src, 8).value;
    PushIs(a, v);
    var b := PushWord(a, v).arch;
    PopIs(b);
    UpAndDown(a.regs.gpr[RSP], 0);
    assert b.regs.gpr[RSP := a.regs.gpr[RSP]] == a.regs.gpr;
  }

  /** A call, direct or through an operand, leaves the address of the byte after it
      on the stack; a RET with the stack as the call left it goes there, with the
      stack pointer where it was before the call, `drop` bytes further for RET n. */
  lemma RetUndoesCall(a: Arch, end: U64, call: Instr, next: U64, drop: nat)
    requires call.CallRel? || (call.CallInd? && ReadOperand(a, end, call.rm, 8).Ok?)
    requires Exec(a, end, call).error.None? && WordAt(a.mem, (a.regs.gpr[RSP] - 8) % TWO64).Ok?
    ensures
      var target := if call.CallRel? then (end + call.rel) % TWO64 else ReadOperand(a, end, call.rm, 8).value;
      var sp := (a.regs.gpr[RSP] - 8) % TWO64;
      var e := Exec(a, end, call);
      var back := Exec(e.arch, next, Ret(drop));
      && e.branched && e.arch.regs == a.regs.(gpr := a.regs.gpr[RSP := sp], rip := target)
      && OnlyAt(a.mem, e.arch.mem, sp, 8)
      && back.branched && back.error.None? && back.arch.mem == e.arch.mem
      && back.arch.regs == a.regs.(gpr := a.regs.gpr[RSP := (a.regs.gpr[RSP] + drop) % TWO64], rip := end)
  {
    hide ReadOperand, ReadMem, OnlyAt, PushWord, PopWord, Wrap64;
    PushIs(a, end);
    if call.CallRel? {
      WrapIs(end + call.rel);
    }
    var b := Exec(a, end, call).arch;
    PopIs(b);
    UpAndDown(a.regs.gpr[RSP], drop);
    assert b.regs.gpr[RSP := a.regs.gpr[RSP]] == a.regs.gpr;
  }

  /** A stack frame: whatever the registers hold at the LEAVE, as long as RBP and the
      word it points to are those that PUSH RBP and MOV RBP, RSP left, it restores
      RSP and RBP to what they were before the PUSH. */
  lemma LeaveUndoesEnter(a: Arch, e0: U64, e1: U64, b: Arch, e2: U64)
    requires Exec(a, e0, Push(Reg(RBP, true))).error.None? && WordAt(a.mem, (a.regs.gpr[RSP] - 8) % TWO64).Ok?
    requires
      var framed := Exec(Exec(a, e0, Push(Reg(RBP, true))).arch, e1, Mov(Reg(RBP, true), Reg(RSP, true), 8)).arch;
      b.regs.gpr[RBP] == framed.regs.gpr[RBP]
      && WordAt(b.mem, b.regs.gpr[RBP]) == WordAt(framed.mem, framed.regs.gpr[RBP])
    ensures Exec(b, e2, Leave) ==
            Done(b.(regs := b.regs.(gpr := b.regs.gpr[RSP := a.regs.gpr[RSP]][RBP := a.regs.gpr[RBP]])))
  {
    hide ReadMem, OnlyAt, PushWord, PopWord, Wrap64;
    var v := a.regs.gpr[RBP];
    Whole(a.regs.gpr, RBP);
    PushIs(a, v);
    var c := PushWord(a, v).arch;
    Whole(c.regs.gpr, RSP);
    Copied(c.regs.gpr);
    PopIs(WithGpr(b, RSP, b.regs.gpr[RBP]));
    UpAndDown(a.regs.gpr[RSP], 0);
  }

  lemma Whole(g: Gprs, i: RegIdx)
    ensures ReadWidth(g, i, 8, true) == g[i]
  {
    LowRange(g[i], 8);
  }

  lemma Copied(g: Gprs)
    ensures WriteWidth(g, RBP, 8, true, g[RSP]) == g[RBP := g[RSP]]
  {
    LowRange(g[RSP], 8);
  }

  /** Jumps: the target counts from the end of the instruction, or is read. */
  lemma JumpsExecute(a: Arch, end: U64, rel: int, o: Operand)
    ensures Exec(a, end, JmpRel(rel)) == Effect(a.(regs := a.regs.(rip := (end + rel) % TWO64)), true, None)
    ensures ReadOperand(a, end, o, 8).Ok? ==>
              Exec(a, end, JmpInd(o)) == Effect(a.(regs := a.regs.(rip := ReadOperand(a, end, o, 8).value)), true, None)
  {
    hide Wrap64, ReadOperand;
    WrapIs(end + rel);
  }
}
