/** An ALU instruction with its destination in memory sets the flags before it
    writes.  If the write faults and the instruction is executed again after the
    repair, ADC and SBB may see the carry they have just produced. */
module Retry {
  import opened Words
  import opened FlatMemory
  import opened Registers
  import opened Arithmetic
  import opened Instructions
  import opened Semantics
  import opened Bits
  import opened Effects
  import opened Restart

  /** A sum, difference or logic result depends on the flags before it only by CF,
      and only for ADC and SBB. */
  lemma OnlyCarryMatters(op: nat, f: Flags, g: Flags, x: U64, y: U64, w: Width)
    requires KeepsOthers(f, g) && ((op == 2 || op == 3) ==> f.cf == g.cf)
    ensures AluResult(op, g, x, y, w) == AluResult(op, f, x, y, w)
  {
    hide Logical, Add, Sub, LogicFlags, KeepsOthers;
    SumForgets(f, g, x, y, w, op == 2 && f.cf);
    DifferenceForgets(f, g, x, y, w, op == 3 && f.cf);
    LogicForgets(f, g, AluResult(op, f, x, y, w).0, w);
  }

  lemma SumForgets(f: Flags, g: Flags, x: U64, y: U64, w: Width, c: bool)
    requires KeepsOthers(f, g)
    ensures Add(g, x, y, w, c) == Add(f, x, y, w, c)
  {
    hide AddWithCarry, NibbleFlag, SignSet, EvenParity, Low;
  }

  lemma DifferenceForgets(f: Flags, g: Flags, x: U64, y: U64, w: Width, c: bool)
    requires KeepsOthers(f, g)
    ensures Sub(g, x, y, w, c) == Sub(f, x, y, w, c)
  {
    hide SubWithBorrow, NibbleFlag, SignSet, EvenParity, Low;
  }

  lemma LogicForgets(f: Flags, g: Flags, r: U64, w: Width)
    requires KeepsOthers(f, g)
    ensures LogicFlags(g, r, w) == LogicFlags(f, r, w)
  {
    hide SignSet, EvenParity, Low;
  }

  lemma CarryShows(op: nat, f: Flags, g: Flags, x: U64, y: U64, w: Width)
    requires (op == 2 || op == 3) && f.cf != g.cf
    ensures Low(AluResult(op, f, x, y, w).0, w) != Low(AluResult(op, g, x, y, w).0, w)
  {
    hide Add, Sub, Low, BitAt, FitsSigned, Signed, ResultMeans, KeepsOthers, CarriesMean;
    AluIs(op, f, x, y, w);
    AluIs(op, g, x, y, w);
    var t := if op == 2 then Low(x, w) + Low(y, w) else Low(x, w) - Low(y, w) - 1;
    NextDiffers(t, w);
  }

  lemma NextDiffers(t: int, w: Width)
    ensures (t + 1) % Span(w) != t % Span(w)
  {
    var m, q, r := Span(w), t / Span(w), t % Span(w);
    assert t == m * q + r;
    if r + 1 < m {
      ModUnique(t + 1, m, q, r + 1);
    } else {
      ModUnique(t + 1, m, q + 1, 0);
    }
  }

  /** Reads see the same after a repair. */
  lemma ReadRepaired(a: Arch, end: U64, o: Operand, w: Width, n: Flat)
    requires Repairs(a.mem, n) && ReadOperand(a, end, o, w).Ok?
    ensures ReadOperand(a.(mem := n), end, o, w) == ReadOperand(a, end, o, w)
  {
    hide Load, EffAddr, Enables, LeWord, ReadWidth;
    if !o.Reg? && !o.Imm? {
      LoadInOverlay(a.mem, n, EffAddr(a.regs, end, o), w);
      OverlayOfRepaired(a.mem, n);
    }
  }

  /** A write that faults at its first byte has changed no memory. */
  lemma NothingWritten(mem: Flat, addr: U64, data: seq<Byte>)
    requires var s := Store(mem, addr, data, NeedWrite); s.fault.Some? && s.fault.value.size == |data|
    ensures Store(mem, addr, data, NeedWrite).mem == mem
  {
    hide Reach, Poke;
    assert data[..0] == [];
    PokeNothing(mem, addr);
  }

  /** The faulting write has set the flags and nothing else. */
  lemma AluFaulted(a: Arch, end: U64, op: nat, dst: Operand, src: Operand, w: Width)
    requires op < 7 && !dst.Reg? && !dst.Imm? && ReadOperand(a, end, dst, w).Ok? && ReadOperand(a, end, src, w).Ok?
    requires
      var e := Exec(a, end, Alu(op, dst, src, w)).error;
      e.Some? && e.value.MemFault? && e.value.fault.size == w
    ensures
      var x, y := ReadOperand(a, end, dst, w).value, ReadOperand(a, end, src, w).value;
      Exec(a, end, Alu(op, dst, src, w)).arch == WithFlags(a, AluResult(op, a.regs.flags, x, y, w).1)
  {
    hide AluResult, Store, ReadMem, EffAddr, ReadWidth, NatToLe;
    var x, y := ReadOperand(a, end, dst, w).value, ReadOperand(a, end, src, w).value;
    var (r, f) := AluResult(op, a.regs.flags, x, y, w);
    var b := WithFlags(a, f);
    NothingWritten(b.mem, EffAddr(b.regs, end, dst), NatToLe(r, w));
  }

  /** What an instruction does in a memory that lets it. */
  lemma AluWrites(a: Arch, end: U64, op: nat, dst: Operand, src: Operand, w: Width)
    requires op < 7 && !dst.Reg? && !dst.Imm? && ReadOperand(a, end, dst, w).Ok? && ReadOperand(a, end, src, w).Ok?
    requires Reach(a.mem, EffAddr(a.regs, end, dst), w, NeedWrite) == w
    ensures
      var x, y := ReadOperand(a, end, dst, w).value, ReadOperand(a, end, src, w).value;
      var (r, f) := AluResult(op, a.regs.flags, x, y, w);
      var e := Exec(a, end, Alu(op, dst, src, w));
      && e == WriteOperand(WithFlags(a, f), end, dst, w, r) && e.error.None?
      && ReadOperand(e.arch, end, dst, w) == Ok(Low(r, w))
  {
    hide AluResult, ReadMem, EffAddr, ReadWidth, NatToLe, Reach, Low, Poke;
    var x, y := ReadOperand(a, end, dst, w).value, ReadOperand(a, end, src, w).value;
    var (r, f) := AluResult(op, a.regs.flags, x, y, w);
    var b := WithFlags(a, f);
    SameOperand(a, b, end, dst, w);
    SameAddress(a, f, end, dst);
    WrittenReadsBack(b, end, dst, w, r);
  }

  /** Executed again in the repaired memory, an ALU instruction whose write faulted
      before it wrote a byte ends as it would have without the fault if and only if it
      is neither ADC nor SBB, or the carry it produced is the carry it was given. */
  lemma AluAgainExactly(a: Arch, end: U64, op: nat, dst: Operand, src: Operand, w: Width, n: Flat)
    requires op < 7 && !dst.Reg? && !dst.Imm? && ReadOperand(a, end, dst, w).Ok? && ReadOperand(a, end, src, w).Ok?
    requires
      var e := Exec(a, end, Alu(op, dst, src, w)).error;
      e.Some? && e.value.MemFault? && e.value.fault.size == w
    requires Repairs(a.mem, n) && Reach(n, EffAddr(a.regs, end, dst), w, NeedWrite) == w
    ensures
      var b := Exec(a, end, Alu(op, dst, src, w)).arch;
      Exec(b.(mem := n), end, Alu(op, dst, src, w)) == Exec(a.(mem := n), end, Alu(op, dst, src, w)) <==>
      (op != 2 && op != 3) || b.regs.flags.cf == a.regs.flags.cf
  {
    hide AluResult, ReadOperand, EffAddr, Reach, Low, WriteOperand, Exec, Repairs, KeepsOthers, AluMeans, CarriesMean, ResultMeans;
    var x, y := ReadOperand(a, end, dst, w).value, ReadOperand(a, end, src, w).value;
    var f, g := a.regs.flags, AluResult(op, a.regs.flags, x, y, w).1;
    AluFaulted(a, end, op, dst, src, w);
    AluIs(op, f, x, y, w);
    ReadRepaired(a, end, dst, w, n);
    ReadRepaired(a, end, src, w, n);
    var p := a.(mem := n);
    var q := WithFlags(p, g);
    SameOperand(p, q, end, dst, w);
    SameOperand(p, q, end, src, w);
    SameAddress(p, g, end, dst);
    AluWrites(p, end, op, dst, src, w);
    AluWrites(q, end, op, dst, src, w);
    if (op != 2 && op != 3) || g.cf == f.cf {
      OnlyCarryMatters(op, f, g, x, y, w);
    } else {
      CarryShows(op, f, g, x, y, w);
    }
  }
}
