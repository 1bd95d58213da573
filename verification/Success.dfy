/** When instructions succeed, what they leave behind when they do not, and which of
    them can branch. */
module Success {
  import opened Words
  import opened FlatMemory
  import opened Registers
  import opened Arithmetic
  import opened WideArithmetic
  import opened Instructions
  import opened Semantics
  import opened Effects

  /** n bytes from an address on can be accessed. */
  ghost predicate Accessible(mem: Flat, addr: U64, n: nat, need: Need) {
    forall i: nat :: i < n ==> Open(mem, At(addr, i), need)
  }

  ghost predicate CanRead(a: Arch, end: U64, o: Operand, w: Width) {
    o.Reg? || o.Imm? || Accessible(a.mem, EffAddr(a.regs, end, o), w, NeedRead)
  }

  ghost predicate CanWrite(a: Arch, end: U64, o: Operand, w: Width) {
    o.Reg? || (!o.Imm? && Accessible(a.mem, EffAddr(a.regs, end, o), w, NeedWrite))
  }

  ghost predicate CanPush(a: Arch) {
    Accessible(a.mem, (a.regs.gpr[RSP] - 8) % TWO64, 8, NeedWrite)
  }

  ghost predicate CanPop(a: Arch, sp: U64) {
    Accessible(a.mem, sp, 8, NeedRead)
  }

  /** What an instruction needs of its operands and the stack.  DIV, IDIV and the
      string instructions have conditions of their own. */
  ghost predicate Needs(a: Arch, end: U64, i: Instr) {
    match i
    case Alu(op, dst, src, w) => op <= 7 && CanRead(a, end, dst, w) && CanRead(a, end, src, w) && (op == 7 || CanWrite(a, end, dst, w))
    case IncDec(_, rm, w) => CanRead(a, end, rm, w) && CanWrite(a, end, rm, w)
    case Grp3(op, rm, w) => CanRead(a, end, rm, w) && (op >= 4 || CanWrite(a, end, rm, w))
    case Test(x, y, w) => CanRead(a, end, x, w) && CanRead(a, end, y, w)
    case Mov(dst, src, w) => CanRead(a, end, src, w) && CanWrite(a, end, dst, w)
    case Lea(dst, rm, w) => (rm.Mem? || rm.Rip?) && CanWrite(a, end, dst, w)
    case Push(src) => CanRead(a, end, src, 8) && CanPush(a)
    case Pop(_) => CanPop(a, a.regs.gpr[RSP])
    case Leave => CanPop(a, a.regs.gpr[RBP])
    case CallRel(_) => CanPush(a)
    case CallInd(rm) => CanRead(a, end, rm, 8) && CanPush(a)
    case JmpInd(rm) => CanRead(a, end, rm, 8)
    case Ret(_) => CanPop(a, a.regs.gpr[RSP])
    case Trap => false
    case _ => true
  }

  lemma LoadsExactly(mem: Flat, addr: U64, n: nat, need: Need)
    ensures Load(mem, addr, n, need).Ok? <==> Accessible(mem, addr, n, need)
  {
    hide Load, At, Open;
    LoadExact(mem, addr, n, need);
  }

  lemma ReadsExactly(a: Arch, end: U64, o: Operand, w: Width)
    ensures ReadOperand(a, end, o, w).Ok? <==> CanRead(a, end, o, w)
  {
    hide Load, EffAddr, Accessible, LeWord, ReadWidth;
    LoadsExactly(a.mem, EffAddr(a.regs, end, o), w, NeedRead);
  }

  lemma StoresExactly(mem: Flat, addr: U64, data: seq<Byte>)
    requires |data| <= 8
    ensures Store(mem, addr, data, NeedWrite).fault.None? <==> Accessible(mem, addr, |data|, NeedWrite)
  {
    hide Store, At, Open;
    StoreExact(mem, addr, data, NeedWrite);
  }

  /** An operand is written unless it is an immediate or its memory forbids it. */
  lemma WritesExactly(a: Arch, f: Flags, end: U64, o: Operand, w: Width, v: U64)
    ensures WriteOperand(WithFlags(a, f), end, o, w, v).error.None? <==> CanWrite(a, end, o, w)
  {
    hide Store, EffAddr, Accessible, NatToLe, WriteWidth;
    StoresExactly(a.mem, EffAddr(a.regs, end, o), NatToLe(v, w));
    SameAddress(a, f, end, o);
  }

  lemma PushesExactly(a: Arch, v: U64)
    ensures PushWord(a, v).error.None? <==> CanPush(a)
  {
    hide Store, Accessible, NatToLe, Wrap64;
    var top: int := a.regs.gpr[RSP];
    WrapIs(top - 8);
    StoresExactly(a.mem, At(a.regs.gpr[RSP], -8), NatToLe(v, 8));
  }

  lemma PopsExactly(a: Arch)
    ensures PopWord(a).Ok? <==> CanPop(a, a.regs.gpr[RSP])
  {
    hide Load, Accessible, LeWord, Wrap64;
    LoadsExactly(a.mem, a.regs.gpr[RSP], 8, NeedRead);
  }

  lemma AluSucceeds(a: Arch, end: U64, op: nat, dst: Operand, src: Operand, w: Width)
    ensures ExecAlu(a, end, op, dst, src, w).error.None? <==> Needs(a, end, Alu(op, dst, src, w))
  {
    hide AluResult, ReadOperand, WriteOperand, CanRead, CanWrite;
    ReadsExactly(a, end, dst, w);
    ReadsExactly(a, end, src, w);
    if op <= 7 && ReadOperand(a, end, dst, w).Ok? && ReadOperand(a, end, src, w).Ok? {
      var (r, f) := AluResult(op, a.regs.flags, ReadOperand(a, end, dst, w).value, ReadOperand(a, end, src, w).value, w);
      WritesExactly(a, f, end, dst, w, r);
    }
  }

  lemma IncDecSucceeds(a: Arch, end: U64, up: bool, rm: Operand, w: Width)
    ensures ExecIncDec(a, end, up, rm, w).error.None? <==> Needs(a, end, IncDec(up, rm, w))
  {
    hide Inc, Dec, ReadOperand, WriteOperand, CanRead, CanWrite;
    ReadsExactly(a, end, rm, w);
    if ReadOperand(a, end, rm, w).Ok? {
      var x := ReadOperand(a, end, rm, w).value;
      var (r, f) := if up then Inc(a.regs.flags, x, w) else Dec(a.regs.flags, x, w);
      WritesExactly(a, f, end, rm, w, r);
    }
  }

  lemma Grp3Succeeds(a: Arch, end: U64, op: nat, rm: Operand, w: Width)
    requires 2 <= op <= 5
    ensures ExecGrp3(a, end, op, rm, w).error.None? <==> Needs(a, end, Grp3(op, rm, w))
  {
    hide Sub, ReadOperand, WriteOperand, CanRead, CanWrite, MulUnsigned, MulSigned, WithPair, ReadWidth, Low;
    ReadsExactly(a, end, rm, w);
    if ReadOperand(a, end, rm, w).Ok? {
      var x := ReadOperand(a, end, rm, w).value;
      LowRange(x, w);
      var (r, f) := Sub(a.regs.flags, 0, x, w, false);
      WritesExactly(a, f.(cf := x != 0), end, rm, w, r);
      WritesExactly(a, a.regs.flags, end, rm, w, Span(w) - 1 - Low(x, w));
    }
  }

  lemma MovesSucceed(a: Arch, end: U64, x: Operand, y: Operand, w: Width)
    ensures ExecTest(a, end, x, y, w).error.None? <==> Needs(a, end, Test(x, y, w))
    ensures ExecMov(a, end, x, y, w).error.None? <==> Needs(a, end, Mov(x, y, w))
  {
    hide ReadOperand, WriteOperand, CanRead, CanWrite, Logical, LogicFlags;
    ReadsExactly(a, end, x, w);
    ReadsExactly(a, end, y, w);
    if ReadOperand(a, end, y, w).Ok? {
      WritesExactly(a, a.regs.flags, end, x, w, ReadOperand(a, end, y, w).value);
    }
  }

  lemma StackSucceeds(a: Arch, end: U64, o: Operand)
    ensures ExecPush(a, end, o).error.None? <==> CanRead(a, end, o, 8) && CanPush(a)
    ensures forall t: U64 :: ExecCall(a, end, t).error.None? <==> CanPush(a)
    ensures ReadOperand(a, end, o, 8).Ok? <==> CanRead(a, end, o, 8)
    ensures forall r: RegIdx :: ExecPop(a, r).error.None? <==> CanPop(a, a.regs.gpr[RSP])
    ensures forall n: nat :: ExecRet(a, n).error.None? <==> CanPop(a, a.regs.gpr[RSP])
    ensures ExecLeave(a).error.None? <==> CanPop(a, a.regs.gpr[RBP])
  {
    hide ReadOperand, PushWord, PopWord, CanRead, CanPush, Accessible, Wrap64;
    ReadsExactly(a, end, o, 8);
    PushesExactly(a, end);
    if ReadOperand(a, end, o, 8).Ok? {
      PushesExactly(a, ReadOperand(a, end, o, 8).value);
    }
    PopsExactly(a);
    PopsExactly(WithGpr(a, RSP, a.regs.gpr[RBP]));
  }

  predicate OnOperands(i: Instr) {
    i.Alu? || i.IncDec? || i.Grp3? || i.Test? || i.Mov? || i.Lea?
  }

  lemma OperandSucceeds(a: Arch, end: U64, i: Instr)
    requires OnOperands(i) && (i.Grp3? ==> 2 <= i.op <= 5)
    ensures Exec(a, end, i).error.None? <==> Needs(a, end, i)
  {
    hide ReadOperand, WriteOperand, CanRead, CanWrite, EffAddr, ExecAlu, ExecIncDec, ExecGrp3, ExecTest, ExecMov;
    match i
    case Alu(op, dst, src, w) => AluSucceeds(a, end, op, dst, src, w);
    case IncDec(up, rm, w) => IncDecSucceeds(a, end, up, rm, w);
    case Grp3(op, rm, w) => Grp3Succeeds(a, end, op, rm, w);
    case Test(x, y, w) => MovesSucceed(a, end, x, y, w);
    case Mov(dst, src, w) => MovesSucceed(a, end, dst, src, w);
    case Lea(dst, rm, w) => WritesExactly(a, a.regs.flags, end, dst, w, EffAddr(a.regs, end, rm));
  }

  lemma OtherSucceeds(a: Arch, end: U64, i: Instr)
    requires !OnOperands(i) && !i.Str?
    ensures Exec(a, end, i).error.None? <==> Needs(a, end, i)
  {
    hide ReadOperand, CanRead, CanPush, CanPop, ReadWidth, WriteWidth, Add32, Inc32, Dec32, EvalCC, Wrap64, ExecPush, ExecPop,
      ExecLeave, ExecCall, ExecRet;
    StackSucceeds(a, end, if i.Push? then i.src else if i.CallInd? || i.JmpInd? then i.rm else Imm(0));
  }

  /** An instruction succeeds if and only if the memory it reads and writes, as many
      bytes as its operand has, carries the permissions for it. */
  lemma SucceedsExactly(a: Arch, end: U64, i: Instr)
    requires !i.Str? && (i.Grp3? ==> 2 <= i.op <= 5)
    ensures Exec(a, end, i).error.None? <==> Needs(a, end, i)
  {
    hide Exec, Needs;
    if OnOperands(i) {
      OperandSucceeds(a, end, i);
    } else {
      OtherSucceeds(a, end, i);
    }
  }

  // ---- failures --------------------------------------------------------------

  /** What a failed instruction may have changed. */
  predicate KeptByFailure(a: Arch, e: Effect, i: Instr) {
    var b := e.arch;
    && b.regs == a.regs.(gpr := b.regs.gpr, flags := b.regs.flags) && !e.branched
    && b.regs.gpr == (if i.Leave? then a.regs.gpr[RSP := a.regs.gpr[RBP]] else a.regs.gpr)
    && (!i.Alu? && !i.IncDec? && !i.Grp3? ==> b.regs.flags == a.regs.flags)
    && (i.Leave? || i.Pop? || i.Ret? || i.Test? || i.JmpInd? ==> b.mem == a.mem)
  }

  lemma OperandFailureKeeps(a: Arch, end: U64, i: Instr)
    requires OnOperands(i) && Exec(a, end, i).error.Some?
    ensures KeptByFailure(a, Exec(a, end, i), i)
  {
    hide Add, Sub, AluResult, Store, ReadMem, Logical, LogicFlags, WriteWidth, ReadWidth, EffAddr, MulUnsigned, MulSigned,
      DivUnsigned, DivSigned, NatToLe;
  }

  lemma OtherFailureKeeps(a: Arch, end: U64, i: Instr)
    requires !OnOperands(i) && !i.Str? && Exec(a, end, i).error.Some?
    ensures KeptByFailure(a, Exec(a, end, i), i)
  {
    hide Store, ReadMem, WriteWidth, ReadWidth, EffAddr, NatToLe, Add32, Inc32, Dec32, EvalCC, Wrap64;
  }

  /** An instruction that fails has changed no general register and no segment base,
      only LEAVE has moved RSP already; it has not branched, and flags change only
      where the operation computes them before it writes. */
  lemma FailureKeeps(a: Arch, end: U64, i: Instr)
    requires !i.Str? && Exec(a, end, i).error.Some?
    ensures KeptByFailure(a, Exec(a, end, i), i)
  {
    hide Exec, KeptByFailure;
    if OnOperands(i) {
      OperandFailureKeeps(a, end, i);
    } else {
      OtherFailureKeeps(a, end, i);
    }
  }

  // ---- branches --------------------------------------------------------------

  predicate Everywhere(a: U64) {
    true
  }

  /** Memory that can be read and written everywhere. */
  function AllMapped(): Flat {
    map a: U64 | a < 0x1_0000_0000_0000_0000 && Everywhere(a) :: Cell(0, Prot(true, true, true))
  }

  lemma AllAccessible(addr: U64, n: nat, need: Need)
    ensures Accessible(AllMapped(), addr, n, need)
  {
    hide At;
    assert forall a: U64 :: Everywhere(a);
  }

  lemma Taken(cc: nat)
    ensures exists f: Flags :: EvalCC(f, cc)
  {
    var f0 := Flags(false, false, false, false, false, false, false, 0);
    var f1 := Flags(true, true, false, true, true, false, false, 0);
    var f2 := Flags(false, false, false, false, false, false, true, 0);
    assert EvalCC(f0, cc) || EvalCC(f1, cc) || EvalCC(f2, cc);
  }

  /** The instructions that the decoder lets end a block are exactly those that, in
      some state, set RIP themselves. */
  lemma BranchesExactly(i: Instr)
    ensures IsBranch(i) <==> exists a: Arch, end: U64 :: Exec(a, end, i).branched
  {
    hide Exec, AllMapped;
    forall a: Arch, end: U64 | Exec(a, end, i).branched
      ensures IsBranch(i)
    {
      OnlyBranchesBranch(a, end, i);
    }
    if IsBranch(i) {
      var f := if i.Jcc? then (Taken(i.cc); var g :| EvalCC(g, i.cc); g) else Flags(false, false, false, false, false, false, false, 0);
      var a := Arch(Registers([0, 0, 0, 0, 0, 0, 0, 0, 0, 0, 0, 0, 0, 0, 0, 0], 0, f, 0, 0), AllMapped());
      CanBranch(a, i);
    }
  }

  lemma CanBranch(a: Arch, i: Instr)
    requires IsBranch(i) && a.mem == AllMapped() && (i.Jcc? ==> EvalCC(a.regs.flags, i.cc))
    ensures Exec(a, 0, i).branched
  {
    hide EffAddr, ReadOperand, PushWord, PopWord, EvalCC, AllMapped, Accessible, Wrap64;
    AllAccessible((a.regs.gpr[RSP] - 8) % TWO64, 8, NeedWrite);
    AllAccessible(a.regs.gpr[RSP], 8, NeedRead);
    PushesExactly(a, 0);
    PopsExactly(a);
    if i.CallInd? || i.JmpInd? {
      AllAccessible(EffAddr(a.regs, 0, i.rm), 8, NeedRead);
      ReadsExactly(a, 0, i.rm, 8);
    }
  }
}
