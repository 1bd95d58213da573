/** Decoded instructions.  The engine keeps a closure per instruction; here the
    closure is an `Instr` value that the executor interprets. */
module Instructions {
  import opened Words
  import opened FlatMemory
  import opened Registers

  datatype Seg = NoSeg | SegFS | SegGS

  datatype Rep = RepNone | RepZ | RepNZ

  datatype StrOp = Movs | Stos | Lods | Cmps | Scas

  /** Operands stay symbolic: addresses are computed when they are executed. */
  datatype Operand =
    | Reg(reg: RegIdx, rex: bool)
    | Rip(disp: int)
    | Mem(base: Option<RegIdx>, index: Option<RegIdx>, scale: nat, disp: int, seg: Seg)
    | Imm(imm: U64)

  datatype Instr =
    | Alu(op: nat, dst: Operand, src: Operand, w: Width)
    | FastAdd(reg: RegIdx, imm: U64)
    | FastInc(reg: RegIdx)
    | FastDec(reg: RegIdx)
    | IncDec(up: bool, rm: Operand, w: Width)
    | Grp3(op: nat, rm: Operand, w: Width)
    | Test(a: Operand, b: Operand, w: Width)
    | Mov(dst: Operand, src: Operand, w: Width)
    | Lea(dst: Operand, rm: Operand, w: Width)
    | Push(src: Operand)
    | Pop(reg: RegIdx)
    | Leave
    | Nop
    | SetDF(on: bool)
    | Str(str: StrOp, w: Width, rep: Rep, rex: bool)
    | CallRel(rel: int)
    | JmpRel(rel: int)
    | Jcc(cc: nat, rel: int)
    | CallInd(rm: Operand)
    | JmpInd(rm: Operand)
    | Ret(drop: nat)
    | Trap

  /** SYSCALL and CPUID are handled by hooks, everything else by the executor. */
  datatype Hooked = NotHooked | Syscall | Cpuid

  datatype Decoded = Decoded(len: nat, hooked: Hooked, endsBlock: bool, instr: Instr)

  datatype EngineError =
    | MemFault(fault: Fault)
    | BadOpcode
    | EndlessPrefixes
    | BadOperand
    | DivideByZero
    | DivideOverflow
    | UnsupportedDividend
    | NoHook(hooked: Hooked)

  /** The instructions decoded through `finishBranch`. */
  predicate IsBranch(i: Instr) {
    i.CallRel? || i.JmpRel? || i.Jcc? || i.CallInd? || i.JmpInd? || i.Ret?
  }
}
