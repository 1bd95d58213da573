/** What one instruction does to registers and memory: the closures that
    internal/cpu/decode.go builds and the helpers of exec.go and operand.go, as a
    function from the state before to the state after. */
module Semantics {
  import opened Words
  import opened FlatMemory
  import opened Registers
  import opened Arithmetic
  import opened WideArithmetic
  import opened Instructions

  /** The architectural state: registers and address space. */
  datatype Arch = Arch(regs: Registers, mem: Flat)

  /** State after an instruction, whether it set RIP itself, and its error.  An
      instruction that fails keeps the partial effects it had. */
  datatype Effect = Effect(arch: Arch, branched: bool, error: Option<EngineError>)

  function Done(a: Arch): Effect {
    Effect(a, false, None)
  }

  function Fail(a: Arch, e: EngineError): Effect {
    Effect(a, false, Some(e))
  }

  function Jump(a: Arch, target: U64): Effect {
    Effect(a.(regs := a.regs.(rip := target)), true, None)
  }

  function WithFlags(a: Arch, f: Flags): Arch {
    a.(regs := a.regs.(flags := f))
  }

  function WithGpr(a: Arch, i: RegIdx, v: U64): Arch {
    a.(regs := a.regs.(gpr := a.regs.gpr[i := v]))
  }

  function WithReg(a: Arch, i: RegIdx, w: Width, rex: bool, v: U64): Arch {
    a.(regs := a.regs.(gpr := WriteWidth(a.regs.gpr, i, w, rex, v)))
  }

  // ---- operands --------------------------------------------------------------

  /** Address of a memory operand, from the registers at execution time. */
  function EffAddr(r: Registers, end: U64, o: Operand): U64 {
    match o
    case Rip(disp) => At(end, disp)
    case Mem(base, index, scale, disp, seg) =>
      var b := if base.Some? then r.gpr[base.value] else 0;
      var i := if index.Some? then r.gpr[index.value] * scale else 0;
      var s := match seg case NoSeg => 0 case SegFS => r.fsbase case SegGS => r.gsbase;
      Wrap64(b + i + disp + s)
    case Reg(_, _) => 0
    case Imm(_) => 0
  }

  function ReadMem(mem: Flat, addr: U64, w: Width): Result<U64, EngineError> {
    match Load(mem, addr, w, NeedRead)
    case Ok(b) => Ok(LeWord(b))
    case Err(f) => Err(MemFault(f))
  }

  function ReadOperand(a: Arch, end: U64, o: Operand, w: Width): Result<U64, EngineError> {
    match o
    case Reg(i, rex) => Ok(ReadWidth(a.regs.gpr, i, w, rex))
    case Imm(v) => Ok(v)
    case _ => ReadMem(a.mem, EffAddr(a.regs, end, o), w)
  }

  function WriteMem(a: Arch, addr: U64, data: seq<Byte>): Effect {
    var s := Store(a.mem, addr, data, NeedWrite);
    Effect(a.(mem := s.mem), false, if s.fault.None? then None else Some(MemFault(s.fault.value)))
  }

  function WriteOperand(a: Arch, end: U64, o: Operand, w: Width, v: U64): Effect {
    match o
    case Reg(i, rex) => Done(WithReg(a, i, w, rex, v))
    case Imm(_) => Fail(a, BadOperand)
    case _ => WriteMem(a, EffAddr(a.regs, end, o), NatToLe(v, w))
  }

  /** push64: RSP moves only if the store succeeds. */
  function PushWord(a: Arch, v: U64): Effect {
    var sp := At(a.regs.gpr[RSP], -8);
    var e := WriteMem(a, sp, NatToLe(v, 8));
    if e.error.Some? then e else Done(WithGpr(e.arch, RSP, sp))
  }

  /** pop64: the word, and the state with RSP moved. */
  function PopWord(a: Arch): Result<(Arch, U64), EngineError> {
    var sp := a.regs.gpr[RSP];
    var v :- ReadMem(a.mem, sp, 8);
    Ok((WithGpr(a, RSP, At(sp, 8)), v))
  }

  // ---- ALU -------------------------------------------------------------------

  datatype Logic = AND | OR | XOR

  function LogicBit(op: Logic, x: bool, y: bool): bool {
    match op
    case AND => x && y
    case OR => x || y
    case XOR => x != y
  }

  /** A bitwise operation on the low n bits. */
  function Bitwise(op: Logic, a: nat, b: nat, n: nat): nat {
    if n == 0 then 0
    else Bit(LogicBit(op, Odd(a), Odd(b)), 1) + 2 * Bitwise(op, a / 2, b / 2, n - 1)
  }

  function Logical(op: Logic, a: U64, b: U64): U64 {
    Wrap64(Bitwise(op, a, b, 64))
  }

  /** ADD, OR, ADC, SBB, AND, SUB, XOR and CMP: result and flags. */
  function AluResult(op: nat, f: Flags, a: U64, b: U64, w: Width): (U64, Flags) {
    match op
    case 0 => Add(f, a, b, w, false)
    case 1 => var r := Logical(OR, a, b); (r, LogicFlags(f, r, w))
    case 2 => Add(f, a, b, w, f.cf)
    case 3 => Sub(f, a, b, w, f.cf)
    case 4 => var r := Logical(AND, a, b); (r, LogicFlags(f, r, w))
    case 5 => Sub(f, a, b, w, false)
    case 6 => var r := Logical(XOR, a, b); (r, LogicFlags(f, r, w))
    case _ => Sub(f, a, b, w, false)
  }

  function ExecAlu(a: Arch, end: U64, op: nat, dst: Operand, src: Operand, w: Width): Effect {
    match ReadOperand(a, end, dst, w)
    case Err(e) => Fail(a, e)
    case Ok(x) =>
      match ReadOperand(a, end, src, w)
      case Err(e) => Fail(a, e)
      case Ok(y) =>
        if op > 7 then Fail(a, BadOperand)
        else
          var (r, f) := AluResult(op, a.regs.flags, x, y, w);
          if op == 7 then Done(WithFlags(a, f)) else WriteOperand(WithFlags(a, f), end, dst, w, r)
  }

  function ExecIncDec(a: Arch, end: U64, up: bool, rm: Operand, w: Width): Effect {
    match ReadOperand(a, end, rm, w)
    case Err(e) => Fail(a, e)
    case Ok(x) =>
      var (r, f) := if up then Inc(a.regs.flags, x, w) else Dec(a.regs.flags, x, w);
      WriteOperand(WithFlags(a, f), end, rm, w, r)
  }

  /** rDX:rAX after a double-width operation. */
  function WithPair(a: Arch, w: Width, lo: U64, hi: U64): Arch {
    WithReg(WithReg(a, RAX, w, true, lo), RDX, w, true, hi)
  }

  function WithOverflow(a: Arch, on: bool): Arch {
    WithFlags(a, a.regs.flags.(cf := on, of := on))
  }

  function ExecDivide(a: Arch, res: DivResult, w: Width): Effect {
    match res
    case Quot(q, r) => Done(WithPair(a, w, q, r))
    case Overflow => Fail(a, DivideOverflow)
    case Unsupported => Fail(a, UnsupportedDividend)
  }

  function ExecGrp3(a: Arch, end: U64, op: nat, rm: Operand, w: Width): Effect {
    match ReadOperand(a, end, rm, w)
    case Err(e) => Fail(a, e)
    case Ok(x) =>
      var ax, dx := ReadWidth(a.regs.gpr, RAX, w, true), ReadWidth(a.regs.gpr, RDX, w, true);
      if op == 2 then WriteOperand(a, end, rm, w, Span(w) - 1 - Low(x, w))
      else if op == 3 then
        var (r, f) := Sub(a.regs.flags, 0, x, w, false);
        WriteOperand(WithFlags(a, f.(cf := x != 0)), end, rm, w, r)
      else if op == 4 then
        var p := MulUnsigned(ax, x, w);
        Done(WithOverflow(WithPair(a, w, p.lo, p.hi), p.hi != 0))
      else if op == 5 then
        var p := MulSigned(ax, x, w);
        Done(WithOverflow(WithPair(a, w, p.lo, p.hi), p.hi != ExtendSignHi(p.lo, w)))
      else if op > 7 then Fail(a, BadOperand)
      else if Low(x, w) == 0 then Fail(a, DivideByZero)
      else if op == 6 then ExecDivide(a, DivUnsigned(dx, ax, x, w), w)
      else ExecDivide(a, DivSigned(dx, ax, x, w), w)
  }

  // ---- string instructions ---------------------------------------------------

  function Delta(f: Flags, w: Width): U64 {
    if f.df then At(0, -(w as int)) else w
  }

  function Advance(a: Arch, i: RegIdx, w: Width): Arch {
    WithGpr(a, i, At(a.regs.gpr[i], Delta(a.regs.flags, w)))
  }

  /** One element of a string instruction, before the count is decremented. */
  function StrElement(a: Arch, op: StrOp, w: Width, rex: bool): Effect {
    var si, di := a.regs.gpr[RSI], a.regs.gpr[RDI];
    match op
    case Movs =>
      (match Load(a.mem, si, w, NeedRead)
       case Err(f) => Fail(a, MemFault(f))
       case Ok(b) =>
         var e := WriteMem(a, di, b);
         if e.error.Some? then e else Done(Advance(Advance(e.arch, RSI, w), RDI, w)))
    case Stos =>
      var e := WriteMem(a, di, NatToLe(ReadWidth(a.regs.gpr, RAX, w, rex), w));
      if e.error.Some? then e else Done(Advance(e.arch, RDI, w))
    case Lods =>
      (match ReadMem(a.mem, si, w)
       case Err(e) => Fail(a, e)
       case Ok(v) => Done(Advance(WithReg(a, RAX, w, rex, v), RSI, w)))
    case Cmps =>
      (match ReadMem(a.mem, si, w)
       case Err(e) => Fail(a, e)
       case Ok(x) =>
         match ReadMem(a.mem, di, w)
         case Err(e) => Fail(a, e)
         case Ok(y) =>
           Done(Advance(Advance(WithFlags(a, Sub(a.regs.flags, x, y, w, false).1), RSI, w), RDI, w)))
    case Scas =>
      (match ReadMem(a.mem, di, w)
       case Err(e) => Fail(a, e)
       case Ok(y) =>
         var x := ReadWidth(a.regs.gpr, RAX, w, rex);
         Done(Advance(WithFlags(a, Sub(a.regs.flags, x, y, w, false).1), RDI, w)))
  }

  /** Does a compare loop stop after this element? */
  predicate StopsLoop(f: Flags, op: StrOp, rep: Rep) {
    (op == Cmps || op == Scas) && ((rep == RepZ && !f.zf) || (rep == RepNZ && f.zf))
  }

  /** The loop of a string instruction, n elements still to do. */
  function StrLoop(a: Arch, op: StrOp, w: Width, rep: Rep, rex: bool, n: nat): Effect
    decreases n
  {
    if n == 0 then Done(a)
    else
      var e := StrElement(a, op, w, rex);
      if e.error.Some? then e
      else
        var b := if rep == RepNone then e.arch
                 else WithGpr(e.arch, RCX, At(e.arch.regs.gpr[RCX], -1));
        if StopsLoop(b.regs.flags, op, rep) then Done(b)
        else StrLoop(b, op, w, rep, rex, n - 1)
  }

  function Iterations(r: Registers, rep: Rep): nat {
    if rep == RepNone then 1 else r.gpr[RCX]
  }

  function ExecStr(a: Arch, op: StrOp, w: Width, rep: Rep, rex: bool): Effect {
    StrLoop(a, op, w, rep, rex, Iterations(a.regs, rep))
  }

  // ---- moves and stack -------------------------------------------------------

  function ExecMov(a: Arch, end: U64, dst: Operand, src: Operand, w: Width): Effect {
    match ReadOperand(a, end, src, w)
    case Err(e) => Fail(a, e)
    case Ok(v) => WriteOperand(a, end, dst, w, v)
  }

  function ExecTest(a: Arch, end: U64, x: Operand, y: Operand, w: Width): Effect {
    match ReadOperand(a, end, x, w)
    case Err(e) => Fail(a, e)
    case Ok(u) =>
      match ReadOperand(a, end, y, w)
      case Err(e) => Fail(a, e)
      case Ok(v) => Done(WithFlags(a, LogicFlags(a.regs.flags, Logical(AND, u, v), w)))
  }

  function ExecPush(a: Arch, end: U64, src: Operand): Effect {
    match ReadOperand(a, end, src, 8)
    case Err(e) => Fail(a, e)
    case Ok(v) => PushWord(a, v)
  }

  function ExecPop(a: Arch, reg: RegIdx): Effect {
    match PopWord(a)
    case Err(e) => Fail(a, e)
    case Ok((b, v)) => Done(WithGpr(b, reg, v))
  }

  // ---- control flow ----------------------------------------------------------

  /** CALL: push the return address, then jump. */
  function ExecCall(a: Arch, end: U64, target: U64): Effect {
    var e := PushWord(a, end);
    if e.error.Some? then e else Jump(e.arch, target)
  }

  function ExecRet(a: Arch, drop: nat): Effect {
    match PopWord(a)
    case Err(e) => Fail(a, e)
    case Ok((b, target)) => Jump(WithGpr(b, RSP, At(b.regs.gpr[RSP], drop)), target)
  }

  /** One decoded instruction; `end` is the address just past it. */
  function Exec(a: Arch, end: U64, i: Instr): Effect {
    match i
    case Alu(op, dst, src, w) => ExecAlu(a, end, op, dst, src, w)
    case FastAdd(reg, imm) =>
      var (r, f) := Add32(a.regs.flags, ReadWidth(a.regs.gpr, reg, 4, true), imm);
      Done(WithFlags(WithReg(a, reg, 4, true, r), f))
    case FastInc(reg) =>
      var (r, f) := Inc32(a.regs.flags, ReadWidth(a.regs.gpr, reg, 4, true));
      Done(WithFlags(WithReg(a, reg, 4, true, r), f))
    case FastDec(reg) =>
      var (r, f) := Dec32(a.regs.flags, ReadWidth(a.regs.gpr, reg, 4, true));
      Done(WithFlags(WithReg(a, reg, 4, true, r), f))
    case IncDec(up, rm, w) => ExecIncDec(a, end, up, rm, w)
    case Grp3(op, rm, w) => ExecGrp3(a, end, op, rm, w)
    case Test(x, y, w) => ExecTest(a, end, x, y, w)
    case Mov(dst, src, w) => ExecMov(a, end, dst, src, w)
    case Lea(dst, rm, w) =>
      if rm.Reg? || rm.Imm? then Fail(a, BadOperand)
      else WriteOperand(a, end, dst, w, EffAddr(a.regs, end, rm))
    case Push(src) => ExecPush(a, end, src)
    case Pop(reg) => ExecPop(a, reg)
    case Leave => ExecLeave(a)
    case Nop => Done(a)
    case SetDF(on) => Done(WithFlags(a, a.regs.flags.(df := on)))
    case Str(op, w, rep, rex) => ExecStr(a, op, w, rep, rex)
    case CallRel(rel) => ExecCall(a, end, At(end, rel))
    case JmpRel(rel) => Jump(a, At(end, rel))
    case Jcc(cc, rel) => if EvalCC(a.regs.flags, cc) then Jump(a, At(end, rel)) else Done(a)
    case CallInd(rm) =>
      (match ReadOperand(a, end, rm, 8)
       case Err(e) => Fail(a, e)
       case Ok(t) => ExecCall(a, end, t))
    case JmpInd(rm) =>
      (match ReadOperand(a, end, rm, 8)
       case Err(e) => Fail(a, e)
       case Ok(t) => Jump(a, t))
    case Ret(drop) => ExecRet(a, drop)
    case Trap => Fail(a, BadOperand)
  }

  /** LEAVE moves RSP before the pop that may fail. */
  function ExecLeave(a: Arch): Effect {
    var b := WithGpr(a, RSP, a.regs.gpr[RBP]);
    match PopWord(b)
    case Err(e) => Fail(b, e)
    case Ok((c, v)) => Done(WithGpr(c, RBP, v))
  }

  /** Only instructions decoded through `finishBranch` set RIP themselves. */
  lemma OnlyBranchesBranch(a: Arch, end: U64, i: Instr)
    ensures Exec(a, end, i).branched ==> IsBranch(i)
  {
    hide Add, Sub, StrLoop, Store, Load, Logical, WriteWidth, ReadWidth, EffAddr, MulUnsigned, MulSigned;
    if i.Str? {
      LoopNeverBranches(a, i.str, i.w, i.rep, i.rex, Iterations(a.regs, i.rep));
    }
  }

  lemma {:induction false} LoopNeverBranches(a: Arch, op: StrOp, w: Width, rep: Rep, rex: bool, n: nat)
    ensures !StrLoop(a, op, w, rep, rex, n).branched
    decreases n
  {
    hide StrElement, StopsLoop;
    ElementNeverBranches(a, op, w, rex);
    if n > 0 {
      var e := StrElement(a, op, w, rex);
      var b := if rep == RepNone then e.arch else WithGpr(e.arch, RCX, At(e.arch.regs.gpr[RCX], -1));
      LoopNeverBranches(b, op, w, rep, rex, n - 1);
    }
  }

  lemma ElementNeverBranches(a: Arch, op: StrOp, w: Width, rex: bool)
    ensures !StrElement(a, op, w, rex).branched
  {
    hide Store, Load, Sub, ReadWidth, WriteWidth, Advance;
  }
}
