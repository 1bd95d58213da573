/** The executing half of the engine (internal/cpu/exec.go, operand.go, flags.go):
    instructions change the register fields and the page memory step by step.
    Every method is proved to have exactly the effect `Semantics` gives. */
module Core {
  import opened Words
  import opened FlatMemory
  import opened PagedMemory
  import opened Registers
  import opened Arithmetic
  import opened WideArithmetic
  import opened Instructions
  import opened Semantics

  type Failure = Option<EngineError>

  class Processor {
    const mem: Memory
    var regs: Registers
    /** Address just past the instruction that is executing. */
    var curInstrEnd: U64

    constructor (mem: Memory, regs: Registers)
      ensures this.mem == mem && this.regs == regs
    {
      this.mem, this.regs, curInstrEnd := mem, regs, 0;
    }

    ghost function State(): Arch
      reads this, mem
    {
      Arch(regs, mem.flat)
    }

    // ---- operands --------------------------------------------------------------

    method ReadMem(addr: U64, w: Width) returns (r: Result<U64, EngineError>)
      requires mem.Valid()
      modifies mem, mem.frames
      ensures mem.Valid() && mem.Untouched()
      ensures r == Semantics.ReadMem(mem.flat, addr, w)
    {
      var b := mem.ReadChecked(addr, w, NeedRead);
      r := match b case Ok(bytes) => Ok(LeWord(bytes)) case Err(f) => Err(MemFault(f));
    }

    method WriteMem(addr: U64, data: seq<Byte>) returns (err: Failure)
      requires mem.Valid() && |data| <= 8
      modifies mem, mem.frames
      ensures mem.Valid() && mem.Written()
      ensures Effect(State(), false, err) == Semantics.WriteMem(old(State()), addr, data)
    {
      var fault := mem.WriteChecked(addr, data, NeedWrite);
      err := if fault.None? then None else Some(MemFault(fault.value));
    }

    /** The address of a memory operand, summed up in 64-bit arithmetic. */
    method EffAddr(o: Operand) returns (addr: U64)
      requires o.Rip? || o.Mem?
      ensures addr == Semantics.EffAddr(regs, curInstrEnd, o)
    {
      hide Wrap64;
      match o {
        case Rip(disp) =>
          addr := Wrap64(curInstrEnd + Wrap64(disp));
          WrapSum(curInstrEnd, disp);
        case Mem(base, index, scale, disp, seg) =>
          ghost var sum: int := 0;
          addr := 0;
          assert Wrap64(0) == 0 by { WrapIs(0); }
          if base.Some? {
            sum := sum + regs.gpr[base.value];
            addr := Wrap64(addr + regs.gpr[base.value]);
          }
          if index.Some? {
            addr := Wrap64(addr + Wrap64(regs.gpr[index.value] * scale));
            WrapSums(sum, regs.gpr[index.value] * scale);
            sum := sum + regs.gpr[index.value] * scale;
          }
          if disp < 0 {
            addr := Wrap64(addr - Wrap64(-disp));
            WrapDiff(sum, -disp);
          } else {
            addr := Wrap64(addr + Wrap64(disp));
            WrapSums(sum, disp);
          }
          sum := sum + disp;
          var start := match seg case NoSeg => 0 case SegFS => regs.fsbase case SegGS => regs.gsbase;
          addr := Wrap64(addr + start);
          WrapSum(start, sum);
      }
    }

    method ReadOperand(o: Operand, w: Width) returns (r: Result<U64, EngineError>)
      requires mem.Valid()
      modifies mem, mem.frames
      ensures mem.Valid() && mem.Untouched()
      ensures r == Semantics.ReadOperand(State(), curInstrEnd, o, w)
    {
      hide Semantics.ReadMem, Semantics.EffAddr, ReadWidth;
      match o {
        case Reg(i, rex) => r := Ok(ReadWidth(regs.gpr, i, w, rex));
        case Imm(v) => r := Ok(v);
        case _ =>
          var addr := EffAddr(o);
          r := ReadMem(addr, w);
      }
    }

    method WriteOperand(o: Operand, w: Width, v: U64) returns (err: Failure)
      requires mem.Valid()
      modifies `regs, mem, mem.frames
      ensures mem.Valid() && mem.Written()
      ensures Effect(State(), false, err) == Semantics.WriteOperand(old(State()), curInstrEnd, o, w, v)
    {
      hide Semantics.WriteMem, Semantics.EffAddr, WriteWidth;
      match o {
        case Reg(i, rex) => WriteReg(i, w, rex, v); err := None;
        case Imm(_) => err := Some(BadOperand);
        case _ =>
          var addr := EffAddr(o);
          err := WriteMem(addr, NatToLe(v, w));
      }
    }

    method WriteReg(i: RegIdx, w: Width, rex: bool, v: U64)
      modifies `regs
      ensures State() == WithReg(old(State()), i, w, rex, v)
    {
      regs := regs.(gpr := WriteWidth(regs.gpr, i, w, rex, v));
    }

    method SetGpr(i: RegIdx, v: U64)
      modifies `regs
      ensures State() == WithGpr(old(State()), i, v)
    {
      regs := regs.(gpr := regs.gpr[i := v]);
    }

    method SetFlags(f: Flags)
      modifies `regs
      ensures State() == WithFlags(old(State()), f)
    {
      regs := regs.(flags := f);
    }

    method PushWord(v: U64) returns (err: Failure)
      requires mem.Valid()
      modifies `regs, mem, mem.frames
      ensures mem.Valid() && mem.Written()
      ensures Effect(State(), false, err) == Semantics.PushWord(old(State()), v)
    {
      hide Semantics.WriteMem, At;
      var sp := At(regs.gpr[RSP], -8);
      err := WriteMem(sp, NatToLe(v, 8));
      if err.None? {
        SetGpr(RSP, sp);
      }
    }

    method PopWord() returns (r: Result<U64, EngineError>)
      requires mem.Valid()
      modifies `regs, mem, mem.frames
      ensures mem.Valid() && mem.Untouched()
      ensures match Semantics.PopWord(old(State()))
              case Ok((b, v)) => r == Ok(v) && State() == b
              case Err(e) => r == Err(e) && State() == old(State())
    {
      hide Semantics.ReadMem, At;
      var sp := regs.gpr[RSP];
      r := ReadMem(sp, 8);
      if r.Ok? {
        SetGpr(RSP, At(sp, 8));
      }
    }

    // ---- ALU -------------------------------------------------------------------

    method AluBinOp(op: nat, dst: Operand, src: Operand, w: Width) returns (err: Failure)
      requires mem.Valid()
      modifies `regs, mem, mem.frames
      ensures mem.Valid() && mem.Written()
      ensures Effect(State(), false, err) == ExecAlu(old(State()), curInstrEnd, op, dst, src, w)
    {
      hide Memory.Valid, Semantics.ReadOperand, Semantics.WriteOperand, AluResult;
      var a := ReadOperand(dst, w);
      if a.Err? {
        return Some(a.error);
      }
      var b := ReadOperand(src, w);
      if b.Err? {
        return Some(b.error);
      }
      if op > 7 {
        return Some(BadOperand);
      }
      var (result, f) := AluResult(op, regs.flags, a.value, b.value, w);
      SetFlags(f);
      if op == 7 {
        return None;
      }
      err := WriteOperand(dst, w, result);
    }

    method IncDecOp(up: bool, rm: Operand, w: Width) returns (err: Failure)
      requires mem.Valid()
      modifies `regs, mem, mem.frames
      ensures mem.Valid() && mem.Written()
      ensures Effect(State(), false, err) == ExecIncDec(old(State()), curInstrEnd, up, rm, w)
    {
      hide Memory.Valid, Semantics.ReadOperand, Semantics.WriteOperand, Inc, Dec;
      var a := ReadOperand(rm, w);
      if a.Err? {
        return Some(a.error);
      }
      var (result, f) := if up then Inc(regs.flags, a.value, w) else Dec(regs.flags, a.value, w);
      SetFlags(f);
      err := WriteOperand(rm, w, result);
    }

    method Grp3Op(op: nat, rm: Operand, w: Width) returns (err: Failure)
      requires mem.Valid()
      modifies `regs, mem, mem.frames
      ensures mem.Valid() && mem.Written()
      ensures Effect(State(), false, err) == ExecGrp3(old(State()), curInstrEnd, op, rm, w)
    {
      hide Memory.Valid, Semantics.ReadOperand, Semantics.WriteOperand, Sub, MulUnsigned, MulSigned, ExtendSignHi;
      hide ReadWidth, WriteWidth, Low;
      var a := ReadOperand(rm, w);
      if a.Err? {
        return Some(a.error);
      }
      var x := a.value;
      if op == 2 {
        NotInRange(x, w);
        err := WriteOperand(rm, w, Span(w) - 1 - Low(x, w));
      } else if op == 3 {
        var (result, f) := Sub(regs.flags, 0, x, w, false);
        SetFlags(f.(cf := x != 0));
        err := WriteOperand(rm, w, result);
      } else {
        err := MulDivOp(op, x, w);
      }
    }

    lemma NotInRange(x: U64, w: Width)
      ensures 0 <= Span(w) - 1 - Low(x, w) < 0x1_0000_0000_0000_0000
    {
    }

    /** MUL, IMUL, DIV and IDIV of rDX:rAX. */
    method MulDivOp(op: nat, x: U64, w: Width) returns (err: Failure)
      requires op != 2 && op != 3
      modifies `regs
      ensures
        var a := old(State());
        var ax, dx := ReadWidth(a.regs.gpr, RAX, w, true), ReadWidth(a.regs.gpr, RDX, w, true);
        Effect(State(), false, err) ==
          if op == 4 then
            var p := MulUnsigned(ax, x, w);
            Done(WithOverflow(WithPair(a, w, p.lo, p.hi), p.hi != 0))
          else if op == 5 then
            var p := MulSigned(ax, x, w);
            Done(WithOverflow(WithPair(a, w, p.lo, p.hi), p.hi != ExtendSignHi(p.lo, w)))
          else if op > 7 then Fail(a, BadOperand)
          else if Low(x, w) == 0 then Fail(a, DivideByZero)
          else if op == 6 then ExecDivide(a, DivUnsigned(dx, ax, x, w), w)
          else ExecDivide(a, DivSigned(dx, ax, x, w), w)
    {
      hide MulUnsigned, MulSigned, ExtendSignHi, DivUnsigned, DivSigned, ReadWidth, WriteWidth, Low;
      var ax, dx := ReadWidth(regs.gpr, RAX, w, true), ReadWidth(regs.gpr, RDX, w, true);
      err := None;
      if op == 4 || op == 5 {
        var p := if op == 4 then MulUnsigned(ax, x, w) else MulSigned(ax, x, w);
        var over := if op == 4 then p.hi != 0 else p.hi != ExtendSignHi(p.lo, w);
        WriteReg(RAX, w, true, p.lo);
        WriteReg(RDX, w, true, p.hi);
        SetFlags(regs.flags.(cf := over, of := over));
      } else if op > 7 {
        err := Some(BadOperand);
      } else if Low(x, w) == 0 {
        err := Some(DivideByZero);
      } else {
        var res := if op == 6 then DivUnsigned(dx, ax, x, w) else DivSigned(dx, ax, x, w);
        match res {
          case Quot(q, r) =>
            WriteReg(RAX, w, true, q);
            WriteReg(RDX, w, true, r);
          case Overflow => err := Some(DivideOverflow);
          case Unsupported => err := Some(UnsupportedDividend);
        }
      }
    }

    // ---- string instructions ---------------------------------------------------

    /** Moves an index register by one element and, under REP, the count. */
    method Bump(i: RegIdx, delta: U64)
      modifies `regs
      ensures State() == WithGpr(old(State()), i, At(old(regs).gpr[i], delta))
    {
      SetGpr(i, At(regs.gpr[i], delta));
    }

    method CountDown(rep: Rep)
      modifies `regs
      ensures State() == if rep == RepNone then old(State())
                         else WithGpr(old(State()), RCX, At(old(regs).gpr[RCX], -1))
    {
      if rep != RepNone {
        SetGpr(RCX, At(regs.gpr[RCX], -1));
      }
    }

    /** One element of MOVS; `delta` was computed before the loop. */
    method MovsElement(w: Width, ghost rex: bool, delta: U64) returns (err: Failure)
      requires mem.Valid() && delta == Delta(regs.flags, w)
      modifies `regs, mem, mem.frames
      ensures mem.Valid() && mem.Written() && delta == Delta(regs.flags, w)
      ensures Effect(State(), false, err) == StrElement(old(State()), Movs, w, rex)
    {
      hide Load, Semantics.WriteMem, At, Memory.Valid, Delta;
      var buf := mem.ReadChecked(regs.gpr[RSI], w, NeedRead);
      if buf.Err? {
        return Some(MemFault(buf.error));
      }
      err := WriteMem(regs.gpr[RDI], buf.value);
      if err.None? {
        Bump(RSI, delta);
        Bump(RDI, delta);
      }
    }

    method StrMovs(w: Width, rep: Rep, ghost rex: bool) returns (err: Failure)
      requires mem.Valid()
      modifies `regs, mem, mem.frames
      ensures mem.Valid() && mem.Written()
      ensures Effect(State(), false, err) == ExecStr(old(State()), Movs, w, rep, rex)
    {
      hide StrElement, At, Memory.Valid, Delta;
      var delta := Delta(regs.flags, w);
      var n := Iterations(regs, rep);
      var i := 0;
      while i < n
        invariant i <= n && mem.Valid() && mem.Written()
        invariant delta == Delta(regs.flags, w)
        invariant StrLoop(State(), Movs, w, rep, rex, n - i) == ExecStr(old(State()), Movs, w, rep, rex)
      {
        err := MovsElement(w, rex, delta);
        if err.Some? {
          return;
        }
        CountDown(rep);
        i := i + 1;
      }
      err := None;
    }

    method StrStos(w: Width, rep: Rep, rex: bool) returns (err: Failure)
      requires mem.Valid()
      modifies `regs, mem, mem.frames
      ensures mem.Valid() && mem.Written()
      ensures Effect(State(), false, err) == ExecStr(old(State()), Stos, w, rep, rex)
    {
      hide Memory.Valid, Semantics.WriteMem, At, NatToLe, Delta;
      var delta := Delta(regs.flags, w);
      var n := Iterations(regs, rep);
      var buf := NatToLe(ReadWidth(regs.gpr, RAX, w, rex), w);
      var i := 0;
      while i < n
        invariant i <= n && mem.Valid() && mem.Written()
        invariant delta == Delta(regs.flags, w) && regs.gpr[RAX] == old(regs).gpr[RAX]
        invariant StrLoop(State(), Stos, w, rep, rex, n - i) == ExecStr(old(State()), Stos, w, rep, rex)
      {
        err := WriteMem(regs.gpr[RDI], buf);
        if err.Some? {
          return;
        }
        Bump(RDI, delta);
        CountDown(rep);
        i := i + 1;
      }
      err := None;
    }

    method LodsElement(w: Width, rex: bool, delta: U64) returns (err: Failure)
      requires mem.Valid() && delta == Delta(regs.flags, w)
      modifies `regs, mem, mem.frames
      ensures mem.Valid() && mem.Written() && delta == Delta(regs.flags, w)
      ensures Effect(State(), false, err) == StrElement(old(State()), Lods, w, rex)
    {
      hide Memory.Valid, Semantics.ReadMem, At, WriteWidth, Delta;
      var v := ReadMem(regs.gpr[RSI], w);
      if v.Err? {
        return Some(v.error);
      }
      WriteReg(RAX, w, rex, v.value);
      Bump(RSI, delta);
      err := None;
    }

    method StrLods(w: Width, rep: Rep, rex: bool) returns (err: Failure)
      requires mem.Valid()
      modifies `regs, mem, mem.frames
      ensures mem.Valid() && mem.Written()
      ensures Effect(State(), false, err) == ExecStr(old(State()), Lods, w, rep, rex)
    {
      hide StrElement, At, Memory.Valid, Delta;
      var delta := Delta(regs.flags, w);
      var n := Iterations(regs, rep);
      var i := 0;
      while i < n
        invariant i <= n && mem.Valid() && mem.Written()
        invariant delta == Delta(regs.flags, w)
        invariant StrLoop(State(), Lods, w, rep, rex, n - i) == ExecStr(old(State()), Lods, w, rep, rex)
      {
        err := LodsElement(w, rex, delta);
        if err.Some? {
          return;
        }
        CountDown(rep);
        i := i + 1;
      }
      err := None;
    }

    method CmpsElement(w: Width, ghost rex: bool, delta: U64) returns (err: Failure)
      requires mem.Valid() && delta == Delta(regs.flags, w)
      modifies `regs, mem, mem.frames
      ensures mem.Valid() && mem.Written() && delta == Delta(regs.flags, w)
      ensures Effect(State(), false, err) == StrElement(old(State()), Cmps, w, rex)
    {
      hide Memory.Valid, Semantics.ReadMem, At, SubWithBorrow, Low, EvenParity, NibbleFlag, SignSet;
      var a := ReadMem(regs.gpr[RSI], w);
      if a.Err? {
        return Some(a.error);
      }
      var b := ReadMem(regs.gpr[RDI], w);
      if b.Err? {
        return Some(b.error);
      }
      SetFlags(Sub(regs.flags, a.value, b.value, w, false).1);
      Bump(RSI, delta);
      Bump(RDI, delta);
      err := None;
    }

    method StrCmps(w: Width, rep: Rep, ghost rex: bool) returns (err: Failure)
      requires mem.Valid()
      modifies `regs, mem, mem.frames
      ensures mem.Valid() && mem.Written()
      ensures Effect(State(), false, err) == ExecStr(old(State()), Cmps, w, rep, rex)
    {
      hide StrElement, At, Memory.Valid, Delta;
      var delta := Delta(regs.flags, w);
      var n := Iterations(regs, rep);
      var i := 0;
      while i < n
        invariant i <= n && mem.Valid() && mem.Written()
        invariant delta == Delta(regs.flags, w)
        invariant StrLoop(State(), Cmps, w, rep, rex, n - i) == ExecStr(old(State()), Cmps, w, rep, rex)
      {
        err := CmpsElement(w, rex, delta);
        if err.Some? {
          return;
        }
        CountDown(rep);
        if StopsLoop(regs.flags, Cmps, rep) {
          return None;
        }
        i := i + 1;
      }
      err := None;
    }

    method ScasElement(w: Width, rex: bool, delta: U64) returns (err: Failure)
      requires mem.Valid() && delta == Delta(regs.flags, w)
      modifies `regs, mem, mem.frames
      ensures mem.Valid() && mem.Written() && delta == Delta(regs.flags, w)
      ensures Effect(State(), false, err) == StrElement(old(State()), Scas, w, rex)
    {
      hide Memory.Valid, Semantics.ReadMem, At, SubWithBorrow, Low, EvenParity, NibbleFlag, SignSet, ReadWidth;
      var a := ReadWidth(regs.gpr, RAX, w, rex);
      var b := ReadMem(regs.gpr[RDI], w);
      if b.Err? {
        return Some(b.error);
      }
      SetFlags(Sub(regs.flags, a, b.value, w, false).1);
      Bump(RDI, delta);
      err := None;
    }

    method StrScas(w: Width, rep: Rep, rex: bool) returns (err: Failure)
      requires mem.Valid()
      modifies `regs, mem, mem.frames
      ensures mem.Valid() && mem.Written()
      ensures Effect(State(), false, err) == ExecStr(old(State()), Scas, w, rep, rex)
    {
      hide StrElement, At, Memory.Valid, Delta;
      var delta := Delta(regs.flags, w);
      var n := Iterations(regs, rep);
      var i := 0;
      while i < n
        invariant i <= n && mem.Valid() && mem.Written()
        invariant delta == Delta(regs.flags, w)
        invariant StrLoop(State(), Scas, w, rep, rex, n - i) == ExecStr(old(State()), Scas, w, rep, rex)
      {
        err := ScasElement(w, rex, delta);
        if err.Some? {
          return;
        }
        CountDown(rep);
        if StopsLoop(regs.flags, Scas, rep) {
          return None;
        }
        i := i + 1;
      }
      err := None;
    }

    method StrOp(op: StrOp, w: Width, rep: Rep, rex: bool) returns (err: Failure)
      requires mem.Valid()
      modifies `regs, mem, mem.frames
      ensures mem.Valid() && mem.Written()
      ensures Effect(State(), false, err) == ExecStr(old(State()), op, w, rep, rex)
    {
      hide ExecStr;
      match op {
        case Movs => err := StrMovs(w, rep, rex);
        case Stos => err := StrStos(w, rep, rex);
        case Lods => err := StrLods(w, rep, rex);
        case Cmps => err := StrCmps(w, rep, rex);
        case Scas => err := StrScas(w, rep, rex);
      }
    }

    // ---- moves, stack and control flow -----------------------------------------

    method MovOp(dst: Operand, src: Operand, w: Width) returns (err: Failure)
      requires mem.Valid()
      modifies `regs, mem, mem.frames
      ensures mem.Valid() && mem.Written()
      ensures Effect(State(), false, err) == ExecMov(old(State()), curInstrEnd, dst, src, w)
    {
      hide Semantics.ReadOperand, Semantics.WriteOperand;
      var v := ReadOperand(src, w);
      if v.Err? {
        return Some(v.error);
      }
      err := WriteOperand(dst, w, v.value);
    }

    method TestOp(x: Operand, y: Operand, w: Width) returns (err: Failure)
      requires mem.Valid()
      modifies `regs, mem, mem.frames
      ensures mem.Valid() && mem.Written()
      ensures Effect(State(), false, err) == ExecTest(old(State()), curInstrEnd, x, y, w)
    {
      hide Semantics.ReadOperand, LogicFlags, Logical;
      var u := ReadOperand(x, w);
      if u.Err? {
        return Some(u.error);
      }
      var v := ReadOperand(y, w);
      if v.Err? {
        return Some(v.error);
      }
      SetFlags(LogicFlags(regs.flags, Logical(AND, u.value, v.value), w));
      err := None;
    }

    method PushOp(src: Operand) returns (err: Failure)
      requires mem.Valid()
      modifies `regs, mem, mem.frames
      ensures mem.Valid() && mem.Written()
      ensures Effect(State(), false, err) == ExecPush(old(State()), curInstrEnd, src)
    {
      hide Semantics.ReadOperand, Semantics.PushWord;
      var v := ReadOperand(src, 8);
      if v.Err? {
        return Some(v.error);
      }
      err := PushWord(v.value);
    }

    method PopOp(reg: RegIdx) returns (err: Failure)
      requires mem.Valid()
      modifies `regs, mem, mem.frames
      ensures mem.Valid() && mem.Written()
      ensures Effect(State(), false, err) == ExecPop(old(State()), reg)
    {
      hide Semantics.PopWord;
      var v := PopWord();
      if v.Err? {
        return Some(v.error);
      }
      SetGpr(reg, v.value);
      err := None;
    }

    method LeaveOp() returns (err: Failure)
      requires mem.Valid()
      modifies `regs, mem, mem.frames
      ensures mem.Valid() && mem.Written()
      ensures Effect(State(), false, err) == ExecLeave(old(State()))
    {
      hide Semantics.PopWord;
      SetGpr(RSP, regs.gpr[RBP]);
      var v := PopWord();
      if v.Err? {
        return Some(v.error);
      }
      SetGpr(RBP, v.value);
      err := None;
    }

    method JumpTo(target: U64)
      modifies `regs
      ensures Effect(State(), true, None) == Jump(old(State()), target)
    {
      regs := regs.(rip := target);
    }

    method CallOp(target: U64) returns (branched: bool, err: Failure)
      requires mem.Valid()
      modifies `regs, mem, mem.frames
      ensures mem.Valid() && mem.Written()
      ensures Effect(State(), branched, err) == ExecCall(old(State()), curInstrEnd, target)
    {
      hide Semantics.WriteMem;
      err := PushWord(curInstrEnd);
      branched := err.None?;
      if branched {
        JumpTo(target);
      }
    }

    method RetOp(drop: nat) returns (branched: bool, err: Failure)
      requires mem.Valid()
      modifies `regs, mem, mem.frames
      ensures mem.Valid() && mem.Written()
      ensures Effect(State(), branched, err) == ExecRet(old(State()), drop)
    {
      hide Semantics.PopWord, At;
      var target := PopWord();
      if target.Err? {
        return false, Some(target.error);
      }
      SetGpr(RSP, At(regs.gpr[RSP], drop));
      JumpTo(target.value);
      return true, None;
    }

    /** The 32-bit register forms that skip the generic operand path. */
    method FastOp(i: Instr)
      requires i.FastAdd? || i.FastInc? || i.FastDec?
      modifies `regs
      ensures Effect(State(), false, None) == Semantics.Exec(old(State()), curInstrEnd, i)
    {
      hide Add32, Inc32, Dec32, ReadWidth, WriteWidth;
      var a := ReadWidth(regs.gpr, i.reg, 4, true);
      var (r, f) := match i
        case FastAdd(_, imm) => Add32(regs.flags, a, imm)
        case FastInc(_) => Inc32(regs.flags, a)
        case _ => Dec32(regs.flags, a);
      WriteReg(i.reg, 4, true, r);
      SetFlags(f);
    }

    /** The instructions that may set RIP. */
    method FlowOp(i: Instr) returns (branched: bool, err: Failure)
      requires mem.Valid() && IsBranch(i)
      modifies `regs, mem, mem.frames
      ensures mem.Valid() && mem.Written()
      ensures Effect(State(), branched, err) == Semantics.Exec(old(State()), curInstrEnd, i)
    {
      hide Semantics.ReadOperand, ExecCall, ExecRet, EvalCC, At;
      branched, err := false, None;
      match i {
        case CallRel(rel) => branched, err := CallOp(At(curInstrEnd, rel));
        case JmpRel(rel) => JumpTo(At(curInstrEnd, rel)); branched := true;
        case Jcc(cc, rel) =>
          if EvalCC(regs.flags, cc) {
            JumpTo(At(curInstrEnd, rel));
            branched := true;
          }
        case CallInd(rm) =>
          var t := ReadOperand(rm, 8);
          if t.Err? {
            return false, Some(t.error);
          }
          branched, err := CallOp(t.value);
        case JmpInd(rm) =>
          var t := ReadOperand(rm, 8);
          if t.Err? {
            return false, Some(t.error);
          }
          JumpTo(t.value);
          branched := true;
        case Ret(drop) => branched, err := RetOp(drop);
      }
    }

    /** The closure of a decoded instruction. */
    method Exec(i: Instr) returns (branched: bool, err: Failure)
      requires mem.Valid()
      modifies `regs, mem, mem.frames
      ensures mem.Valid() && mem.Written()
      ensures Effect(State(), branched, err) == Semantics.Exec(old(State()), curInstrEnd, i)
    {
      hide ExecAlu, ExecIncDec, ExecGrp3, ExecTest, ExecMov, ExecPush, ExecPop, ExecLeave, ExecStr;
      hide Semantics.WriteOperand, Semantics.EffAddr, ExecCall, ExecRet, Semantics.ReadOperand, Add32, Inc32, Dec32;
      branched, err := false, None;
      match i {
        case Alu(op, dst, src, w) => err := AluBinOp(op, dst, src, w);
        case FastAdd(_, _) => FastOp(i);
        case FastInc(_) => FastOp(i);
        case FastDec(_) => FastOp(i);
        case IncDec(up, rm, w) => err := IncDecOp(up, rm, w);
        case Grp3(op, rm, w) => err := Grp3Op(op, rm, w);
        case Test(x, y, w) => err := TestOp(x, y, w);
        case Mov(dst, src, w) => err := MovOp(dst, src, w);
        case Lea(dst, rm, w) =>
          if rm.Reg? || rm.Imm? {
            err := Some(BadOperand);
          } else {
            var addr := EffAddr(rm);
            err := WriteOperand(dst, w, addr);
          }
        case Push(src) => err := PushOp(src);
        case Pop(reg) => err := PopOp(reg);
        case Leave => err := LeaveOp();
        case Nop =>
        case SetDF(on) => SetFlags(regs.flags.(df := on));
        case Str(op, w, rep, rex) => err := StrOp(op, w, rep, rex);
        case Trap => err := Some(BadOperand);
        case _ => branched, err := FlowOp(i);
      }
    }
  }
}
