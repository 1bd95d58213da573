/** The decoder as it runs (internal/cpu/modrm.go, decode.go): a cursor fetches
    bytes through the page memory, with its lookup cache and permission checks.
    Each method is proved to deliver what `Decoder` computes from the executable
    bytes alone. */
module Cursors {
  import opened Words
  import opened FlatMemory
  import opened PagedMemory
  import opened Instructions
  import opened Decoder

  /** The method returned, and the cursor stands, as `spec` says. */
  ghost predicate Delivers<T>(r: Result<T, EngineError>, pos: nat, spec: Parsed<T>) {
    match spec
    case Ok(g) => r == Ok(g.value) && pos == g.pos
    case Err(e) => r == Err(e)
  }

  class Cursor {
    const mem: Memory
    const base: U64
    var pos: nat

    constructor (mem: Memory, base: U64)
      ensures this.mem == mem && this.base == base && pos == 0
    {
      this.mem, this.base, pos := mem, base, 0;
    }

    ghost function Stream(): CodeBytes
      reads mem
    {
      Code(mem.flat)
    }

    method Fetch(n: nat) returns (r: Result<seq<Byte>, EngineError>)
      requires mem.Valid() && n <= 8
      modifies this, mem, mem.frames
      ensures mem.Valid() && mem.Untouched()
      ensures r == Decoder.Fetch(Stream(), base, old(pos), n)
      ensures pos == if r.Ok? then old(pos) + n else old(pos)
    {
      FetchSeesCodeOnly(mem.flat, Wrap64(base + pos), n);
      var b := mem.ReadCheckedInto(Wrap64(base + pos), n, NeedExec);
      match b
      case Ok(bytes) =>
        pos := pos + n;
        r := Ok(bytes);
      case Err(f) =>
        r := Err(MemFault(f));
    }

    /** u8, u16, u32 and u64. */
    method Take(n: nat) returns (r: Result<U64, EngineError>)
      requires mem.Valid() && n <= 8
      modifies this, mem, mem.frames
      ensures mem.Valid() && mem.Untouched()
      ensures Delivers(r, pos, Decoder.Take(Stream(), base, old(pos), n))
    {
      hide Code, Load;
      var b :- Fetch(n);
      r := Ok(LeWord(b));
    }

    /** i8 and i32. */
    method TakeSigned(w: Width) returns (r: Result<int, EngineError>)
      requires mem.Valid()
      modifies this, mem, mem.frames
      ensures mem.Valid() && mem.Untouched()
      ensures match Decoder.Take(Stream(), base, old(pos), w)
              case Ok(g) => r == Ok(Signed(g.value, w)) && pos == g.pos
              case Err(e) => r == Err(e)
    {
      hide Code, Decoder.Take;
      var v :- Take(w);
      r := Ok(Signed(v, w));
    }

    method Peek() returns (r: Result<Byte, EngineError>)
      requires mem.Valid()
      modifies this, mem, mem.frames
      ensures mem.Valid() && mem.Untouched() && pos == old(pos)
      ensures match Decoder.Take(Stream(), base, pos, 1)
              case Ok(g) => r == Ok(g.value % 0x100)
              case Err(e) => r == Err(e)
    {
      hide Code, Decoder.Take;
      var at := pos;
      var v := Take(1);
      pos := at;
      r := match v case Ok(x) => Ok(x % 0x100) case Err(e) => Err(e);
    }

    /** The legacy prefix loop. */
    method Prefixes() returns (r: Result<Decoder.Prefixes, EngineError>)
      requires mem.Valid() && pos == 0
      modifies this, mem, mem.frames
      ensures mem.Valid() && mem.Untouched()
      ensures r == SkipPrefixes(Stream(), base, NoPrefixes())
      ensures r.Ok? ==> pos == r.value.pos
    {
      hide Code, Decoder.Take;
      var p := NoPrefixes();
      while true
        invariant mem.Valid() && mem.Untouched()
        invariant pos == p.pos
        invariant SkipPrefixes(Stream(), base, p) == SkipPrefixes(Stream(), base, NoPrefixes())
        decreases MAX_PREFIXES - pos
      {
        if pos >= MAX_PREFIXES {
          return Err(EndlessPrefixes);
        }
        var b :- Peek();
        var q := WithPrefix(p, b);
        if q.None? {
          return Ok(p);
        }
        pos := pos + 1;
        p := q.value;
      }
    }

    // ---- ModRM -----------------------------------------------------------------

    method Displacement(mod: nat) returns (r: Result<int, EngineError>)
      requires mem.Valid()
      modifies this, mem, mem.frames
      ensures mem.Valid() && mem.Untouched()
      ensures Delivers(r, pos, Decoder.Displacement(Stream(), base, old(pos), mod))
    {
      hide Code, Decoder.Take;
      var disp := 0;
      if mod == 1 {
        disp :- TakeSigned(1);
      } else if mod == 2 {
        disp :- TakeSigned(4);
      }
      r := Ok(disp);
    }

    method DecodeSIB(c: Context, mod: nat) returns (r: Result<Operand, EngineError>)
      requires mem.Valid()
      modifies this, mem, mem.frames
      ensures mem.Valid() && mem.Untouched()
      ensures Delivers(r, pos, Decoder.DecodeSIB(Stream(), base, old(pos), c, mod))
    {
      hide Code, Decoder.Take, Decoder.Displacement;
      var s :- Take(1);
      var sib := s % 0x100;
      var scale := if sib / 64 == 0 then 1 else if sib / 64 == 1 then 2 else if sib / 64 == 2 then 4 else 8;
      var indexField := Extend(sib / 8 % 8, c.rexX);
      var index := if indexField != 4 then Some(indexField) else None;
      var reg, disp := None, 0;
      if sib % 8 == 5 && mod == 0 {
        disp :- TakeSigned(4);
      } else {
        reg := Some(Extend(sib % 8, c.rexB));
        disp :- Displacement(mod);
      }
      r := Ok(Mem(reg, index, scale, disp, NoSeg));
    }

    method DecodeModRM(c: Context) returns (r: Result<ModRM, EngineError>)
      requires mem.Valid()
      modifies this, mem, mem.frames
      ensures mem.Valid() && mem.Untouched()
      ensures Delivers(r, pos, Decoder.DecodeModRM(Stream(), base, old(pos), c))
    {
      hide Code, Decoder.Take, Decoder.Displacement, Decoder.DecodeSIB;
      var m :- Take(1);
      var b := m % 0x100;
      var mod, rm, reg := b / 64, b % 8, Extend(b / 8 % 8, c.rexR);
      if mod == 3 {
        return Ok(ModRM(reg, Reg(Extend(rm, c.rexB), c.rex)));
      } else if rm == 4 {
        var o :- DecodeSIB(c, mod);
        return Ok(ModRM(reg, o));
      } else if mod == 0 && rm == 5 {
        var d :- TakeSigned(4);
        return Ok(ModRM(reg, Rip(d)));
      }
      var d :- Displacement(mod);
      r := Ok(ModRM(reg, Mem(Some(Extend(rm, c.rexB)), None, 1, d, NoSeg)));
    }

    // ---- immediates ------------------------------------------------------------

    method ImmSigned(w: Width) returns (r: Result<U64, EngineError>)
      requires mem.Valid()
      modifies this, mem, mem.frames
      ensures mem.Valid() && mem.Untouched()
      ensures Delivers(r, pos, Decoder.ImmSigned(Stream(), base, old(pos), w))
    {
      hide Code, Decoder.Take;
      var n := if w == 2 then 2 else 4;
      var v :- Take(n);
      r := Ok(SignExtend(v, n));
    }

    method ImmPlain(w: Width) returns (r: Result<U64, EngineError>)
      requires mem.Valid()
      modifies this, mem, mem.frames
      ensures mem.Valid() && mem.Untouched()
      ensures Delivers(r, pos, Decoder.ImmPlain(Stream(), base, old(pos), w))
    {
      hide Code, Decoder.Take;
      var n := if w == 1 then 1 else if w == 2 then 2 else 4;
      var v :- Take(n);
      r := Ok(if n == 4 then Low(SignExtend(v, 4), w) else v);
    }

    method ImmByte() returns (r: Result<U64, EngineError>)
      requires mem.Valid()
      modifies this, mem, mem.frames
      ensures mem.Valid() && mem.Untouched()
      ensures Delivers(r, pos, Decoder.ImmByte(Stream(), base, old(pos)))
    {
      hide Code, Decoder.Take;
      var v :- Take(1);
      r := Ok(SignExtend(v, 1));
    }

    // ---- opcodes ---------------------------------------------------------------

    method DecodeAlu(c: Context, op: Byte) returns (r: Result<Instr, EngineError>)
      requires mem.Valid()
      modifies this, mem, mem.frames
      ensures mem.Valid() && mem.Untouched()
      ensures Delivers(r, pos, Decoder.DecodeAlu(Stream(), base, old(pos), c, op))
    {
      hide Code, Decoder.Take, Decoder.DecodeModRM, Decoder.ImmSigned;
      var idx, form := op / 8, op % 8;
      if form <= 3 {
        var mr :- DecodeModRM(c);
        var w := OpWidth(c, form == 0 || form == 2);
        var rm, reg := ApplySeg(c, mr.rm), Reg(mr.reg, c.rex);
        return Ok(if form >= 2 then Alu(idx, reg, rm, w) else Alu(idx, rm, reg, w));
      } else if form == 4 {
        var v :- Take(1);
        return Ok(Alu(idx, Reg(0, c.rex), Imm(v), 1));
      }
      var w := OpWidth(c, false);
      var v :- ImmSigned(w);
      r := Ok(if idx == 0 && w == 4 then FastAdd(0, v) else Alu(idx, Reg(0, c.rex), Imm(v), w));
    }

    method DecodeGroup1(c: Context, op: Byte) returns (r: Result<Instr, EngineError>)
      requires mem.Valid()
      modifies this, mem, mem.frames
      ensures mem.Valid() && mem.Untouched()
      ensures Delivers(r, pos, Decoder.DecodeGroup1(Stream(), base, old(pos), c, op))
    {
      hide Code, Decoder.Take, Decoder.DecodeModRM, Decoder.ImmSigned, Decoder.ImmByte;
      var w := OpWidth(c, op == 0x80);
      var mr :- DecodeModRM(c);
      var rm, idx := ApplySeg(c, mr.rm), mr.reg % 8;
      var v;
      if op == 0x81 {
        v :- ImmSigned(w);
      } else {
        v :- ImmByte();
      }
      r := Ok(if idx == 0 && w == 4 && rm.Reg? then FastAdd(rm.reg, v) else Alu(idx, rm, Imm(v), w));
    }

    method DecodeMove(c: Context, op: Byte) returns (r: Result<Instr, EngineError>)
      requires mem.Valid()
      modifies this, mem, mem.frames
      ensures mem.Valid() && mem.Untouched()
      ensures Delivers(r, pos, Decoder.DecodeMove(Stream(), base, old(pos), c, op))
    {
      hide Code, Decoder.Take, Decoder.DecodeModRM, Decoder.ImmPlain;
      var mr :- DecodeModRM(c);
      var w := OpWidth(c, op == 0x84 || op == 0x88 || op == 0x8A || op == 0xC6);
      var rm, reg := ApplySeg(c, mr.rm), Reg(mr.reg, c.rex);
      if op == 0x84 || op == 0x85 {
        return Ok(Test(rm, reg, w));
      } else if op == 0x88 || op == 0x89 {
        return Ok(Mov(rm, reg, w));
      } else if op == 0x8A || op == 0x8B {
        return Ok(Mov(reg, rm, w));
      } else if op == 0x8D {
        return Ok(Lea(reg, mr.rm, w));
      }
      var v :- ImmPlain(w);
      r := Ok(Mov(rm, Imm(v), w));
    }

    method DecodeMovImm(c: Context, op: Byte) returns (r: Result<Instr, EngineError>)
      requires mem.Valid()
      modifies this, mem, mem.frames
      ensures mem.Valid() && mem.Untouched()
      ensures Delivers(r, pos, Decoder.DecodeMovImm(Stream(), base, old(pos), c, op))
    {
      hide Code, Decoder.Take;
      var reg := Reg(Extend(op % 8, c.rexB), c.rex);
      var w := OpWidth(c, op < 0xB8);
      var v :- Take(w);
      r := Ok(Mov(reg, Imm(v), w));
    }

    method DecodeTestImm(c: Context, op: Byte) returns (r: Result<Instr, EngineError>)
      requires mem.Valid()
      modifies this, mem, mem.frames
      ensures mem.Valid() && mem.Untouched()
      ensures Delivers(r, pos, Decoder.DecodeTestImm(Stream(), base, old(pos), c, op))
    {
      hide Code, Decoder.Take, Decoder.ImmPlain;
      var w := OpWidth(c, op == 0xA8);
      var v :- ImmPlain(w);
      r := Ok(Test(Reg(0, c.rex), Imm(v), w));
    }

    method DecodeGroup3(c: Context, op: Byte) returns (r: Result<Instr, EngineError>)
      requires mem.Valid()
      modifies this, mem, mem.frames
      ensures mem.Valid() && mem.Untouched()
      ensures Delivers(r, pos, Decoder.DecodeGroup3(Stream(), base, old(pos), c, op))
    {
      hide Code, Decoder.Take, Decoder.DecodeModRM, Decoder.ImmPlain;
      var w := OpWidth(c, op == 0xF6);
      var mr :- DecodeModRM(c);
      var rm, idx := ApplySeg(c, mr.rm), mr.reg % 8;
      if idx <= 1 {
        var v :- ImmPlain(w);
        return Ok(Test(rm, Imm(v), w));
      }
      r := Ok(Grp3(idx, rm, w));
    }

    method DecodeGroup5(c: Context, op: Byte) returns (r: Result<Instr, EngineError>)
      requires mem.Valid()
      modifies this, mem, mem.frames
      ensures mem.Valid() && mem.Untouched()
      ensures Delivers(r, pos, Decoder.DecodeGroup5(Stream(), base, old(pos), c, op))
    {
      hide Code, Decoder.Take, Decoder.DecodeModRM;
      var w := OpWidth(c, op == 0xFE);
      var mr :- DecodeModRM(c);
      var rm, idx := ApplySeg(c, mr.rm), mr.reg % 8;
      if w == 4 && rm.Reg? && idx == 0 {
        return Ok(FastInc(rm.reg));
      } else if w == 4 && rm.Reg? && idx == 1 {
        return Ok(FastDec(rm.reg));
      }
      match idx {
        case 0 => r := Ok(IncDec(true, rm, w));
        case 1 => r := Ok(IncDec(false, rm, w));
        case 2 => r := Ok(CallInd(rm));
        case 4 => r := Ok(JmpInd(rm));
        case 6 => r := Ok(Push(rm));
        case _ => r := Err(BadOpcode);
      }
    }

    method DecodeFlow(c: Context, op: Byte) returns (r: Result<Instr, EngineError>)
      requires mem.Valid()
      modifies this, mem, mem.frames
      ensures mem.Valid() && mem.Untouched()
      ensures Delivers(r, pos, Decoder.DecodeFlow(Stream(), base, old(pos), c, op))
    {
      hide Code, Decoder.Take;
      if op == 0xC3 {
        return Ok(Ret(0));
      }
      var n := if op == 0xE8 || op == 0xE9 || op == 0x68 then 4 else if op == 0xC2 then 2 else 1;
      var v :- Take(n);
      var rel := Signed(v, n);
      r := Ok(if op == 0xE8 then CallRel(rel)
              else if op == 0xE9 || op == 0xEB then JmpRel(rel)
              else if op == 0xC2 then Ret(v)
              else if op == 0x68 || op == 0x6A then Push(Imm(SignExtend(v, n)))
              else Jcc(op % 16, rel));
    }

    method DecodeOpcode(c: Context, op: Byte) returns (r: Result<Instr, EngineError>)
      requires mem.Valid()
      modifies this, mem, mem.frames
      ensures mem.Valid() && mem.Untouched()
      ensures Delivers(r, pos, Decoder.DecodeOpcode(Stream(), base, old(pos), c, op))
    {
      hide Code, Decoder.DecodeAlu, Decoder.DecodeGroup1, Decoder.DecodeMove, Decoder.DecodeMovImm, Decoder.DecodeTestImm;
      hide Decoder.DecodeGroup3, Decoder.DecodeGroup5, Decoder.DecodeFlow, DecodePlain;
      if AluOpcode(op) {
        r := DecodeAlu(c, op);
      } else if op == 0x80 || op == 0x81 || op == 0x83 {
        r := DecodeGroup1(c, op);
      } else if MoveOpcode(op) {
        r := DecodeMove(c, op);
      } else if 0xB0 <= op <= 0xBF {
        r := DecodeMovImm(c, op);
      } else if op == 0xA8 || op == 0xA9 {
        r := DecodeTestImm(c, op);
      } else if op == 0xF6 || op == 0xF7 {
        r := DecodeGroup3(c, op);
      } else if op == 0xFE || op == 0xFF {
        r := DecodeGroup5(c, op);
      } else if FlowOpcode(op) {
        r := DecodeFlow(c, op);
      } else {
        var i := DecodePlain(c, op);
        r := if i.Some? then Ok(i.value) else Err(BadOpcode);
      }
    }

    method DecodeTwoByte() returns (r: Result<Decoded, EngineError>)
      requires mem.Valid()
      modifies this, mem, mem.frames
      ensures mem.Valid() && mem.Untouched()
      ensures r == Decoder.DecodeTwoByte(Stream(), base, old(pos))
    {
      hide Code, Decoder.Take;
      var o :- Take(1);
      var op := o % 0x100;
      if op == 0x05 {
        return Ok(Decoded(pos, Syscall, false, Trap));
      } else if op == 0xA2 {
        return Ok(Decoded(pos, Cpuid, false, Trap));
      } else if 0x80 <= op <= 0x8F {
        var rel :- TakeSigned(4);
        return Ok(Finish(Jcc(op - 0x80, rel), pos));
      }
      r := Err(BadOpcode);
    }

    method DecodeBody(p: Decoder.Prefixes) returns (r: Result<Decoded, EngineError>)
      requires mem.Valid() && pos == p.pos
      modifies this, mem, mem.frames
      ensures mem.Valid() && mem.Untouched()
      ensures r == Decoder.DecodeBody(Stream(), base, p)
    {
      hide Code, Decoder.Take, Decoder.DecodeOpcode, Decoder.DecodeTwoByte, MakeContext;
      var b :- Peek();
      if b == 0xC4 || b == 0xC5 {
        return Err(BadOpcode);
      }
      var rex := None;
      if 0x40 <= b <= 0x4F {
        rex := Some(b);
        pos := pos + 1;
      }
      var c := MakeContext(p, rex);
      var o :- Take(1);
      var op := o % 0x100;
      if op == 0x0F {
        r := DecodeTwoByte();
        return;
      }
      var i :- DecodeOpcode(c, op);
      r := Ok(Finish(i, pos));
    }
  }

  /** decodeOne: whatever the mappings, data and caches, the result is a function
      of the address and the executable bytes. */
  method DecodeOne(mem: Memory, addr: U64) returns (r: Result<Decoded, EngineError>)
    requires mem.Valid()
    modifies mem, mem.frames
    ensures mem.Valid() && mem.Untouched()
    ensures r == Decode(Code(mem.flat), addr)
  {
    hide Code, SkipPrefixes, Decoder.DecodeBody;
    var c := new Cursor(mem, addr);
    var p :- c.Prefixes();
    r := c.DecodeBody(p);
  }
}
