/** Instruction decoding (internal/cpu/decode.go, modrm.go) as a function of the
    executable bytes alone. */
module Decoder {
  import opened Words
  import opened FlatMemory
  import opened Registers
  import opened Instructions

  type CodeBytes = map<U64, Byte>

  /** What a read of the instruction stream delivers, and the position after it. */
  datatype Got<+T> = Got(value: T, pos: nat)

  type Parsed<T> = Result<Got<T>, EngineError>

  /** Prefix bytes seen so far. */
  datatype Prefixes = Prefixes(pos: nat, opSize16: bool, fs: bool, gs: bool, rep: Rep)

  /** Everything the prefixes decide about an instruction. */
  datatype Context = Context(opSize16: bool, fs: bool, gs: bool, rep: Rep,
                             rex: bool, rexW: bool, rexR: bool, rexX: bool, rexB: bool)

  // ---- the instruction stream ------------------------------------------------

  ghost function Fetch(code: CodeBytes, base: U64, pos: nat, n: nat): Result<seq<Byte>, EngineError> {
    match Load(OnlyCode(code), Wrap64(base + pos), n, NeedExec)
    case Ok(b) => Ok(b)
    case Err(f) => Err(MemFault(f))
  }

  /** The next n bytes, little-endian. */
  ghost function Take(code: CodeBytes, base: U64, pos: nat, n: nat): Parsed<U64>
    requires n <= 8
  {
    var b :- Fetch(code, base, pos, n);
    Ok(Got(LeWord(b), pos + n))
  }

  // ---- prefixes --------------------------------------------------------------

  function WithPrefix(p: Prefixes, b: Byte): Option<Prefixes> {
    var q := p.(pos := p.pos + 1);
    match b
    case 0x66 => Some(q.(opSize16 := true))
    case 0x67 => Some(q)
    case 0xF0 => Some(q)
    case 0x2E => Some(q)
    case 0x36 => Some(q)
    case 0x3E => Some(q)
    case 0x26 => Some(q)
    case 0xF2 => Some(q.(rep := RepNZ))
    case 0xF3 => Some(q.(rep := RepZ))
    case 0x64 => Some(q.(fs := true))
    case 0x65 => Some(q.(gs := true))
    case _ => None
  }

  const MAX_PREFIXES: nat := 0x1_0000_0000_0000_0000

  /** Skips legacy prefixes.  A run of 2^64 prefix bytes, possible only if the
      whole address space is mapped, would never end; it is an error here. */
  ghost function SkipPrefixes(code: CodeBytes, base: U64, p: Prefixes): Result<Prefixes, EngineError>
    decreases MAX_PREFIXES - p.pos
  {
    if p.pos >= MAX_PREFIXES then Err(EndlessPrefixes)
    else
      var b :- Take(code, base, p.pos, 1);
      match WithPrefix(p, b.value % 0x100)
      case None => Ok(p)
      case Some(q) => SkipPrefixes(code, base, q)
  }

  function NoPrefixes(): Prefixes {
    Prefixes(0, false, false, false, RepNone)
  }

  function MakeContext(p: Prefixes, rex: Option<Byte>): Context {
    var r := if rex.Some? then rex.value else 0;
    Context(p.opSize16, p.fs, p.gs, p.rep, rex.Some?, Odd(r / 8), Odd(r / 4), Odd(r / 2), Odd(r))
  }

  function OpWidth(c: Context, byteOp: bool): Width {
    if byteOp then 1 else if c.rexW then 8 else if c.opSize16 then 2 else 4
  }

  function ApplySeg(c: Context, o: Operand): Operand {
    if !o.Mem? then o
    else if c.fs then o.(seg := SegFS)
    else if c.gs then o.(seg := SegGS)
    else o
  }

  // ---- ModRM -----------------------------------------------------------------

  datatype ModRM = ModRM(reg: RegIdx, rm: Operand)

  function Extend(raw: nat, ext: bool): RegIdx
    requires raw < 8
  {
    if ext then raw + 8 else raw
  }

  /** The displacement that mod 1 and 2 call for. */
  ghost function Displacement(code: CodeBytes, base: U64, pos: nat, mod: nat): Parsed<int> {
    if mod == 1 then
      var d :- Take(code, base, pos, 1);
      Ok(Got(Signed(d.value, 1), d.pos))
    else if mod == 2 then
      var d :- Take(code, base, pos, 4);
      Ok(Got(Signed(d.value, 4), d.pos))
    else Ok(Got(0, pos))
  }

  /** The operand that follows a SIB byte. */
  ghost function DecodeSIB(code: CodeBytes, base: U64, pos: nat, c: Context, mod: nat): Parsed<Operand> {
    var s :- Take(code, base, pos, 1);
    var sib := s.value % 0x100;
    var scale := if sib / 64 == 0 then 1 else if sib / 64 == 1 then 2 else if sib / 64 == 2 then 4 else 8;
    var indexField := Extend(sib / 8 % 8, c.rexX);
    var index := if indexField != 4 then Some(indexField) else None;
    if sib % 8 == 5 && mod == 0 then
      var d :- Take(code, base, s.pos, 4);
      Ok(Got(Mem(None, index, scale, Signed(d.value, 4), NoSeg), d.pos))
    else
      var d :- Displacement(code, base, s.pos, mod);
      Ok(Got(Mem(Some(Extend(sib % 8, c.rexB)), index, scale, d.value, NoSeg), d.pos))
  }

  ghost function DecodeModRM(code: CodeBytes, base: U64, pos: nat, c: Context): Parsed<ModRM> {
    var m :- Take(code, base, pos, 1);
    var b := m.value % 0x100;
    var mod, rm, reg := b / 64, b % 8, Extend(b / 8 % 8, c.rexR);
    if mod == 3 then Ok(Got(ModRM(reg, Reg(Extend(rm, c.rexB), c.rex)), m.pos))
    else if rm == 4 then
      var o :- DecodeSIB(code, base, m.pos, c, mod);
      Ok(Got(ModRM(reg, o.value), o.pos))
    else if mod == 0 && rm == 5 then
      var d :- Take(code, base, m.pos, 4);
      Ok(Got(ModRM(reg, Rip(Signed(d.value, 4))), d.pos))
    else
      var d :- Displacement(code, base, m.pos, mod);
      Ok(Got(ModRM(reg, Mem(Some(Extend(rm, c.rexB)), None, 1, d.value, NoSeg)), d.pos))
  }

  // ---- immediates ------------------------------------------------------------

  /** imm16 or imm32 by operand size, sign-extended to 64 bits. */
  ghost function ImmSigned(code: CodeBytes, base: U64, pos: nat, w: Width): Parsed<U64> {
    var n := if w == 2 then 2 else 4;
    var v :- Take(code, base, pos, n);
    Ok(Got(SignExtend(v.value, n), v.pos))
  }

  /** imm8, imm16 or imm32 for a width, as MOV and TEST take it. */
  ghost function ImmPlain(code: CodeBytes, base: U64, pos: nat, w: Width): Parsed<U64> {
    var n := if w == 1 then 1 else if w == 2 then 2 else 4;
    var v :- Take(code, base, pos, n);
    Ok(Got(if n == 4 then Low(SignExtend(v.value, 4), w) else v.value, v.pos))
  }

  // ---- opcodes ---------------------------------------------------------------

  /** 00 to 3D: the eight ALU operations in their six forms. */
  ghost function DecodeAlu(code: CodeBytes, base: U64, pos: nat, c: Context, op: Byte): (r: Parsed<Instr>)
    ensures r.Ok? ==> !r.value.value.Trap?
  {
    var idx, form := op / 8, op % 8;
    if form <= 3 then
      var mr :- DecodeModRM(code, base, pos, c);
      var w := OpWidth(c, form == 0 || form == 2);
      var rm, reg := ApplySeg(c, mr.value.rm), Reg(mr.value.reg, c.rex);
      Ok(Got(if form >= 2 then Alu(idx, reg, rm, w) else Alu(idx, rm, reg, w), mr.pos))
    else if form == 4 then
      var v :- Take(code, base, pos, 1);
      Ok(Got(Alu(idx, Reg(0, c.rex), Imm(v.value), 1), v.pos))
    else
      var w := OpWidth(c, false);
      var v :- ImmSigned(code, base, pos, w);
      Ok(Got(if idx == 0 && w == 4 then FastAdd(0, v.value) else Alu(idx, Reg(0, c.rex), Imm(v.value), w), v.pos))
  }

  /** 80, 81, 83: ALU operations with an immediate. */
  ghost function DecodeGroup1(code: CodeBytes, base: U64, pos: nat, c: Context, op: Byte): (r: Parsed<Instr>)
    ensures r.Ok? ==> !r.value.value.Trap?
  {
    var w := OpWidth(c, op == 0x80);
    var mr :- DecodeModRM(code, base, pos, c);
    var rm, idx := ApplySeg(c, mr.value.rm), mr.value.reg % 8;
    var v :- if op == 0x81 then ImmSigned(code, base, mr.pos, w) else ImmByte(code, base, mr.pos);
    Ok(Got(if idx == 0 && w == 4 && rm.Reg? then FastAdd(rm.reg, v.value) else Alu(idx, rm, Imm(v.value), w), v.pos))
  }

  /** imm8 sign-extended to 64 bits. */
  ghost function ImmByte(code: CodeBytes, base: U64, pos: nat): Parsed<U64> {
    var v :- Take(code, base, pos, 1);
    Ok(Got(SignExtend(v.value, 1), v.pos))
  }

  /** 84, 85, 88 to 8B, 8D, C6, C7: TEST, MOV and LEA through ModRM. */
  ghost function DecodeMove(code: CodeBytes, base: U64, pos: nat, c: Context, op: Byte): (r: Parsed<Instr>)
    ensures r.Ok? ==> !r.value.value.Trap?
  {
    var mr :- DecodeModRM(code, base, pos, c);
    var w := OpWidth(c, op == 0x84 || op == 0x88 || op == 0x8A || op == 0xC6);
    var rm, reg := ApplySeg(c, mr.value.rm), Reg(mr.value.reg, c.rex);
    if op == 0x84 || op == 0x85 then Ok(Got(Test(rm, reg, w), mr.pos))
    else if op == 0x88 || op == 0x89 then Ok(Got(Mov(rm, reg, w), mr.pos))
    else if op == 0x8A || op == 0x8B then Ok(Got(Mov(reg, rm, w), mr.pos))
    else if op == 0x8D then Ok(Got(Lea(reg, mr.value.rm, w), mr.pos))
    else
      var v :- ImmPlain(code, base, mr.pos, w);
      Ok(Got(Mov(rm, Imm(v.value), w), v.pos))
  }

  /** B0 to BF: MOV register, immediate. */
  ghost function DecodeMovImm(code: CodeBytes, base: U64, pos: nat, c: Context, op: Byte): (r: Parsed<Instr>)
    ensures r.Ok? ==> !r.value.value.Trap?
  {
    var reg := Reg(Extend(op % 8, c.rexB), c.rex);
    var w := OpWidth(c, op < 0xB8);
    var v :- Take(code, base, pos, w);
    Ok(Got(Mov(reg, Imm(v.value), w), v.pos))
  }

  /** A8, A9: TEST accumulator, immediate. */
  ghost function DecodeTestImm(code: CodeBytes, base: U64, pos: nat, c: Context, op: Byte): (r: Parsed<Instr>)
    ensures r.Ok? ==> !r.value.value.Trap?
  {
    var w := OpWidth(c, op == 0xA8);
    var v :- ImmPlain(code, base, pos, w);
    Ok(Got(Test(Reg(0, c.rex), Imm(v.value), w), v.pos))
  }

  /** F6, F7: TEST with an immediate, NOT, NEG, MUL, IMUL, DIV, IDIV. */
  ghost function DecodeGroup3(code: CodeBytes, base: U64, pos: nat, c: Context, op: Byte): (r: Parsed<Instr>)
    ensures r.Ok? ==> !r.value.value.Trap?
  {
    var w := OpWidth(c, op == 0xF6);
    var mr :- DecodeModRM(code, base, pos, c);
    var rm, idx := ApplySeg(c, mr.value.rm), mr.value.reg % 8;
    if idx <= 1 then
      var v :- ImmPlain(code, base, mr.pos, w);
      Ok(Got(Test(rm, Imm(v.value), w), v.pos))
    else Ok(Got(Grp3(idx, rm, w), mr.pos))
  }

  /** FE, FF: INC, DEC, indirect CALL and JMP, PUSH. */
  ghost function DecodeGroup5(code: CodeBytes, base: U64, pos: nat, c: Context, op: Byte): (r: Parsed<Instr>)
    ensures r.Ok? ==> !r.value.value.Trap?
  {
    var w := OpWidth(c, op == 0xFE);
    var mr :- DecodeModRM(code, base, pos, c);
    var rm, idx := ApplySeg(c, mr.value.rm), mr.value.reg % 8;
    if w == 4 && rm.Reg? && idx == 0 then Ok(Got(FastInc(rm.reg), mr.pos))
    else if w == 4 && rm.Reg? && idx == 1 then Ok(Got(FastDec(rm.reg), mr.pos))
    else match idx
      case 0 => Ok(Got(IncDec(true, rm, w), mr.pos))
      case 1 => Ok(Got(IncDec(false, rm, w), mr.pos))
      case 2 => Ok(Got(CallInd(rm), mr.pos))
      case 4 => Ok(Got(JmpInd(rm), mr.pos))
      case 6 => Ok(Got(Push(rm), mr.pos))
      case _ => Err(BadOpcode)
  }

  /** E8, E9, EB, 70 to 7F, C2, C3 and 68, 6A: an immediate and no operand. */
  ghost function DecodeFlow(code: CodeBytes, base: U64, pos: nat, c: Context, op: Byte): (r: Parsed<Instr>)
    ensures r.Ok? ==> !r.value.value.Trap?
  {
    if op == 0xC3 then Ok(Got(Ret(0), pos))
    else
      var n := if op == 0xE8 || op == 0xE9 || op == 0x68 then 4 else if op == 0xC2 then 2 else 1;
      var v :- Take(code, base, pos, n);
      var rel := Signed(v.value, n);
      Ok(Got(if op == 0xE8 then CallRel(rel)
             else if op == 0xE9 || op == 0xEB then JmpRel(rel)
             else if op == 0xC2 then Ret(v.value)
             else if op == 0x68 || op == 0x6A then Push(Imm(SignExtend(v.value, n)))
             else Jcc(op % 16, rel), v.pos))
  }

  function StringOp(op: Byte): StrOp {
    if op / 2 == 0x52 then Movs
    else if op / 2 == 0x53 then Cmps
    else if op / 2 == 0x55 then Stos
    else if op / 2 == 0x56 then Lods
    else Scas
  }

  /** Opcodes that carry nothing but themselves. */
  function DecodePlain(c: Context, op: Byte): Option<Instr> {
    if 0x50 <= op <= 0x57 then Some(Push(Reg(Extend(op - 0x50, c.rexB), true)))
    else if 0x58 <= op <= 0x5F then Some(Pop(Extend(op - 0x58, c.rexB)))
    else if op == 0x90 && !c.rexB then Some(Nop)
    else if op == 0xC9 then Some(Leave)
    else if op == 0xFC then Some(SetDF(false))
    else if op == 0xFD then Some(SetDF(true))
    else if 0xA4 <= op <= 0xA7 || 0xAA <= op <= 0xAF
      then Some(Str(StringOp(op), OpWidth(c, op % 2 == 0), c.rep, c.rex))
    else None
  }

  predicate AluOpcode(op: Byte) {
    op <= 0x3D && op % 8 <= 5
  }

  predicate MoveOpcode(op: Byte) {
    0x84 <= op <= 0x85 || 0x88 <= op <= 0x8B || op == 0x8D || op == 0xC6 || op == 0xC7
  }

  predicate FlowOpcode(op: Byte) {
    op == 0xE8 || op == 0xE9 || op == 0xEB || 0x70 <= op <= 0x7F || op == 0xC2 || op == 0xC3 || op == 0x68 || op == 0x6A
  }

  /** One-byte opcodes. */
  ghost function DecodeOpcode(code: CodeBytes, base: U64, pos: nat, c: Context, op: Byte): (r: Parsed<Instr>)
    ensures r.Ok? ==> !r.value.value.Trap?
  {
    if AluOpcode(op) then DecodeAlu(code, base, pos, c, op)
    else if op == 0x80 || op == 0x81 || op == 0x83 then DecodeGroup1(code, base, pos, c, op)
    else if MoveOpcode(op) then DecodeMove(code, base, pos, c, op)
    else if 0xB0 <= op <= 0xBF then DecodeMovImm(code, base, pos, c, op)
    else if op == 0xA8 || op == 0xA9 then DecodeTestImm(code, base, pos, c, op)
    else if op == 0xF6 || op == 0xF7 then DecodeGroup3(code, base, pos, c, op)
    else if op == 0xFE || op == 0xFF then DecodeGroup5(code, base, pos, c, op)
    else if FlowOpcode(op) then DecodeFlow(code, base, pos, c, op)
    else match DecodePlain(c, op)
      case Some(i) => Ok(Got(i, pos))
      case None => Err(BadOpcode)
  }

  /** Branches, and only they, end a block; traps, and only they, have hooks. */
  predicate WellDecoded(d: Decoded) {
    d.endsBlock == IsBranch(d.instr) && (d.hooked.NotHooked? <==> !d.instr.Trap?)
  }

  function Finish(i: Instr, len: nat): Decoded {
    Decoded(len, NotHooked, IsBranch(i), i)
  }

  /** After a 0F escape: SYSCALL, CPUID and the near conditional jumps. */
  ghost function DecodeTwoByte(code: CodeBytes, base: U64, pos: nat): (r: Result<Decoded, EngineError>)
    ensures r.Ok? ==> WellDecoded(r.value)
  {
    var o :- Take(code, base, pos, 1);
    var op := o.value % 0x100;
    if op == 0x05 then Ok(Decoded(o.pos, Syscall, false, Trap))
    else if op == 0xA2 then Ok(Decoded(o.pos, Cpuid, false, Trap))
    else if 0x80 <= op <= 0x8F then
      var v :- Take(code, base, o.pos, 4);
      Ok(Finish(Jcc(op - 0x80, Signed(v.value, 4)), v.pos))
    else Err(BadOpcode)
  }

  /** REX and opcode, after the legacy prefixes. */
  ghost function DecodeBody(code: CodeBytes, base: U64, p: Prefixes): (r: Result<Decoded, EngineError>)
    ensures r.Ok? ==> WellDecoded(r.value)
  {
    var first :- Take(code, base, p.pos, 1);
    var b := first.value % 0x100;
    if b == 0xC4 || b == 0xC5 then Err(BadOpcode)
    else
      var isRex := 0x40 <= b <= 0x4F;
      var c := MakeContext(p, if isRex then Some(b) else None);
      var o :- Take(code, base, if isRex then p.pos + 1 else p.pos, 1);
      var op := o.value % 0x100;
      if op == 0x0F then DecodeTwoByte(code, base, o.pos)
      else
        var i :- DecodeOpcode(code, base, o.pos, c, op);
        Ok(Finish(i.value, i.pos))
  }

  /** decodeOne: the instruction at an address. */
  ghost function Decode(code: CodeBytes, addr: U64): (r: Result<Decoded, EngineError>)
    ensures r.Ok? ==> WellDecoded(r.value)
  {
    var p :- SkipPrefixes(code, addr, NoPrefixes());
    DecodeBody(code, addr, p)
  }
}
