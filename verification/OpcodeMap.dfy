/** The instruction encodings of the subset, line by line as the Intel SDM lists them
    (Vol. 2, the instruction pages, with appendix A, tables A-2, A-3 and A-6), and that
    decodeOne inverts them: on the bytes of any line, with any prefixes and REX that
    it allows, it returns that line's instruction, and it accepts nothing else. */
module OpcodeMap {
  import opened Words
  import opened FlatMemory
  import opened Registers
  import opened Instructions
  import opened Decoder
  import opened Addressing

  // ---- parts of an instruction -----------------------------------------------

  datatype Rex = Rex(w: bool, r: bool, x: bool, b: bool)

  /** ModRM, SIB and displacement: the reg field, the operand, and how it is written. */
  datatype Operands = Operands(reg: RegIdx, rm: Operand, ch: Choice)

  /** Opcode, operands and immediate. */
  datatype Line = Line(opcode: seq<Byte>, modrm: Option<Operands>, imm: seq<Byte>)

  datatype Encoding = Encoding(prefixes: seq<Byte>, rex: Option<Rex>, line: Line)

  function RexByte(r: Rex): Byte {
    0x40 + (if r.w then 8 else 0) + (if r.r then 4 else 0) + (if r.x then 2 else 0) + (if r.b then 1 else 0)
  }

  function RexBytes(rex: Option<Rex>): seq<Byte> {
    if rex.Some? then [RexByte(rex.value)] else []
  }

  /** Operand and address size, LOCK, the segments, REPNE and REP. */
  predicate IsPrefix(b: Byte) {
    b in {0x66, 0x67, 0xF0, 0x2E, 0x36, 0x3E, 0x26, 0x64, 0x65, 0xF2, 0xF3}
  }

  /** The last of REPNE and REP counts. */
  function RepOf(ps: seq<Byte>): Rep {
    if ps == [] then RepNone
    else
      var b := ps[|ps| - 1];
      if b == 0xF2 then RepNZ else if b == 0xF3 then RepZ else RepOf(ps[..|ps| - 1])
  }

  /** What prefixes and REX say. */
  function Setting(e: Encoding): Context {
    var r := if e.rex.Some? then e.rex.value else Rex(false, false, false, false);
    Context(0x66 in e.prefixes, 0x64 in e.prefixes, 0x65 in e.prefixes, RepOf(e.prefixes),
            e.rex.Some?, r.w, r.r, r.x, r.b)
  }

  function OperandBytes(l: Line): seq<Byte>
    requires l.modrm.Some? ==> Encodable(l.modrm.value.rm, l.modrm.value.ch)
  {
    if l.modrm.Some? then Encode(l.modrm.value.rm, l.modrm.value.reg, l.modrm.value.ch) else []
  }

  /** The operands can be written, and REX extends their registers. */
  ghost predicate Writable(c: Context, l: Line) {
    l.modrm.Some? ==>
      Encodable(l.modrm.value.rm, l.modrm.value.ch) && RexFor(l.modrm.value.rm, l.modrm.value.ch, l.modrm.value.reg, c)
  }

  function BytesOf(e: Encoding): seq<Byte>
    requires e.line.modrm.Some? ==> Encodable(e.line.modrm.value.rm, e.line.modrm.value.ch)
  {
    e.prefixes + RexBytes(e.rex) + e.line.opcode + OperandBytes(e.line) + e.line.imm
  }

  // ---- operands and immediates -----------------------------------------------

  /** REX.W makes 64-bit operands, the 66 prefix 16-bit ones. */
  function OperandSize(c: Context): Width {
    if c.rexW then 8 else if c.opSize16 then 2 else 4
  }

  /** Memory through FS or GS if there is such a prefix. */
  function RmOf(c: Context, m: Operands): Operand {
    match m.rm
    case Mem(b, x, s, d, seg) => Mem(b, x, s, d, if c.fs then SegFS else if c.gs then SegGS else seg)
    case o => o
  }

  function RegOf(c: Context, m: Operands): Operand {
    Reg(m.reg, c.rex)
  }

  function AsSigned(v: U64): int {
    if v < 0x8000_0000_0000_0000 then v else v - 0x1_0000_0000_0000_0000
  }

  /** An immediate of n bytes, sign-extended to v. */
  ghost predicate SignedImm(v: U64, n: Width, b: seq<Byte>) {
    FitsSigned(AsSigned(v), n) && b == DispBytes(AsSigned(v), n)
  }

  /** An immediate of n bytes, zero-extended. */
  ghost predicate UnsignedImm(v: U64, n: Width, b: seq<Byte>) {
    v < Span(n) && b == NatToLe(v, n)
  }

  /** imm16 or imm32, as wide as the operand up to 32 bits. */
  function ImmSize(w: Width): Width {
    if w == 2 then 2 else 4
  }

  /** The immediate of MOV and TEST, sign-extended only for 64-bit operands. */
  ghost predicate MovImm(v: U64, w: Width, b: seq<Byte>) {
    if w == 8 then SignedImm(v, 4, b) else UnsignedImm(v, w, b)
  }

  ghost predicate RelImm(rel: int, n: Width, b: seq<Byte>) {
    FitsSigned(rel, n) && b == DispBytes(rel, n)
  }

  // ---- the lines -------------------------------------------------------------

  /** One opcode byte for byte operands and another for larger ones. */
  predicate Sized(c: Context, l: Line, w: Width, byteOp: Byte, fullOp: Byte) {
    (l.opcode == [byteOp] && w == 1) || (l.opcode == [fullOp] && w == OperandSize(c))
  }

  /** r/m, reg. */
  predicate RmReg(c: Context, l: Line, a: Operand, b: Operand) {
    l.modrm.Some? && l.imm == [] && a == RmOf(c, l.modrm.value) && b == RegOf(c, l.modrm.value)
  }

  /** r/m alone, the reg field extending the opcode. */
  predicate RmDigit(c: Context, l: Line, digit: nat, rm: Operand) {
    l.modrm.Some? && l.modrm.value.reg % 8 == digit && rm == RmOf(c, l.modrm.value)
  }

  predicate Bare(l: Line, op: nat) {
    l.opcode == [op] && l.modrm.None?
  }

  predicate Alone(l: Line, op: nat) {
    Bare(l, op) && l.imm == []
  }

  /** A register in the low bits of the opcode, extended by REX.B. */
  predicate InOpcode(c: Context, r: RegIdx) {
    c.rexB == (r >= 8)
  }

  /** ADD, OR, ADC, SBB, AND, SUB, XOR, CMP: their first opcodes. */
  const ALU: seq<Byte> := [0x00, 0x08, 0x10, 0x18, 0x20, 0x28, 0x30, 0x38]

  ghost predicate AluRegister(c: Context, l: Line, op: nat, dst: Operand, src: Operand, w: Width)
    requires op < 8
  {
    || (Sized(c, l, w, ALU[op], ALU[op] + 1) && RmReg(c, l, dst, src))
    || (Sized(c, l, w, ALU[op] + 2, ALU[op] + 3) && RmReg(c, l, src, dst))
  }

  ghost predicate AluAccumulator(c: Context, l: Line, op: nat, dst: Operand, v: U64, w: Width)
    requires op < 8
  {
    dst == Reg(0, c.rex) &&
    (|| (Bare(l, ALU[op] + 4) && w == 1 && UnsignedImm(v, 1, l.imm))
     || (Bare(l, ALU[op] + 5) && w == OperandSize(c) && SignedImm(v, ImmSize(w), l.imm)))
  }

  ghost predicate AluImmediate(c: Context, l: Line, op: nat, dst: Operand, v: U64, w: Width) {
    RmDigit(c, l, op, dst) &&
    (|| (l.opcode == [0x80] && w == 1 && SignedImm(v, 1, l.imm))
     || (l.opcode == [0x81] && w == OperandSize(c) && SignedImm(v, ImmSize(w), l.imm))
     || (l.opcode == [0x83] && w == OperandSize(c) && SignedImm(v, 1, l.imm)))
  }

  ghost predicate AluLine(c: Context, l: Line, op: nat, dst: Operand, src: Operand, w: Width) {
    op < 8 &&
    (AluRegister(c, l, op, dst, src, w)
     || (src.Imm? && (AluAccumulator(c, l, op, dst, src.imm, w) || AluImmediate(c, l, op, dst, src.imm, w))))
  }

  /** The program takes F6 and F7 /1 for /0. */
  ghost predicate TestLine(c: Context, l: Line, a: Operand, b: Operand, w: Width) {
    || (Sized(c, l, w, 0x84, 0x85) && RmReg(c, l, a, b))
    || (b.Imm? && Sized(c, l, w, 0xA8, 0xA9) && l.modrm.None? && a == Reg(0, c.rex) && MovImm(b.imm, w, l.imm))
    || (b.Imm? && Sized(c, l, w, 0xF6, 0xF7) && (RmDigit(c, l, 0, a) || RmDigit(c, l, 1, a)) && MovImm(b.imm, w, l.imm))
  }

  /** The program takes C6 and C7 with any digit for /0. */
  ghost predicate MovLine(c: Context, l: Line, dst: Operand, src: Operand, w: Width) {
    || (Sized(c, l, w, 0x88, 0x89) && RmReg(c, l, dst, src))
    || (Sized(c, l, w, 0x8A, 0x8B) && RmReg(c, l, src, dst))
    || (src.Imm? && Sized(c, l, w, 0xC6, 0xC7) && l.modrm.Some? && dst == RmOf(c, l.modrm.value) && MovImm(src.imm, w, l.imm))
    || (src.Imm? && dst.Reg? && dst.rex == c.rex && InOpcode(c, dst.reg) && l.modrm.None?
        && Sized(c, l, w, 0xB0 + dst.reg % 8, 0xB8 + dst.reg % 8) && UnsignedImm(src.imm, w, l.imm))
  }

  function StringOpcode(s: StrOp): (b: nat)
    ensures b < 0xFF
  {
    match s
    case Movs => 0xA4
    case Cmps => 0xA6
    case Stos => 0xAA
    case Lods => 0xAC
    case Scas => 0xAE
  }

  /** FF /2, /4 and /6; the program takes FE for FF there. */
  ghost predicate GroupLine(c: Context, l: Line, digit: nat, rm: Operand) {
    (l.opcode == [0xFF] || l.opcode == [0xFE]) && l.imm == [] && RmDigit(c, l, digit, rm)
  }

  /** The immediate of 68 has 32 bits whatever the operand size. */
  ghost predicate PushLine(c: Context, l: Line, src: Operand) {
    || (src.Reg? && src.rex && InOpcode(c, src.reg) && Alone(l, 0x50 + src.reg % 8))
    || (src.Imm? && Bare(l, 0x68) && SignedImm(src.imm, 4, l.imm))
    || (src.Imm? && Bare(l, 0x6A) && SignedImm(src.imm, 1, l.imm))
    || GroupLine(c, l, 6, src)
  }

  ghost predicate StringLine(c: Context, l: Line, op: StrOp, w: Width, rep: Rep, rex: bool) {
    && rep == c.rep && rex == c.rex && l.modrm.None? && l.imm == []
    && Sized(c, l, w, StringOpcode(op), StringOpcode(op) + 1)
  }

  ghost predicate JccLine(l: Line, cc: nat, rel: int) {
    cc < 16 &&
    (|| (Bare(l, 0x70 + cc) && RelImm(rel, 1, l.imm))
     || (l.opcode == [0x0F, 0x80 + cc] && l.modrm.None? && RelImm(rel, 4, l.imm)))
  }

  /** The line stands for the instruction. */
  ghost predicate Stands(c: Context, l: Line, i: Instr) {
    match i
    case Alu(op, dst, src, w) => AluLine(c, l, op, dst, src, w)
    case IncDec(up, rm, w) => Sized(c, l, w, 0xFE, 0xFF) && RmDigit(c, l, if up then 0 else 1, rm) && l.imm == []
    case Grp3(op, rm, w) => 2 <= op <= 7 && Sized(c, l, w, 0xF6, 0xF7) && RmDigit(c, l, op, rm) && l.imm == []
    case Test(a, b, w) => TestLine(c, l, a, b, w)
    case Mov(dst, src, w) => MovLine(c, l, dst, src, w)
    case Lea(dst, rm, w) =>
      && l.opcode == [0x8D] && w == OperandSize(c) && l.modrm.Some? && l.imm == []
      && dst == RegOf(c, l.modrm.value) && rm == l.modrm.value.rm
    case Push(src) => PushLine(c, l, src)
    case Pop(r) => Alone(l, 0x58 + r % 8) && InOpcode(c, r)
    case Leave => Alone(l, 0xC9)
    case Nop => Alone(l, 0x90) && !c.rexB
    case SetDF(on) => Alone(l, if on then 0xFD else 0xFC)
    case Str(op, w, rep, rex) => StringLine(c, l, op, w, rep, rex)
    case CallRel(rel) => Bare(l, 0xE8) && RelImm(rel, 4, l.imm)
    case JmpRel(rel) => (Bare(l, 0xE9) && RelImm(rel, 4, l.imm)) || (Bare(l, 0xEB) && RelImm(rel, 1, l.imm))
    case Jcc(cc, rel) => JccLine(l, cc, rel)
    case CallInd(rm) => GroupLine(c, l, 2, rm)
    case JmpInd(rm) => GroupLine(c, l, 4, rm)
    case Ret(drop) => (Alone(l, 0xC3) && drop == 0) || (Bare(l, 0xC2) && drop < 0x1_0000 && UnsignedImm(drop, 2, l.imm))
    case _ => false
  }

  /** SYSCALL and CPUID, which are left to hooks. */
  ghost predicate HookLine(l: Line, h: Hooked) {
    && l.modrm.None? && l.imm == []
    && ((h.Syscall? && l.opcode == [0x0F, 0x05]) || (h.Cpuid? && l.opcode == [0x0F, 0xA2]))
  }

  /** The specialised forms the decoder picks for 32-bit registers. */
  function Specialised(i: Instr): Instr {
    match i
    case Alu(op, dst, src, w) => if op == 0 && w == 4 && dst.Reg? && src.Imm? then FastAdd(dst.reg, src.imm) else i
    case IncDec(up, rm, w) => if w == 4 && rm.Reg? then (if up then FastInc(rm.reg) else FastDec(rm.reg)) else i
    case _ => i
  }

  /** The encoding is legal, and this is what it stands for: an instruction, or a hook. */
  ghost predicate Encodes(e: Encoding, d: Decoded) {
    && (forall b :: b in e.prefixes ==> IsPrefix(b)) && Writable(Setting(e), e.line) && d.len == |BytesOf(e)|
    && if d.hooked.NotHooked? then
         exists i: Instr :: Stands(Setting(e), e.line, i) && d.instr == Specialised(i) && d.endsBlock == IsBranch(i)
       else HookLine(e.line, d.hooked) && d.instr == Trap && !d.endsBlock
  }

  // ---- reading immediates ----------------------------------------------------

  lemma SignedTaken(code: CodeBytes, base: U64, pos: nat, v: U64, n: Width, b: seq<Byte>)
    requires Emitted(code, base, pos, b) && SignedImm(v, n, b)
    ensures
      var t := Take(code, base, pos, n);
      t.Ok? && t.value.pos == pos + |b| && SignExtend(t.value.value, n) == v
  {
    hide Take, Signed, DispBytes, Emitted;
    assert b[0..] == b;
    TakeDisp(code, base, pos, b, 0, AsSigned(v), n);
    WrapBack(v);
  }

  lemma WrapBack(v: U64)
    ensures Wrap64(AsSigned(v)) == v
  {
  }

  lemma RelTaken(code: CodeBytes, base: U64, pos: nat, rel: int, n: Width, b: seq<Byte>)
    requires Emitted(code, base, pos, b) && RelImm(rel, n, b)
    ensures
      var t := Take(code, base, pos, n);
      t.Ok? && t.value.pos == pos + |b| && Signed(t.value.value, n) == rel
  {
    hide Take, Signed, DispBytes, Emitted;
    assert b[0..] == b;
    TakeDisp(code, base, pos, b, 0, rel, n);
  }

  lemma UnsignedTaken(code: CodeBytes, base: U64, pos: nat, v: U64, n: Width, b: seq<Byte>)
    requires Emitted(code, base, pos, b) && UnsignedImm(v, n, b)
    ensures Take(code, base, pos, n) == Ok(Got(v, pos + |b|))
  {
    hide Take, NatToLe, Emitted, LeWord;
    assert b[0..0 + n] == b;
    TakeEmitted(code, base, pos, b, 0, n);
    WordBack(v, n);
  }

  lemma ImmSignedTaken(code: CodeBytes, base: U64, pos: nat, v: U64, w: Width, b: seq<Byte>)
    requires Emitted(code, base, pos, b) && SignedImm(v, ImmSize(w), b)
    ensures ImmSigned(code, base, pos, w) == Ok(Got(v, pos + |b|))
  {
    hide Take, SignedImm, Emitted, SignExtend;
    SignedTaken(code, base, pos, v, ImmSize(w), b);
  }

  lemma ImmByteTaken(code: CodeBytes, base: U64, pos: nat, v: U64, b: seq<Byte>)
    requires Emitted(code, base, pos, b) && SignedImm(v, 1, b)
    ensures ImmByte(code, base, pos) == Ok(Got(v, pos + |b|))
  {
    hide Take, SignedImm, Emitted, SignExtend;
    SignedTaken(code, base, pos, v, 1, b);
  }

  lemma ImmPlainTaken(code: CodeBytes, base: U64, pos: nat, v: U64, w: Width, b: seq<Byte>)
    requires Emitted(code, base, pos, b) && MovImm(v, w, b)
    ensures ImmPlain(code, base, pos, w) == Ok(Got(v, pos + |b|))
  {
    hide Take, SignedImm, Emitted, SignExtend, NatToLe, Low;
    if w == 8 {
      SignedTaken(code, base, pos, v, 4, b);
      LowSmall(v, 8);
    } else {
      UnsignedTaken(code, base, pos, v, w, b);
      ExtendThenCut(v);
    }
  }

  lemma ExtendThenCut(v: U64)
    ensures v < 0x1_0000_0000 ==> Low(SignExtend(v, 4), 4) == v
  {
  }

  // ---- the lines decode ------------------------------------------------------

  /** Bytes after the opcode. */
  function TailBytes(l: Line): seq<Byte>
    requires l.modrm.Some? ==> Encodable(l.modrm.value.rm, l.modrm.value.ch)
  {
    OperandBytes(l) + l.imm
  }

  lemma EmittedSplit(code: CodeBytes, base: U64, pos: nat, x: seq<Byte>, y: seq<Byte>)
    requires Emitted(code, base, pos, x + y)
    ensures Emitted(code, base, pos, x) && Emitted(code, base, pos + |x|, y)
  {
    hide Wrap64, IsCode;
    forall i: nat | i < |x|
      ensures IsCode(code, Wrap64(base + pos + i), x[i])
    {
      assert (x + y)[i] == x[i];
    }
    forall i: nat | i < |y|
      ensures IsCode(code, Wrap64(base + (pos + |x|) + i), y[i])
    {
      assert (x + y)[|x| + i] == y[i] && base + (pos + |x|) + i == base + pos + (|x| + i);
    }
  }

  lemma OperandsTaken(code: CodeBytes, base: U64, pos: nat, c: Context, l: Line)
    requires Writable(c, l) && l.modrm.Some? && Emitted(code, base, pos, TailBytes(l))
    ensures
      var m, next := l.modrm.value, pos + |OperandBytes(l)|;
      && DecodeModRM(code, base, pos, c) == Ok(Got(ModRM(m.reg, m.rm), next)) && ApplySeg(c, m.rm) == RmOf(c, m)
      && !RmOf(c, m).Imm?
      && Emitted(code, base, next, l.imm) && next + |l.imm| == pos + |TailBytes(l)|
  {
    hide Encodable, RexFor, Encode, Emitted, DecodeModRM;
    var m := l.modrm.value;
    EmittedSplit(code, base, pos, OperandBytes(l), l.imm);
    ModRMInvertsEncoding(code, base, pos, m.reg, c, m.rm, m.ch);
    NotImmediate(m.rm, m.ch);
  }

  lemma SizeIs(c: Context)
    ensures OpWidth(c, true) == 1 && OpWidth(c, false) == OperandSize(c)
  {
  }

  /** Which part of the decoder an opcode belongs to. */
  lemma Dispatch(code: CodeBytes, base: U64, pos: nat, c: Context, op: Byte)
    ensures AluOpcode(op) ==> DecodeOpcode(code, base, pos, c, op) == DecodeAlu(code, base, pos, c, op)
    ensures op in {0x80, 0x81, 0x83} ==> DecodeOpcode(code, base, pos, c, op) == DecodeGroup1(code, base, pos, c, op)
    ensures MoveOpcode(op) ==> DecodeOpcode(code, base, pos, c, op) == DecodeMove(code, base, pos, c, op)
    ensures 0xB0 <= op <= 0xBF ==> DecodeOpcode(code, base, pos, c, op) == DecodeMovImm(code, base, pos, c, op)
    ensures op in {0xA8, 0xA9} ==> DecodeOpcode(code, base, pos, c, op) == DecodeTestImm(code, base, pos, c, op)
    ensures op in {0xF6, 0xF7} ==> DecodeOpcode(code, base, pos, c, op) == DecodeGroup3(code, base, pos, c, op)
    ensures op in {0xFE, 0xFF} ==> DecodeOpcode(code, base, pos, c, op) == DecodeGroup5(code, base, pos, c, op)
    ensures FlowOpcode(op) ==> DecodeOpcode(code, base, pos, c, op) == DecodeFlow(code, base, pos, c, op)
  {
    hide DecodeAlu, DecodeGroup1, DecodeMove, DecodeMovImm, DecodeTestImm, DecodeGroup3, DecodeGroup5, DecodeFlow, DecodePlain;
  }

  lemma DispatchPlain(code: CodeBytes, base: U64, pos: nat, c: Context, op: Byte)
    requires DecodePlain(c, op).Some?
    ensures DecodeOpcode(code, base, pos, c, op) == Ok(Got(DecodePlain(c, op).value, pos))
  {
    hide DecodeAlu, DecodeGroup1, DecodeMove, DecodeMovImm, DecodeTestImm, DecodeGroup3, DecodeGroup5, DecodeFlow;
  }

  /** The line's bytes after the opcode decode to this instruction. */
  ghost predicate Reads(code: CodeBytes, base: U64, pos: nat, c: Context, l: Line, i: Instr)
    requires Writable(c, l)
  {
    |l.opcode| == 1 && DecodeOpcode(code, base, pos, c, l.opcode[0]) == Ok(Got(Specialised(i), pos + |TailBytes(l)|))
  }

  lemma AluFirst(op: nat, k: nat)
    requires op < 8 && k < 8
    ensures ALU[op] == 8 * op && (ALU[op] + k) / 8 == op && (ALU[op] + k) % 8 == k
  {
    ModUnique(8 * op + k, 8, op, k);
  }

  lemma AluRegisterReads(code: CodeBytes, base: U64, pos: nat, c: Context, l: Line, op: nat, dst: Operand, src: Operand, w: Width)
    requires Writable(c, l) && op < 8 && AluRegister(c, l, op, dst, src, w) && Emitted(code, base, pos, TailBytes(l))
    ensures Reads(code, base, pos, c, l, Alu(op, dst, src, w))
  {
    hide Encodable, RexFor, Emitted, DecodeOpcode, DecodeModRM, OpWidth, ApplySeg, Encode, RmOf;
    var b := l.opcode[0];
    AluFirst(op, 0);
    AluFirst(op, 1);
    AluFirst(op, 2);
    AluFirst(op, 3);
    Dispatch(code, base, pos, c, b);
    OperandsTaken(code, base, pos, c, l);
    SizeIs(c);
  }

  lemma AluAccumulatorReads(code: CodeBytes, base: U64, pos: nat, c: Context, l: Line, op: nat, dst: Operand, v: U64, w: Width)
    requires Writable(c, l) && op < 8 && AluAccumulator(c, l, op, dst, v, w) && Emitted(code, base, pos, TailBytes(l))
    ensures Reads(code, base, pos, c, l, Alu(op, dst, Imm(v), w))
  {
    hide Encodable, RexFor, Emitted, DecodeOpcode, DecodeModRM, OpWidth, ImmSigned, Take, UnsignedImm, SignedImm;
    AluFirst(op, 4);
    AluFirst(op, 5);
    Dispatch(code, base, pos, c, l.opcode[0]);
    assert TailBytes(l) == l.imm;
    SizeIs(c);
    if l.opcode[0] == ALU[op] + 4 {
      UnsignedTaken(code, base, pos, v, 1, l.imm);
    } else {
      ImmSignedTaken(code, base, pos, v, w, l.imm);
    }
  }

  lemma AluImmediateReads(code: CodeBytes, base: U64, pos: nat, c: Context, l: Line, op: nat, dst: Operand, v: U64, w: Width)
    requires Writable(c, l) && op < 8 && AluImmediate(c, l, op, dst, v, w) && Emitted(code, base, pos, TailBytes(l))
    ensures Reads(code, base, pos, c, l, Alu(op, dst, Imm(v), w))
  {
    hide Encodable, RexFor, Emitted, DecodeOpcode, DecodeModRM, OpWidth, ApplySeg, ImmSigned, ImmByte, SignedImm, Encode, RmOf;
    Dispatch(code, base, pos, c, l.opcode[0]);
    OperandsTaken(code, base, pos, c, l);
    SizeIs(c);
    var next := pos + |OperandBytes(l)|;
    if l.opcode[0] == 0x81 {
      ImmSignedTaken(code, base, next, v, w, l.imm);
    } else {
      ImmByteTaken(code, base, next, v, l.imm);
    }
  }

  lemma TestReads(code: CodeBytes, base: U64, pos: nat, c: Context, l: Line, a: Operand, b: Operand, w: Width)
    requires Writable(c, l) && TestLine(c, l, a, b, w) && l.modrm.Some? && Emitted(code, base, pos, TailBytes(l))
    ensures Reads(code, base, pos, c, l, Test(a, b, w))
  {
    hide Encodable, RexFor, Emitted, DecodeOpcode, DecodeModRM, OpWidth, ApplySeg, ImmPlain, MovImm, Encode, RmOf;
    Dispatch(code, base, pos, c, l.opcode[0]);
    OperandsTaken(code, base, pos, c, l);
    SizeIs(c);
    if l.opcode[0] == 0xF6 || l.opcode[0] == 0xF7 {
      ImmPlainTaken(code, base, pos + |OperandBytes(l)|, b.imm, w, l.imm);
    }
  }

  lemma TestImmReads(code: CodeBytes, base: U64, pos: nat, c: Context, l: Line, a: Operand, b: Operand, w: Width)
    requires Writable(c, l) && TestLine(c, l, a, b, w) && l.modrm.None? && Emitted(code, base, pos, TailBytes(l))
    ensures Reads(code, base, pos, c, l, Test(a, b, w))
  {
    hide Emitted, DecodeOpcode, OpWidth, ImmPlain, MovImm;
    assert TailBytes(l) == l.imm;
    Dispatch(code, base, pos, c, l.opcode[0]);
    SizeIs(c);
    ImmPlainTaken(code, base, pos, b.imm, w, l.imm);
  }

  lemma MovReads(code: CodeBytes, base: U64, pos: nat, c: Context, l: Line, dst: Operand, src: Operand, w: Width)
    requires Writable(c, l) && MovLine(c, l, dst, src, w) && l.modrm.Some? && Emitted(code, base, pos, TailBytes(l))
    ensures Reads(code, base, pos, c, l, Mov(dst, src, w))
  {
    hide Writable, Emitted, Reads, RmReg, MovImm, UnsignedImm, RmOf;
    if Sized(c, l, w, 0x88, 0x89) && RmReg(c, l, dst, src) {
      MovRegisterReads(code, base, pos, c, l, dst, src, w);
    } else if Sized(c, l, w, 0x8A, 0x8B) && RmReg(c, l, src, dst) {
      MovRegisterReads(code, base, pos, c, l, dst, src, w);
    } else {
      MovImmediateReads(code, base, pos, c, l, dst, src, w);
    }
  }

  lemma MovRegisterReads(code: CodeBytes, base: U64, pos: nat, c: Context, l: Line, dst: Operand, src: Operand, w: Width)
    requires Writable(c, l) && Emitted(code, base, pos, TailBytes(l))
    requires (Sized(c, l, w, 0x88, 0x89) && RmReg(c, l, dst, src)) || (Sized(c, l, w, 0x8A, 0x8B) && RmReg(c, l, src, dst))
    ensures Reads(code, base, pos, c, l, Mov(dst, src, w))
  {
    hide Encodable, RexFor, Emitted, DecodeOpcode, DecodeModRM, OpWidth, ApplySeg, ImmPlain, Encode, RmOf;
    Dispatch(code, base, pos, c, l.opcode[0]);
    OperandsTaken(code, base, pos, c, l);
    SizeIs(c);
  }

  lemma MovImmediateReads(code: CodeBytes, base: U64, pos: nat, c: Context, l: Line, dst: Operand, src: Operand, w: Width)
    requires Writable(c, l) && l.modrm.Some? && Emitted(code, base, pos, TailBytes(l)) && Sized(c, l, w, 0xC6, 0xC7)
    requires src.Imm? && dst == RmOf(c, l.modrm.value) && MovImm(src.imm, w, l.imm)
    ensures Reads(code, base, pos, c, l, Mov(dst, src, w))
  {
    hide Encodable, RexFor, Emitted, DecodeOpcode, DecodeModRM, OpWidth, ApplySeg, ImmPlain, MovImm, Encode, RmOf;
    Dispatch(code, base, pos, c, l.opcode[0]);
    OperandsTaken(code, base, pos, c, l);
    SizeIs(c);
    ImmPlainTaken(code, base, pos + |OperandBytes(l)|, src.imm, w, l.imm);
  }

  lemma MovImmReads(code: CodeBytes, base: U64, pos: nat, c: Context, l: Line, dst: Operand, src: Operand, w: Width)
    requires Writable(c, l) && MovLine(c, l, dst, src, w) && l.modrm.None? && Emitted(code, base, pos, TailBytes(l))
    ensures Reads(code, base, pos, c, l, Mov(dst, src, w))
  {
    hide Encodable, RexFor, Emitted, DecodeOpcode, OpWidth, Take, UnsignedImm;
    var op := l.opcode[0];
    assert TailBytes(l) == l.imm;
    LowThree(op, dst.reg);
    Dispatch(code, base, pos, c, op);
    SizeIs(c);
    UnsignedTaken(code, base, pos, src.imm, w, l.imm);
  }

  /** A register in the low bits of an opcode. */
  lemma LowThree(op: nat, r: RegIdx)
    ensures op in {0xB0 + r % 8, 0xB8 + r % 8} ==> 0xB0 <= op <= 0xBF && op % 8 == r % 8 && (op < 0xB8 <==> op == 0xB0 + r % 8)
    ensures Extend(r % 8, r >= 8) == r
  {
  }

  lemma LeaReads(code: CodeBytes, base: U64, pos: nat, c: Context, l: Line, i: Instr)
    requires Writable(c, l) && i.Lea? && Stands(c, l, i) && Emitted(code, base, pos, TailBytes(l))
    ensures Reads(code, base, pos, c, l, i)
  {
    hide Encodable, RexFor, Emitted, DecodeOpcode, DecodeModRM, OpWidth, ApplySeg, Encode, RmOf;
    Dispatch(code, base, pos, c, l.opcode[0]);
    OperandsTaken(code, base, pos, c, l);
    SizeIs(c);
  }

  lemma Grp3Reads(code: CodeBytes, base: U64, pos: nat, c: Context, l: Line, i: Instr)
    requires Writable(c, l) && i.Grp3? && Stands(c, l, i) && Emitted(code, base, pos, TailBytes(l))
    ensures Reads(code, base, pos, c, l, i)
  {
    hide Encodable, RexFor, Emitted, DecodeOpcode, DecodeModRM, OpWidth, ApplySeg, Encode, RmOf, ImmPlain;
    Dispatch(code, base, pos, c, l.opcode[0]);
    OperandsTaken(code, base, pos, c, l);
    SizeIs(c);
  }

  lemma Grp5Reads(code: CodeBytes, base: U64, pos: nat, c: Context, l: Line, i: Instr)
    requires Writable(c, l) && l.modrm.Some? && Stands(c, l, i) && Emitted(code, base, pos, TailBytes(l))
    requires i.IncDec? || i.CallInd? || i.JmpInd? || i.Push?
    ensures Reads(code, base, pos, c, l, i)
  {
    hide Encodable, RexFor, Emitted, DecodeOpcode, DecodeModRM, OpWidth, ApplySeg, Encode, RmOf;
    Dispatch(code, base, pos, c, l.opcode[0]);
    OperandsTaken(code, base, pos, c, l);
    SizeIs(c);
  }

  lemma FlowReads(code: CodeBytes, base: U64, pos: nat, c: Context, l: Line, i: Instr)
    requires Writable(c, l) && l.modrm.None? && |l.opcode| == 1 && Stands(c, l, i) && Emitted(code, base, pos, TailBytes(l))
    requires i.CallRel? || i.JmpRel? || i.Jcc? || i.Ret? || (i.Push? && i.src.Imm?)
    ensures Reads(code, base, pos, c, l, i)
  {
    hide Encodable, RexFor, Emitted, DecodeOpcode, Take, SignedImm, UnsignedImm, RelImm, SignExtend, Signed;
    assert TailBytes(l) == l.imm;
    Dispatch(code, base, pos, c, l.opcode[0]);
    match i
    case CallRel(rel) => RelTaken(code, base, pos, rel, 4, l.imm);
    case JmpRel(rel) => RelTaken(code, base, pos, rel, if l.opcode[0] == 0xE9 then 4 else 1, l.imm);
    case Jcc(cc, rel) => RelTaken(code, base, pos, rel, 1, l.imm);
    case Ret(drop) =>
      if l.opcode[0] == 0xC2 {
        UnsignedTaken(code, base, pos, drop, 2, l.imm);
      }
    case Push(src) => SignedTaken(code, base, pos, src.imm, if l.opcode[0] == 0x68 then 4 else 1, l.imm);
  }

  lemma PlainReads(code: CodeBytes, base: U64, pos: nat, c: Context, l: Line, i: Instr)
    requires Writable(c, l) && l.modrm.None? && Stands(c, l, i)
    requires i.Pop? || i.Leave? || i.Nop? || i.SetDF? || i.Str? || (i.Push? && i.src.Reg?)
    ensures Reads(code, base, pos, c, l, i)
  {
    hide Encodable, RexFor, DecodeOpcode, OpWidth;
    var op := l.opcode[0];
    assert TailBytes(l) == [];
    SizeIs(c);
    if i.Pop? {
      ExtendBack(i.reg);
    } else if i.Push? {
      ExtendBack(i.src.reg);
    }
    assert DecodePlain(c, op) == Some(i);
    DispatchPlain(code, base, pos, c, op);
  }

  /** Every one-byte line. */
  lemma LineReads(code: CodeBytes, base: U64, pos: nat, c: Context, l: Line, i: Instr)
    requires Writable(c, l) && Stands(c, l, i) && |l.opcode| == 1 && Emitted(code, base, pos, TailBytes(l))
    ensures Reads(code, base, pos, c, l, i)
  {
    hide Writable, Emitted, Reads, AluRegister, AluAccumulator, AluImmediate, TestLine, MovLine, StringLine;
    match i
    case Alu(op, dst, src, w) =>
      if AluRegister(c, l, op, dst, src, w) {
        AluRegisterReads(code, base, pos, c, l, op, dst, src, w);
      } else if AluAccumulator(c, l, op, dst, src.imm, w) {
        AluAccumulatorReads(code, base, pos, c, l, op, dst, src.imm, w);
      } else {
        AluImmediateReads(code, base, pos, c, l, op, dst, src.imm, w);
      }
    case IncDec(_, _, _) => Grp5Reads(code, base, pos, c, l, i);
    case Grp3(_, _, _) => Grp3Reads(code, base, pos, c, l, i);
    case Test(a, b, w) =>
      if l.modrm.Some? {
        TestReads(code, base, pos, c, l, a, b, w);
      } else {
        TestImmReads(code, base, pos, c, l, a, b, w);
      }
    case Mov(dst, src, w) =>
      if l.modrm.Some? {
        MovReads(code, base, pos, c, l, dst, src, w);
      } else {
        MovImmReads(code, base, pos, c, l, dst, src, w);
      }
    case Lea(_, _, _) => LeaReads(code, base, pos, c, l, i);
    case Push(src) =>
      if l.modrm.Some? {
        Grp5Reads(code, base, pos, c, l, i);
      } else if src.Imm? {
        FlowReads(code, base, pos, c, l, i);
      } else {
        PlainReads(code, base, pos, c, l, i);
      }
    case CallInd(_) => Grp5Reads(code, base, pos, c, l, i);
    case JmpInd(_) => Grp5Reads(code, base, pos, c, l, i);
    case CallRel(_) => FlowReads(code, base, pos, c, l, i);
    case JmpRel(_) => FlowReads(code, base, pos, c, l, i);
    case Jcc(_, _) => FlowReads(code, base, pos, c, l, i);
    case Ret(_) => FlowReads(code, base, pos, c, l, i);
    case Str(_, _, _, _) =>
      assert l.modrm.None? by { StringIsPlain(c, l, i); }
      PlainReads(code, base, pos, c, l, i);
    case _ => PlainReads(code, base, pos, c, l, i);
  }

  lemma StringIsPlain(c: Context, l: Line, i: Instr)
    requires i.Str? && Stands(c, l, i)
    ensures l.modrm.None?
  {
  }

  /** One opcode byte that is none of these. */
  predicate PlainOpcode(l: Line) {
    |l.opcode| == 1 && FreshOpcode(l.opcode[0]) && l.opcode[0] != 0x0F
  }

  lemma AluByteFresh(op: nat, k: nat)
    requires op < 8 && k <= 5
    ensures ALU[op] + k < 0x100 && FreshOpcode(ALU[op] + k) && ALU[op] + k != 0x0F
  {
    AluFirst(op, k);
  }

  lemma AluRegisterFresh(c: Context, l: Line, op: nat, dst: Operand, src: Operand, w: Width)
    requires op < 8 && AluRegister(c, l, op, dst, src, w)
    ensures PlainOpcode(l)
  {
    hide RmReg, OperandSize, FreshOpcode;
    AluByteFresh(op, 0);
    AluByteFresh(op, 1);
    AluByteFresh(op, 2);
    AluByteFresh(op, 3);
  }

  lemma AluAccumulatorFresh(c: Context, l: Line, op: nat, dst: Operand, v: U64, w: Width)
    requires op < 8 && AluAccumulator(c, l, op, dst, v, w)
    ensures PlainOpcode(l)
  {
    hide SignedImm, UnsignedImm, OperandSize, FreshOpcode;
    AluByteFresh(op, 4);
    AluByteFresh(op, 5);
  }

  lemma AluOpcodeFresh(c: Context, l: Line, op: nat, dst: Operand, src: Operand, w: Width)
    requires AluLine(c, l, op, dst, src, w)
    ensures PlainOpcode(l)
  {
    hide SignedImm, RmDigit, OperandSize, FreshOpcode, AluRegister, AluAccumulator;
    GroupFresh();
    if AluRegister(c, l, op, dst, src, w) {
      AluRegisterFresh(c, l, op, dst, src, w);
    } else if AluAccumulator(c, l, op, dst, src.imm, w) {
      AluAccumulatorFresh(c, l, op, dst, src.imm, w);
    }
  }

  lemma GroupFresh()
    ensures FreshOpcode(0x80) && FreshOpcode(0x81) && FreshOpcode(0x83)
  {
  }

  lemma MoveOpcodeFresh(c: Context, l: Line, i: Instr)
    requires (i.Test? || i.Mov? || i.Lea?) && Stands(c, l, i)
    ensures PlainOpcode(l)
  {
    hide SignedImm, UnsignedImm, MovImm, RmOf, OperandSize;
  }

  lemma OtherOpcodeFresh(c: Context, l: Line, i: Instr)
    requires !i.Alu? && !i.Test? && !i.Mov? && !i.Lea? && !i.Jcc? && Stands(c, l, i)
    ensures PlainOpcode(l)
  {
    hide SignedImm, UnsignedImm, RelImm, MovImm, RmOf, OperandSize;
  }

  lemma JccOpcode(c: Context, l: Line, i: Instr)
    requires i.Jcc? && Stands(c, l, i)
    ensures if |l.opcode| == 2 then l.modrm.None? && l.opcode == [0x0F, 0x80 + i.cc] && RelImm(i.rel, 4, l.imm) else PlainOpcode(l)
    ensures FreshOpcode(0x0F)
  {
    hide RelImm;
  }

  /** No opcode is a prefix, a REX byte or a VEX byte, and 0F escapes to two bytes. */
  lemma OpcodeIs(c: Context, l: Line, i: Instr)
    requires Stands(c, l, i)
    ensures 1 <= |l.opcode| <= 2 && FreshOpcode(l.opcode[0])
    ensures |l.opcode| == 2 <==> l.opcode[0] == 0x0F
    ensures |l.opcode| == 2 ==> i.Jcc? && l.modrm.None? && l.opcode[1] == 0x80 + i.cc && RelImm(i.rel, 4, l.imm)
  {
    hide AluLine, FreshOpcode, RelImm;
    if i.Alu? {
      AluOpcodeFresh(c, l, i.op, i.dst, i.src, i.w);
    } else if i.Test? || i.Mov? || i.Lea? {
      MoveOpcodeFresh(c, l, i);
    } else if i.Jcc? {
      JccOpcode(c, l, i);
    } else {
      OtherOpcodeFresh(c, l, i);
    }
  }

  predicate FreshOpcode(b: Byte) {
    !IsPrefix(b) && !(0x40 <= b <= 0x4F) && b != 0xC4 && b != 0xC5
  }

  lemma JccReads(code: CodeBytes, base: U64, pos: nat, cc: nat, rel: int, imm: seq<Byte>)
    requires cc < 16 && RelImm(rel, 4, imm) && Emitted(code, base, pos, [0x80 + cc] + imm)
    ensures DecodeTwoByte(code, base, pos) == Ok(Decoded(pos + 1 + |imm|, NotHooked, true, Jcc(cc, rel)))
  {
    hide Emitted, Take, RelImm, Signed;
    EmittedSplit(code, base, pos, [0x80 + cc], imm);
    TakeByte(code, base, pos, [0x80 + cc], 0);
    RelTaken(code, base, pos + 1, rel, 4, imm);
  }

  lemma HookReads(code: CodeBytes, base: U64, pos: nat, op: Byte)
    requires (op == 0x05 || op == 0xA2) && Emitted(code, base, pos, [op])
    ensures DecodeTwoByte(code, base, pos) ==
            Ok(Decoded(pos + 1, if op == 0x05 then Syscall else Cpuid, false, Trap))
  {
    hide Emitted, Take;
    TakeByte(code, base, pos, [op], 0);
  }

  // ---- prefixes --------------------------------------------------------------

  /** What the decoder knows after these prefixes. */
  function Seen(ps: seq<Byte>): Prefixes {
    Prefixes(|ps|, 0x66 in ps, 0x64 in ps, 0x65 in ps, RepOf(ps))
  }

  lemma PrefixSeen(ps: seq<Byte>, b: Byte)
    ensures WithPrefix(Seen(ps), b) == if IsPrefix(b) then Some(Seen(ps + [b])) else None
  {
    assert (ps + [b])[..|ps|] == ps;
  }

  /** A run of prefixes is shorter than the address space, as something that is no
      prefix follows it. */
  lemma PrefixesEnd(code: CodeBytes, base: U64, ps: seq<Byte>, b: Byte)
    requires Emitted(code, base, 0, ps + [b]) && !IsPrefix(b) && forall x :: x in ps ==> IsPrefix(x)
    ensures |ps| < MAX_PREFIXES
  {
    if |ps| >= MAX_PREFIXES {
      var k := |ps| - MAX_PREFIXES;
      assert IsPrefix((ps + [b])[k]);
      assert IsCode(code, Wrap64(base + 0 + |ps|), (ps + [b])[|ps|]);
      assert IsCode(code, Wrap64(base + 0 + k), (ps + [b])[k]);
      SameAddress(base + k);
      assert false;
    }
  }

  lemma SameAddress(x: nat)
    ensures Wrap64(x + MAX_PREFIXES) == Wrap64(x)
  {
    WrapSum(x, MAX_PREFIXES);
    assert Wrap64(MAX_PREFIXES) == 0;
  }

  lemma {:induction false} PrefixesSkipped(code: CodeBytes, base: U64, done: seq<Byte>, rest: seq<Byte>, b: Byte)
    requires Emitted(code, base, |done|, rest + [b]) && |done| + |rest| < MAX_PREFIXES
    requires !IsPrefix(b) && forall x :: x in rest ==> IsPrefix(x)
    ensures SkipPrefixes(code, base, Seen(done)) == Ok(Seen(done + rest))
    decreases |rest|
  {
    hide Emitted, Take, IsPrefix, Seen, WithPrefix;
    assert Seen(done).pos == |done| by { SeenAt(done); }
    if rest == [] {
      assert rest + [b] == [b] && done + rest == done;
      TakeByte(code, base, |done|, [b], 0);
      PrefixSeen(done, b);
    } else {
      var x := rest[0];
      assert rest + [b] == [x] + (rest[1..] + [b]);
      EmittedSplit(code, base, |done|, [x], rest[1..] + [b]);
      TakeByte(code, base, |done|, [x], 0);
      PrefixSeen(done, x);
      PrefixesSkipped(code, base, done + [x], rest[1..], b);
      assert done + [x] + rest[1..] == done + rest;
    }
  }

  lemma SeenAt(ps: seq<Byte>)
    ensures Seen(ps).pos == |ps|
  {
  }

  // ---- decodeOne inverts the encoding ----------------------------------------

  lemma RexRead(e: Encoding)
    ensures e.rex.Some? ==> 0x40 <= RexByte(e.rex.value) <= 0x4F && FreshRex(RexByte(e.rex.value))
    ensures MakeContext(Seen(e.prefixes), if e.rex.Some? then Some(RexByte(e.rex.value)) else None) == Setting(e)
  {
    hide RepOf;
    if e.rex.Some? {
      var r := e.rex.value;
      var b, x, g, w := if r.b then 1 else 0, if r.x then 1 else 0, if r.r then 1 else 0, if r.w then 1 else 0;
      var v := RexByte(r);
      assert v == 0x40 + 8 * w + 4 * g + 2 * x + b;
      assert v / 2 == 0x20 + 4 * w + 2 * g + x && v / 4 == 0x10 + 2 * w + g && v / 8 == 8 + w;
    }
  }

  predicate FreshRex(b: Byte) {
    !IsPrefix(b) && b != 0xC4 && b != 0xC5
  }

  /** From the REX byte, or the opcode, on. */
  function BodyBytes(e: Encoding): seq<Byte>
    requires e.line.modrm.Some? ==> Encodable(e.line.modrm.value.rm, e.line.modrm.value.ch)
  {
    RexBytes(e.rex) + (e.line.opcode + TailBytes(e.line))
  }

  /** The opcode of any line, with the context that prefixes and REX give. */
  lemma OpcodeReached(code: CodeBytes, base: U64, e: Encoding)
    requires Writable(Setting(e), e.line) && e.line.opcode != [] && FreshOpcode(e.line.opcode[0])
    requires Emitted(code, base, |e.prefixes|, BodyBytes(e))
    ensures
      var at := |BodyBytes(e)| - |e.line.opcode| - |TailBytes(e.line)| + |e.prefixes|;
      var op := e.line.opcode[0];
      && Emitted(code, base, at + 1, e.line.opcode[1..] + TailBytes(e.line))
      && DecodeBody(code, base, Seen(e.prefixes)) ==
         if op == 0x0F then DecodeTwoByte(code, base, at + 1)
         else match DecodeOpcode(code, base, at + 1, Setting(e), op)
              case Ok(i) => Ok(Finish(i.value, i.pos))
              case Err(x) => Err(x)
  {
    hide Encodable, RexFor, Encode, Emitted, Take, MakeContext, Setting, DecodeTwoByte, DecodeOpcode, RexByte, IsPrefix;
    var ps, op, rest := e.prefixes, e.line.opcode[0], e.line.opcode[1..] + TailBytes(e.line);
    assert e.line.opcode + TailBytes(e.line) == [op] + rest;
    RexRead(e);
    SeenAt(ps);
    if e.rex.Some? {
      var x := RexByte(e.rex.value);
      EmittedSplit(code, base, |ps|, [x], [op] + rest);
      TakeByte(code, base, |ps|, [x], 0);
      EmittedSplit(code, base, |ps| + 1, [op], rest);
      TakeByte(code, base, |ps| + 1, [op], 0);
    } else {
      assert BodyBytes(e) == [op] + rest;
      EmittedSplit(code, base, |ps|, [op], rest);
      TakeByte(code, base, |ps|, [op], 0);
    }
  }

  lemma BodyDecodes(code: CodeBytes, base: U64, e: Encoding, d: Decoded)
    requires Encodes(e, d) && Emitted(code, base, |e.prefixes|, BodyBytes(e)) && |BytesOf(e)| == |e.prefixes| + |BodyBytes(e)|
    ensures DecodeBody(code, base, Seen(e.prefixes)) == Ok(d)
  {
    hide Encodable, RexFor, Encode, Emitted, Setting, Stands, DecodeBody, DecodeTwoByte, DecodeOpcode, Seen, Specialised, RelImm;
    var c, l := Setting(e), e.line;
    var at := |BodyBytes(e)| - |l.opcode| - |TailBytes(l)| + |e.prefixes|;
    if d.hooked.NotHooked? {
      var i :| Stands(c, l, i) && d.instr == Specialised(i) && d.endsBlock == IsBranch(i);
      OpcodeIs(c, l, i);
      OpcodeReached(code, base, e);
      SpecialisedBranch(i);
      if |l.opcode| == 1 {
        assert l.opcode[1..] + TailBytes(l) == TailBytes(l);
        LineReads(code, base, at + 1, c, l, i);
      } else {
        assert l.opcode[1..] + TailBytes(l) == [0x80 + i.cc] + l.imm by { assert l.opcode[1..] == [l.opcode[1]]; }
        JccPlain(c, l, i);
        JccReads(code, base, at + 1, i.cc, i.rel, l.imm);
      }
    } else {
      OpcodeReached(code, base, e);
      assert l.opcode[1..] + TailBytes(l) == [l.opcode[1]];
      HookReads(code, base, at + 1, l.opcode[1]);
    }
  }

  lemma SpecialisedBranch(i: Instr)
    ensures IsBranch(Specialised(i)) == IsBranch(i)
  {
  }

  lemma JccPlain(c: Context, l: Line, i: Instr)
    requires i.Jcc? && Stands(c, l, i)
    ensures Specialised(i) == Jcc(i.cc, i.rel) && i.cc < 16
  {
  }

  /** On the bytes of any encoding of any instruction of the subset, decodeOne returns
      that instruction, or its hook, and the number of its bytes. */
  lemma DecodeInvertsEncoding(code: CodeBytes, addr: U64, e: Encoding, d: Decoded)
    requires Encodes(e, d) && Emitted(code, addr, 0, BytesOf(e))
    ensures Decode(code, addr) == Ok(d)
  {
    hide Encodable, RexFor, Encode, Emitted, Setting, Stands, DecodeBody, SkipPrefixes, Seen, RexByte, IsPrefix;
    var ps, b := e.prefixes, BodyBytes(e);
    assert BytesOf(e) == ps + b;
    BodyStarts(e, d);
    assert ps + b == ps + [b[0]] + b[1..];
    EmittedSplit(code, addr, 0, ps + [b[0]], b[1..]);
    EmittedSplit(code, addr, 0, ps, b);
    PrefixesEnd(code, addr, ps, b[0]);
    assert [] + ps == ps;
    PrefixesSkipped(code, addr, [], ps, b[0]);
    assert Seen([]) == NoPrefixes() by { SeenNothing(); }
    BodyDecodes(code, addr, e, d);
  }

  lemma SeenNothing()
    ensures Seen([]) == NoPrefixes()
  {
  }

  lemma BodyStarts(e: Encoding, d: Decoded)
    requires Encodes(e, d)
    ensures BodyBytes(e) != [] && !IsPrefix(BodyBytes(e)[0])
  {
    hide Encodable, RexFor, Encode, Setting, Stands, RexByte, IsPrefix;
    RexRead(e);
    if d.hooked.NotHooked? {
      var i :| Stands(Setting(e), e.line, i) && d.instr == Specialised(i) && d.endsBlock == IsBranch(i);
      OpcodeIs(Setting(e), e.line, i);
    } else {
      assert !IsPrefix(0x0F) by { EscapeIsNoPrefix(); }
    }
  }

  lemma EscapeIsNoPrefix()
    ensures !IsPrefix(0x0F)
  {
  }

  // ---- and accepts nothing else ----------------------------------------------

  lemma SignedBack(v: int)
    requires -0x8000_0000_0000_0000 <= v < 0x8000_0000_0000_0000
    ensures AsSigned(Wrap64(v)) == v
  {
  }

  lemma FitsWord(d: int, n: Width)
    requires FitsSigned(d, n)
    ensures -0x8000_0000_0000_0000 <= d < 0x8000_0000_0000_0000
  {
  }

  lemma TakenSigned(code: CodeBytes, base: U64, pos: nat, n: Width) returns (b: seq<Byte>)
    requires Take(code, base, pos, n).Ok?
    ensures
      var t := Take(code, base, pos, n).value;
      && t.pos == pos + |b| && |b| == n && Emitted(code, base, pos, b)
      && SignedImm(SignExtend(t.value, n), n, b) && RelImm(Signed(t.value, n), n, b)
  {
    hide Take, Emitted, Signed, DispBytes;
    TakenDisp(code, base, pos, n);
    var d := Signed(Take(code, base, pos, n).value.value, n);
    b := DispBytes(d, n);
    FitsWord(d, n);
    SignedBack(d);
  }

  lemma TakenUnsigned(code: CodeBytes, base: U64, pos: nat, n: Width) returns (b: seq<Byte>)
    requires Take(code, base, pos, n).Ok?
    ensures
      var t := Take(code, base, pos, n).value;
      t.pos == pos + |b| && |b| == n && Emitted(code, base, pos, b) && UnsignedImm(t.value, n, b)
  {
    hide Emitted, LeToNat, NatToLe, Pow256;
    b := TakenBytes(code, base, pos, n);
    hide Take;
    BytesBack(b);
    LeBound(b);
    Pow256Widths();
    assert Pow256(n) == Span(n);
  }

  lemma TakenImmSigned(code: CodeBytes, base: U64, pos: nat, w: Width) returns (b: seq<Byte>)
    requires ImmSigned(code, base, pos, w).Ok?
    ensures
      var t := ImmSigned(code, base, pos, w).value;
      t.pos == pos + |b| && Emitted(code, base, pos, b) && SignedImm(t.value, ImmSize(w), b)
  {
    hide Take, Emitted, SignedImm, SignExtend;
    b := TakenSigned(code, base, pos, ImmSize(w));
  }

  lemma TakenImmByte(code: CodeBytes, base: U64, pos: nat) returns (b: seq<Byte>)
    requires ImmByte(code, base, pos).Ok?
    ensures
      var t := ImmByte(code, base, pos).value;
      t.pos == pos + |b| && Emitted(code, base, pos, b) && SignedImm(t.value, 1, b)
  {
    hide Take, Emitted, SignedImm, SignExtend;
    b := TakenSigned(code, base, pos, 1);
  }

  lemma TakenImmPlain(code: CodeBytes, base: U64, pos: nat, w: Width) returns (b: seq<Byte>)
    requires ImmPlain(code, base, pos, w).Ok?
    ensures
      var t := ImmPlain(code, base, pos, w).value;
      t.pos == pos + |b| && Emitted(code, base, pos, b) && MovImm(t.value, w, b)
  {
    hide Take, Emitted, SignExtend, NatToLe, Low, DispBytes;
    if w == 8 {
      b := TakenSigned(code, base, pos, 4);
      var v := SignExtend(Take(code, base, pos, 4).value.value, 4);
      LowSmall(v, 8);
    } else {
      b := TakenUnsigned(code, base, pos, w);
      ExtendThenCut(Take(code, base, pos, w).value.value);
    }
  }

  /** The bytes read after an opcode are a line for what was decoded. */
  ghost predicate Found(code: CodeBytes, base: U64, pos: nat, c: Context, op: Byte, r: Got<Instr>, l: Line, i: Instr) {
    && Writable(c, l) && l.opcode == [op] && Stands(c, l, i) && Emitted(code, base, pos, TailBytes(l))
    && r == Got(Specialised(i), pos + |TailBytes(l)|)
  }

  lemma OperandsFound(code: CodeBytes, base: U64, pos: nat, c: Context, op: Byte) returns (m: Operands)
    requires DecodeModRM(code, base, pos, c).Ok?
    ensures
      var l, r := Line([op], Some(m), []), DecodeModRM(code, base, pos, c).value;
      && Writable(c, l) && r == Got(ModRM(m.reg, m.rm), pos + |OperandBytes(l)|)
      && Emitted(code, base, pos, OperandBytes(l))
      && ApplySeg(c, m.rm) == RmOf(c, m) && !RmOf(c, m).Imm?
  {
    hide Encodable, RexFor, Encode, Emitted, DecodeModRM;
    OnlyEncodingsDecode(code, base, pos, c);
    var r := DecodeModRM(code, base, pos, c).value;
    var ch: Choice :|
      && Encodable(r.value.rm, ch) && RexFor(r.value.rm, ch, r.value.reg, c)
      && Emitted(code, base, pos, Encode(r.value.rm, r.value.reg, ch))
      && r.pos == pos + |Encode(r.value.rm, r.value.reg, ch)|;
    m := Operands(r.value.reg, r.value.rm, ch);
    NotImmediate(m.rm, ch);
  }

  /** An immediate after the operands. */
  lemma TailJoined(code: CodeBytes, base: U64, pos: nat, c: Context, l: Line)
    requires Writable(c, l) && Emitted(code, base, pos, OperandBytes(l)) && Emitted(code, base, pos + |OperandBytes(l)|, l.imm)
    ensures Emitted(code, base, pos, TailBytes(l)) && |TailBytes(l)| == |OperandBytes(l)| + |l.imm|
  {
    hide Encodable, RexFor, Encode, Emitted;
    EmittedJoin(code, base, pos, OperandBytes(l), l.imm);
  }

  lemma EmittedNothing(code: CodeBytes, base: U64, pos: nat)
    ensures Emitted(code, base, pos, [])
  {
  }

  lemma AluOpcodeIs(op: Byte)
    requires AluOpcode(op)
    ensures op / 8 < 8 && op == ALU[op / 8] + op % 8
  {
    AluFirst(op / 8, 0);
  }

  lemma AluFound(code: CodeBytes, base: U64, pos: nat, c: Context, op: Byte) returns (l: Line, i: Instr)
    requires AluOpcode(op) && DecodeAlu(code, base, pos, c, op).Ok?
    ensures Found(code, base, pos, c, op, DecodeAlu(code, base, pos, c, op).value, l, i)
  {
    hide Encodable, RexFor, Encode, Emitted, DecodeModRM, OpWidth, ApplySeg, ImmSigned, Take, UnsignedImm, SignedImm, RmOf;
    AluOpcodeIs(op);
    SizeIs(c);
    var idx, form := op / 8, op % 8;
    if form <= 3 {
      var m := OperandsFound(code, base, pos, c, op);
      var w := OpWidth(c, form == 0 || form == 2);
      l := Line([op], Some(m), []);
      i := if form >= 2 then Alu(idx, RegOf(c, m), RmOf(c, m), w) else Alu(idx, RmOf(c, m), RegOf(c, m), w);
      assert TailBytes(l) == OperandBytes(l);
      assert AluRegister(c, l, idx, i.dst, i.src, w);
    } else {
      var b: seq<Byte>, v: U64;
      var w := if form == 4 then 1 else OpWidth(c, false);
      if form == 4 {
        b := TakenUnsigned(code, base, pos, 1);
        v := Take(code, base, pos, 1).value.value;
      } else {
        b := TakenImmSigned(code, base, pos, w);
        v := ImmSigned(code, base, pos, w).value.value;
      }
      l := Line([op], None, b);
      i := Alu(idx, Reg(0, c.rex), Imm(v), w);
      assert TailBytes(l) == b;
      assert AluAccumulator(c, l, idx, i.dst, v, w);
    }
  }

  lemma Group1Found(code: CodeBytes, base: U64, pos: nat, c: Context, op: Byte) returns (l: Line, i: Instr)
    requires op in {0x80, 0x81, 0x83} && DecodeGroup1(code, base, pos, c, op).Ok?
    ensures Found(code, base, pos, c, op, DecodeGroup1(code, base, pos, c, op).value, l, i)
  {
    hide Encodable, RexFor, Encode, Emitted, DecodeModRM, OpWidth, ApplySeg, ImmSigned, ImmByte, SignedImm, RmOf;
    SizeIs(c);
    var w := OpWidth(c, op == 0x80);
    var m := OperandsFound(code, base, pos, c, op);
    var next := DecodeModRM(code, base, pos, c).value.pos;
    var b: seq<Byte>, v: U64;
    if op == 0x81 {
      b := TakenImmSigned(code, base, next, w);
      v := ImmSigned(code, base, next, w).value.value;
    } else {
      b := TakenImmByte(code, base, next);
      v := ImmByte(code, base, next).value.value;
    }
    l := Line([op], Some(m), b);
    i := Alu(m.reg % 8, RmOf(c, m), Imm(v), w);
    TailJoined(code, base, pos, c, l);
    assert AluImmediate(c, l, m.reg % 8, i.dst, v, w);
  }

  lemma MoveFound(code: CodeBytes, base: U64, pos: nat, c: Context, op: Byte) returns (l: Line, i: Instr)
    requires MoveOpcode(op) && DecodeMove(code, base, pos, c, op).Ok?
    ensures Found(code, base, pos, c, op, DecodeMove(code, base, pos, c, op).value, l, i)
  {
    hide Encodable, RexFor, Encode, Emitted, DecodeModRM, OpWidth, ApplySeg, ImmPlain, MovImm, UnsignedImm, RmOf;
    SizeIs(c);
    var w := OpWidth(c, op == 0x84 || op == 0x88 || op == 0x8A || op == 0xC6);
    var m := OperandsFound(code, base, pos, c, op);
    var rm, reg := RmOf(c, m), RegOf(c, m);
    if op < 0xC6 {
      l := Line([op], Some(m), []);
      assert TailBytes(l) == OperandBytes(l);
      i := if op <= 0x85 then Test(rm, reg, w)
           else if op <= 0x89 then Mov(rm, reg, w)
           else if op <= 0x8B then Mov(reg, rm, w)
           else Lea(reg, m.rm, w);
    } else {
      var next := DecodeModRM(code, base, pos, c).value.pos;
      var b := TakenImmPlain(code, base, next, w);
      l := Line([op], Some(m), b);
      TailJoined(code, base, pos, c, l);
      i := Mov(rm, Imm(ImmPlain(code, base, next, w).value.value), w);
    }
  }

  lemma MovImmFound(code: CodeBytes, base: U64, pos: nat, c: Context, op: Byte) returns (l: Line, i: Instr)
    requires 0xB0 <= op <= 0xBF && DecodeMovImm(code, base, pos, c, op).Ok?
    ensures Found(code, base, pos, c, op, DecodeMovImm(code, base, pos, c, op).value, l, i)
  {
    hide Emitted, OpWidth, Take, UnsignedImm;
    SizeIs(c);
    var w := OpWidth(c, op < 0xB8);
    var b := TakenUnsigned(code, base, pos, w);
    var r := Extend(op % 8, c.rexB);
    ExtendLow(op % 8, c.rexB);
    LowThree(op, r);
    l := Line([op], None, b);
    assert TailBytes(l) == b;
    i := Mov(Reg(r, c.rex), Imm(Take(code, base, pos, w).value.value), w);
  }

  lemma TestImmFound(code: CodeBytes, base: U64, pos: nat, c: Context, op: Byte) returns (l: Line, i: Instr)
    requires op in {0xA8, 0xA9} && DecodeTestImm(code, base, pos, c, op).Ok?
    ensures Found(code, base, pos, c, op, DecodeTestImm(code, base, pos, c, op).value, l, i)
  {
    hide Emitted, OpWidth, ImmPlain, MovImm;
    SizeIs(c);
    var w := OpWidth(c, op == 0xA8);
    var b := TakenImmPlain(code, base, pos, w);
    l := Line([op], None, b);
    assert TailBytes(l) == b;
    i := Test(Reg(0, c.rex), Imm(ImmPlain(code, base, pos, w).value.value), w);
  }

  lemma Group3Found(code: CodeBytes, base: U64, pos: nat, c: Context, op: Byte) returns (l: Line, i: Instr)
    requires op in {0xF6, 0xF7} && DecodeGroup3(code, base, pos, c, op).Ok?
    ensures Found(code, base, pos, c, op, DecodeGroup3(code, base, pos, c, op).value, l, i)
  {
    hide Encodable, RexFor, Encode, Emitted, DecodeModRM, OpWidth, ApplySeg, ImmPlain, MovImm, RmOf;
    SizeIs(c);
    var w := OpWidth(c, op == 0xF6);
    var m := OperandsFound(code, base, pos, c, op);
    if m.reg % 8 <= 1 {
      var next := DecodeModRM(code, base, pos, c).value.pos;
      var b := TakenImmPlain(code, base, next, w);
      l := Line([op], Some(m), b);
      TailJoined(code, base, pos, c, l);
      i := Test(RmOf(c, m), Imm(ImmPlain(code, base, next, w).value.value), w);
    } else {
      l := Line([op], Some(m), []);
      assert TailBytes(l) == OperandBytes(l);
      i := Grp3(m.reg % 8, RmOf(c, m), w);
    }
  }

  lemma Group5Found(code: CodeBytes, base: U64, pos: nat, c: Context, op: Byte) returns (l: Line, i: Instr)
    requires op in {0xFE, 0xFF} && DecodeGroup5(code, base, pos, c, op).Ok?
    ensures Found(code, base, pos, c, op, DecodeGroup5(code, base, pos, c, op).value, l, i)
  {
    hide Encodable, RexFor, Encode, Emitted, DecodeModRM, OpWidth, ApplySeg, RmOf;
    SizeIs(c);
    var w := OpWidth(c, op == 0xFE);
    var m := OperandsFound(code, base, pos, c, op);
    var rm, idx := RmOf(c, m), m.reg % 8;
    l := Line([op], Some(m), []);
    assert TailBytes(l) == OperandBytes(l);
    i := if idx <= 1 then IncDec(idx == 0, rm, w)
         else if idx == 2 then CallInd(rm)
         else if idx == 4 then JmpInd(rm)
         else Push(rm);
  }

  lemma FlowFound(code: CodeBytes, base: U64, pos: nat, c: Context, op: Byte) returns (l: Line, i: Instr)
    requires FlowOpcode(op) && DecodeFlow(code, base, pos, c, op).Ok?
    ensures Found(code, base, pos, c, op, DecodeFlow(code, base, pos, c, op).value, l, i)
  {
    hide Emitted, Take, SignedImm, UnsignedImm, RelImm, SignExtend, Signed;
    i := DecodeFlow(code, base, pos, c, op).value.value;
    if op == 0xC3 {
      l := Line([op], None, []);
      assert TailBytes(l) == [];
      EmittedNothing(code, base, pos);
    } else if op == 0xC2 {
      var b := TakenUnsigned(code, base, pos, 2);
      l := Line([op], None, b);
      assert TailBytes(l) == b;
      ImmBelow(Take(code, base, pos, 2).value.value, b);
    } else {
      var b := TakenSigned(code, base, pos, if op in {0xE8, 0xE9, 0x68} then 4 else 1);
      l := Line([op], None, b);
      assert TailBytes(l) == b;
    }
  }

  lemma ImmBelow(v: U64, b: seq<Byte>)
    requires UnsignedImm(v, 2, b)
    ensures v < 0x1_0000
  {
  }

  lemma PlainFound(code: CodeBytes, base: U64, pos: nat, c: Context, op: Byte) returns (l: Line)
    requires DecodePlain(c, op).Some?
    ensures Found(code, base, pos, c, op, Got(DecodePlain(c, op).value, pos), l, DecodePlain(c, op).value)
  {
    hide Emitted, OpWidth;
    SizeIs(c);
    l := Line([op], None, []);
    assert TailBytes(l) == [];
    EmittedNothing(code, base, pos);
    ExtendLow(op % 8, c.rexB);
  }

  /** Every one-byte opcode that decodes. */
  lemma LineFound(code: CodeBytes, base: U64, pos: nat, c: Context, op: Byte) returns (l: Line, i: Instr)
    requires DecodeOpcode(code, base, pos, c, op).Ok?
    ensures Found(code, base, pos, c, op, DecodeOpcode(code, base, pos, c, op).value, l, i)
  {
    hide Found, DecodeAlu, DecodeGroup1, DecodeMove, DecodeMovImm, DecodeTestImm, DecodeGroup3, DecodeGroup5, DecodeFlow, DecodePlain;
    if AluOpcode(op) {
      l, i := AluFound(code, base, pos, c, op);
    } else if op == 0x80 || op == 0x81 || op == 0x83 {
      l, i := Group1Found(code, base, pos, c, op);
    } else if MoveOpcode(op) {
      l, i := MoveFound(code, base, pos, c, op);
    } else if 0xB0 <= op <= 0xBF {
      l, i := MovImmFound(code, base, pos, c, op);
    } else if op == 0xA8 || op == 0xA9 {
      l, i := TestImmFound(code, base, pos, c, op);
    } else if op == 0xF6 || op == 0xF7 {
      l, i := Group3Found(code, base, pos, c, op);
    } else if op == 0xFE || op == 0xFF {
      l, i := Group5Found(code, base, pos, c, op);
    } else if FlowOpcode(op) {
      l, i := FlowFound(code, base, pos, c, op);
    } else {
      i := DecodePlain(c, op).value;
      l := PlainFound(code, base, pos, c, op);
    }
  }

  lemma {:induction false} PrefixesFound(code: CodeBytes, base: U64, done: seq<Byte>) returns (rest: seq<Byte>)
    requires SkipPrefixes(code, base, Seen(done)).Ok?
    ensures SkipPrefixes(code, base, Seen(done)) == Ok(Seen(done + rest))
    ensures Emitted(code, base, |done|, rest) && forall x :: x in rest ==> IsPrefix(x)
    decreases MAX_PREFIXES - |done|
  {
    hide Emitted, Take, IsPrefix, Seen, WithPrefix;
    SeenAt(done);
    TakenByte(code, base, |done|);
    var x := Take(code, base, |done|, 1).value.value;
    PrefixSeen(done, x);
    if IsPrefix(x) {
      var more := PrefixesFound(code, base, done + [x]);
      rest := [x] + more;
      EmittedJoin(code, base, |done|, [x], more);
      assert done + [x] + more == done + rest;
    } else {
      rest := [];
      EmittedNothing(code, base, |done|);
      assert done + rest == done;
    }
  }

  function RexOf(b: Byte): Rex {
    Rex(Odd(b / 8), Odd(b / 4), Odd(b / 2), Odd(b))
  }

  lemma RexBack(b: Byte)
    requires 0x40 <= b <= 0x4F
    ensures RexByte(RexOf(b)) == b
  {
  }

  /** A line of two bytes, or a hook. */
  lemma TwoByteFound(code: CodeBytes, base: U64, pos: nat) returns (l: Line)
    requires DecodeTwoByte(code, base, pos).Ok?
    ensures
      var d := DecodeTwoByte(code, base, pos).value;
      && l.modrm.None? && |l.opcode| == 2 && l.opcode[0] == 0x0F
      && Emitted(code, base, pos, l.opcode[1..] + TailBytes(l)) && d.len == pos + |l.opcode[1..] + TailBytes(l)|
      && if d.hooked.NotHooked? then
           (forall c: Context :: Stands(c, l, d.instr)) && d.instr == Specialised(d.instr) && d.endsBlock == IsBranch(d.instr)
         else HookLine(l, d.hooked) && d.instr == Trap && !d.endsBlock
  {
    hide Emitted, Take, SignedImm, RelImm, Signed;
    TakenByte(code, base, pos);
    var op := Take(code, base, pos, 1).value.value;
    if op == 0x05 || op == 0xA2 {
      l := Line([0x0F, op], None, []);
      assert l.opcode[1..] + TailBytes(l) == [op];
    } else {
      var b := TakenSigned(code, base, pos + 1, 4);
      l := Line([0x0F, op], None, b);
      EmittedJoin(code, base, pos, [op], b);
      assert l.opcode[1..] + TailBytes(l) == [op] + b;
    }
  }

  /** From the opcode at `at` on. */
  lemma OpcodeFound(code: CodeBytes, base: U64, at: nat, c: Context, op: Byte, d: Decoded) returns (l: Line)
    requires Emitted(code, base, at, [op])
    requires if op == 0x0F then DecodeTwoByte(code, base, at + 1) == Ok(d)
             else DecodeOpcode(code, base, at + 1, c, op).Ok? &&
                  var i := DecodeOpcode(code, base, at + 1, c, op).value; d == Finish(i.value, i.pos)
    ensures
      && Writable(c, l) && Emitted(code, base, at, l.opcode + TailBytes(l)) && d.len == at + |l.opcode + TailBytes(l)|
      && if d.hooked.NotHooked? then
           exists i: Instr :: Stands(c, l, i) && d.instr == Specialised(i) && d.endsBlock == IsBranch(i)
         else HookLine(l, d.hooked) && d.instr == Trap && !d.endsBlock
  {
    hide Encodable, RexFor, Encode, Emitted, Stands, DecodeTwoByte, DecodeOpcode, Specialised, HookLine;
    if op == 0x0F {
      l := TwoByteFound(code, base, at + 1);
      EmittedJoin(code, base, at, [op], l.opcode[1..] + TailBytes(l));
      assert l.opcode + TailBytes(l) == [op] + (l.opcode[1..] + TailBytes(l));
      if d.hooked.NotHooked? {
        assert Stands(c, l, d.instr);
      }
    } else {
      var i: Instr;
      l, i := LineFound(code, base, at + 1, c, op);
      EmittedJoin(code, base, at, [op], TailBytes(l));
      SpecialisedBranch(i);
      assert Stands(c, l, i);
    }
  }

  function Blank(ps: seq<Byte>, rex: Option<Rex>): Encoding {
    Encoding(ps, rex, Line([], None, []))
  }

  /** REX and opcode after these prefixes, and what is decoded from there. */
  lemma OpcodeRead(code: CodeBytes, base: U64, ps: seq<Byte>) returns (rex: Option<Rex>, op: Byte)
    requires DecodeBody(code, base, Seen(ps)).Ok?
    ensures
      var at, d := |ps| + |RexBytes(rex)|, DecodeBody(code, base, Seen(ps)).value;
      && Emitted(code, base, |ps|, RexBytes(rex)) && Emitted(code, base, at, [op])
      && if op == 0x0F then DecodeTwoByte(code, base, at + 1) == Ok(d)
         else DecodeOpcode(code, base, at + 1, Setting(Blank(ps, rex)), op).Ok? &&
              var i := DecodeOpcode(code, base, at + 1, Setting(Blank(ps, rex)), op).value; d == Finish(i.value, i.pos)
  {
    hide Emitted, Take, DecodeTwoByte, DecodeOpcode, Seen, MakeContext, Setting, IsPrefix, RexByte, RexOf;
    SeenAt(ps);
    TakenByte(code, base, |ps|);
    var b := Take(code, base, |ps|, 1).value.value;
    rex := if 0x40 <= b <= 0x4F then Some(RexOf(b)) else None;
    if rex.Some? {
      RexBack(b);
    } else {
      EmittedNothing(code, base, |ps|);
    }
    RexRead(Blank(ps, rex));
    var at := |ps| + |RexBytes(rex)|;
    TakenByte(code, base, at);
    op := Take(code, base, at, 1).value.value;
  }

  /** REX, opcode and the rest. */
  lemma BodyFound(code: CodeBytes, base: U64, ps: seq<Byte>) returns (e: Encoding)
    requires DecodeBody(code, base, Seen(ps)).Ok? && forall x :: x in ps ==> IsPrefix(x)
    ensures e.prefixes == ps && Encodes(e, DecodeBody(code, base, Seen(ps)).value)
    ensures Emitted(code, base, |ps|, BodyBytes(e))
  {
    hide Encodable, RexFor, Encode, Emitted, Stands, DecodeBody, DecodeTwoByte, DecodeOpcode, Specialised, HookLine, Seen, Setting,
      IsPrefix, RexByte;
    var d := DecodeBody(code, base, Seen(ps)).value;
    var rex, op := OpcodeRead(code, base, ps);
    var l := OpcodeFound(code, base, |ps| + |RexBytes(rex)|, Setting(Blank(ps, rex)), op, d);
    e := Encoding(ps, rex, l);
    SettingIs(ps, rex, l);
    var rest := l.opcode + TailBytes(l);
    EmittedJoin(code, base, |ps|, RexBytes(rex), rest);
    assert BodyBytes(e) == RexBytes(rex) + rest;
    assert BytesOf(e) == ps + BodyBytes(e);
  }

  /** Whatever decodeOne accepts, at any address of any code, is an encoding of what
      it returns. */
  lemma OnlyInstructionsDecode(code: CodeBytes, addr: U64) returns (e: Encoding)
    requires Decode(code, addr).Ok?
    ensures Encodes(e, Decode(code, addr).value) && Emitted(code, addr, 0, BytesOf(e))
  {
    hide Encodable, RexFor, Encode, Emitted, Stands, DecodeBody, HookLine, SkipPrefixes, Seen, Setting, IsPrefix, RexByte;
    SeenNothing();
    var ps := PrefixesFound(code, addr, []);
    assert [] + ps == ps;
    e := BodyFound(code, addr, ps);
    EmittedJoin(code, addr, 0, ps, BodyBytes(e));
    assert BytesOf(e) == ps + BodyBytes(e);
  }

  /** The line itself does not matter to the setting. */
  lemma SettingIs(ps: seq<Byte>, rex: Option<Rex>, l: Line)
    ensures Setting(Encoding(ps, rex, l)) == Setting(Blank(ps, rex))
  {
  }
}
