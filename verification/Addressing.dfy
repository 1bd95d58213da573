/** The ModRM and SIB encoding of operands (Intel SDM Vol. 2A, sections 2.1.5 and
    2.2.1), and that decodeModRM inverts it. */
module Addressing {
  import opened Words
  import opened FlatMemory
  import opened Registers
  import opened Instructions
  import opened Decoder

  /** Two's complement bytes of a displacement. */
  function DispBytes(d: int, w: Width): (b: seq<Byte>)
    requires FitsSigned(d, w)
    ensures |b| == w
  {
    NatToLe(if d < 0 then d + Span(w) else d, w)
  }

  function ScaleBits(scale: nat): nat {
    if scale == 1 then 0 else if scale == 2 then 1 else if scale == 4 then 2 else 3
  }

  /** How an encoder may choose to write an operand: the mod field and whether a
      SIB byte is used. */
  datatype Choice = Choice(mod: nat, sib: bool)

  /** The displacement can be written with this mod field. */
  predicate DispChoice(base: RegIdx, disp: int, mod: nat) {
    || (mod == 0 && disp == 0 && base % 8 != 5)
    || (mod == 1 && FitsSigned(disp, 1))
    || (mod == 2 && FitsSigned(disp, 4))
  }

  /** The operand has an encoding of that shape.  RSP cannot be an index; a base
      whose low bits are 4 needs the SIB byte. */
  predicate Encodable(o: Operand, ch: Choice) {
    match o
    case Reg(_, _) => true
    case Rip(disp) => FitsSigned(disp, 4)
    case Imm(_) => false
    case Mem(base, index, scale, disp, seg) =>
      && seg == NoSeg && scale in {1, 2, 4, 8} && index != Some(4)
      && (!ch.sib ==> base.Some? && index.None? && scale == 1 && base.value % 8 != 4)
      && if base.Some? then DispChoice(base.value, disp, ch.mod) else FitsSigned(disp, 4)
  }

  /** The REX bits that the operand and the reg field call for. */
  predicate RexFor(o: Operand, ch: Choice, reg: RegIdx, c: Context) {
    && c.rexR == (reg >= 8)
    && match o
       case Reg(r, rex) => c.rexB == (r >= 8) && rex == c.rex
       case Mem(base, index, _, _, _) =>
         && (base.Some? ==> c.rexB == (base.value >= 8))
         && (ch.sib ==> c.rexX == (index.Some? && index.value >= 8))
       case _ => true
  }

  function ByteOf(hi: nat, mid: nat, lo: nat): Byte
    requires hi < 4 && mid < 8 && lo < 8
  {
    hi * 64 + mid * 8 + lo
  }

  function DispFor(disp: int, mod: nat): seq<Byte>
    requires (mod == 1 ==> FitsSigned(disp, 1)) && (mod == 2 ==> FitsSigned(disp, 4))
  {
    if mod == 1 then DispBytes(disp, 1) else if mod == 2 then DispBytes(disp, 4) else []
  }

  /** ModRM byte, SIB byte and displacement of an operand. */
  function Encode(o: Operand, reg: RegIdx, ch: Choice): seq<Byte>
    requires Encodable(o, ch)
  {
    var r := reg % 8;
    match o
    case Reg(i, _) => [ByteOf(3, r, i % 8)]
    case Rip(disp) => [ByteOf(0, r, 5)] + DispBytes(disp, 4)
    case Mem(base, index, scale, disp, _) =>
      var x := if index.Some? then index.value % 8 else 4;
      if base.None? then [ByteOf(0, r, 4), ByteOf(ScaleBits(scale), x, 5)] + DispBytes(disp, 4)
      else if ch.sib then
        [ByteOf(ch.mod, r, 4), ByteOf(ScaleBits(scale), x, base.value % 8)] + DispFor(disp, ch.mod)
      else [ByteOf(ch.mod, r, base.value % 8)] + DispFor(disp, ch.mod)
  }

  /** The bytes are the instruction bytes from `base + pos` on. */
  ghost predicate Emitted(code: CodeBytes, base: U64, pos: nat, bytes: seq<Byte>) {
    forall i: nat :: i < |bytes| ==> IsCode(code, Wrap64(base + pos + i), bytes[i])
  }

  predicate IsCode(code: CodeBytes, a: U64, b: Byte) {
    a in code && code[a] == b
  }

  lemma AtWrap(base: int, pos: nat, i: nat)
    ensures At(Wrap64(base + pos), i) == Wrap64(base + pos + i)
  {
  }

  lemma TakeEmitted(code: CodeBytes, base: U64, pos: nat, bytes: seq<Byte>, k: nat, n: nat)
    requires Emitted(code, base, pos, bytes) && k + n <= |bytes| && n <= 8
    ensures Take(code, base, pos + k, n) == Ok(Got(LeWord(bytes[k..k + n]), pos + k + n))
  {
    hide At, Wrap64, LeWord;
    var mem, from := OnlyCode(code), Wrap64(base + (pos + k));
    forall i: nat | i < n
      ensures Allowed(mem, At(from, i), NeedExec) && ByteAt(mem, At(from, i)) == bytes[k..k + n][i]
    {
      AtWrap(base, pos + k, i);
      assert IsCode(code, Wrap64(base + pos + (k + i)), bytes[k + i]);
    }
    ReachIs(mem, from, n, NeedExec, n);
    assert Bytes(mem, from, n) == bytes[k..k + n];
  }

  lemma DispRoundTrip(d: int, w: Width)
    requires FitsSigned(d, w)
    ensures Signed(LeWord(DispBytes(d, w)), w) == d
  {
    hide NatToLe, LeWord, Low;
    var v := if d < 0 then d + Span(w) else d;
    WordBack(v, w);
    LowSmall(v, w);
  }

  lemma TakeByte(code: CodeBytes, base: U64, pos: nat, bytes: seq<Byte>, k: nat)
    requires Emitted(code, base, pos, bytes) && k < |bytes|
    ensures Take(code, base, pos + k, 1) == Ok(Got(bytes[k], pos + k + 1))
  {
    TakeEmitted(code, base, pos, bytes, k, 1);
    assert bytes[k..k + 1] == [bytes[k]];
    assert LeToNat([bytes[k]]) == bytes[k] + 0x100 * LeToNat([]);
  }

  lemma TakeDisp(code: CodeBytes, base: U64, pos: nat, bytes: seq<Byte>, k: nat, d: int, w: Width)
    requires Emitted(code, base, pos, bytes) && k <= |bytes|
    requires FitsSigned(d, w) && bytes[k..] == DispBytes(d, w)
    ensures
      var t := Take(code, base, pos + k, w);
      t.Ok? && t.value.pos == pos + |bytes| && Signed(t.value.value, w) == d
  {
    TakeEmitted(code, base, pos, bytes, k, w);
    assert bytes[k..k + w] == bytes[k..];
    DispRoundTrip(d, w);
  }

  lemma Fields(hi: nat, mid: nat, lo: nat)
    requires hi < 4 && mid < 8 && lo < 8
    ensures var b := ByteOf(hi, mid, lo); b / 64 == hi && b / 8 % 8 == mid && b % 8 == lo && b % 0x100 == b
  {
    var b := ByteOf(hi, mid, lo);
    ModUnique(b, 8, 8 * hi + mid, lo);
    ModUnique(8 * hi + mid, 8, hi, mid);
    ModUnique(b, 64, hi, 8 * mid + lo);
  }

  lemma ExtendBack(i: RegIdx)
    ensures Extend(i % 8, i >= 8) == i
  {
  }

  lemma DispDecodes(code: CodeBytes, base: U64, pos: nat, bytes: seq<Byte>, k: nat, disp: int, mod: nat)
    requires Emitted(code, base, pos, bytes) && k <= |bytes|
    requires (mod == 0 && disp == 0) || (mod == 1 && FitsSigned(disp, 1)) || (mod == 2 && FitsSigned(disp, 4))
    requires bytes[k..] == DispFor(disp, mod)
    ensures Displacement(code, base, pos + k, mod) == Ok(Got(disp, pos + |bytes|))
  {
    hide Take;
    if mod == 1 {
      TakeDisp(code, base, pos, bytes, k, disp, 1);
    } else if mod == 2 {
      TakeDisp(code, base, pos, bytes, k, disp, 4);
    }
  }

  lemma SibDecodes(code: CodeBytes, base: U64, pos: nat, reg: RegIdx, c: Context, o: Operand, ch: Choice)
    requires o.Mem? && ch.sib && Encodable(o, ch) && RexFor(o, ch, reg, c)
    requires Emitted(code, base, pos, Encode(o, reg, ch))
    ensures DecodeSIB(code, base, pos + 1, c, if o.base.None? then 0 else ch.mod) == Ok(Got(o, pos + |Encode(o, reg, ch)|))
  {
    hide Take, Displacement, ByteOf, Emitted, DispBytes, Signed;
    var bytes := Encode(o, reg, ch);
    var x := if o.index.Some? then o.index.value % 8 else 4;
    TakeByte(code, base, pos, bytes, 1);
    if o.base.None? {
      Fields(ScaleBits(o.scale), x, 5);
      assert bytes[2..] == DispBytes(o.disp, 4);
      TakeDisp(code, base, pos, bytes, 2, o.disp, 4);
    } else {
      Fields(ScaleBits(o.scale), x, o.base.value % 8);
      assert bytes[2..] == DispFor(o.disp, ch.mod);
      DispDecodes(code, base, pos, bytes, 2, o.disp, ch.mod);
    }
  }

  /** decodeModRM undoes the encoding: on the bytes of any encodable operand,
      written in any of the ways the manual allows, it returns that operand and
      the reg field and consumes exactly those bytes. */
  lemma ModRMInvertsEncoding(code: CodeBytes, base: U64, pos: nat, reg: RegIdx, c: Context, o: Operand, ch: Choice)
    requires Encodable(o, ch) && RexFor(o, ch, reg, c)
    requires Emitted(code, base, pos, Encode(o, reg, ch))
    ensures DecodeModRM(code, base, pos, c) == Ok(Got(ModRM(reg, o), pos + |Encode(o, reg, ch)|))
  {
    hide Encodable, RexFor, Emitted, DecodeModRM, Encode;
    NotImmediate(o, ch);
    if o.Reg? {
      RegDecodes(code, base, pos, reg, c, o, ch);
    } else if o.Rip? {
      RipDecodes(code, base, pos, reg, c, o, ch);
    } else {
      MemDecodes(code, base, pos, reg, c, o, ch);
    }
  }

  lemma NotImmediate(o: Operand, ch: Choice)
    requires Encodable(o, ch)
    ensures !o.Imm?
  {
  }

  lemma RegDecodes(code: CodeBytes, base: U64, pos: nat, reg: RegIdx, c: Context, o: Operand, ch: Choice)
    requires o.Reg? && Encodable(o, ch) && RexFor(o, ch, reg, c)
    requires Emitted(code, base, pos, Encode(o, reg, ch))
    ensures DecodeModRM(code, base, pos, c) == Ok(Got(ModRM(reg, o), pos + |Encode(o, reg, ch)|))
  {
    hide Take, ByteOf, Emitted, LeWord, LeToNat;
    TakeByte(code, base, pos, Encode(o, reg, ch), 0);
    ExtendBack(reg);
    Fields(3, reg % 8, o.reg % 8);
    ExtendBack(o.reg);
  }

  lemma RipDecodes(code: CodeBytes, base: U64, pos: nat, reg: RegIdx, c: Context, o: Operand, ch: Choice)
    requires o.Rip? && Encodable(o, ch) && RexFor(o, ch, reg, c)
    requires Emitted(code, base, pos, Encode(o, reg, ch))
    ensures DecodeModRM(code, base, pos, c) == Ok(Got(ModRM(reg, o), pos + |Encode(o, reg, ch)|))
  {
    hide Take, Displacement, ByteOf, Emitted, DispBytes, Signed, LeWord, LeToNat, NatToLe;
    var bytes := Encode(o, reg, ch);
    TakeByte(code, base, pos, bytes, 0);
    ExtendBack(reg);
    Fields(0, reg % 8, 5);
    assert bytes[1..] == DispBytes(o.disp, 4);
    TakeDisp(code, base, pos, bytes, 1, o.disp, 4);
  }

  lemma MemDecodes(code: CodeBytes, base: U64, pos: nat, reg: RegIdx, c: Context, o: Operand, ch: Choice)
    requires o.Mem? && Encodable(o, ch) && RexFor(o, ch, reg, c)
    requires Emitted(code, base, pos, Encode(o, reg, ch))
    ensures DecodeModRM(code, base, pos, c) == Ok(Got(ModRM(reg, o), pos + |Encode(o, reg, ch)|))
  {
    hide Take, Displacement, ByteOf, Emitted, DispBytes, Signed, DecodeSIB, LeWord, LeToNat, NatToLe;
    var bytes := Encode(o, reg, ch);
    TakeByte(code, base, pos, bytes, 0);
    ExtendBack(reg);
    if ch.sib {
      Fields(if o.base.None? then 0 else ch.mod, reg % 8, 4);
      SibDecodes(code, base, pos, reg, c, o, ch);
    } else {
      Fields(ch.mod, reg % 8, o.base.value % 8);
      ExtendBack(o.base.value);
      assert bytes[1..] == DispFor(o.disp, ch.mod);
      DispDecodes(code, base, pos, bytes, 1, o.disp, ch.mod);
    }
  }

  // ---- and nothing else ------------------------------------------------------

  lemma {:induction false} BytesBack(b: seq<Byte>)
    ensures NatToLe(LeToNat(b), |b|) == b
  {
    if b != [] {
      BytesBack(b[1..]);
      assert LeToNat(b) % 0x100 == b[0] && LeToNat(b) / 0x100 == LeToNat(b[1..]);
    }
  }

  /** A successful read of the stream saw the bytes it reports. */
  lemma TakenBytes(code: CodeBytes, base: U64, pos: nat, n: nat) returns (b: seq<Byte>)
    requires n <= 8 && Take(code, base, pos, n).Ok?
    ensures |b| == n && Emitted(code, base, pos, b) && Take(code, base, pos, n) == Ok(Got(LeWord(b), pos + n))
  {
    hide LeWord, At, Wrap64;
    var mem, from := OnlyCode(code), Wrap64(base + pos);
    b := Load(mem, from, n, NeedExec).value;
    forall i: nat | i < |b|
      ensures IsCode(code, Wrap64(base + pos + i), b[i])
    {
      AtWrap(base, pos, i);
      assert Allowed(mem, At(from, i), NeedExec);
    }
  }

  lemma TakenByte(code: CodeBytes, base: U64, pos: nat)
    requires Take(code, base, pos, 1).Ok?
    ensures
      var t := Take(code, base, pos, 1).value;
      t.pos == pos + 1 && t.value < 0x100 && Emitted(code, base, pos, [t.value])
  {
    var b := TakenBytes(code, base, pos, 1);
    assert LeToNat(b) == b[0] + 0x100 * LeToNat(b[1..]);
    assert b == [b[0]];
  }

  lemma TakenDisp(code: CodeBytes, base: U64, pos: nat, w: Width)
    requires Take(code, base, pos, w).Ok?
    ensures
      var t := Take(code, base, pos, w).value;
      var d := Signed(t.value, w);
      t.pos == pos + w && FitsSigned(d, w) && Emitted(code, base, pos, DispBytes(d, w))
  {
    var b := TakenBytes(code, base, pos, w);
    hide Emitted, Take;
    BytesBack(b);
    LeBound(b);
    Pow256Widths();
    assert LeWord(b) < Span(w) by {
      hide LeToNat, NatToLe;
      assert Pow256(w) == Span(w);
    }
    LowSmall(LeWord(b), w);
    hide LeToNat, NatToLe, Low, Pow256;
    assert DispBytes(Signed(LeWord(b), w), w) == NatToLe(LeWord(b), w);
  }

  lemma EmittedJoin(code: CodeBytes, base: U64, pos: nat, x: seq<Byte>, y: seq<Byte>)
    requires Emitted(code, base, pos, x) && Emitted(code, base, pos + |x|, y)
    ensures Emitted(code, base, pos, x + y)
  {
    hide Wrap64;
    forall i: nat | i < |x + y|
      ensures IsCode(code, Wrap64(base + pos + i), (x + y)[i])
    {
      if i < |x| {
        assert (x + y)[i] == x[i];
      } else {
        assert base + (pos + |x|) + (i - |x|) == base + pos + i;
        assert (x + y)[i] == y[i - |x|];
      }
    }
  }

  lemma FieldsBack(b: Byte)
    ensures b / 64 < 4 && ByteOf(b / 64, b / 8 % 8, b % 8) == b && b % 0x100 == b
  {
    var c := b / 8;
    assert b == 8 * c + b % 8;
    assert c == 8 * (c / 8) + c % 8 && c / 8 == b / 64;
  }

  lemma ExtendLow(raw: nat, ext: bool)
    requires raw < 8
    ensures Extend(raw, ext) % 8 == raw && (Extend(raw, ext) >= 8 <==> ext)
  {
  }

  lemma DecodedDisp(code: CodeBytes, base: U64, pos: nat, mod: nat)
    requires mod < 3 && Displacement(code, base, pos, mod).Ok?
    ensures
      var d := Displacement(code, base, pos, mod).value;
      && (mod == 1 ==> FitsSigned(d.value, 1)) && (mod == 2 ==> FitsSigned(d.value, 4)) && (mod == 0 ==> d.value == 0)
      && d.pos == pos + |DispFor(d.value, mod)| && Emitted(code, base, pos, DispFor(d.value, mod))
  {
    hide Take;
    if mod == 1 {
      TakenDisp(code, base, pos, 1);
    } else if mod == 2 {
      TakenDisp(code, base, pos, 4);
    }
  }

  lemma DecodedSib(code: CodeBytes, base: U64, pos: nat, c: Context, mod: nat, reg: RegIdx)
    requires mod < 3 && DecodeSIB(code, base, pos + 1, c, mod).Ok? && c.rexR == (reg >= 8)
    requires Emitted(code, base, pos, [ByteOf(mod, reg % 8, 4)])
    ensures
      var o := DecodeSIB(code, base, pos + 1, c, mod).value;
      var ch := Choice(mod, true);
      && o.value.Mem? && Encodable(o.value, ch) && RexFor(o.value, ch, reg, c)
      && Emitted(code, base, pos, Encode(o.value, reg, ch)) && o.pos == pos + |Encode(o.value, reg, ch)|
  {
    hide Take, Displacement, Emitted, DispBytes, Signed, ByteOf;
    var o := DecodeSIB(code, base, pos + 1, c, mod).value;
    TakenByte(code, base, pos + 1);
    var s := Take(code, base, pos + 1, 1).value.value;
    FieldsBack(s);
    ExtendLow(s / 8 % 8, c.rexX);
    ExtendLow(s % 8, c.rexB);
    var head := [ByteOf(mod, reg % 8, 4)] + [s];
    EmittedJoin(code, base, pos, [ByteOf(mod, reg % 8, 4)], [s]);
    if s % 8 == 5 && mod == 0 {
      TakenDisp(code, base, pos + 2, 4);
      EmittedJoin(code, base, pos, head, DispBytes(o.value.disp, 4));
      assert Encode(o.value, reg, Choice(mod, true)) == head + DispBytes(o.value.disp, 4);
    } else {
      DecodedDisp(code, base, pos + 2, mod);
      EmittedJoin(code, base, pos, head, DispFor(o.value.disp, mod));
      assert Encode(o.value, reg, Choice(mod, true)) == head + DispFor(o.value.disp, mod);
    }
  }

  /** Whatever decodeModRM accepts is an encoding of what it returns. */
  lemma OnlyEncodingsDecode(code: CodeBytes, base: U64, pos: nat, c: Context)
    requires DecodeModRM(code, base, pos, c).Ok?
    ensures
      var r := DecodeModRM(code, base, pos, c).value;
      exists ch: Choice ::
        && Encodable(r.value.rm, ch) && RexFor(r.value.rm, ch, r.value.reg, c)
        && Emitted(code, base, pos, Encode(r.value.rm, r.value.reg, ch))
        && r.pos == pos + |Encode(r.value.rm, r.value.reg, ch)|
  {
    hide Take, Displacement, Emitted, DispBytes, Signed, ByteOf, DecodeSIB;
    var r := DecodeModRM(code, base, pos, c).value;
    TakenByte(code, base, pos);
    var b := Take(code, base, pos, 1).value.value;
    FieldsBack(b);
    ExtendLow(b / 8 % 8, c.rexR);
    ExtendLow(b % 8, c.rexB);
    var ch := Choice(b / 64, b % 8 == 4);
    var o := r.value.rm;
    if b / 64 == 3 {
      assert Encode(o, r.value.reg, ch) == [b];
    } else if b % 8 == 4 {
      DecodedSib(code, base, pos, c, b / 64, r.value.reg);
    } else if b / 64 == 0 && b % 8 == 5 {
      TakenDisp(code, base, pos + 1, 4);
      EmittedJoin(code, base, pos, [b], DispBytes(o.disp, 4));
      assert Encode(o, r.value.reg, ch) == [b] + DispBytes(o.disp, 4);
    } else {
      DecodedDisp(code, base, pos + 1, b / 64);
      EmittedJoin(code, base, pos, [b], DispFor(o.disp, b / 64));
      assert Encode(o, r.value.reg, ch) == [b] + DispFor(o.disp, b / 64);
    }
    assert Encodable(o, ch) && RexFor(o, ch, r.value.reg, c);
  }
}
