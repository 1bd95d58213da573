/** The integer register file (internal/cpu/registers.go) and EFLAGS. */
module Registers {
  import opened Words

  type RegIdx = i: nat | i < 16

  type Gprs = g: seq<U64> | |g| == 16 witness [0, 0, 0, 0, 0, 0, 0, 0, 0, 0, 0, 0, 0, 0, 0, 0]

  const RAX: RegIdx := 0
  const RCX: RegIdx := 1
  const RDX: RegIdx := 2
  const RSP: RegIdx := 4
  const RBP: RegIdx := 5
  const RSI: RegIdx := 6
  const RDI: RegIdx := 7

  /** EFLAGS: the seven bits the engine computes, and the word's other bits. */
  datatype Flags = Flags(cf: bool, pf: bool, af: bool, zf: bool, sf: bool, df: bool, of: bool, rest: nat)

  datatype Registers = Registers(gpr: Gprs, rip: U64, flags: Flags, fsbase: U64, gsbase: U64)

  // ---- EFLAGS as a word ------------------------------------------------------

  predicate Odd(n: nat) {
    n % 2 == 1
  }

  function Bit(on: bool, weight: nat): nat {
    if on then weight else 0
  }

  function Unpack(v: nat): Flags {
    var v1 := v / 2; var v2 := v1 / 2; var v3 := v2 / 2; var v4 := v3 / 2;
    var v5 := v4 / 2; var v6 := v5 / 2; var v7 := v6 / 2; var v8 := v7 / 2;
    var v9 := v8 / 2; var v10 := v9 / 2; var v11 := v10 / 2; var v12 := v11 / 2;
    Flags(Odd(v), Odd(v2), Odd(v4), Odd(v6), Odd(v7), Odd(v10), Odd(v11),
          Bit(Odd(v1), 2) + Bit(Odd(v3), 8) + Bit(Odd(v5), 32) + Bit(Odd(v8), 256) + Bit(Odd(v9), 512)
          + v12 * 4096)
  }

  function Pack(f: Flags): nat {
    Bit(f.cf, 1) + Bit(f.pf, 4) + Bit(f.af, 16) + Bit(f.zf, 64) + Bit(f.sf, 128) + Bit(f.df, 1024)
    + Bit(f.of, 2048) + f.rest
  }

  /** Nothing of the EFLAGS word is lost by keeping its bits apart. */
  lemma PackUnpack(v: nat)
    ensures Pack(Unpack(v)) == v
  {
    hide Odd, Bit;
    var v1 := v / 2; var v2 := v1 / 2; var v3 := v2 / 2; var v4 := v3 / 2;
    var v5 := v4 / 2; var v6 := v5 / 2; var v7 := v6 / 2; var v8 := v7 / 2;
    var v9 := v8 / 2; var v10 := v9 / 2; var v11 := v10 / 2;
    TakeBit(v, 1); TakeBit(v1, 2); TakeBit(v2, 4); TakeBit(v3, 8); TakeBit(v4, 16); TakeBit(v5, 32);
    TakeBit(v6, 64); TakeBit(v7, 128); TakeBit(v8, 256); TakeBit(v9, 512); TakeBit(v10, 1024);
    TakeBit(v11, 2048);
  }

  lemma TakeBit(v: nat, weight: nat)
    ensures Bit(Odd(v), weight) == weight * v - 2 * weight * (v / 2)
  {
    assert v == 2 * (v / 2) + (if Odd(v) then 1 else 0);
  }

  // ---- partial registers -----------------------------------------------------

  /** Without REX, byte registers 4 to 7 are AH, CH, DH and BH. */
  predicate HighByte(idx: RegIdx, rex: bool) {
    !rex && 4 <= idx <= 7
  }

  function ReadWidth(g: Gprs, idx: RegIdx, w: Width, rex: bool): U64 {
    if w == 1 then
      if HighByte(idx, rex) then g[idx - 4] / 0x100 % 0x100 else g[idx] % 0x100
    else Low(g[idx], w)
  }

  /** A 32-bit write clears the upper half; narrower writes leave the rest alone. */
  function WriteWidth(g: Gprs, idx: RegIdx, w: Width, rex: bool, v: U64): Gprs {
    if w == 1 then
      if HighByte(idx, rex) then
        var was := g[idx - 4];
        g[idx - 4 := was - was / 0x100 % 0x100 * 0x100 + v % 0x100 * 0x100]
      else g[idx := g[idx] - g[idx] % 0x100 + v % 0x100]
    else if w == 2 then g[idx := g[idx] - g[idx] % 0x1_0000 + v % 0x1_0000]
    else g[idx := Low(v, w)]
  }

  /** The register that holds an operand, and its first byte there. */
  function Holder(idx: RegIdx, w: Width, rex: bool): (RegIdx, nat) {
    if w == 1 && HighByte(idx, rex) then (idx - 4, 1) else (idx, 0)
  }

  lemma WriteThenRead(g: Gprs, idx: RegIdx, w: Width, rex: bool, v: U64)
    ensures ReadWidth(WriteWidth(g, idx, w, rex, v), idx, w, rex) == Low(v, w)
  {
    if w == 1 && HighByte(idx, rex) {
      ReplaceMiddle(g[idx - 4], v % 0x100);
    } else if w == 1 {
      ReplaceLow(g[idx], v % 0x100, 0x100);
    } else if w == 2 {
      ReplaceLow(g[idx], v % 0x1_0000, 0x1_0000);
    }
  }

  /** A write leaves every other register alone, and of its own register it
      changes only the operand's bytes, except that a 32-bit write clears the
      upper half. */
  lemma WriteFrame(g: Gprs, idx: RegIdx, w: Width, rex: bool, v: U64)
    ensures
      var h := WriteWidth(g, idx, w, rex, v);
      var (reg, first) := Holder(idx, w, rex);
      && (forall j: RegIdx :: j != reg ==> h[j] == g[j])
      && h[reg] / Pow256(first + w) == (if w == 4 then 0 else g[reg] / Pow256(first + w))
      && h[reg] % Pow256(first) == g[reg] % Pow256(first)
  {
    hide Pow256;
    Pow256Widths();
    if w == 1 && HighByte(idx, rex) {
      ReplaceMiddle(g[idx - 4], v % 0x100);
    } else if w == 1 {
      ReplaceLow(g[idx], v % 0x100, 0x100);
    } else if w == 2 {
      ReplaceLow(g[idx], v % 0x1_0000, 0x1_0000);
    }
  }

  /** AH, CH, DH and BH are bits 8 to 15 of the first four registers; with a REX
      prefix the same numbers name the low bytes of RSP, RBP, RSI and RDI.  A write
      changes those bits and no others. */
  lemma ByteRegisters(g: Gprs, i: RegIdx, v: U64)
    requires i < 4
    ensures ReadWidth(g, i + 4, 1, false) == g[i] / 0x100 % 0x100
    ensures ReadWidth(g, i + 4, 1, true) == g[i + 4] % 0x100
    ensures ReadWidth(g, i, 1, false) == ReadWidth(g, i, 1, true) == g[i] % 0x100
    ensures ReadWidth(g, i + 8, 1, true) == g[i + 8] % 0x100 && ReadWidth(g, i + 12, 1, true) == g[i + 12] % 0x100
    ensures
      var h := WriteWidth(g, i + 4, 1, false, v);
      && h == g[i := h[i]] && h[i] % 0x100 == g[i] % 0x100 && h[i] / 0x100 % 0x100 == v % 0x100
      && h[i] / 0x1_0000 == g[i] / 0x1_0000
    ensures
      var h := WriteWidth(g, i + 4, 1, true, v);
      h == g[i + 4 := h[i + 4]] && h[i + 4] % 0x100 == v % 0x100 && h[i + 4] / 0x100 == g[i + 4] / 0x100
  {
    ReplaceMiddle(g[i], v % 0x100);
    ReplaceLow(g[i + 4], v % 0x100, 0x100);
  }

  lemma ReplaceLow(x: U64, b: nat, m: nat)
    requires b < m
    ensures (x - x % m + b) % m == b && (x - x % m + b) / m == x / m
  {
    ModUnique(x - x % m + b, m, x / m, b);
  }

  lemma ReplaceMiddle(x: U64, b: Byte)
    ensures
      var y := x - x / 0x100 % 0x100 * 0x100 + b * 0x100;
      y % 0x100 == x % 0x100 && y / 0x100 % 0x100 == b && y / 0x1_0000 == x / 0x1_0000
  {
    var y := x - x / 0x100 % 0x100 * 0x100 + b * 0x100;
    var q := x / 0x100 / 0x100;
    assert x == q * 0x1_0000 + x / 0x100 % 0x100 * 0x100 + x % 0x100;
    assert y == q * 0x1_0000 + b * 0x100 + x % 0x100;
    assert y / 0x100 == q * 0x100 + b;
  }
}
