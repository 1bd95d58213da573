/** What the string instructions are for: MOVS copies a block, STOS fills one, LODS
    loads an element, CMPS and SCAS compare and search.  The laws speak of whole
    blocks and of the direction flag that CLD or STD left, not of elements. */
module Strings {
  import opened Words
  import opened FlatMemory
  import opened Registers
  import opened Arithmetic
  import opened Instructions
  import opened Semantics

  const HALF: nat := 0x8000_0000_0000_0000

  // ---- blocks ----------------------------------------------------------------

  /** Two blocks of m bytes have no address in common. */
  predicate Disjoint(s: U64, d: U64, m: nat) {
    Beyond(d, s) >= m && Beyond(s, d) >= m
  }

  /** So they really have none. */
  lemma DisjointApart(s: U64, d: U64, m: nat, i: nat, j: nat)
    requires Disjoint(s, d, m) && i < m && j < m
    ensures At(s, i) != At(d, j)
  {
    DisjointPart(s, d, m, i, 0, m);
    hide Beyond, At;
    BeyondAt(d, j);
  }

  lemma DisjointPart(s: U64, d: U64, m: nat, i: nat, k: nat, l: nat)
    requires Disjoint(s, d, m) && i < m && k + l <= m
    ensures Beyond(At(s, i), At(d, k)) >= l
  {
    var apart := Beyond(s, d);
    assert apart <= 0x1_0000_0000_0000_0000 - m;
    assert Beyond(At(s, i), d) == apart + i by { FurtherOn(s, d, i); }
    BeyondShift(At(s, i), d, k);
  }

  lemma FurtherOn(s: U64, d: U64, i: nat)
    requires Beyond(s, d) + i < 0x1_0000_0000_0000_0000
    ensures Beyond(At(s, i), d) == Beyond(s, d) + i
  {
    hide Wrap64;
    var s1: int, d1: int := s, d;
    WrapSum(-d1, s1 + i);
    WrapSum(i, s1 - d1);
    WrapIs(s1 - d1 + i);
    assert Wrap64(Beyond(s, d) + i) == Beyond(s, d) + i by { WrapSmall(Beyond(s, d) + i); }
  }

  lemma ReachPart(mem: Flat, addr: U64, n: nat, k: nat, m: nat, need: Need)
    requires Reach(mem, addr, n, need) == n && k + m <= n
    ensures Reach(mem, At(addr, k), m, need) == m
  {
    forall i: nat | i < m
      ensures Allowed(mem, At(At(addr, k), i), need)
    {
      AtAt(addr, k, i);
      assert Allowed(mem, At(addr, k + i), need);
    }
    ReachIs(mem, At(addr, k), m, need, m);
  }

  lemma AtAt(addr: U64, k: int, i: int)
    ensures At(At(addr, k), i) == At(addr, k + i)
  {
    hide Wrap64;
    WrapSum(i, addr + k);
  }

  lemma AtZero(addr: U64)
    ensures At(addr, 0) == addr
  {
  }

  lemma BytesJoin(mem: Flat, addr: U64, k: nat, m: nat)
    ensures Bytes(mem, addr, k + m) == Bytes(mem, addr, k) + Bytes(mem, At(addr, k), m)
  {
    hide At;
    forall i: nat | i < m
      ensures Bytes(mem, addr, k + m)[k + i] == Bytes(mem, At(addr, k), m)[i]
    {
      AtAt(addr, k, i);
    }
  }

  /** A store outside a block leaves it as it was. */
  lemma BytesKept(mem: Flat, s: U64, n: nat, d: U64, data: seq<Byte>)
    requires forall i: nat :: i < n ==> Beyond(At(s, i), d) >= |data|
    ensures Bytes(Poke(mem, d, data), s, n) == Bytes(mem, s, n)
  {
    hide At, Beyond;
  }

  lemma ReachKept(mem: Flat, d: U64, data: seq<Byte>, addr: U64, n: nat, need: Need)
    requires Reach(mem, addr, n, need) == n
    ensures Reach(Poke(mem, d, data), addr, n, need) == n
  {
    hide At, Beyond;
    forall i: nat | i < n
      ensures Allowed(Poke(mem, d, data), At(addr, i), need)
    {
      assert Allowed(mem, At(addr, i), need);
    }
    ReachIs(Poke(mem, d, data), addr, n, need, n);
  }

  /** A block may be stored from its end. */
  lemma PokePrepend(mem: Flat, addr: U64, x: seq<Byte>, y: seq<Byte>)
    requires |x| + |y| <= HALF
    ensures Poke(Poke(mem, At(addr, |x|), y), addr, x) == Poke(mem, addr, x + y)
  {
    hide Beyond, At;
    forall a: U64 | a in mem
      ensures Poke(Poke(mem, At(addr, |x|), y), addr, x)[a] == Poke(mem, addr, x + y)[a]
    {
      BeyondShift(a, addr, |x|);
    }
  }

  // ---- the state after a loop ------------------------------------------------

  /** Bytes from one element to the next, by the direction flag. */
  function Stride(down: bool, w: Width): int {
    if down then -(w as int) else w
  }

  function Pointers(a: Arch, cx: U64, si: U64, di: U64): Arch {
    a.(regs := a.regs.(gpr := a.regs.gpr[RCX := cx][RSI := si][RDI := di]))
  }

  /** The first address of a block of n elements that is entered at `p`. */
  function BlockAt(p: U64, down: bool, w: Width, n: nat): U64 {
    if down then At(p, (1 - n) * w) else p
  }

  lemma AdvanceIs(a: Arch, i: RegIdx, w: Width)
    ensures Advance(a, i, w) == WithGpr(a, i, At(a.regs.gpr[i], Stride(a.regs.flags.df, w)))
  {
    hide Wrap64;
    var x: int := a.regs.gpr[i];
    WrapSum(x, Stride(true, w));
  }

  lemma CountDown(n: U64)
    requires n > 0
    ensures At(n, -1) == n - 1
  {
  }

  lemma PointersTwice(a: Arch, m: Flat, cx: U64, si: U64, di: U64, n: Flat, cx2: U64, si2: U64, di2: U64)
    ensures Pointers(Pointers(a.(mem := m), cx, si, di).(mem := n), cx2, si2, di2) == Pointers(a.(mem := n), cx2, si2, di2)
  {
    var g := a.regs.gpr;
    assert g[RCX := cx][RSI := si][RDI := di][RCX := cx2][RSI := si2][RDI := di2] == g[RCX := cx2][RSI := si2][RDI := di2];
  }

  /** One round of a counting loop. */
  lemma LoopMore(a: Arch, op: StrOp, w: Width, rep: Rep, rex: bool, n: nat, b: Arch)
    requires n > 0 && a.regs.gpr[RCX] == n && rep != RepNone && op != Cmps && op != Scas
    requires
      StrElement(a, op, w, rex) == Done(b.(regs := b.regs.(gpr := b.regs.gpr[RCX := n]))) && b.regs.gpr[RCX] == n - 1
    ensures StrLoop(a, op, w, rep, rex, n) == StrLoop(b, op, w, rep, rex, n - 1)
  {
    hide StrElement;
    CountDown(n);
    assert b.regs.gpr[RCX := n][RCX := n - 1] == b.regs.gpr;
  }

  lemma LoopNone(a: Arch, op: StrOp, w: Width, rep: Rep, rex: bool)
    ensures StrLoop(a, op, w, rep, rex, 0) == Done(a)
  {
  }

  // ---- MOVS ------------------------------------------------------------------

  lemma MovsElement(a: Arch, w: Width, rex: bool)
    requires Reach(a.mem, a.regs.gpr[RSI], w, NeedRead) == w && Reach(a.mem, a.regs.gpr[RDI], w, NeedWrite) == w
    ensures
      var si, di, step := a.regs.gpr[RSI], a.regs.gpr[RDI], Stride(a.regs.flags.df, w);
      StrElement(a, Movs, w, rex) ==
      Done(Pointers(a.(mem := Poke(a.mem, di, Bytes(a.mem, si, w))), a.regs.gpr[RCX], At(si, step), At(di, step)))
  {
    hide Poke, Bytes, Reach, At, Advance;
    var si, di := a.regs.gpr[RSI], a.regs.gpr[RDI];
    var b := Bytes(a.mem, si, w);
    assert b[..w] == b;
    var c := a.(mem := Poke(a.mem, di, b));
    AdvanceIs(c, RSI, w);
    AdvanceIs(Advance(c, RSI, w), RDI, w);
    assert a.regs.gpr[RCX := a.regs.gpr[RCX]] == a.regs.gpr;
  }

  /** n elements upwards from the start of the blocks. */
  lemma {:induction false} MovsLoopUp(a: Arch, w: Width, rep: Rep, rex: bool, n: nat, m: nat, src: U64, dst: U64)
    requires rep != RepNone && m == n * w <= HALF && a.regs.gpr[RCX] == n
    requires !a.regs.flags.df && a.regs.gpr[RSI] == src && a.regs.gpr[RDI] == dst
    requires Reach(a.mem, src, m, NeedRead) == m && Reach(a.mem, dst, m, NeedWrite) == m && Disjoint(src, dst, m)
    ensures StrLoop(a, Movs, w, rep, rex, n) ==
            Done(Pointers(a.(mem := Poke(a.mem, dst, Bytes(a.mem, src, m))), 0, At(src, m), At(dst, m)))
    decreases n
  {
    hide Poke, Bytes, Reach, At, StrElement, StrLoop, Disjoint;
    if n == 0 {
      LoopNone(a, Movs, w, rep, rex);
      BlockOfNone(a, src, dst);
      PointersSame(a, src, dst);
    } else {
      var k := m - w;
      assert k == (n - 1) * w;
      var mid := Poke(a.mem, dst, Bytes(a.mem, src, w));
      var b := Pointers(a.(mem := mid), n - 1, At(src, w), At(dst, w));
      MovsUp(a, w, rex, m, src, dst);
      LoopMore(a, Movs, w, rep, rex, n, b);
      MovsLoopUp(b, w, rep, rex, n - 1, k, At(src, w), At(dst, w));
      AtAt(src, w, k);
      AtAt(dst, w, k);
      PointersTwice(a, mid, n - 1, At(src, w), At(dst, w), Poke(a.mem, dst, Bytes(a.mem, src, m)), 0, At(src, m), At(dst, m));
    }
  }

  /** n elements downwards from their end. */
  lemma {:induction false} MovsLoopDown(a: Arch, w: Width, rep: Rep, rex: bool, n: nat, m: nat, src: U64, dst: U64)
    requires rep != RepNone && m == n * w <= HALF && a.regs.gpr[RCX] == n
    requires a.regs.flags.df && a.regs.gpr[RSI] == At(src, m - w) && a.regs.gpr[RDI] == At(dst, m - w)
    requires Reach(a.mem, src, m, NeedRead) == m && Reach(a.mem, dst, m, NeedWrite) == m && Disjoint(src, dst, m)
    ensures StrLoop(a, Movs, w, rep, rex, n) ==
            Done(Pointers(a.(mem := Poke(a.mem, dst, Bytes(a.mem, src, m))), 0, At(src, -(w as int)), At(dst, -(w as int))))
    decreases n
  {
    hide Poke, Bytes, Reach, At, StrElement, StrLoop, Disjoint;
    if n == 0 {
      LoopNone(a, Movs, w, rep, rex);
      BlockOfNone(a, src, dst);
      PointersSame(a, At(src, -(w as int)), At(dst, -(w as int)));
    } else {
      var k := m - w;
      assert k == (n - 1) * w;
      var mid := Poke(a.mem, At(dst, k), Bytes(a.mem, At(src, k), w));
      var b := Pointers(a.(mem := mid), n - 1, At(src, k - w), At(dst, k - w));
      MovsDown(a, w, rex, m, src, dst);
      LoopMore(a, Movs, w, rep, rex, n, b);
      MovsLoopDown(b, w, rep, rex, n - 1, k, src, dst);
      PointersTwice(a, mid, n - 1, At(src, k - w), At(dst, k - w), Poke(a.mem, dst, Bytes(a.mem, src, m)), 0,
                    At(src, -(w as int)), At(dst, -(w as int)));
    }
  }

  lemma BlockOfNone(a: Arch, src: U64, dst: U64)
    ensures Bytes(a.mem, src, 0) == [] && Poke(a.mem, dst, []) == a.mem && At(src, 0) == src && At(dst, 0) == dst
  {
    PokeNothing(a.mem, dst);
    AtZero(src);
    AtZero(dst);
  }

  lemma PointersSame(a: Arch, si: U64, di: U64)
    requires a.regs.gpr[RSI] == si && a.regs.gpr[RDI] == di
    ensures Pointers(a.(mem := a.mem), a.regs.gpr[RCX], si, di) == a
  {
    var g := a.regs.gpr;
    assert g[RCX := g[RCX]][RSI := si][RDI := di] == g;
  }

  /** The first element going up, and what it leaves to be done. */
  lemma MovsUp(a: Arch, w: Width, rex: bool, m: nat, src: U64, dst: U64)
    requires w <= m <= HALF && !a.regs.flags.df && a.regs.gpr[RSI] == src && a.regs.gpr[RDI] == dst
    requires Reach(a.mem, src, m, NeedRead) == m && Reach(a.mem, dst, m, NeedWrite) == m && Disjoint(src, dst, m)
    ensures
      var b := Poke(a.mem, dst, Bytes(a.mem, src, w));
      && StrElement(a, Movs, w, rex) == Done(Pointers(a.(mem := b), a.regs.gpr[RCX], At(src, w), At(dst, w)))
      && Reach(b, At(src, w), m - w, NeedRead) == m - w && Reach(b, At(dst, w), m - w, NeedWrite) == m - w
      && Disjoint(At(src, w), At(dst, w), m - w)
      && Poke(b, At(dst, w), Bytes(b, At(src, w), m - w)) == Poke(a.mem, dst, Bytes(a.mem, src, m))
  {
    hide Poke, Bytes, Reach, At, StrElement, Disjoint, Beyond;
    AtZero(src);
    AtZero(dst);
    ReachPart(a.mem, src, m, 0, w, NeedRead);
    ReachPart(a.mem, dst, m, 0, w, NeedWrite);
    MovsElement(a, w, rex);
    var data := Bytes(a.mem, src, w);
    ReachPart(a.mem, src, m, w, m - w, NeedRead);
    ReachPart(a.mem, dst, m, w, m - w, NeedWrite);
    ReachKept(a.mem, dst, data, At(src, w), m - w, NeedRead);
    ReachKept(a.mem, dst, data, At(dst, w), m - w, NeedWrite);
    DisjointRest(src, dst, m, w);
    forall i: nat | i < m - w
      ensures Beyond(At(At(src, w), i), dst) >= w
    {
      AtAt(src, w, i);
      DisjointPart(src, dst, m, w + i, 0, w);
    }
    BytesKept(a.mem, At(src, w), m - w, dst, data);
    BytesJoin(a.mem, src, w, m - w);
    PokeAppend(a.mem, dst, data, Bytes(a.mem, At(src, w), m - w));
  }

  lemma DisjointRest(s: U64, d: U64, m: nat, k: nat)
    requires Disjoint(s, d, m) && k <= m <= HALF
    ensures Disjoint(At(s, k), At(d, k), m - k) && Disjoint(s, d, m - k)
  {
    hide Wrap64;
    WrapDiff(s + k, d + k);
    WrapDiff(d + k, s + k);
  }

  /** The first element going down, at the end of the blocks. */
  lemma MovsDown(a: Arch, w: Width, rex: bool, m: nat, src: U64, dst: U64)
    requires w <= m <= HALF && a.regs.flags.df && a.regs.gpr[RSI] == At(src, m - w) && a.regs.gpr[RDI] == At(dst, m - w)
    requires Reach(a.mem, src, m, NeedRead) == m && Reach(a.mem, dst, m, NeedWrite) == m && Disjoint(src, dst, m)
    ensures
      var k := m - w;
      var b := Poke(a.mem, At(dst, k), Bytes(a.mem, At(src, k), w));
      && StrElement(a, Movs, w, rex) == Done(Pointers(a.(mem := b), a.regs.gpr[RCX], At(src, k - w), At(dst, k - w)))
      && Reach(b, src, k, NeedRead) == k && Reach(b, dst, k, NeedWrite) == k && Disjoint(src, dst, k)
      && Poke(b, dst, Bytes(b, src, k)) == Poke(a.mem, dst, Bytes(a.mem, src, m))
  {
    hide Poke, Bytes, Reach, At, StrElement, Disjoint, Beyond;
    var k := m - w;
    AtZero(src);
    AtZero(dst);
    ReachPart(a.mem, src, m, k, w, NeedRead);
    ReachPart(a.mem, dst, m, k, w, NeedWrite);
    MovsElement(a, w, rex);
    AtAt(src, k, -(w as int));
    AtAt(dst, k, -(w as int));
    var data := Bytes(a.mem, At(src, k), w);
    ReachPart(a.mem, src, m, 0, k, NeedRead);
    ReachPart(a.mem, dst, m, 0, k, NeedWrite);
    ReachKept(a.mem, At(dst, k), data, src, k, NeedRead);
    ReachKept(a.mem, At(dst, k), data, dst, k, NeedWrite);
    DisjointRest(src, dst, m, w);
    forall i: nat | i < k
      ensures Beyond(At(src, i), At(dst, k)) >= w
    {
      DisjointPart(src, dst, m, i, k, w);
    }
    BytesKept(a.mem, src, k, At(dst, k), data);
    BytesJoin(a.mem, src, k, w);
    PokePrepend(a.mem, dst, Bytes(a.mem, src, k), data);
  }

  /** Elements that an instruction handles: one, or RCX of them under a prefix. */
  function Elements(a: Arch, rep: Rep): U64 {
    if rep == RepNone then 1 else a.regs.gpr[RCX]
  }

  function CountAfter(a: Arch, rep: Rep): U64 {
    if rep == RepNone then a.regs.gpr[RCX] else 0
  }

  /** CLD or STD, then MOVS with or without REP: if the blocks can be accessed and
      do not overlap, the destination holds the source, no other byte has changed,
      the pointers are past the blocks on the side the flag says, and RCX is 0. */
  lemma MovsCopies(a: Arch, mid: U64, end: U64, down: bool, w: Width, rep: Rep, rex: bool)
    requires
      var n := Elements(a, rep);
      var src, dst := BlockAt(a.regs.gpr[RSI], down, w, n), BlockAt(a.regs.gpr[RDI], down, w, n);
      && n * w <= HALF && Disjoint(src, dst, n * w)
      && Reach(a.mem, src, n * w, NeedRead) == n * w && Reach(a.mem, dst, n * w, NeedWrite) == n * w
    ensures
      var n := Elements(a, rep);
      var si, di := a.regs.gpr[RSI], a.regs.gpr[RDI];
      var src, dst := BlockAt(si, down, w, n), BlockAt(di, down, w, n);
      var b := Exec(a, mid, SetDF(down)).arch;
      && b == a.(regs := a.regs.(flags := a.regs.flags.(df := down)))
      && Exec(b, end, Str(Movs, w, rep, rex)) ==
         Done(Pointers(b.(mem := Poke(a.mem, dst, Bytes(a.mem, src, n * w))), CountAfter(a, rep),
                       At(si, n * Stride(down, w)), At(di, n * Stride(down, w))))
  {
    hide Poke, Bytes, Reach, At, StrElement, Disjoint;
    var n, m := Elements(a, rep), Elements(a, rep) * w;
    var si, di := a.regs.gpr[RSI], a.regs.gpr[RDI];
    var src, dst := BlockAt(si, down, w, n), BlockAt(di, down, w, n);
    var b := Exec(a, mid, SetDF(down)).arch;
    if rep == RepNone {
      AtZero(si);
      AtZero(di);
      MovsElement(b, w, rex);
      LoopOnce(b, Movs, w, rex);
    } else if down {
      BlockEnd(si, w, n);
      BlockEnd(di, w, n);
      MovsLoopDown(b, w, rep, rex, n, m, src, dst);
    } else {
      MovsLoopUp(b, w, rep, rex, n, m, src, dst);
    }
  }

  lemma LoopOnce(a: Arch, op: StrOp, w: Width, rex: bool)
    ensures StrLoop(a, op, w, RepNone, rex, 1) == StrElement(a, op, w, rex)
  {
    hide StrElement;
    ElementNeverBranches(a, op, w, rex);
  }

  lemma BlockEnd(p: U64, w: Width, n: nat)
    ensures At(BlockAt(p, true, w, n), n * w - w) == p && At(BlockAt(p, true, w, n), -(w as int)) == At(p, n * Stride(true, w))
  {
    hide At;
    assert (1 - n) * w + (n * w - w) == 0 && (1 - n) * w - w == n * Stride(true, w);
    AtAt(p, (1 - n) * w, n * w - w);
    AtAt(p, (1 - n) * w, -(w as int));
    AtZero(p);
  }

  // ---- STOS and LODS ---------------------------------------------------------

  /** n copies of the same bytes. */
  function Repeated(b: seq<Byte>, n: nat): (r: seq<Byte>)
    ensures |r| == n * |b|
  {
    if n == 0 then [] else b + Repeated(b, n - 1)
  }

  lemma {:induction false} RepeatedLast(b: seq<Byte>, n: nat)
    requires n > 0
    ensures Repeated(b, n) == Repeated(b, n - 1) + b
  {
    if n > 1 {
      RepeatedLast(b, n - 1);
    }
  }

  lemma RepeatedOnce(b: seq<Byte>)
    ensures Repeated(b, 1) == b
  {
    assert Repeated(b, 1) == b + Repeated(b, 0);
  }

  /** The bytes that STOS stores: the low w bytes of RAX. */
  function Pattern(a: Arch, w: Width): (b: seq<Byte>)
    ensures |b| == w
  {
    NatToLe(a.regs.gpr[RAX] % Span(w), w)
  }

  function Pointing(a: Arch, cx: U64, di: U64): Arch {
    a.(regs := a.regs.(gpr := a.regs.gpr[RCX := cx][RDI := di]))
  }

  lemma PointingTwice(a: Arch, m: Flat, cx: U64, di: U64, n: Flat, cx2: U64, di2: U64)
    ensures Pointing(Pointing(a.(mem := m), cx, di).(mem := n), cx2, di2) == Pointing(a.(mem := n), cx2, di2)
    ensures a.regs.gpr[RCX] == cx && a.regs.gpr[RDI] == di ==> Pointing(a.(mem := a.mem), cx, di) == a
  {
    var g := a.regs.gpr;
    assert g[RCX := cx][RDI := di][RCX := cx2][RDI := di2] == g[RCX := cx2][RDI := di2];
    assert g[RCX] == cx && g[RDI] == di ==> g[RCX := cx][RDI := di] == g;
  }

  lemma StosElement(a: Arch, w: Width, rex: bool)
    requires Reach(a.mem, a.regs.gpr[RDI], w, NeedWrite) == w
    ensures
      var di := a.regs.gpr[RDI];
      StrElement(a, Stos, w, rex) ==
      Done(Pointing(a.(mem := Poke(a.mem, di, Pattern(a, w))), a.regs.gpr[RCX], At(di, Stride(a.regs.flags.df, w))))
  {
    hide Poke, Reach, At, Advance, NatToLe;
    var di, b := a.regs.gpr[RDI], Pattern(a, w);
    assert ReadWidth(a.regs.gpr, RAX, w, rex) == a.regs.gpr[RAX] % Span(w);
    assert b[..w] == b;
    var c := a.(mem := Poke(a.mem, di, b));
    AdvanceIs(c, RDI, w);
    assert a.regs.gpr[RCX := a.regs.gpr[RCX]] == a.regs.gpr;
  }

  lemma {:induction false} StosLoopUp(a: Arch, w: Width, rep: Rep, rex: bool, n: nat, m: nat)
    requires rep != RepNone && m == n * w <= HALF && a.regs.gpr[RCX] == n && !a.regs.flags.df
    requires Reach(a.mem, a.regs.gpr[RDI], m, NeedWrite) == m
    ensures
      var di := a.regs.gpr[RDI];
      StrLoop(a, Stos, w, rep, rex, n) ==
      Done(Pointing(a.(mem := Poke(a.mem, di, Repeated(Pattern(a, w), n))), 0, At(di, m)))
    decreases n
  {
    hide Poke, Reach, At, StrElement, NatToLe;
    var di, b := a.regs.gpr[RDI], Pattern(a, w);
    AtZero(di);
    if n == 0 {
      PokeNothing(a.mem, di);
      PointingTwice(a, a.mem, 0, di, a.mem, 0, di);
    } else {
      var k := m - w;
      assert k == (n - 1) * w;
      var mid := Poke(a.mem, di, b);
      var c := Pointing(a.(mem := mid), n - 1, At(di, w));
      ReachPart(a.mem, di, m, 0, w, NeedWrite);
      StosElement(a, w, rex);
      StosMore(a, w, rep, rex, n, mid, At(di, w));
      ReachPart(a.mem, di, m, w, k, NeedWrite);
      ReachKept(a.mem, di, b, At(di, w), k, NeedWrite);
      StosLoopUp(c, w, rep, rex, n - 1, k);
      AtAt(di, w, k);
      PokeAppend(a.mem, di, b, Repeated(b, n - 1));
      PointingTwice(a, mid, n - 1, At(di, w), Poke(a.mem, di, Repeated(b, n)), 0, At(di, m));
    }
  }

  lemma StosMore(a: Arch, w: Width, rep: Rep, rex: bool, n: nat, mid: Flat, di: U64)
    requires n > 0 && a.regs.gpr[RCX] == n && rep != RepNone
    requires StrElement(a, Stos, w, rex) == Done(Pointing(a.(mem := mid), n, di))
    ensures StrLoop(a, Stos, w, rep, rex, n) == StrLoop(Pointing(a.(mem := mid), n - 1, di), Stos, w, rep, rex, n - 1)
  {
    hide StrElement;
    var g := a.regs.gpr;
    assert g[RCX := n - 1][RDI := di][RCX := n] == g[RCX := n][RDI := di];
    LoopMore(a, Stos, w, rep, rex, n, Pointing(a.(mem := mid), n - 1, di));
  }

  lemma {:induction false} StosLoopDown(a: Arch, w: Width, rep: Rep, rex: bool, n: nat, m: nat, dst: U64)
    requires rep != RepNone && m == n * w <= HALF && a.regs.gpr[RCX] == n && a.regs.flags.df
    requires a.regs.gpr[RDI] == At(dst, m - w) && Reach(a.mem, dst, m, NeedWrite) == m
    ensures StrLoop(a, Stos, w, rep, rex, n) ==
            Done(Pointing(a.(mem := Poke(a.mem, dst, Repeated(Pattern(a, w), n))), 0, At(dst, -(w as int))))
    decreases n
  {
    hide Poke, Reach, At, StrElement, NatToLe;
    var b := Pattern(a, w);
    AtZero(dst);
    if n == 0 {
      PokeNothing(a.mem, dst);
      PointingTwice(a, a.mem, 0, a.regs.gpr[RDI], a.mem, 0, a.regs.gpr[RDI]);
    } else {
      var k := m - w;
      assert k == (n - 1) * w;
      var mid := Poke(a.mem, At(dst, k), b);
      var c := Pointing(a.(mem := mid), n - 1, At(dst, k - w));
      ReachPart(a.mem, dst, m, k, w, NeedWrite);
      StosElement(a, w, rex);
      AtAt(dst, k, -(w as int));
      StosMore(a, w, rep, rex, n, mid, At(dst, k - w));
      ReachPart(a.mem, dst, m, 0, k, NeedWrite);
      ReachKept(a.mem, At(dst, k), b, dst, k, NeedWrite);
      StosLoopDown(c, w, rep, rex, n - 1, k, dst);
      RepeatedLast(b, n);
      PokePrepend(a.mem, dst, Repeated(b, n - 1), b);
      PointingTwice(a, mid, n - 1, At(dst, k - w), Poke(a.mem, dst, Repeated(b, n)), 0, At(dst, -(w as int)));
    }
  }

  /** CLD or STD, then STOS with or without REP: a block that can be written holds
      the low bytes of RAX over and over, and no other byte has changed. */
  lemma StosFills(a: Arch, mid: U64, end: U64, down: bool, w: Width, rep: Rep, rex: bool)
    requires
      var n := Elements(a, rep);
      n * w <= HALF && Reach(a.mem, BlockAt(a.regs.gpr[RDI], down, w, n), n * w, NeedWrite) == n * w
    ensures
      var n, di := Elements(a, rep), a.regs.gpr[RDI];
      var b := Exec(a, mid, SetDF(down)).arch;
      Exec(b, end, Str(Stos, w, rep, rex)) ==
      Done(Pointing(b.(mem := Poke(a.mem, BlockAt(di, down, w, n), Repeated(Pattern(a, w), n))), CountAfter(a, rep),
                    At(di, n * Stride(down, w))))
  {
    hide Poke, Reach, At, StrElement, NatToLe;
    var n, m := Elements(a, rep), Elements(a, rep) * w;
    var di := a.regs.gpr[RDI];
    var b := Exec(a, mid, SetDF(down)).arch;
    if rep == RepNone {
      AtZero(di);
      StosElement(b, w, rex);
      LoopOnce(b, Stos, w, rex);
      RepeatedOnce(Pattern(a, w));
    } else if down {
      BlockEnd(di, w, n);
      StosLoopDown(b, w, rep, rex, n, m, BlockAt(di, down, w, n));
    } else {
      StosLoopUp(b, w, rep, rex, n, m);
    }
  }

  /** CLD or STD, then LODS: the low bytes of RAX are the word at RSI, and RSI has
      moved past it. */
  lemma LodsLoads(a: Arch, mid: U64, end: U64, down: bool, w: Width, rex: bool)
    requires ReadMem(a.mem, a.regs.gpr[RSI], w).Ok?
    ensures
      var b := Exec(a, mid, SetDF(down)).arch;
      var e := Exec(b, end, Str(Lods, w, RepNone, rex));
      && e == Done(b.(regs := b.regs.(gpr := e.arch.regs.gpr)))
      && ReadWidth(e.arch.regs.gpr, RAX, w, rex) == ReadMem(a.mem, a.regs.gpr[RSI], w).value % Span(w)
      && e.arch.regs.gpr[RSI] == At(a.regs.gpr[RSI], Stride(down, w))
      && forall j: RegIdx :: j != RAX && j != RSI ==> e.arch.regs.gpr[j] == a.regs.gpr[j]
  {
    hide ReadMem, At, WriteWidth, ReadWidth, StrElement;
    var b := Exec(a, mid, SetDF(down)).arch;
    LoopOnce(b, Lods, w, rex);
    LodsElement(b, w, rex);
    var v := ReadMem(a.mem, a.regs.gpr[RSI], w).value;
    var g := WriteWidth(a.regs.gpr, RAX, w, rex, v);
    WriteThenRead(a.regs.gpr, RAX, w, rex, v);
    WriteFrame(a.regs.gpr, RAX, w, rex, v);
    ReadOther(g, At(a.regs.gpr[RSI], Stride(down, w)), w, rex);
  }

  lemma LodsElement(a: Arch, w: Width, rex: bool)
    requires ReadMem(a.mem, a.regs.gpr[RSI], w).Ok?
    ensures
      var g := WriteWidth(a.regs.gpr, RAX, w, rex, ReadMem(a.mem, a.regs.gpr[RSI], w).value);
      StrElement(a, Lods, w, rex) ==
      Done(a.(regs := a.regs.(gpr := g[RSI := At(g[RSI], Stride(a.regs.flags.df, w))])))
  {
    hide ReadMem, At, WriteWidth, Advance;
    AdvanceIs(WithReg(a, RAX, w, rex, ReadMem(a.mem, a.regs.gpr[RSI], w).value), RSI, w);
  }

  lemma ReadOther(g: Gprs, v: U64, w: Width, rex: bool)
    ensures ReadWidth(g[RSI := v], RAX, w, rex) == ReadWidth(g, RAX, w, rex)
  {
  }

  // ---- CMPS and SCAS ---------------------------------------------------------

  /** The k-th words that CMPS or SCAS compares. */
  function First(a: Arch, op: StrOp, w: Width, k: nat): Result<U64, EngineError> {
    if op == Cmps then ReadMem(a.mem, At(a.regs.gpr[RSI], k * Stride(a.regs.flags.df, w)), w)
    else Ok(a.regs.gpr[RAX] % Span(w))
  }

  function Second(a: Arch, w: Width, k: nat): Result<U64, EngineError> {
    ReadMem(a.mem, At(a.regs.gpr[RDI], k * Stride(a.regs.flags.df, w)), w)
  }

  predicate Comparable(a: Arch, op: StrOp, w: Width, k: nat) {
    First(a, op, w, k).Ok? && Second(a, w, k).Ok?
  }

  predicate Equal(a: Arch, op: StrOp, w: Width, k: nat) {
    Comparable(a, op, w, k) && First(a, op, w, k).value == Second(a, w, k).value
  }

  /** The state after k words have been compared, the last of them last. */
  function Compared(a: Arch, op: StrOp, w: Width, rep: Rep, k: nat, f: Flags): Arch {
    var g, step := a.regs.gpr, Stride(a.regs.flags.df, w);
    var cx := if rep == RepNone then g[RCX] else At(g[RCX], -(k as int));
    a.(regs := a.regs.(gpr := g[RCX := cx][RSI := if op == Cmps then At(g[RSI], k * step) else g[RSI]]
                               [RDI := At(g[RDI], k * step)],
                       flags := f))
  }

  /** A comparing loop of at most n words: it stops after k. */
  ghost predicate StopsAfter(a: Arch, op: StrOp, w: Width, rep: Rep, n: nat, k: nat) {
    && k <= n && (k == 0 ==> n == 0)
    && (forall j: nat :: j < k ==> Comparable(a, op, w, j))
    && (rep == RepZ ==> (forall j: nat :: j + 1 < k ==> Equal(a, op, w, j)) && (0 < k < n ==> !Equal(a, op, w, k - 1)))
    && (rep == RepNZ ==> (forall j: nat :: j + 1 < k ==> !Equal(a, op, w, j)) && (0 < k < n ==> Equal(a, op, w, k - 1)))
  }

  lemma ReadBound(mem: Flat, addr: U64, w: Width)
    requires ReadMem(mem, addr, w).Ok?
    ensures Low(ReadMem(mem, addr, w).value, w) == ReadMem(mem, addr, w).value
  {
    hide Load, LeToNat, Pow256;
    LeBound(Load(mem, addr, w, NeedRead).value);
    Pow256Widths();
    assert Pow256(w) == Span(w);
  }

  lemma ComparedBound(a: Arch, op: StrOp, w: Width, k: nat)
    requires Comparable(a, op, w, k)
    ensures Low(First(a, op, w, k).value, w) == First(a, op, w, k).value
    ensures Low(Second(a, w, k).value, w) == Second(a, w, k).value
  {
    hide ReadMem, At;
    ReadBound(a.mem, At(a.regs.gpr[RDI], k * Stride(a.regs.flags.df, w)), w);
    if op == Cmps {
      ReadBound(a.mem, At(a.regs.gpr[RSI], k * Stride(a.regs.flags.df, w)), w);
    }
  }

  /** ZF says whether the words were equal. */
  lemma ZeroMeansEqual(f: Flags, x: U64, y: U64, w: Width)
    requires Low(x, w) == x && Low(y, w) == y
    ensures Sub(f, x, y, w, false).1.zf <==> x == y
  {
    hide Sub, Low;
    ConditionCodesDecide(f, x, y, w, 4);
  }

  /** A compare computes all the flags that an earlier one did. */
  lemma SubForgets(f: Flags, x: U64, y: U64, u: U64, v: U64, w: Width)
    ensures Sub(Sub(f, x, y, w, false).1, u, v, w, false).1 == Sub(f, u, v, w, false).1
    ensures Sub(f, x, y, w, false).1.df == f.df
  {
    hide SubWithBorrow, NibbleFlag, SignSet, EvenParity, Low;
  }

  lemma CompareElement(a: Arch, op: StrOp, w: Width, rex: bool)
    requires (op == Cmps || op == Scas) && StrElement(a, op, w, rex).error.None?
    ensures
      && Comparable(a, op, w, 0)
      && StrElement(a, op, w, rex) ==
         Done(Compared(a, op, w, RepNone, 1, Sub(a.regs.flags, First(a, op, w, 0).value, Second(a, w, 0).value, w, false).1))
  {
    hide ReadMem, At, Sub, Advance;
    AtZero(a.regs.gpr[RSI]);
    AtZero(a.regs.gpr[RDI]);
    assert ReadWidth(a.regs.gpr, RAX, w, rex) == a.regs.gpr[RAX] % Span(w);
    var f := Sub(a.regs.flags, First(a, op, w, 0).value, Second(a, w, 0).value, w, false).1;
    SubForgets(a.regs.flags, First(a, op, w, 0).value, Second(a, w, 0).value, 0, 0, w);
    var c := WithFlags(a, f);
    var g := a.regs.gpr;
    AdvanceIs(c, RSI, w);
    AdvanceIs(c, RDI, w);
    AdvanceIs(Advance(c, RSI, w), RDI, w);
    assert g[RCX := g[RCX]][RSI := g[RSI]] == g && g[RCX := g[RCX]] == g;
  }

  /** Comparing goes on from the second word. */
  lemma ComparedNext(a: Arch, op: StrOp, w: Width, rep: Rep, f: Flags, k: nat)
    requires f.df == a.regs.flags.df && rep != RepNone
    ensures
      var b := Compared(a, op, w, rep, 1, f);
      && First(b, op, w, k) == First(a, op, w, k + 1) && Second(b, w, k) == Second(a, w, k + 1)
      && forall g: Flags :: Compared(b, op, w, rep, k, g) == Compared(a, op, w, rep, k + 1, g)
  {
    hide ReadMem, At;
    var step := Stride(a.regs.flags.df, w);
    assert step + k * step == (k + 1) * step;
    AtAt(a.regs.gpr[RSI], step, k * step);
    AtAt(a.regs.gpr[RDI], step, k * step);
    AtAt(a.regs.gpr[RCX], -1, -(k as int));
    var b := Compared(a, op, w, rep, 1, f);
    var g, h := a.regs.gpr, b.regs.gpr;
    var cx, si, di := At(g[RCX], -(k as int) - 1), if op == Cmps then At(g[RSI], (k + 1) * step) else g[RSI], At(g[RDI], (k + 1) * step);
    assert h[RCX := cx][RSI := si][RDI := di] == g[RCX := cx][RSI := si][RDI := di];
  }

  lemma StopsNext(a: Arch, b: Arch, op: StrOp, w: Width, rep: Rep, n: nat, k: nat)
    requires n > 0 && (rep == RepZ || rep == RepNZ)
    requires forall j: nat :: First(b, op, w, j) == First(a, op, w, j + 1) && Second(b, w, j) == Second(a, w, j + 1)
    requires Comparable(a, op, w, 0) && Equal(a, op, w, 0) == (rep == RepZ)
    requires StopsAfter(b, op, w, rep, n - 1, k)
    ensures StopsAfter(a, op, w, rep, n, k + 1)
  {
    hide First, Second;
    forall j: nat | j < k + 1
      ensures Comparable(a, op, w, j)
    {
      assert j > 0 ==> Comparable(b, op, w, j - 1);
    }
    forall j: nat | j + 1 < k + 1
      ensures Equal(a, op, w, j) == (rep == RepZ)
    {
      assert j > 0 ==> Equal(b, op, w, j - 1) == Equal(a, op, w, j);
    }
    assert k > 0 ==> Equal(b, op, w, k - 1) == Equal(a, op, w, k);
  }

  /** The flags say how the k-th words compare. */
  ghost predicate FlagsTell(a: Arch, op: StrOp, w: Width, k: nat, f: Flags) {
    Comparable(a, op, w, k) &&
    forall cc: nat :: EvalCC(f, cc) <==> Condition(cc, First(a, op, w, k).value, Second(a, w, k).value, w)
  }

  lemma {:induction false} CompareLoop(a: Arch, op: StrOp, w: Width, rep: Rep, rex: bool, n: nat) returns (k: nat)
    requires (op == Cmps || op == Scas) && (rep == RepZ || rep == RepNZ)
    requires StrLoop(a, op, w, rep, rex, n).error.None?
    ensures StopsAfter(a, op, w, rep, n, k)
    ensures
      var e := StrLoop(a, op, w, rep, rex, n);
      && e == Done(Compared(a, op, w, rep, k, e.arch.regs.flags))
      && if k == 0 then e.arch.regs.flags == a.regs.flags else FlagsTell(a, op, w, k - 1, e.arch.regs.flags)
    decreases n
  {
    hide StrElement, Sub, First, Second, Compared, FlagsTell, Condition, EvalCC, At;
    if n == 0 {
      k := 0;
      ComparedNone(a, op, w, rep);
    } else {
      CompareElement(a, op, w, rex);
      var x, y := First(a, op, w, 0).value, Second(a, w, 0).value;
      var f := Sub(a.regs.flags, x, y, w, false).1;
      ComparedBound(a, op, w, 0);
      ZeroMeansEqual(a.regs.flags, x, y, w);
      SubForgets(a.regs.flags, x, y, 0, 0, w);
      FlagsTold(a, op, w);
      var b := Compared(a, op, w, rep, 1, f);
      ComparedOnce(a, op, w, rep, f);
      if StopsLoop(f, op, rep) {
        k := 1;
      } else {
        forall j: nat
          ensures First(b, op, w, j) == First(a, op, w, j + 1) && Second(b, w, j) == Second(a, w, j + 1)
        {
          ComparedNext(a, op, w, rep, f, j);
        }
        var rest := CompareLoop(b, op, w, rep, rex, n - 1);
        StopsNext(a, b, op, w, rep, n, rest);
        ComparedNext(a, op, w, rep, f, rest);
        FlagsNext(a, b, op, w, rest, StrLoop(b, op, w, rep, rex, n - 1).arch.regs.flags);
        k := rest + 1;
      }
    }
  }

  lemma ComparedNone(a: Arch, op: StrOp, w: Width, rep: Rep)
    ensures Compared(a, op, w, rep, 0, a.regs.flags) == a
  {
    hide At;
    AtZero(a.regs.gpr[RCX]);
    AtZero(a.regs.gpr[RSI]);
    AtZero(a.regs.gpr[RDI]);
    var g := a.regs.gpr;
    assert g[RCX := g[RCX]][RSI := g[RSI]][RDI := g[RDI]] == g;
  }

  lemma ComparedOnce(a: Arch, op: StrOp, w: Width, rep: Rep, f: Flags)
    requires rep != RepNone
    ensures
      var b := Compared(a, op, w, RepNone, 1, f);
      WithGpr(b, RCX, At(b.regs.gpr[RCX], -1)) == Compared(a, op, w, rep, 1, f) && b.regs.flags == f
      && Compared(a, op, w, rep, 1, f).regs.flags == f
  {
    hide At;
    var g, h := a.regs.gpr, Compared(a, op, w, RepNone, 1, f).regs.gpr;
    assert h[RCX := At(g[RCX], -1)] == g[RCX := At(g[RCX], -1)][RSI := h[RSI]][RDI := h[RDI]];
  }

  lemma FlagsTold(a: Arch, op: StrOp, w: Width)
    requires Comparable(a, op, w, 0)
    ensures FlagsTell(a, op, w, 0, Sub(a.regs.flags, First(a, op, w, 0).value, Second(a, w, 0).value, w, false).1)
  {
    hide First, Second, Sub, Condition, EvalCC;
    forall cc: nat
      ensures EvalCC(Sub(a.regs.flags, First(a, op, w, 0).value, Second(a, w, 0).value, w, false).1, cc) <==>
              Condition(cc, First(a, op, w, 0).value, Second(a, w, 0).value, w)
    {
      ConditionCodesDecide(a.regs.flags, First(a, op, w, 0).value, Second(a, w, 0).value, w, cc);
    }
  }

  lemma FlagsNext(a: Arch, b: Arch, op: StrOp, w: Width, k: nat, f: Flags)
    requires forall j: nat :: First(b, op, w, j) == First(a, op, w, j + 1) && Second(b, w, j) == Second(a, w, j + 1)
    ensures k > 0 ==> FlagsTell(b, op, w, k - 1, f) ==> FlagsTell(a, op, w, k, f)
  {
    hide First, Second, Condition, EvalCC;
    if k > 0 {
      assert First(b, op, w, k - 1) == First(a, op, w, k) && Second(b, w, k - 1) == Second(a, w, k);
    }
  }

  /** CLD or STD, then CMPS or SCAS: under REPE the loop stops after the first pair
      of words that differ, under REPNE after the first that are equal, and else
      after RCX pairs.  RCX has gone down by the pairs compared, the pointers have
      gone on by as many words, memory is as it was, and after at least one pair
      every condition code tells how the last one compares. */
  lemma CompareStops(a: Arch, mid: U64, end: U64, down: bool, op: StrOp, w: Width, rep: Rep, rex: bool) returns (k: nat)
    requires op == Cmps || op == Scas
    requires Exec(Exec(a, mid, SetDF(down)).arch, end, Str(op, w, rep, rex)).error.None?
    ensures
      var b := Exec(a, mid, SetDF(down)).arch;
      var e := Exec(b, end, Str(op, w, rep, rex));
      && StopsAfter(b, op, w, rep, Elements(a, rep), k)
      && e == Done(Compared(b, op, w, rep, k, e.arch.regs.flags))
      && if k == 0 then e.arch.regs.flags == b.regs.flags else FlagsTell(b, op, w, k - 1, e.arch.regs.flags)
  {
    hide StrElement, Sub, First, Second, Compared, FlagsTell;
    var b := Exec(a, mid, SetDF(down)).arch;
    if rep == RepNone {
      LoopOnce(b, op, w, rex);
      CompareElement(b, op, w, rex);
      FlagsTold(b, op, w);
      ComparedFlags(b, op, w, Sub(b.regs.flags, First(b, op, w, 0).value, Second(b, w, 0).value, w, false).1);
      k := 1;
    } else {
      k := CompareLoop(b, op, w, rep, rex, Elements(a, rep));
    }
  }

  lemma ComparedFlags(a: Arch, op: StrOp, w: Width, f: Flags)
    ensures Compared(a, op, w, RepNone, 1, f).regs.flags == f
  {
  }

  /** Words that can all be read are compared without a fault. */
  lemma ComparesUnlessFault(a: Arch, mid: U64, end: U64, down: bool, op: StrOp, w: Width, rep: Rep, rex: bool)
    requires op == Cmps || op == Scas
    requires forall j: nat :: j < Elements(a, rep) ==> Comparable(Exec(a, mid, SetDF(down)).arch, op, w, j)
    ensures Exec(Exec(a, mid, SetDF(down)).arch, end, Str(op, w, rep, rex)).error.None?
  {
    hide StrElement, First, Second;
    CompareSucceeds(Exec(a, mid, SetDF(down)).arch, op, w, rep, rex, Elements(a, rep));
  }

  lemma {:induction false} CompareSucceeds(a: Arch, op: StrOp, w: Width, rep: Rep, rex: bool, n: nat)
    requires (op == Cmps || op == Scas) && (rep == RepNone ==> n <= 1)
    requires forall j: nat :: j < n ==> Comparable(a, op, w, j)
    ensures StrLoop(a, op, w, rep, rex, n).error.None?
    decreases n
  {
    hide StrElement, Sub, First, Second, Compared, At;
    if n > 0 {
      assert Comparable(a, op, w, 0);
      ElementSucceeds(a, op, w, rex);
      CompareElement(a, op, w, rex);
      if rep == RepNone {
        LoopOnce(a, op, w, rex);
      } else {
        var f := Sub(a.regs.flags, First(a, op, w, 0).value, Second(a, w, 0).value, w, false).1;
        SubForgets(a.regs.flags, First(a, op, w, 0).value, Second(a, w, 0).value, 0, 0, w);
        var b := Compared(a, op, w, rep, 1, f);
        ComparedOnce(a, op, w, rep, f);
        forall j: nat | j < n - 1
          ensures Comparable(b, op, w, j)
        {
          ComparedNext(a, op, w, rep, f, j);
          assert Comparable(a, op, w, j + 1);
        }
        CompareSucceeds(b, op, w, rep, rex, n - 1);
      }
    }
  }

  lemma ElementSucceeds(a: Arch, op: StrOp, w: Width, rex: bool)
    requires (op == Cmps || op == Scas) && Comparable(a, op, w, 0)
    ensures StrElement(a, op, w, rex).error.None?
  {
    hide ReadMem, Sub, Advance, At;
    AtZero(a.regs.gpr[RSI]);
    AtZero(a.regs.gpr[RDI]);
  }
}
