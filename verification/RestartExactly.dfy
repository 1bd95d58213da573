/** The condition under which a string instruction can be executed again is exact:
    whenever it fails, there are pages, and a repair of whole pages, with which
    the second execution goes wrong. */
module RestartExactly {
  import opened Words
  import opened FlatMemory
  import opened PagedMemory
  import opened Registers
  import opened Instructions
  import opened Semantics
  import opened Restart

  /** The n elements still to do, executed again after `repaired`, end as one run
      in the repaired memory would. */
  ghost predicate Restarts(a: Arch, op: StrOp, w: Width, rep: Rep, rex: bool, n: nat, repaired: Flat) {
    var e := StrLoop(a, op, w, rep, rex, n);
    e.error.Some? && Repairs(e.arch.mem, repaired) ==>
      ExecStr(WithMem(e.arch, repaired), op, w, rep, rex) ==
      StrLoop(WithMem(a, Overlay(a.mem, repaired)), op, w, rep, rex, n)
  }

  // ---- a memory that shows the fault -----------------------------------------

  /** Three pages from `base` on, readable and zero but for one byte; the middle
      one is writable, and the last if `open`. */
  function Trap(base: U64, mark: U64): Flat {
    map a: U64 | Beyond(a, base) < 0x3000 :: Cell(if a == mark then 1 else 0, TrapProt(base, a, false))
  }

  function TrapProt(base: U64, a: U64, open: bool): Prot {
    Prot(true, 0x1000 <= Beyond(a, base) < (if open then 0x3000 else 0x2000), false)
  }

  /** The same mappings and bytes, with the last page writable. */
  function Opened(m: Flat, base: U64): Flat {
    map a: U64 | a in m :: Cell(m[a].byte, TrapProt(base, a, true))
  }

  lemma TrapPaged(base: U64, mark: U64)
    requires PageAligned(base)
    ensures Paged(Trap(base, mark))
  {
    forall a: U64, b: U64 | PageBase(a) == PageBase(b)
      ensures TrapProt(base, a, false) == TrapProt(base, b, false)
      ensures Beyond(a, base) < 0x3000 <==> Beyond(b, base) < 0x3000
    {
      SameOffsetPage(a, b, base);
    }
  }

  lemma OpenedPaged(m: Flat, base: U64)
    requires PageAligned(base) && Paged(m)
    ensures Paged(Opened(m, base))
  {
    forall a: U64, b: U64 | PageBase(a) == PageBase(b)
      ensures TrapProt(base, a, true) == TrapProt(base, b, true)
    {
      SameOffsetPage(a, b, base);
    }
  }

  lemma SameOffsetPage(a: U64, b: U64, base: U64)
    requires PageAligned(base) && PageBase(a) == PageBase(b)
    ensures Beyond(a, base) / 0x1000 == Beyond(b, base) / 0x1000
  {
    hide Beyond;
    BeyondIs(a, base);
    BeyondIs(b, base);
  }

  /** Offsets add up while they stay small. */
  lemma BeyondAdd(a: U64, base: U64, i: nat)
    requires Beyond(a, base) + i < 0x1_0000_0000_0000_0000
    ensures Beyond(At(a, i), base) == Beyond(a, base) + i
  {
  }

  // ---- what comes after does not repair it -----------------------------------

  /** Only the last two of the three pages can be written at all. */
  ghost predicate Confined(m: Flat, base: U64) {
    forall a: U64 :: Allowed(m, a, NeedWrite) ==> 0x1000 <= Beyond(a, base) < 0x3000
  }

  /** The loop has gone past address y and moves away from it. */
  predicate Past(r: Registers, w: Width, base: U64, y: U64) {
    var di := Beyond(r.gpr[RDI], base);
    Beyond(y, base) < 0x3000 && if r.flags.df then di + w <= Beyond(y, base) else Beyond(y, base) < di <= 0x3000
  }

  lemma StorePast(m: Flat, r: Registers, w: Width, data: seq<Byte>, base: U64, y: U64)
    requires |data| == w && Past(r, w, base, y)
    ensures ByteAt(Store(m, r.gpr[RDI], data, NeedWrite).mem, y) == ByteAt(m, y)
  {
    var di := r.gpr[RDI];
    StoreExact(m, di, data, NeedWrite);
    hide Store, Beyond, At;
    forall i: nat | i < w
      ensures At(di, i) != y
    {
      BeyondAdd(di, base, i);
    }
  }

  lemma ElementPast(a: Arch, w: Width, rex: bool, base: U64, y: U64)
    requires Past(a.regs, w, base, y)
    ensures ByteAt(StrElement(a, Movs, w, rex).arch.mem, y) == ByteAt(a.mem, y)
  {
    hide Load, Store, Past, Delta;
    var l := Load(a.mem, a.regs.gpr[RSI], w, NeedRead);
    if l.Ok? {
      StorePast(a.mem, a.regs, w, l.value, base, y);
    }
  }

  lemma NextPast(a: Arch, w: Width, rep: Rep, rex: bool, base: U64, y: U64)
    requires Past(a.regs, w, base, y) && Confined(a.mem, base) && 0x1000 <= Beyond(y, base)
    requires StrElement(a, Movs, w, rex).error.None?
    ensures Past(Next(StrElement(a, Movs, w, rex).arch, rep).regs, w, base, y)
  {
    MovsMoves(a, w, rex);
    MovsWrites(a, w, rex);
    var di := a.regs.gpr[RDI];
    BeyondAdd(di, base, w - 1);
    BeyondAdd(di, base, w);
    assert Allowed(a.mem, At(di, w - 1), NeedWrite) && Allowed(a.mem, At(di, 0), NeedWrite);
    AtZero(di);
    if a.regs.flags.df {
      DownAndUp(di, a.regs.flags, w);
      var d := At(di, Delta(a.regs.flags, w));
      hide Beyond, At, StrElement;
      DownBeyond(d, di, base, w);
    } else {
      hide Beyond, At, StrElement;
    }
  }

  lemma DownBeyond(d: U64, di: U64, base: U64, w: Width)
    requires At(d, w) == di && Beyond(di, base) >= w
    ensures Beyond(d, base) == Beyond(di, base) - w
  {
  }

  lemma MovsWrites(a: Arch, w: Width, rex: bool)
    requires StrElement(a, Movs, w, rex).error.None?
    ensures forall i: nat :: i < w ==> Allowed(a.mem, At(a.regs.gpr[RDI], i), NeedWrite)
  {
    hide Load, At;
    var data := Load(a.mem, a.regs.gpr[RSI], w, NeedRead).value;
    assert Store(a.mem, a.regs.gpr[RDI], data, NeedWrite).fault.None?;
  }

  lemma {:induction false} LoopPast(a: Arch, w: Width, rep: Rep, rex: bool, n: nat, base: U64, y: U64)
    requires Past(a.regs, w, base, y) && Confined(a.mem, base) && 0x1000 <= Beyond(y, base)
    ensures ByteAt(StrLoop(a, Movs, w, rep, rex, n).arch.mem, y) == ByteAt(a.mem, y)
    decreases n
  {
    hide StrElement, Past, Confined, Beyond, ByteAt;
    if n > 0 {
      ElementPast(a, w, rex, base, y);
      if StrElement(a, Movs, w, rex).error.None? {
        var b := Next(StrElement(a, Movs, w, rex).arch, rep);
        NextPast(a, w, rep, rex, base, y);
        ElementSameMap(a, Movs, w, rex);
        SameConfined(a.mem, b.mem, base);
        LoopPast(b, w, rep, rex, n - 1, base, y);
      }
    }
  }

  lemma SameConfined(m: Flat, n: Flat, base: U64)
    requires Confined(m, base) && SameMap(m, n)
    ensures Confined(n, base)
  {
    forall a: U64 | Allowed(n, a, NeedWrite)
      ensures 0x1000 <= Beyond(a, base) < 0x3000
    {
      assert Allowed(m, a, NeedWrite);
    }
  }

  // ---- the element that crosses ----------------------------------------------

  /** The trap of a move to `di`: the page of `di` is the middle one. */
  function TrapBase(di: U64): U64 {
    At(PageBase(di), -0x1000)
  }

  /** Where the element that crosses begins to write. */
  function CrossAt(di: U64, w: Width): U64 {
    At(TrapBase(di), 0x2000 - (w - di % w))
  }

  /** The byte of its source that it overwrites too early. */
  function MarkAt(si: U64, di: U64, w: Width): U64 {
    At(CrossAt(di, w), if Beyond(si, di) < w - di % w then Beyond(si, di) else 0)
  }

  /** Byte i of the source is byte j of what is written before the fault. */
  predicate Overlaps(si: U64, di: U64, w: Width, i: nat, j: nat) {
    i < w && j < RestOfPage(di) < w && i != j && At(si, i) == At(di, j)
  }

  lemma DestinationOffset(di: U64)
    ensures Beyond(di, TrapBase(di)) == 0x2000 - RestOfPage(di)
    ensures PageAligned(TrapBase(di))
  {
  }

  lemma CrossingOverlaps(si: U64, di: U64, w: Width) returns (i: nat, j: nat)
    requires !SafeMoves(si, di, w, 1)
    ensures Overlaps(si, di, w, i, j) && MarkAt(si, di, w) == At(di, j)
  {
    hide At, Beyond, RestOfPage, CrossAt;
    Crossing(di, w);
    CrossesHere(di, w);
    j := if Beyond(si, di) < RestOfPage(di) then Beyond(si, di) else 0;
    i := if Beyond(si, di) < RestOfPage(di) then 0 else Beyond(di, si);
    AtBeyond(si, di);
    AtBeyond(di, si);
    AtZero(si);
    AtZero(di);
    SamePlace(si, di);
    RestBounds(di);
  }

  lemma SamePlace(si: U64, di: U64)
    ensures Beyond(si, di) == 0 || Beyond(di, si) == 0 ==> si == di
  {
  }

  lemma CrossesHere(di: U64, w: Width)
    requires RestOfPage(di) < w
    ensures CrossAt(di, w) == di
  {
    Crossing(di, w);
    DestinationOffset(di);
    AtBeyond(di, TrapBase(di));
  }

  /** Source and destination lie in the three pages. */
  lemma InTrap(si: U64, di: U64, w: Width, i: nat, j: nat, x: nat)
    requires Overlaps(si, di, w, i, j) && x < w
    ensures
      var base := TrapBase(di);
      && Beyond(At(di, x), base) == 0x2000 - RestOfPage(di) + x
      && Beyond(At(si, x), base) == 0x2000 - RestOfPage(di) + j - i + x
  {
    var base := TrapBase(di);
    DestinationOffset(di);
    BeyondAdd(di, base, x);
    BeyondAdd(di, base, j);
    hide TrapBase, RestOfPage;
    SourceOffset(si, di, base, i, j, x);
  }

  lemma SourceOffset(si: U64, di: U64, base: U64, i: nat, j: nat, x: nat)
    requires At(si, i) == At(di, j) && Beyond(At(di, j), base) == Beyond(di, base) + j
    requires i < 8 && x < 8 && 0x1000 <= Beyond(di, base) + j < 0x3000
    ensures Beyond(At(si, x), base) == Beyond(di, base) + j - i + x
  {
    hide At, Beyond;
    BeyondBack(si, base, i);
    BeyondAdd(si, base, x);
  }

  lemma BeyondBack(a: U64, base: U64, i: nat)
    requires i <= Beyond(At(a, i), base)
    ensures Beyond(a, base) == Beyond(At(a, i), base) - i
  {
    hide Beyond;
    AtIs(a, i);
    BeyondIs(a, base);
    BeyondIs(At(a, i), base);
  }

  /** The trapped move reads its source, one byte of which is set. */
  lemma TrapLoads(si: U64, di: U64, w: Width, i: nat, j: nat)
    requires Overlaps(si, di, w, i, j)
    ensures
      var l := Load(Trap(TrapBase(di), At(di, j)), si, w, NeedRead);
      l.Ok? && l.value[i] == 1 && l.value[j] == 0
  {
    hide Beyond, At, Overlaps, TrapBase;
    var m := Trap(TrapBase(di), At(di, j));
    assert i < w && j < w && i != j && At(si, i) == At(di, j) by { OverlapsIs(si, di, w, i, j); }
    forall x: nat | x < w
      ensures Allowed(m, At(si, x), NeedRead) && (x != i ==> At(si, x) != At(di, j))
    {
      InTrap(si, di, w, i, j, x);
      InTrap(si, di, w, i, j, i);
      RestBounds(di);
    }
    ReachIs(m, si, w, NeedRead, w);
    assert Bytes(m, si, w)[i] == ByteAt(m, At(si, i)) && Bytes(m, si, w)[j] == ByteAt(m, At(si, j));
  }

  lemma OverlapsIs(si: U64, di: U64, w: Width, i: nat, j: nat)
    requires Overlaps(si, di, w, i, j)
    ensures i < w && j < RestOfPage(di) < w && i != j && At(si, i) == At(di, j)
  {
  }

  lemma RestBounds(di: U64)
    ensures 0 < RestOfPage(di) <= 0x1000
  {
  }

  /** It stops at the end of the page. */
  lemma TrapFaults(si: U64, di: U64, w: Width, i: nat, j: nat, mark: U64, data: seq<Byte>)
    requires Overlaps(si, di, w, i, j) && |data| == w
    ensures
      var m := Trap(TrapBase(di), mark);
      var s := Store(m, di, data, NeedWrite);
      s.fault.Some? && s.mem == Poke(m, di, data[..RestOfPage(di)])
  {
    hide Beyond, At, TrapBase, RestOfPage;
    var m, p := Trap(TrapBase(di), mark), RestOfPage(di);
    OverlapsIs(si, di, w, i, j);
    RestBounds(di);
    forall x: nat | x <= p
      ensures Allowed(m, At(di, x), NeedWrite) <==> x < p
    {
      InTrap(si, di, w, i, j, x);
    }
    ReachIs(m, di, w, NeedWrite, p);
  }

  /** After the repair the source has lost the byte that was set. */
  lemma OpenedBytes(si: U64, di: U64, w: Width, i: nat, j: nat, data: seq<Byte>)
    requires Overlaps(si, di, w, i, j) && |data| == w && data[j] == 0
    ensures
      var m := Trap(TrapBase(di), At(di, j));
      var half := Poke(m, di, data[..RestOfPage(di)]);
      var n := Opened(half, TrapBase(di));
      && Repairs(half, n)
      && At(si, i) in m && ByteAt(n, At(si, i)) == 0 && ByteAt(Overlay(m, n), At(si, i)) == 1
  {
    hide Beyond, At, TrapBase, RestOfPage;
    OverlapsIs(si, di, w, i, j);
    RestBounds(di);
    InTrap(si, di, w, i, j, j);
    BeyondAt(di, j);
  }

  lemma OpenedUsable(si: U64, di: U64, w: Width, i: nat, j: nat, n: Flat)
    requires Overlaps(si, di, w, i, j)
    requires forall a: U64 :: a in n <==> Beyond(a, TrapBase(di)) < 0x3000
    requires forall a: U64 :: a in n ==> n[a].prot == TrapProt(TrapBase(di), a, true)
    ensures Usable(n, si, di, w)
  {
    hide Beyond, At, TrapBase, RestOfPage;
    OverlapsIs(si, di, w, i, j);
    RestBounds(di);
    forall x: nat | x < w
      ensures Allowed(n, At(si, x), NeedRead) && Allowed(n, At(di, x), NeedWrite)
    {
      InTrap(si, di, w, i, j, x);
    }
  }

  /** Every byte of source and destination may be read and written. */
  ghost predicate Usable(n: Flat, si: U64, di: U64, w: Width) {
    forall x: nat :: x < w ==> Allowed(n, At(si, x), NeedRead) && Allowed(n, At(di, x), NeedWrite)
  }

  /** A move that can be carried out moves each byte. */
  lemma MovedBytes(a: Arch, w: Width, rex: bool, i: nat)
    requires i < w && Usable(a.mem, a.regs.gpr[RSI], a.regs.gpr[RDI], w)
    ensures
      var e := StrElement(a, Movs, w, rex);
      e.error.None? && ByteAt(e.arch.mem, At(a.regs.gpr[RDI], i)) == ByteAt(a.mem, At(a.regs.gpr[RSI], i))
  {
    hide At, Advance;
    var si, di, n := a.regs.gpr[RSI], a.regs.gpr[RDI], a.mem;
    forall x: nat | x < w
      ensures Allowed(n, At(si, x), NeedRead) && Allowed(n, At(di, x), NeedWrite)
    {
    }
    ReachIs(n, si, w, NeedRead, w);
    var b := Load(n, si, w, NeedRead).value;
    StoreExact(n, di, b, NeedWrite);
    hide Store;
    var s := Store(n, di, b, NeedWrite);
    assert s.mem[At(di, i)].byte == b[i];
    assert StrElement(a, Movs, w, rex).arch.mem == s.mem by {
      hide Load;
      AdvanceKeepsMem(s.mem, a.regs, w);
    }
  }

  lemma AdvanceKeepsMem(mem: Flat, r: Registers, w: Width)
    ensures Advance(Advance(Arch(r, mem), RSI, w), RDI, w).mem == mem
  {
  }

  /** What that move wrote is there at the end of the loop. */
  lemma MovedStays(a: Arch, w: Width, rep: Rep, rex: bool, n: nat, i: nat)
    requires n > 0 && i < w && Usable(a.mem, a.regs.gpr[RSI], a.regs.gpr[RDI], w) && RestOfPage(a.regs.gpr[RDI]) < w
    requires Confined(a.mem, TrapBase(a.regs.gpr[RDI]))
    ensures
      ByteAt(StrLoop(a, Movs, w, rep, rex, n).arch.mem, At(a.regs.gpr[RDI], i)) == ByteAt(a.mem, At(a.regs.gpr[RSI], i))
  {
    hide StrElement, Beyond, At, TrapBase, Confined, Usable, ByteAt, Past, RestOfPage;
    var di := a.regs.gpr[RDI];
    MovedBytes(a, w, rex, i);
    PastCrossing(a, w, rep, rex, i);
    ElementSameMap(a, Movs, w, rex);
    var b := Next(StrElement(a, Movs, w, rex).arch, rep);
    SameConfined(a.mem, b.mem, TrapBase(di));
    LoopPast(b, w, rep, rex, n - 1, TrapBase(di), At(di, i));
  }

  lemma PastCrossing(a: Arch, w: Width, rep: Rep, rex: bool, i: nat)
    requires i < w && StrElement(a, Movs, w, rex).error.None? && RestOfPage(a.regs.gpr[RDI]) < w
    ensures
      var di := a.regs.gpr[RDI];
      && Past(Next(StrElement(a, Movs, w, rex).arch, rep).regs, w, TrapBase(di), At(di, i))
      && 0x1000 <= Beyond(At(di, i), TrapBase(di))
  {
    hide StrElement, Beyond, At, TrapBase, Delta;
    var di := a.regs.gpr[RDI];
    var d := At(di, Delta(a.regs.flags, w));
    MovsMoves(a, w, rex);
    DestinationOffset(di);
    BeyondAdd(di, TrapBase(di), i);
    BeyondAdd(di, TrapBase(di), w);
    if a.regs.flags.df {
      DownAndUp(di, a.regs.flags, w);
      DownBeyond(d, di, TrapBase(di), w);
    } else {
      assert d == At(di, w) by { UpDelta(a.regs.flags, w); }
    }
  }

  lemma UpDelta(f: Flags, w: Width)
    requires !f.df
    ensures Delta(f, w) == w
  {
  }

  lemma FailedMove(a: Arch, w: Width, rex: bool)
    requires Load(a.mem, a.regs.gpr[RSI], w, NeedRead).Ok?
    ensures
      var s := Store(a.mem, a.regs.gpr[RDI], Load(a.mem, a.regs.gpr[RSI], w, NeedRead).value, NeedWrite);
      var e := StrElement(a, Movs, w, rex);
      s.fault.Some? ==> e.error.Some? && e.arch == WithMem(a, s.mem)
  {
    hide Load, Store;
  }

  /** A move that crosses and writes over its source does not survive the trap. */
  lemma CrossingFails(a: Arch, w: Width, rep: Rep, rex: bool, n: nat) returns (repaired: Flat)
    requires n == Iterations(a.regs, rep) > 0 && !SafeMoves(a.regs.gpr[RSI], a.regs.gpr[RDI], w, 1)
    requires a.mem == Trap(TrapBase(a.regs.gpr[RDI]), MarkAt(a.regs.gpr[RSI], a.regs.gpr[RDI], w))
    ensures Paged(repaired) && !Restarts(a, Movs, w, rep, rex, n, repaired)
  {
    hide SafeMoves, MarkAt, Trap, TrapBase, Overlaps, StrElement, At, Beyond, ByteAt, Confined, Usable, Repairs, Paged, Overlay,
      RestOfPage;
    var si, di := a.regs.gpr[RSI], a.regs.gpr[RDI];
    var i, j := CrossingOverlaps(si, di, w);
    OverlapsIs(si, di, w, i, j);
    var half;
    half, repaired := HalfMoved(a, w, rex, i, j);
    MovedStays(WithMem(a, repaired), w, rep, rex, n, i);
    MovedStays(WithMem(a, Overlay(a.mem, repaired)), w, rep, rex, n, i);
  }

  /** Half done, repaired, and the byte that was set is lost. */
  lemma HalfMoved(a: Arch, w: Width, rex: bool, i: nat, j: nat) returns (half: Flat, n: Flat)
    requires
      var si, di := a.regs.gpr[RSI], a.regs.gpr[RDI];
      Overlaps(si, di, w, i, j) && a.mem == Trap(TrapBase(di), At(di, j))
    ensures
      var si, di, e := a.regs.gpr[RSI], a.regs.gpr[RDI], StrElement(a, Movs, w, rex);
      && e.error.Some? && e.arch == WithMem(a, half) && Repairs(half, n) && Paged(n)
      && ByteAt(n, At(si, i)) == 0 && ByteAt(Overlay(a.mem, n), At(si, i)) == 1
      && Usable(n, si, di, w) && Usable(Overlay(a.mem, n), si, di, w)
      && Confined(n, TrapBase(di)) && Confined(Overlay(a.mem, n), TrapBase(di))
  {
    hide Load, Store, Trap, Opened, StrElement, At, Beyond, Overlaps, TrapBase, RestOfPage, ByteAt, Confined, Usable,
      Repairs, Paged, Overlay;
    var si, di := a.regs.gpr[RSI], a.regs.gpr[RDI];
    OverlapsIs(si, di, w, i, j);
    RestBounds(di);
    TrapLoads(si, di, w, i, j);
    var data := Load(a.mem, si, w, NeedRead).value;
    TrapFaults(si, di, w, i, j, At(di, j), data);
    FailedMove(a, w, rex);
    DestinationOffset(di);
    TrapPaged(TrapBase(di), At(di, j));
    half := Poke(a.mem, di, data[..RestOfPage(di)]);
    n := Opened(half, TrapBase(di));
    OpenedBytes(si, di, w, i, j, data);
    RepairedTrap(a.mem, half, n, si, di, w, i, j);
  }

  lemma RepairedTrap(m: Flat, half: Flat, n: Flat, si: U64, di: U64, w: Width, i: nat, j: nat)
    requires Overlaps(si, di, w, i, j) && m == Trap(TrapBase(di), At(di, j)) && Paged(m)
    requires SameMap(m, half) && n == Opened(half, TrapBase(di))
    ensures Paged(n) && Usable(n, si, di, w) && Usable(Overlay(m, n), si, di, w)
    ensures Confined(n, TrapBase(di)) && Confined(Overlay(m, n), TrapBase(di))
  {
    DestinationOffset(di);
    SamePaged(m, half);
    OpenedPaged(half, TrapBase(di));
    hide Paged, Usable, TrapBase, Overlaps, Beyond, At;
    OpenedUsable(si, di, w, i, j, n);
    OpenedUsable(si, di, w, i, j, Overlay(m, n));
  }

  // ---- the elements before it ------------------------------------------------

  /** Unsafe, but not at once: the move that crosses is still to come. */
  predicate Ahead(si: U64, di: U64, w: Width, n: nat) {
    SafeMoves(si, di, w, 1) && !SafeMoves(si, di, w, n)
  }

  /** The end of the page is at least this and the crossing move away. */
  lemma CrossesLater(si: U64, di: U64, w: Width, n: nat)
    requires Ahead(si, di, w, n)
    ensures 0 < w - di % w < w && RestOfPage(di) >= w + (w - di % w) && n > 1
  {
    PageMod(di, w);
    var x := di % 0x1000;
    var k := if w == 1 then 0x1000 else if w == 2 then 0x800 else if w == 4 then 0x400 else 0x200;
    assert k * w == 0x1000;
    var c := k - x / w - 1;
    assert x == w * (x / w) + x % w;
    assert RestOfPage(di) - (w - di % w) == w * c;
    if c >= 1 {
      MulGrows(w, c);
    } else if c < 0 {
      MulGrows(w, -c);
    }
  }

  lemma NextUnsafe(si: U64, di: U64, w: Width, n: nat)
    requires Ahead(si, di, w, n)
    ensures !SafeMoves(At(si, w), At(di, w), w, n - 1)
    ensures TrapBase(At(di, w)) == TrapBase(di) && MarkAt(At(si, w), At(di, w), w) == MarkAt(si, di, w)
  {
    CrossesLater(si, di, w, n);
    SameDistance(si, di, w);
    Aligned(di, w);
    PageLeft(di, w);
    FirstPage(di, w);
    hide At, Beyond, RestOfPage, PageBase;
  }

  /** Such a move copies zeros over zeros. */
  lemma BlankMove(a: Arch, w: Width, rex: bool, n: nat)
    requires Ahead(a.regs.gpr[RSI], a.regs.gpr[RDI], w, n)
    requires a.mem == Trap(TrapBase(a.regs.gpr[RDI]), MarkAt(a.regs.gpr[RSI], a.regs.gpr[RDI], w))
    ensures var e := StrElement(a, Movs, w, rex); e.error.None? && e.arch.mem == a.mem
  {
    hide TrapBase, MarkAt, At, Beyond, Ahead, Trap, Advance;
    var m, si, di := a.mem, a.regs.gpr[RSI], a.regs.gpr[RDI];
    forall x: nat | x < w
      ensures Allowed(m, At(si, x), NeedRead) && ByteAt(m, At(si, x)) == 0
      ensures Allowed(m, At(di, x), NeedWrite) && ByteAt(m, At(di, x)) == 0
    {
      BlankByte(si, di, w, n, x);
    }
    ReachIs(m, si, w, NeedRead, w);
    ReachIs(m, di, w, NeedWrite, w);
    var b := Load(m, si, w, NeedRead).value;
    assert b[..w] == b;
    PokeSame(m, di, b);
    hide Load, Store;
    AdvanceKeepsMem(m, a.regs, w);
    assert Store(m, di, b, NeedWrite) == Stored(m, None) by { StoreWhole(m, di, b); }
  }

  lemma StoreWhole(m: Flat, di: U64, b: seq<Byte>)
    requires Reach(m, di, |b|, NeedWrite) == |b|
    ensures Store(m, di, b, NeedWrite) == Stored(Poke(m, di, b), None)
  {
    assert b[..|b|] == b;
  }

  lemma PokeSame(m: Flat, di: U64, b: seq<Byte>)
    requires |b| <= 8 && forall x: nat :: x < |b| ==> ByteAt(m, At(di, x)) == b[x]
    ensures Poke(m, di, b) == m
  {
    hide At;
    forall a: U64 | a in m && Beyond(a, di) < |b|
      ensures m[a].byte == b[Beyond(a, di)]
    {
      AtBeyond(a, di);
    }
  }

  lemma BlankByte(si: U64, di: U64, w: Width, n: nat, x: nat)
    requires Ahead(si, di, w, n) && x < w
    ensures
      var m := Trap(TrapBase(di), MarkAt(si, di, w));
      && Allowed(m, At(si, x), NeedRead) && ByteAt(m, At(si, x)) == 0
      && Allowed(m, At(di, x), NeedWrite) && ByteAt(m, At(di, x)) == 0
  {
    CrossesLater(si, di, w, n);
    var base := TrapBase(di);
    DestinationOffset(di);
    RestBounds(di);
    SourceBelow(si, di, w, n);
    BeyondAdd(di, base, x);
    BeyondAdd(si, base, x);
    MarkOffset(si, di, w);
    hide At, Beyond, TrapBase, MarkAt, RestOfPage;
  }

  lemma MarkOffset(si: U64, di: U64, w: Width)
    requires 0 < w - di % w < w
    ensures
      Beyond(MarkAt(si, di, w), TrapBase(di)) ==
      0x2000 - (w - di % w) + if Beyond(si, di) < w - di % w then Beyond(si, di) else 0
  {
    var base, q := TrapBase(di), w - di % w;
    BeyondAt(base, 0x2000 - q);
    hide TrapBase, Beyond, At;
    BeyondAdd(At(base, 0x2000 - q), base, if Beyond(si, di) < q then Beyond(si, di) else 0);
  }

  lemma SourceBelow(si: U64, di: U64, w: Width, n: nat)
    requires Ahead(si, di, w, n)
    ensures
      var base := TrapBase(di);
      if Beyond(si, di) < w - di % w then Beyond(si, base) == Beyond(di, base) + Beyond(si, di)
      else Beyond(di, si) < w && Beyond(si, base) == Beyond(di, base) - Beyond(di, si)
  {
    CrossesLater(si, di, w, n);
    DestinationOffset(di);
    hide TrapBase;
    var base := TrapBase(di);
    BeyondIs(si, base);
    BeyondIs(di, base);
    BeyondIs(si, di);
    BeyondIs(di, si);
    RestBounds(di);
    hide Beyond, RestOfPage;
  }

  // ---- main result -----------------------------------------------------------

  /** After a finished element the rest decides. */
  lemma RestartsStep(a: Arch, w: Width, rep: Rep, rex: bool, n: nat, repaired: Flat)
    requires n > 0 && StrElement(a, Movs, w, rex).error.None?
    requires Restarts(a, Movs, w, rep, rex, n, repaired)
    ensures Restarts(Next(StrElement(a, Movs, w, rex).arch, rep), Movs, w, rep, rex, n - 1, repaired)
  {
    hide StrElement, Overlay, At;
    var e := StrElement(a, Movs, w, rex);
    var b := Next(e.arch, rep);
    var s := StrLoop(b, Movs, w, rep, rex, n - 1);
    if s.error.Some? && Repairs(s.arch.mem, repaired) {
      ElementSameMap(a, Movs, w, rex);
      LoopSameMap(b, Movs, w, rep, rex, n - 1);
      ElementInOverlay(a, Movs, w, rex, repaired);
      assert Next(WithMem(e.arch, Overlay(e.arch.mem, repaired)), rep) == WithMem(b, Overlay(b.mem, repaired));
    }
  }

  lemma {:induction false} UnsafeFails(a: Arch, w: Width, rep: Rep, rex: bool, n: nat) returns (repaired: Flat)
    requires n == Iterations(a.regs, rep) && !Safe(a.regs, Movs, w, n)
    requires a.mem == Trap(TrapBase(a.regs.gpr[RDI]), MarkAt(a.regs.gpr[RSI], a.regs.gpr[RDI], w))
    ensures Paged(repaired) && !Restarts(a, Movs, w, rep, rex, n, repaired)
    decreases n
  {
    hide Trap, TrapBase, MarkAt, StrElement, Restarts, Paged, At, SafeMoves;
    var si, di := a.regs.gpr[RSI], a.regs.gpr[RDI];
    NothingIsSafe(si, di, w);
    if !SafeMoves(si, di, w, 1) {
      repaired := CrossingFails(a, w, rep, rex, n);
    } else {
      BlankMove(a, w, rex, n);
      MovsMoves(a, w, rex);
      UpDelta(a.regs.flags, w);
      NextUnsafe(si, di, w, n);
      CrossesLater(si, di, w, n);
      CountDown(n);
      var b := Next(StrElement(a, Movs, w, rex).arch, rep);
      repaired := UnsafeFails(b, w, rep, rex, n - 1);
      if Restarts(a, Movs, w, rep, rex, n, repaired) {
        RestartsStep(a, w, rep, rex, n, repaired);
      }
    }
  }

  lemma CountDown(n: U64)
    requires n > 0
    ensures At(n, -1) == n - 1
  {
  }

  lemma NothingIsSafe(si: U64, di: U64, w: Width)
    ensures SafeMoves(si, di, w, 0)
  {
  }

  /** A string instruction, with or without REP, can be executed again after every
      fault in every memory made of pages, however whole pages repair it, exactly
      when it is `Safe`. */
  lemma SafeExactly(r: Registers, op: StrOp, w: Width, rep: Rep, rex: bool)
    ensures
      var n := Iterations(r, rep);
      Safe(r, op, w, n) <==>
      forall store: PageTable, repaired: PageTable :: WellFormed(store) && WellFormed(repaired) ==>
        Restarts(Arch(r, Flatten(store)), op, w, rep, rex, n, Flatten(repaired))
  {
    hide Safe, Restarts, Paged, Flatten, WellFormed;
    var n := Iterations(r, rep);
    if Safe(r, op, w, n) {
      forall store: PageTable, repaired: PageTable | WellFormed(store) && WellFormed(repaired)
        ensures Restarts(Arch(r, Flatten(store)), op, w, rep, rex, n, Flatten(repaired))
      {
        PagedExactly(Flatten(store));
        SafeRestarts(Arch(r, Flatten(store)), op, w, rep, rex, Flatten(repaired));
      }
    } else {
      assert op == Movs by { OnlyMovs(r, op, w, n); }
      var si, di := r.gpr[RSI], r.gpr[RDI];
      var mem := Trap(TrapBase(di), MarkAt(si, di, w));
      DestinationOffset(di);
      TrapPaged(TrapBase(di), MarkAt(si, di, w));
      var fixed := UnsafeFails(Arch(r, mem), w, rep, rex, n);
      PagedExactly(mem);
      PagedExactly(fixed);
      var store: PageTable :| WellFormed(store) && Flatten(store) == mem;
      var repaired: PageTable :| WellFormed(repaired) && Flatten(repaired) == fixed;
      assert !Restarts(Arch(r, Flatten(store)), op, w, rep, rex, n, Flatten(repaired));
    }
  }

  lemma OnlyMovs(r: Registers, op: StrOp, w: Width, n: nat)
    requires !Safe(r, op, w, n)
    ensures op == Movs
  {
  }

  lemma SafeRestarts(a: Arch, op: StrOp, w: Width, rep: Rep, rex: bool, repaired: Flat)
    requires Paged(a.mem) && Safe(a.regs, op, w, Iterations(a.regs, rep))
    ensures Restarts(a, op, w, rep, rex, Iterations(a.regs, rep), repaired)
  {
    hide StrLoop, Safe, Paged, Repairs, Overlay;
    var e := ExecStr(a, op, w, rep, rex);
    if e.error.Some? && Repairs(e.arch.mem, repaired) {
      LoopRestart(a, op, w, rep, rex, repaired);
    }
  }
}
