/** REP string instructions run their whole count at once, so a fault leaves them
    half done.  After the hook has repaired the fault the instruction is executed
    again from the saved RCX, RSI and RDI; here that is proved to end as one
    uninterrupted run would have. */
module Restart {
  import opened Words
  import opened FlatMemory
  import opened PagedMemory
  import opened Registers
  import opened Arithmetic
  import opened Instructions
  import opened Semantics
  import opened Decoder
  import opened Reference

  // ---- repaired memory -------------------------------------------------------

  predicate AtLeast(p: Prot, q: Prot) {
    (q.read ==> p.read) && (q.write ==> p.write) && (q.exec ==> p.exec)
  }

  /** `after` allows whatever `before` allowed, and perhaps more. */
  ghost predicate Enables(before: Flat, after: Flat) {
    forall a: U64 :: a in before ==> a in after && AtLeast(after[a].prot, before[a].prot)
  }

  /** The hook mapped or unprotected memory but kept every byte. */
  ghost predicate Repairs(before: Flat, after: Flat) {
    Enables(before, after) && forall a: U64 :: a in before ==> after[a].byte == before[a].byte
  }

  /** The mappings and permissions of `after` with the bytes of `before`: the
      memory that an uninterrupted run would have started from. */
  function Overlay(before: Flat, after: Flat): Flat {
    map a: U64 | a in after :: Cell(if a in before then before[a].byte else after[a].byte, after[a].prot)
  }

  lemma OverlayOfRepaired(before: Flat, after: Flat)
    requires Repairs(before, after)
    ensures Overlay(before, after) == after
  {
  }

  /** Mapping fresh pages is such a repair. */
  lemma MappingRepairs(mem: Flat, addr: U64, size: U64, prot: Prot)
    ensures Repairs(mem, MapRange(mem, addr, size, prot))
  {
    hide MapAccepts;
  }

  lemma ReachGrows(m: Flat, n: Flat, addr: U64, size: nat, need: Need)
    requires Enables(m, n)
    ensures Reach(m, addr, size, need) <= Reach(n, addr, size, need)
  {
    forall i: nat | i < Reach(m, addr, size, need)
      ensures Allowed(n, At(addr, i), need)
    {
      assert Allowed(m, At(addr, i), need);
    }
  }

  lemma SameReach(m: Flat, n: Flat, addr: U64, size: nat, need: Need)
    requires m.Keys == n.Keys && forall a: U64 :: a in m ==> m[a].prot == n[a].prot
    ensures Reach(m, addr, size, need) == Reach(n, addr, size, need)
  {
    var k := Reach(m, addr, size, need);
    forall i: nat | i < k
      ensures Allowed(n, At(addr, i), need)
    {
      assert Allowed(m, At(addr, i), need);
    }
    ReachIs(n, addr, size, need, k);
  }

  /** What could be loaded before is loaded after. */
  lemma LoadInOverlay(m: Flat, n: Flat, addr: U64, size: nat)
    requires Enables(m, n) && Load(m, addr, size, NeedRead).Ok?
    ensures Load(Overlay(m, n), addr, size, NeedRead) == Load(m, addr, size, NeedRead)
  {
    var o := Overlay(m, n);
    ReachGrows(m, o, addr, size, NeedRead);
    forall i: nat | i < size
      ensures ByteAt(o, At(addr, i)) == ByteAt(m, At(addr, i))
    {
      assert Allowed(m, At(addr, i), NeedRead);
    }
    assert Bytes(o, addr, size) == Bytes(m, addr, size);
  }

  /** A store that succeeds before does the same after. */
  lemma StoreInOverlay(m: Flat, n: Flat, addr: U64, data: seq<Byte>)
    requires |data| <= 8
    requires Enables(m, n) && Store(m, addr, data, NeedWrite).fault.None?
    ensures
      var s := Store(m, addr, data, NeedWrite);
      && Store(Overlay(m, n), addr, data, NeedWrite) == Stored(Overlay(s.mem, n), None)
      && Enables(s.mem, n)
  {
    var o := Overlay(m, n);
    ReachGrows(m, o, addr, |data|, NeedWrite);
    assert data[..|data|] == data;
    assert Poke(o, addr, data) == Overlay(Poke(m, addr, data), n) by {
      PokeOverlay(m, n, addr, data);
    }
  }

  lemma PokeOverlay(m: Flat, n: Flat, addr: U64, data: seq<Byte>)
    requires |data| <= 0x8000_0000_0000_0000 && Enables(m, n)
    requires forall i: nat :: i < |data| ==> Allowed(m, At(addr, i), NeedWrite)
    ensures Poke(Overlay(m, n), addr, data) == Overlay(Poke(m, addr, data), n)
  {
    forall a: U64 | a in n
      ensures Poke(Overlay(m, n), addr, data)[a] == Overlay(Poke(m, addr, data), n)[a]
    {
      if Beyond(a, addr) < |data| {
        AtBeyond(a, addr);
        assert Allowed(m, At(addr, Beyond(a, addr)), NeedWrite);
      }
    }
  }

  /** Storing again over a part already stored makes no difference. */
  lemma StoreAgain(m: Flat, n: Flat, addr: U64, data: seq<Byte>)
    requires |data| <= 8
    requires Repairs(Store(m, addr, data, NeedWrite).mem, n)
    ensures Store(n, addr, data, NeedWrite) == Store(Overlay(m, n), addr, data, NeedWrite)
  {
    var k := Reach(m, addr, |data|, NeedWrite);
    var part := data[..k];
    var o := Overlay(m, n);
    forall i: nat | i < |part|
      ensures Allowed(m, At(addr, i), NeedWrite)
    {
    }
    assert Enables(m, n) by {
      forall a: U64 | a in m
        ensures a in n && AtLeast(n[a].prot, m[a].prot)
      {
        assert a in Poke(m, addr, part);
      }
    }
    PokeOverlay(m, n, addr, part);
    OverlayOfRepaired(Poke(m, addr, part), n);
    assert n == Poke(o, addr, part);
    SameReach(n, o, addr, |data|, NeedWrite);
    ReachGrows(m, o, addr, |data|, NeedWrite);
    PokeTwice(o, addr, data, k, Reach(o, addr, |data|, NeedWrite));
  }

  lemma PokeTwice(o: Flat, addr: U64, data: seq<Byte>, k: nat, l: nat)
    requires k <= l <= |data|
    ensures Poke(Poke(o, addr, data[..k]), addr, data[..l]) == Poke(o, addr, data[..l])
  {
  }

  // ---- one element -----------------------------------------------------------

  /** When n moves going up can be executed again after a repaired fault.  Memory
      comes in whole pages, so only a move whose destination crosses into another
      page can be left half done, with the w - di % w bytes below the page's end
      written.  Either none of the moves crosses, or source and destination are
      equal, or the destination is aligned, or no byte of the source is among
      those written. */
  predicate SafeMoves(si: U64, di: U64, w: Width, n: nat) {
    || n * w <= RestOfPage(di)
    || si == di
    || di % w == 0
    || (Beyond(si, di) >= w - di % w && Beyond(di, si) >= w)
  }

  /** When a string instruction with n elements to do can be executed again: only
      MOVS writes over its own source, and going down only its first element can
      cross into a page that forbids writing. */
  predicate Safe(r: Registers, op: StrOp, w: Width, n: nat) {
    op != Movs || SafeMoves(r.gpr[RSI], r.gpr[RDI], w, if r.flags.df && n > 1 then 1 else n)
  }

  /** Bytes from `a` to the end of its page. */
  function RestOfPage(a: U64): nat {
    0x1000 - a % 0x1000
  }

  /** The element faults before it has written a byte of its source. */
  ghost predicate Harmless(a: Arch, op: StrOp, w: Width) {
    var si, di := a.regs.gpr[RSI], a.regs.gpr[RDI];
    var k := Reach(a.mem, di, w, NeedWrite);
    op != Movs || k == 0 || k == w || si == di || (Beyond(si, di) >= k && Beyond(di, si) >= w)
  }

  /** A store stops at its first byte or at the end of a page. */
  lemma ReachStops(mem: Flat, di: U64, w: Width)
    requires Paged(mem)
    ensures
      var k := Reach(mem, di, w, NeedWrite);
      k == 0 || k == w || (k == RestOfPage(di) < w)
    ensures
      RestOfPage(di) < w && Allowed(mem, At(di, w), NeedWrite) ==>
        var k := Reach(mem, di, w, NeedWrite);
        k == 0 || k == w
  {
    var p := RestOfPage(di);
    hide PageBase, At, Reach, Paged, RestOfPage;
    forall i: nat | i < p
      ensures Allowed(mem, At(di, i), NeedWrite) <==> Allowed(mem, At(di, 0), NeedWrite)
    {
      FirstPage(di, i);
      FirstPage(di, 0);
      OnePage(mem, At(di, i), At(di, 0));
    }
    forall i: nat | p <= i <= w
      ensures Allowed(mem, At(di, i), NeedWrite) <==> Allowed(mem, At(di, p), NeedWrite)
    {
      SecondPage(di, i);
      SecondPage(di, p);
      OnePage(mem, At(di, i), At(di, p));
    }
  }

  lemma OnePage(mem: Flat, a: U64, b: U64)
    requires Paged(mem) && PageBase(a) == PageBase(b)
    ensures Allowed(mem, a, NeedWrite) <==> Allowed(mem, b, NeedWrite)
  {
    assert a in mem <==> b in mem;
  }

  lemma FirstPage(di: U64, i: nat)
    requires i < RestOfPage(di)
    ensures PageBase(At(di, i)) == PageBase(di)
  {
  }

  lemma SecondPage(di: U64, i: nat)
    requires RestOfPage(di) <= i < RestOfPage(di) + 0x1000
    ensures PageBase(At(di, i)) == At(di, RestOfPage(di))
  {
    var q: U64 := At(di, RestOfPage(di));
    assert q % 0x1000 == 0;
    assert At(di, i) == q + (i - RestOfPage(di));
  }

  lemma SafeHarmless(a: Arch, op: StrOp, w: Width, n: nat)
    requires Paged(a.mem) && Safe(a.regs, op, w, n) && n > 0
    ensures Harmless(a, op, w)
  {
    hide Reach, Beyond;
    ReachStops(a.mem, a.regs.gpr[RDI], w);
    Crossing(a.regs.gpr[RDI], w);
  }

  /** How much an element that crosses writes below the page's end. */
  lemma Crossing(di: U64, w: Width)
    ensures RestOfPage(di) < w ==> di % w > 0 && RestOfPage(di) == w - di % w
  {
    PageMod(di, w);
  }

  lemma PageMod(di: U64, w: Width)
    ensures di % w == di % 0x1000 % w
  {
    var q, x := di / 0x1000, di % 0x1000;
    var k := if w == 1 then 0x1000 else if w == 2 then 0x800 else if w == 4 then 0x400 else 0x200;
    assert k * w == 0x1000;
    assert di == w * (k * q + x / w) + x % w;
    ModUnique(di, w, k * q + x / w, x % w);
  }

  function WithMem(a: Arch, mem: Flat): Arch {
    a.(mem := mem)
  }

  /** An element that succeeded does the same in the repaired memory. */
  lemma ElementInOverlay(a: Arch, op: StrOp, w: Width, rex: bool, n: Flat)
    requires StrElement(a, op, w, rex).error.None? && Enables(a.mem, n)
    ensures
      var e := StrElement(a, op, w, rex);
      && StrElement(WithMem(a, Overlay(a.mem, n)), op, w, rex) == Done(WithMem(e.arch, Overlay(e.arch.mem, n)))
      && Enables(e.arch.mem, n)
  {
    hide Load, Store, Overlay, Enables, At, Sub, WriteWidth, ReadWidth, NatToLe, LeWord, Delta;
    var si, di := a.regs.gpr[RSI], a.regs.gpr[RDI];
    match op
    case Movs =>
      LoadInOverlay(a.mem, n, si, w);
      StoreInOverlay(a.mem, n, di, Load(a.mem, si, w, NeedRead).value);
    case Stos =>
      StoreInOverlay(a.mem, n, di, NatToLe(ReadWidth(a.regs.gpr, RAX, w, rex), w));
    case Lods =>
      LoadInOverlay(a.mem, n, si, w);
    case Cmps =>
      LoadInOverlay(a.mem, n, si, w);
      LoadInOverlay(a.mem, n, di, w);
    case Scas =>
      LoadInOverlay(a.mem, n, di, w);
  }

  /** The element that faulted, executed again, does what it would have done had
      the memory been in order at once. */
  lemma ElementAgain(a: Arch, op: StrOp, w: Width, rex: bool, n: Flat)
    requires Harmless(a, op, w)
    requires var e := StrElement(a, op, w, rex); e.error.Some? && Repairs(e.arch.mem, n)
    ensures StrElement(a, op, w, rex).arch.regs == a.regs
    ensures StrElement(WithMem(a, n), op, w, rex) == StrElement(WithMem(a, Overlay(a.mem, n)), op, w, rex)
  {
    hide Overlay, Repairs, Sub, WriteWidth, ReadWidth, NatToLe, LeWord, Delta, Store, Load, Harmless, At;
    var si, di := a.regs.gpr[RSI], a.regs.gpr[RDI];
    match op
    case Movs =>
      var b := Load(a.mem, si, w, NeedRead);
      if b.Ok? {
        StoreAgain(a.mem, n, di, b.value);
        SourceKept(a, w, n);
      } else {
        OverlayOfRepaired(a.mem, n);
      }
    case Stos =>
      StoreAgain(a.mem, n, di, NatToLe(ReadWidth(a.regs.gpr, RAX, w, rex), w));
    case Lods => OverlayOfRepaired(a.mem, n);
    case Cmps => OverlayOfRepaired(a.mem, n);
    case Scas => OverlayOfRepaired(a.mem, n);
  }

  lemma AtInjective(addr: U64, i: nat, j: nat)
    requires i < 0x1_0000_0000_0000_0000 && j < 0x1_0000_0000_0000_0000 && At(addr, i) == At(addr, j)
    ensures i == j
  {
  }

  lemma Apart(si: U64, di: U64, w: Width, k: nat, i: nat, j: nat)
    requires Beyond(si, di) >= k && Beyond(di, si) >= w && i < w && j < k <= w
    ensures At(si, i) != At(di, j)
  {
  }

  /** The half-done MOVS element left its source alone. */
  lemma SourceKept(a: Arch, w: Width, n: Flat)
    requires Harmless(a, Movs, w)
    requires Load(a.mem, a.regs.gpr[RSI], w, NeedRead).Ok?
    requires
      var s := Store(a.mem, a.regs.gpr[RDI], Load(a.mem, a.regs.gpr[RSI], w, NeedRead).value, NeedWrite);
      s.fault.Some? && Repairs(s.mem, n)
    ensures Load(n, a.regs.gpr[RSI], w, NeedRead) == Load(a.mem, a.regs.gpr[RSI], w, NeedRead)
    ensures Load(Overlay(a.mem, n), a.regs.gpr[RSI], w, NeedRead) == Load(a.mem, a.regs.gpr[RSI], w, NeedRead)
  {
    hide At, Beyond;
    var m, si, di := a.mem, a.regs.gpr[RSI], a.regs.gpr[RDI];
    var data := Load(m, si, w, NeedRead).value;
    var s := Store(m, di, data, NeedWrite);
    StoreExact(m, di, data, NeedWrite);
    StoreSameMap(m, di, data);
    var k := Reach(m, di, w, NeedWrite);
    hide Store;
    LoadInOverlay(m, n, si, w);
    ReachGrows(m, n, si, w, NeedRead);
    forall i: nat | i < w
      ensures ByteAt(n, At(si, i)) == ByteAt(m, At(si, i))
    {
      assert Allowed(m, At(si, i), NeedRead);
      assert At(si, i) in s.mem;
      if si != di {
        forall j: nat | j < k
          ensures At(di, j) != At(si, i)
        {
          Apart(si, di, w, k, i, j);
        }
      } else {
        assert data[i] == ByteAt(m, At(si, i));
        if i < k {
          assert s.mem[At(di, i)].byte == data[i];
        } else {
          forall j: nat | j < k
            ensures At(di, j) != At(si, i)
          {
            if At(di, j) == At(di, i) {
              AtInjective(di, i, j);
              assert false;
            }
          }
        }
      }
    }
    assert Bytes(n, si, w) == Bytes(m, si, w);
  }

  /** Same mappings, same permissions. */
  ghost predicate SameMap(m: Flat, n: Flat) {
    m.Keys == n.Keys && forall a: U64 :: a in m ==> m[a].prot == n[a].prot
  }

  lemma StoreSameMap(m: Flat, addr: U64, data: seq<Byte>)
    ensures SameMap(m, Store(m, addr, data, NeedWrite).mem)
  {
  }

  lemma ElementSameMap(a: Arch, op: StrOp, w: Width, rex: bool)
    ensures SameMap(a.mem, StrElement(a, op, w, rex).arch.mem)
  {
    hide Store, Load, Sub, ReadWidth, WriteWidth, NatToLe, At, Delta;
    var si, di := a.regs.gpr[RSI], a.regs.gpr[RDI];
    if op == Movs && Load(a.mem, si, w, NeedRead).Ok? {
      StoreSameMap(a.mem, di, Load(a.mem, si, w, NeedRead).value);
    } else if op == Stos {
      StoreSameMap(a.mem, di, NatToLe(ReadWidth(a.regs.gpr, RAX, w, rex), w));
    }
  }

  // ---- the loop --------------------------------------------------------------

  /** The state after an element and the decrement of RCX. */
  function Next(a: Arch, rep: Rep): Arch {
    if rep == RepNone then a else WithGpr(a, RCX, At(a.regs.gpr[RCX], -1))
  }

  lemma {:induction false} LoopSameMap(a: Arch, op: StrOp, w: Width, rep: Rep, rex: bool, n: nat)
    ensures SameMap(a.mem, StrLoop(a, op, w, rep, rex, n).arch.mem)
    decreases n
  {
    hide StrElement, StopsLoop;
    if n > 0 {
      ElementSameMap(a, op, w, rex);
      var b := Next(StrElement(a, op, w, rex).arch, rep);
      LoopSameMap(b, op, w, rep, rex, n - 1);
    }
  }

  /** Going down, the element before has written above the destination. */
  ghost predicate Follows(a: Arch, op: StrOp, w: Width) {
    op == Movs && a.regs.flags.df && Allowed(a.mem, At(a.regs.gpr[RDI], w), NeedWrite)
  }

  lemma FollowsHarmless(a: Arch, op: StrOp, w: Width)
    requires Paged(a.mem) && Follows(a, op, w)
    ensures Harmless(a, op, w)
  {
    hide Reach, Beyond, RestOfPage;
    ReachStops(a.mem, a.regs.gpr[RDI], w);
  }

  /** A finished element leaves the rest of the loop restartable. */
  lemma ElementKeeps(a: Arch, op: StrOp, w: Width, rep: Rep, rex: bool, n: nat)
    requires StrElement(a, op, w, rex).error.None? && n > 0
    requires Safe(a.regs, op, w, n) || Follows(a, op, w)
    ensures
      var b := Next(StrElement(a, op, w, rex).arch, rep);
      Safe(b.regs, op, w, n - 1) || Follows(b, op, w)
  {
    hide StrElement, SafeMoves, At;
    if op == Movs {
      MovsMoves(a, w, rex);
      if a.regs.flags.df {
        DownAndUp(a.regs.gpr[RDI], a.regs.flags, w);
      } else {
        SafeNext(a.regs.gpr[RSI], a.regs.gpr[RDI], w, n);
      }
    }
  }

  lemma MovsMoves(a: Arch, w: Width, rex: bool)
    requires StrElement(a, Movs, w, rex).error.None?
    ensures
      var b, d := StrElement(a, Movs, w, rex).arch, Delta(a.regs.flags, w);
      && b.regs == a.regs.(gpr := b.regs.gpr)
      && b.regs.gpr == a.regs.gpr[RSI := At(a.regs.gpr[RSI], d)][RDI := At(a.regs.gpr[RDI], d)]
      && Allowed(b.mem, a.regs.gpr[RDI], NeedWrite)
  {
    hide Load, Delta;
    AtZero(a.regs.gpr[RDI]);
    hide At;
    var di := a.regs.gpr[RDI];
    var data := Load(a.mem, a.regs.gpr[RSI], w, NeedRead).value;
    assert Store(a.mem, di, data, NeedWrite).fault.None?;
    assert Allowed(a.mem, At(di, 0), NeedWrite);
  }

  lemma DownAndUp(di: U64, f: Flags, w: Width)
    requires f.df
    ensures At(At(di, Delta(f, w)), w) == di
  {
  }

  /** An element on: less to do before the end of the page, the rest the same. */
  lemma SafeNext(si: U64, di: U64, w: Width, n: nat)
    requires n > 0 && SafeMoves(si, di, w, n)
    ensures SafeMoves(At(si, w), At(di, w), w, n - 1)
  {
    SameDistance(si, di, w);
    Aligned(di, w);
    PageLeft(di, w);
    hide At, Beyond, RestOfPage;
  }

  lemma Aligned(di: U64, w: Width)
    ensures At(di, w) % w == di % w
  {
    assert At(di, w) == if di + w < 0x1_0000_0000_0000_0000 then di + w else di + w - 0x1_0000_0000_0000_0000;
  }

  lemma PageLeft(di: U64, w: Width)
    ensures RestOfPage(di) > w ==> RestOfPage(At(di, w)) == RestOfPage(di) - w
  {
    assert At(di, w) == if di + w < 0x1_0000_0000_0000_0000 then di + w else di + w - 0x1_0000_0000_0000_0000;
  }

  lemma SameDistance(si: U64, di: U64, d: U64)
    ensures Beyond(At(si, d), At(di, d)) == Beyond(si, di)
    ensures Beyond(At(di, d), At(si, d)) == Beyond(di, si)
    ensures At(si, d) == At(di, d) <==> si == di
  {
    hide At, Beyond;
    AtIs(si, d);
    AtIs(di, d);
    BeyondIs(At(si, d), At(di, d));
    BeyondIs(At(di, d), At(si, d));
    BeyondIs(si, di);
    BeyondIs(di, si);
  }

  lemma AtIs(a: U64, d: U64)
    ensures At(a, d) == if a + d < 0x1_0000_0000_0000_0000 then a + d else a + d - 0x1_0000_0000_0000_0000
  {
  }

  lemma BeyondIs(a: U64, b: U64)
    ensures Beyond(a, b) == if a >= b then a - b else a - b + 0x1_0000_0000_0000_0000
  {
  }

  lemma {:induction false} LoopAgain(a: Arch, op: StrOp, w: Width, rep: Rep, rex: bool, n: nat, repaired: Flat)
    requires n == Iterations(a.regs, rep) && Paged(a.mem) && (Safe(a.regs, op, w, n) || Follows(a, op, w))
    requires var e := StrLoop(a, op, w, rep, rex, n); e.error.Some? && Repairs(e.arch.mem, repaired)
    ensures
      ExecStr(WithMem(StrLoop(a, op, w, rep, rex, n).arch, repaired), op, w, rep, rex) ==
      StrLoop(WithMem(a, Overlay(a.mem, repaired)), op, w, rep, rex, n)
    decreases n
  {
    hide StrElement, StopsLoop, Overlay, Safe, Follows, Harmless, Paged;
    var e := StrElement(a, op, w, rex);
    if e.error.Some? {
      if Follows(a, op, w) {
        FollowsHarmless(a, op, w);
      } else {
        SafeHarmless(a, op, w, n);
      }
      ElementAgain(a, op, w, rex, repaired);
      assert WithMem(e.arch, repaired) == WithMem(a, repaired);
    } else {
      var b := Next(e.arch, rep);
      ElementCount(a, op, w, rex);
      ElementKeeps(a, op, w, rep, rex, n);
      ElementSameMap(a, op, w, rex);
      SamePaged(a.mem, b.mem);
      LoopSameMap(b, op, w, rep, rex, n - 1);
      ElementInOverlay(a, op, w, rex, repaired);
      LoopAgain(b, op, w, rep, rex, n - 1, repaired);
      assert Next(WithMem(e.arch, Overlay(e.arch.mem, repaired)), rep) == WithMem(b, Overlay(b.mem, repaired));
    }
  }

  /** Resuming a loop that faulted, once the fault is repaired, ends in the state
      and with the outcome of one run in the repaired memory: whatever the
      number of elements already done and however often it faults again. */
  lemma LoopRestart(a: Arch, op: StrOp, w: Width, rep: Rep, rex: bool, repaired: Flat)
    requires Paged(a.mem) && Safe(a.regs, op, w, Iterations(a.regs, rep))
    requires var e := ExecStr(a, op, w, rep, rex); e.error.Some? && Repairs(e.arch.mem, repaired)
    ensures
      ExecStr(WithMem(ExecStr(a, op, w, rep, rex).arch, repaired), op, w, rep, rex) ==
      ExecStr(WithMem(a, Overlay(a.mem, repaired)), op, w, rep, rex)
  {
    hide StrLoop, Safe, Paged, Repairs, Overlay;
    LoopAgain(a, op, w, rep, rex, Iterations(a.regs, rep), repaired);
  }

  lemma SamePaged(m: Flat, n: Flat)
    requires Paged(m) && SameMap(m, n)
    ensures Paged(n)
  {
  }

  lemma ElementCount(a: Arch, op: StrOp, w: Width, rex: bool)
    requires StrElement(a, op, w, rex).error.None?
    ensures StrElement(a, op, w, rex).arch.regs.gpr[RCX] == a.regs.gpr[RCX]
  {
    hide Store, Load, Sub, ReadWidth, NatToLe, Delta;
  }

  /** When the hook maps pages, the run resumed ends as one that had the pages
      from the start. */
  lemma MapRestart(a: Arch, op: StrOp, w: Width, rep: Rep, rex: bool, addr: U64, size: U64, prot: Prot)
    requires Paged(a.mem) && Safe(a.regs, op, w, Iterations(a.regs, rep)) && ExecStr(a, op, w, rep, rex).error.Some?
    ensures
      var half := ExecStr(a, op, w, rep, rex).arch;
      ExecStr(WithMem(half, MapRange(half.mem, addr, size, prot)), op, w, rep, rex) ==
      ExecStr(WithMem(a, MapRange(a.mem, addr, size, prot)), op, w, rep, rex)
  {
    hide StrLoop, Safe, MapRange, Paged;
    var n := Iterations(a.regs, rep);
    var half := ExecStr(a, op, w, rep, rex).arch;
    LoopSameMap(a, op, w, rep, rex, n);
    MappingRepairs(half.mem, addr, size, prot);
    OverlayMapped(a.mem, half.mem, addr, size, prot);
    LoopRestart(a, op, w, rep, rex, MapRange(half.mem, addr, size, prot));
  }

  lemma OverlayMapped(m: Flat, half: Flat, addr: U64, size: U64, prot: Prot)
    requires SameMap(m, half)
    ensures Overlay(m, MapRange(half, addr, size, prot)) == MapRange(m, addr, size, prot)
  {
    assert forall x: U64 :: x in m <==> x in half;
    assert MapAccepts(m, addr, size) == MapAccepts(half, addr, size);
    hide MapAccepts;
  }

  /** The instruction as the engine runs it again: the retry of a faulted step
      whose fault the hook repaired, without touching the instruction's own
      bytes, is the step an uninterrupted machine would have made. */
  lemma StepRestart(env: Env, m: Machine, d: Decoded, r: Machine, until: U64)
    requires d.instr.Str? && d.hooked.NotHooked?
    requires Paged(m.arch.mem) && Safe(m.arch.regs, d.instr.str, d.instr.w, Iterations(m.arch.regs, d.instr.rep))
    requires
      var e := Exec(m.arch, At(m.arch.regs.rip, d.len), d.instr);
      && e.error.Some?
      && r.arch.regs == e.arch.regs && Repairs(e.arch.mem, r.arch.mem) && !AtEnd(r, until)
    requires Decode(Code(r.arch.mem), m.arch.regs.rip) == Ok(d)
    requires Decode(Code(Overlay(m.arch.mem, r.arch.mem)), m.arch.regs.rip) == Ok(d)
    ensures Step(env, r, until) == Step(env, r.(arch := WithMem(m.arch, Overlay(m.arch.mem, r.arch.mem))), until)
  {
    hide Decode, Code, Overlay, Repairs, StrLoop, Safe, Recover, Paged;
    var i := d.instr;
    var n := Iterations(m.arch.regs, i.rep);
    var e := StrLoop(m.arch, i.str, i.w, i.rep, i.rex, n);
    var u := WithMem(m.arch, Overlay(m.arch.mem, r.arch.mem));
    assert r.arch == WithMem(e.arch, r.arch.mem);
    LoopKeepsRip(m.arch, i.str, i.w, i.rep, i.rex, n);
    LoopRestart(m.arch, i.str, i.w, i.rep, i.rex, r.arch.mem);
    assert Exec(r.arch, At(m.arch.regs.rip, d.len), i) == Exec(u, At(m.arch.regs.rip, d.len), i);
    assert r.(arch := u).arch == u;
    var end := At(m.arch.regs.rip, d.len);
    assert forall x: Arch :: r.(arch := u).(arch := x) == r.(arch := x);
    assert StepPlain(env, r, d, end) == StepPlain(env, r.(arch := u), d, end);
  }

  lemma {:induction false} LoopKeepsRip(a: Arch, op: StrOp, w: Width, rep: Rep, rex: bool, n: nat)
    ensures StrLoop(a, op, w, rep, rex, n).arch.regs.rip == a.regs.rip
    decreases n
  {
    hide StopsLoop, Store, Load, Sub, ReadWidth, WriteWidth, NatToLe, At, Delta;
    if n > 0 {
      LoopKeepsRip(Next(StrElement(a, op, w, rex).arch, rep), op, w, rep, rex, n - 1);
    }
  }
}
