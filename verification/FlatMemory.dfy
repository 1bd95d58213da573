/** The guest address space as the architecture defines it: a partial map from
    64-bit addresses to a byte and its protection bits.  The paged memory is
    proved to behave exactly like this map. */
module FlatMemory {
  import opened Words

  datatype Prot = Prot(read: bool, write: bool, exec: bool)

  datatype Cell = Cell(byte: Byte, prot: Prot)

  type Flat = map<U64, Cell>

  /** The permission an access needs; host accesses need none. */
  datatype Need = AnyAccess | NeedRead | NeedWrite | NeedExec

  datatype FaultKind = ReadFault | WriteFault | FetchFault

  /** First address that could not be accessed and the bytes left from there. */
  datatype Fault = Fault(kind: FaultKind, addr: U64, size: nat)

  predicate Permits(prot: Prot, need: Need) {
    match need
    case AnyAccess => true
    case NeedRead => prot.read
    case NeedWrite => prot.write
    case NeedExec => prot.exec
  }

  predicate Allowed(mem: Flat, a: U64, need: Need) {
    a in mem && Permits(mem[a].prot, need)
  }

  function KindOf(write: bool, need: Need): FaultKind {
    if need == NeedExec then FetchFault else if write then WriteFault else ReadFault
  }

  /** The address `i` bytes above `addr`, wrapping around. */
  function At(addr: U64, i: int): U64 {
    Wrap64(addr + i)
  }

  /** Number of leading bytes of [addr, addr+n) that may be accessed. */
  function Reach(mem: Flat, addr: U64, n: nat, need: Need): (k: nat)
    ensures k <= n
    ensures forall i: nat :: i < k ==> Allowed(mem, At(addr, i), need)
    ensures k < n ==> !Allowed(mem, At(addr, k), need)
  {
    ReachFrom(mem, addr, 0, n, need)
  }

  function ReachFrom(mem: Flat, addr: U64, i: nat, n: nat, need: Need): (k: nat)
    requires i <= n
    ensures i <= k <= n
    ensures forall j: nat :: i <= j < k ==> Allowed(mem, At(addr, j), need)
    ensures k < n ==> !Allowed(mem, At(addr, k), need)
    decreases n - i
  {
    if i == n || !Allowed(mem, At(addr, i), need) then i
    else ReachFrom(mem, addr, i + 1, n, need)
  }

  /** `Reach` is the only number with its properties. */
  lemma ReachIs(mem: Flat, addr: U64, n: nat, need: Need, k: nat)
    requires k <= n
    requires forall i: nat :: i < k ==> Allowed(mem, At(addr, i), need)
    requires k < n ==> !Allowed(mem, At(addr, k), need)
    ensures Reach(mem, addr, n, need) == k
  {
    var r := Reach(mem, addr, n, need);
    assert !(r < k);
  }

  /** How far `a` lies beyond `addr`, going upwards and around. */
  function Beyond(a: U64, addr: U64): U64 {
    Wrap64(a - addr)
  }

  /** Memory after the bytes `data` were stored from `addr` on. */
  function Poke(mem: Flat, addr: U64, data: seq<Byte>): Flat {
    map a: U64 | a in mem ::
      if Beyond(a, addr) < |data| then Cell(data[Beyond(a, addr)], mem[a].prot) else mem[a]
  }

  datatype Stored = Stored(mem: Flat, fault: Option<Fault>)

  function FaultAt(write: bool, need: Need, addr: U64, k: nat, n: nat): Fault
    requires k <= n
  {
    Fault(KindOf(write, need), At(addr, k), n - k)
  }

  /** A store: everything below the first forbidden byte is written. */
  function Store(mem: Flat, addr: U64, data: seq<Byte>, need: Need): Stored {
    var k := Reach(mem, addr, |data|, need);
    Stored(Poke(mem, addr, data[..k]),
           if k == |data| then None else Some(FaultAt(true, need, addr, k, |data|)))
  }

  function ByteAt(mem: Flat, a: U64): Byte {
    if a in mem then mem[a].byte else 0
  }

  function Bytes(mem: Flat, addr: U64, n: nat): (b: seq<Byte>)
    ensures |b| == n
    ensures forall i: nat :: i < n ==> b[i] == ByteAt(mem, At(addr, i))
  {
    seq<Byte>(n, i requires 0 <= i < n => ByteAt(mem, At(addr, i)))
  }

  function Load(mem: Flat, addr: U64, n: nat, need: Need): (r: Result<seq<Byte>, Fault>)
    ensures r.Ok? ==> |r.value| == n
  {
    var k := Reach(mem, addr, n, need);
    if k == n then Ok(Bytes(mem, addr, n)) else Err(FaultAt(false, need, addr, k, n))
  }

  lemma BeyondShift(a: U64, addr: U64, k: nat)
    requires k <= 0x8000_0000_0000_0000
    ensures Beyond(a, At(addr, k)) ==
            if Beyond(a, addr) >= k then Beyond(a, addr) - k
            else Beyond(a, addr) - k + 0x1_0000_0000_0000_0000
  {
  }

  /** Storing two stretches in a row is storing their concatenation. */
  lemma PokeAppend(mem: Flat, addr: U64, x: seq<Byte>, y: seq<Byte>)
    requires |x| + |y| <= 0x8000_0000_0000_0000
    ensures Poke(Poke(mem, addr, x), At(addr, |x|), y) == Poke(mem, addr, x + y)
  {
    hide Beyond, At;
    forall a: U64 | a in mem
      ensures Poke(Poke(mem, addr, x), At(addr, |x|), y)[a] == Poke(mem, addr, x + y)[a]
    {
      BeyondShift(a, addr, |x|);
    }
  }

  lemma BeyondInPage(a: U64, cur: U64, n: nat)
    requires cur % 0x1000 + n <= 0x1000
    ensures Beyond(a, cur) < n <==> cur <= a < cur + n
    ensures Beyond(a, cur) < n ==>
              && a == cur + Beyond(a, cur)
              && a - a % 0x1000 == cur - cur % 0x1000
              && a % 0x1000 == cur % 0x1000 + Beyond(a, cur)
  {
    assert Beyond(a, cur) == if a >= cur then a - cur else a - cur + 0x1_0000_0000_0000_0000;
  }

  /** A store that stays inside one page, address by address. */
  lemma PokeInPage(mem: Flat, cur: U64, chunk: seq<Byte>, a: U64)
    requires a in mem && cur % 0x1000 + |chunk| <= 0x1000
    ensures Poke(mem, cur, chunk)[a] ==
            if cur <= a < cur + |chunk| then Cell(chunk[a - cur], mem[a].prot) else mem[a]
  {
    hide Beyond;
    BeyondInPage(a, cur, |chunk|);
  }

  /** Storing what is already there, or outside executable memory, changes no code. */
  lemma PokeKeepsCode(mem: Flat, addr: U64, data: seq<Byte>)
    requires forall a: U64 :: Allowed(mem, a, NeedExec) && Beyond(a, addr) < |data| ==>
               data[Beyond(a, addr)] == mem[a].byte
    ensures Code(Poke(mem, addr, data)) == Code(mem)
  {
  }

  lemma PokeNext(mem: Flat, addr: U64, buf: seq<Byte>, off: nat, n: nat)
    requires off + n <= |buf| <= 0x8000_0000_0000_0000
    ensures Poke(Poke(mem, addr, buf[..off]), At(addr, off), buf[off..off + n]) ==
            Poke(mem, addr, buf[..off + n])
  {
    PokeAppend(mem, addr, buf[..off], buf[off..off + n]);
    assert buf[..off] + buf[off..off + n] == buf[..off + n];
  }

  lemma PokeNothing(mem: Flat, addr: U64)
    ensures Poke(mem, addr, []) == mem
  {
  }

  lemma LoadIs(mem: Flat, addr: U64, n: nat, need: Need)
    ensures Load(mem, addr, n, need) ==
            if Reach(mem, addr, n, need) == n then Ok(Bytes(mem, addr, n))
            else Err(FaultAt(false, need, addr, Reach(mem, addr, n, need), n))
  {
  }

  // ---- mappings --------------------------------------------------------------

  function PageBase(a: U64): U64 {
    a - a % 0x1000
  }

  lemma PageBaseIs(a: U64, pa: U64)
    requires PageAligned(pa)
    ensures PageBase(a) == pa <==> pa <= a < pa + 0x1000
  {
  }

  lemma PageBaseAligned(a: U64)
    ensures PageAligned(PageBase(a)) && PageBase(PageBase(a)) == PageBase(a)
    ensures PageAligned(a) ==> PageBase(a) == a
  {
  }

  /** Ranges that start and end at pages contain an address or its whole page. */
  lemma PageRange(a: U64, lo: U64, hi: U64)
    requires PageAligned(lo) && PageAligned(hi)
    ensures lo <= PageBase(a) < hi <==> lo <= a < hi
  {
  }

  /** End of the page range that MemUnmap and MemProtect visit, with the
      wrap-around of their 64-bit arithmetic. */
  function PageEnd(addr: U64, size: U64): U64 {
    Wrap64(PageBase(Wrap64(addr + size - 1)) + 0x1000)
  }

  predicate PageAligned(x: U64) {
    x % 0x1000 == 0
  }

  predicate AnyMapped(mem: Flat, lo: U64, hi: U64) {
    exists a: U64 :: lo <= a < hi && a in mem
  }

  predicate MapAccepts(mem: Flat, addr: U64, size: U64) {
    && PageAligned(addr) && size != 0 && PageAligned(size)
    && !AnyMapped(mem, addr, Wrap64(addr + size))
  }

  /** Fresh zeroed cells on [addr, addr+size), or the memory as it was. */
  function MapRange(mem: Flat, addr: U64, size: U64, prot: Prot): Flat {
    if MapAccepts(mem, addr, size)
    then map a: U64 | a in mem || addr <= a < Wrap64(addr + size) ::
        if a in mem then mem[a] else Cell(0, prot)
    else mem
  }

  function UnmapRange(mem: Flat, addr: U64, size: U64): Flat {
    map a: U64 | a in mem && !(PageBase(addr) <= a < PageEnd(addr, size)) :: mem[a]
  }

  function ProtectRange(mem: Flat, addr: U64, size: U64, prot: Prot): Flat {
    map a: U64 | a in mem ::
      if PageBase(addr) <= a < PageEnd(addr, size) then Cell(mem[a].byte, prot) else mem[a]
  }

  // ---- code view -------------------------------------------------------------

  /** The executable bytes: all that instruction fetch can see. */
  ghost function Code(mem: Flat): map<U64, Byte> {
    map a: U64 | Allowed(mem, a, NeedExec) :: mem[a].byte
  }

  /** A memory holding nothing but the given executable bytes. */
  ghost function OnlyCode(code: map<U64, Byte>): Flat {
    map a: U64 | a in code :: Cell(code[a], Prot(false, false, true))
  }

  /** An instruction fetch sees nothing but executable bytes: mappings, data
      and the other permissions of the memory make no difference to it. */
  lemma FetchSeesCodeOnly(mem: Flat, addr: U64, size: nat)
    ensures Load(mem, addr, size, NeedExec) == Load(OnlyCode(Code(mem)), addr, size, NeedExec)
  {
    var only := OnlyCode(Code(mem));
    assert forall a: U64 :: Allowed(mem, a, NeedExec) <==> a in Code(mem);
    assert forall a: U64 :: Allowed(only, a, NeedExec) <==> a in Code(mem);
    var k := Reach(mem, addr, size, NeedExec);
    ReachIs(only, addr, size, NeedExec, k);
    if k == size {
      forall i: nat | i < size
        ensures Bytes(mem, addr, size)[i] == Bytes(only, addr, size)[i]
      {
        assert Allowed(mem, At(addr, i), NeedExec);
      }
      assert Bytes(mem, addr, size) == Bytes(only, addr, size);
    }
  }

  // ---- what loads and stores mean --------------------------------------------

  /** The address is mapped and carries the bit that the access asks for. */
  predicate Open(mem: Flat, a: U64, need: Need) {
    a in mem &&
    var p := mem[a].prot;
    (need.NeedRead? ==> p.read) && (need.NeedWrite? ==> p.write) && (need.NeedExec? ==> p.exec)
  }

  /** A load either returns the bytes of its range or faults at the first address
      that forbids it, with the number of bytes left from there. */
  lemma LoadExact(mem: Flat, addr: U64, n: nat, need: Need)
    ensures
      match Load(mem, addr, n, need)
      case Ok(b) =>
        |b| == n && forall i: nat :: i < n ==> Open(mem, At(addr, i), need) && b[i] == mem[At(addr, i)].byte
      case Err(f) =>
        && 0 < f.size <= n && f.addr == At(addr, n - f.size)
        && f.kind == (if need == NeedExec then FetchFault else ReadFault)
        && !Open(mem, f.addr, need)
        && forall i: nat :: i < n - f.size ==> Open(mem, At(addr, i), need)
  {
    forall i: nat | i < Reach(mem, addr, n, need)
      ensures Open(mem, At(addr, i), need)
    {
      assert Allowed(mem, At(addr, i), need);
    }
  }

  /** A store either writes exactly its range or faults at the first address
      that forbids it, with the number of bytes left, having written exactly the
      bytes below; nothing else changes. */
  lemma StoreExact(mem: Flat, addr: U64, data: seq<Byte>, need: Need)
    requires |data| <= 0x8000_0000_0000_0000
    ensures
      var s := Store(mem, addr, data, need);
      var k := if s.fault.None? then |data| else |data| - s.fault.value.size;
      && 0 <= k <= |data|
      && (s.fault.None? <==> forall i: nat :: i < |data| ==> Open(mem, At(addr, i), need))
      && (s.fault.Some? ==>
            && k < |data| && s.fault.value.addr == At(addr, k) && !Open(mem, At(addr, k), need)
            && s.fault.value.kind == if need == NeedExec then FetchFault else WriteFault)
      && (forall i: nat :: i < k ==>
            Open(mem, At(addr, i), need) && s.mem[At(addr, i)] == Cell(data[i], mem[At(addr, i)].prot))
      && s.mem.Keys == mem.Keys
      && (forall a: U64 :: a in mem && (forall i: nat :: i < k ==> At(addr, i) != a) ==> s.mem[a] == mem[a])
  {
    var k := Reach(mem, addr, |data|, need);
    var after := Poke(mem, addr, data[..k]);
    forall i: nat | i < k
      ensures after[At(addr, i)] == Cell(data[i], mem[At(addr, i)].prot)
    {
      assert Allowed(mem, At(addr, i), need);
      BeyondAt(addr, i);
    }
    forall a: U64 | a in mem && forall i: nat :: i < k ==> At(addr, i) != a
      ensures after[a] == mem[a]
    {
      if Beyond(a, addr) < k {
        AtBeyond(a, addr);
        assert false;
      }
    }
  }

  lemma BeyondAt(addr: U64, i: nat)
    requires i < 0x1_0000_0000_0000_0000
    ensures Beyond(At(addr, i), addr) == i
  {
  }

  lemma AtBeyond(a: U64, addr: U64)
    ensures At(addr, Beyond(a, addr)) == a
  {
  }

  /** What a store wrote is what a load of the same range returns. */
  lemma LoadAfterStore(mem: Flat, addr: U64, data: seq<Byte>, need: Need, reading: Need)
    requires |data| <= 0x8000_0000_0000_0000
    requires Store(mem, addr, data, need).fault.None?
    requires Reach(mem, addr, |data|, reading) == |data|
    ensures Load(Store(mem, addr, data, need).mem, addr, |data|, reading) == Ok(data)
  {
    var after := Store(mem, addr, data, need).mem;
    StoreExact(mem, addr, data, need);
    forall i: nat | i < |data|
      ensures Allowed(after, At(addr, i), reading) && ByteAt(after, At(addr, i)) == data[i]
    {
      assert Allowed(mem, At(addr, i), reading);
    }
    ReachIs(after, addr, |data|, reading, |data|);
    assert Bytes(after, addr, |data|) == data;
  }

  // ---- what mapping, unmapping and protecting a range mean -------------------

  /** Some byte of [addr, addr+size) lies in the page that holds `a`. */
  ghost predicate Touched(a: U64, addr: U64, size: U64) {
    exists b: U64 :: addr <= b < addr + size && b / 0x1000 == a / 0x1000
  }

  const LAST_PAGE: U64 := 0xFFFF_FFFF_FFFF_F000

  /** The cells that MemUnmap and MemProtect reach: those of the pages the range
      touches if it ends below the last page of the address space.  A range that
      ends in the last page reaches nothing.  One that is empty, or runs past the
      end of the address space, reaches the page of its first byte, if that is not
      the last page and also holds the address before the range's end, modulo 2^64. */
  ghost predicate Reached(a: U64, addr: U64, size: U64) {
    if size > 0 && addr + size <= 0x1_0000_0000_0000_0000
    then addr + size <= LAST_PAGE && Touched(a, addr, size)
    else
      && a / 0x1000 == addr / 0x1000 && addr < LAST_PAGE
      && if size == 0 then addr % 0x1000 != 0
         else (addr + size - 1 - 0x1_0000_0000_0000_0000) / 0x1000 == addr / 0x1000
  }

  lemma TouchedIs(a: U64, addr: U64, size: U64)
    requires size > 0 && addr + size <= 0x1_0000_0000_0000_0000
    ensures Touched(a, addr, size) <==> addr / 0x1000 <= a / 0x1000 <= (addr + size - 1) / 0x1000
  {
    if addr / 0x1000 <= a / 0x1000 <= (addr + size - 1) / 0x1000 {
      var b: U64 := if addr / 0x1000 == a / 0x1000 then addr else a / 0x1000 * 0x1000;
      assert addr <= b < addr + size && b / 0x1000 == a / 0x1000;
    }
  }

  /** The page range in page numbers. */
  lemma RangeInPages(a: U64, addr: U64, size: U64)
    ensures
      var last := Wrap64(addr + size - 1);
      PageBase(addr) <= a < PageEnd(addr, size) <==> last < LAST_PAGE && addr / 0x1000 <= a / 0x1000 <= last / 0x1000
  {
    hide Wrap64;
    var last := Wrap64(addr + size - 1);
    PageNumbers(addr);
    PageNumbers(last);
    PageNumbers(a);
    if last < LAST_PAGE {
      WrapSmall(PageBase(last) + 0x1000);
    } else {
      WrapTop(PageBase(last) + 0x1000);
    }
  }

  lemma PageNumbers(a: U64)
    ensures PageBase(a) == a / 0x1000 * 0x1000 && a / 0x1000 * 0x1000 <= a < a / 0x1000 * 0x1000 + 0x1000
    ensures a < LAST_PAGE <==> a / 0x1000 < 0xF_FFFF_FFFF_FFFF
    ensures a / 0x1000 <= 0xF_FFFF_FFFF_FFFF
  {
  }

  lemma WrapSmall(x: int)
    requires 0 <= x < 0x1_0000_0000_0000_0000
    ensures Wrap64(x) == x
  {
  }

  lemma WrapTop(x: int)
    requires x == 0x1_0000_0000_0000_0000
    ensures Wrap64(x) == 0
  {
  }

  lemma WrapLast(addr: U64, size: U64)
    ensures
      var last := addr + size - 1;
      Wrap64(last) == if last < 0 then 0xFFFF_FFFF_FFFF_FFFF
                      else if last < 0x1_0000_0000_0000_0000 then last else last - 0x1_0000_0000_0000_0000
  {
  }

  lemma ReachedIs(a: U64, addr: U64, size: U64)
    ensures PageBase(addr) <= a < PageEnd(addr, size) <==> Reached(a, addr, size)
  {
    hide PageBase, PageEnd, Wrap64, Touched;
    RangeInPages(a, addr, size);
    WrapLast(addr, size);
    PageNumbers(addr);
    PageNumbers(Wrap64(addr + size - 1));
    if size > 0 && addr + size <= 0x1_0000_0000_0000_0000 {
      TouchedIs(a, addr, size);
    }
  }

  /** MemUnmap, address by address, with no word of page bases and ends. */
  lemma UnmapExactly(mem: Flat, addr: U64, size: U64)
    ensures forall a: U64 :: a in UnmapRange(mem, addr, size) <==> a in mem && !Reached(a, addr, size)
    ensures forall a: U64 :: a in UnmapRange(mem, addr, size) ==> UnmapRange(mem, addr, size)[a] == mem[a]
  {
    forall a: U64
      ensures a in UnmapRange(mem, addr, size) <==> a in mem && !Reached(a, addr, size)
    {
      ReachedIs(a, addr, size);
    }
  }

  lemma ProtectExactly(mem: Flat, addr: U64, size: U64, prot: Prot)
    ensures ProtectRange(mem, addr, size, prot).Keys == mem.Keys
    ensures forall a: U64 :: a in mem ==>
              ProtectRange(mem, addr, size, prot)[a] ==
              if Reached(a, addr, size) then Cell(mem[a].byte, prot) else mem[a]
  {
    forall a: U64 | a in mem
      ensures ProtectRange(mem, addr, size, prot)[a] ==
              if Reached(a, addr, size) then Cell(mem[a].byte, prot) else mem[a]
    {
      ReachedIs(a, addr, size);
    }
  }

  /** MemUnmap removes, in every memory, exactly the pages that a range touches if
      and only if the range does not reach into the last page. */
  lemma UnmapsTouchedExactlyWhen(addr: U64, size: U64)
    requires size > 0 && addr + size <= 0x1_0000_0000_0000_0000
    ensures
      (forall mem: Flat, a: U64 :: a in mem ==> (a in UnmapRange(mem, addr, size) <==> !Touched(a, addr, size)))
      <==> addr + size <= LAST_PAGE
  {
    if addr + size <= LAST_PAGE {
      forall mem: Flat, a: U64 | a in mem
        ensures a in UnmapRange(mem, addr, size) <==> !Touched(a, addr, size)
      {
        UnmapExactly(mem, addr, size);
      }
    } else {
      var mem: Flat := map[addr := Cell(0, Prot(false, false, false))];
      UnmapExactly(mem, addr, size);
      assert addr in mem && addr in UnmapRange(mem, addr, size);
      TouchedIs(addr, addr, size);
    }
  }

  /** MemMap adds zeroed cells on exactly the range asked for and keeps all others,
      or, if it refuses, all.  It refuses exactly what is not aligned, is empty, or
      has an address mapped already; a range that ends at or beyond the end of the
      address space is never refused for that, and nothing is mapped. */
  lemma MapExactly(mem: Flat, addr: U64, size: U64, prot: Prot)
    ensures
      var fits := addr + size < 0x1_0000_0000_0000_0000;
      var free := forall a: U64 :: addr <= a < addr + size ==> a !in mem;
      var after := MapRange(mem, addr, size, prot);
      && (MapAccepts(mem, addr, size) <==>
            addr % 0x1000 == 0 && size > 0 && size % 0x1000 == 0 && (fits ==> free))
      && (forall a: U64 :: a in after <==>
            a in mem || (MapAccepts(mem, addr, size) && fits && addr <= a < addr + size))
      && (forall a: U64 :: a in after ==> after[a] == if a in mem then mem[a] else Cell(0, prot))
  {
    var end := Wrap64(addr + size);
    assert addr + size < 0x1_0000_0000_0000_0000 ==> end == addr + size;
    assert addr + size >= 0x1_0000_0000_0000_0000 ==> end < addr;
  }
}
