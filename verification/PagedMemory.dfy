/** Sparse page memory with a one-entry lookup cache (internal/cpu/memory.go).
    Every method is specified by the flat memory it stands for. */
module PagedMemory {
  import opened Words
  import opened FlatMemory

  /** Backing store of one 4 KiB page and its protection bits.  The array is a
      value inside the struct, so it is a sequence that writes reassign. */
  class Page {
    var data: seq<Byte>
    var prot: Prot
    /** The address at which the page is mapped. */
    ghost const base: U64

    constructor (data: seq<Byte>, prot: Prot, ghost base: U64)
      ensures this.data == data && this.prot == prot && this.base == base
    {
      this.data, this.prot, this.base := data, prot, base;
    }
  }

  function Zeros(): seq<Byte> {
    seq<Byte>(0x1000, _ => 0)
  }

  /** The longest slice the host can hold. */
  const MAX_SLICE: nat := 0x7fff_ffff_ffff_ffff

  /** The value of a page. */
  datatype Contents = Contents(data: seq<Byte>, prot: Prot)

  type PageTable = map<U64, Contents>

  ghost predicate WellFormed(store: PageTable) {
    forall pa: U64 :: pa in store ==> PageAligned(pa) && |store[pa].data| == 0x1000
  }

  /** The address space that a set of pages stands for. */
  ghost function Flatten(store: PageTable): Flat
    requires WellFormed(store)
  {
    map a: U64 | PageBase(a) in store ::
      Cell(store[PageBase(a)].data[a % 0x1000], store[PageBase(a)].prot)
  }

  /** Marks the addresses at which the tie between pages and addresses is wanted. */
  ghost predicate Probe(a: U64) {
    true
  }

  /** `flat` is what the pages stand for. */
  ghost predicate Tied(flat: Flat, store: PageTable)
    requires WellFormed(store)
  {
    forall a: U64 {:trigger Probe(a)} :: Probe(a) ==>
      && (a in flat <==> PageBase(a) in store)
      && (a in flat ==> flat[a] == Cell(store[PageBase(a)].data[a % 0x1000], store[PageBase(a)].prot))
  }

  lemma TiedIsFlatten(flat: Flat, store: PageTable)
    requires WellFormed(store)
    ensures Tied(flat, store) <==> flat == Flatten(store)
  {
    if Tied(flat, store) {
      forall a: U64
        ensures a in flat <==> a in Flatten(store)
        ensures a in flat ==> flat[a] == Flatten(store)[a]
      {
        assert Probe(a);
      }
    }
  }

  /** Whole pages: mapping and permission are the same throughout a page. */
  ghost predicate Paged(mem: Flat) {
    forall a: U64, b: U64 :: PageBase(a) == PageBase(b) ==>
      (a in mem <==> b in mem) && (a in mem ==> mem[a].prot == mem[b].prot)
  }

  /** The pages of such a memory. */
  ghost function PagesOf(mem: Flat): PageTable {
    map pa: U64 | pa in mem && PageAligned(pa) ::
      Contents(seq<Byte>(0x1000, i requires 0 <= i < 0x1000 => ByteAt(mem, At(pa, i))), mem[pa].prot)
  }

  /** Page tables stand for the memories made of whole pages, and for no others. */
  lemma PagedExactly(mem: Flat)
    ensures Paged(mem) <==> exists store: PageTable :: WellFormed(store) && Flatten(store) == mem
  {
    hide Paged, PagesOf, Flatten, WellFormed;
    if Paged(mem) {
      forall a: U64
        ensures WellFormed(PagesOf(mem)) && (a in mem <==> a in Flatten(PagesOf(mem)))
        ensures a in mem ==> mem[a] == Flatten(PagesOf(mem))[a]
      {
        PageBack(mem, a);
      }
      PageBack(mem, 0);
      assert Flatten(PagesOf(mem)) == mem;
    }
    forall store: PageTable | WellFormed(store)
      ensures Paged(Flatten(store))
    {
      FlattenPaged(store);
    }
  }

  lemma FlattenPaged(store: PageTable)
    requires WellFormed(store)
    ensures Paged(Flatten(store))
  {
    hide PageBase;
  }

  lemma PageBack(mem: Flat, a: U64)
    requires Paged(mem)
    ensures WellFormed(PagesOf(mem)) && (a in mem <==> a in Flatten(PagesOf(mem)))
    ensures a in mem ==> mem[a] == Flatten(PagesOf(mem))[a]
  {
    hide PageBase;
    PageBaseAligned(a);
    AtPage(a);
    assert a in mem <==> PageBase(a) in mem;
  }

  lemma AtPage(a: U64)
    ensures At(PageBase(a), a % 0x1000) == a
  {
  }

  function Splice(data: seq<Byte>, at: nat, chunk: seq<Byte>): seq<Byte>
    requires at + |chunk| <= |data|
  {
    data[..at] + chunk + data[at + |chunk|..]
  }

  lemma SpliceAt(data: seq<Byte>, at: nat, chunk: seq<Byte>, k: nat)
    requires at + |chunk| <= |data| && k < |data|
    ensures |Splice(data, at, chunk)| == |data|
    ensures Splice(data, at, chunk)[k] == if at <= k < at + |chunk| then chunk[k - at] else data[k]
  {
  }

  /** Overwriting part of a page is a store into the address space. */
  lemma SpliceIsPoke(store: PageTable, cur: U64, chunk: seq<Byte>)
    requires WellFormed(store) && PageBase(cur) in store && cur % 0x1000 + |chunk| <= 0x1000
    ensures WellFormed(Spliced(store, cur, chunk))
    ensures Flatten(Spliced(store, cur, chunk)) == Poke(Flatten(store), cur, chunk)
  {
    hide PageBase, Splice;
    SpliceWell(store, cur, chunk);
    var f, g := Flatten(Spliced(store, cur, chunk)), Poke(Flatten(store), cur, chunk);
    forall a: U64 | PageBase(a) in store
      ensures f[a] == g[a]
    {
      SplicedByte(store, cur, chunk, a);
    }
  }

  lemma SpliceWell(store: PageTable, cur: U64, chunk: seq<Byte>)
    requires WellFormed(store) && PageBase(cur) in store && cur % 0x1000 + |chunk| <= 0x1000
    ensures WellFormed(Spliced(store, cur, chunk)) && Spliced(store, cur, chunk).Keys == store.Keys
  {
    hide PageBase;
  }

  lemma SplicedByte(store: PageTable, cur: U64, chunk: seq<Byte>, a: U64)
    requires WellFormed(store) && PageBase(cur) in store && cur % 0x1000 + |chunk| <= 0x1000 && PageBase(a) in store
    ensures WellFormed(Spliced(store, cur, chunk))
    ensures Flatten(Spliced(store, cur, chunk))[a] == Poke(Flatten(store), cur, chunk)[a]
  {
    hide Poke, Splice, Beyond;
    SpliceWell(store, cur, chunk);
    PokeInPage(Flatten(store), cur, chunk, a);
    SpliceAt(store[PageBase(cur)].data, cur % 0x1000, chunk, a % 0x1000);
    PageBaseIs(a, PageBase(cur));
  }

  /** The pages after `chunk` was written into the page of `cur`. */
  ghost function Spliced(store: PageTable, cur: U64, chunk: seq<Byte>): PageTable
    requires WellFormed(store) && PageBase(cur) in store && cur % 0x1000 + |chunk| <= 0x1000
  {
    var page := store[PageBase(cur)];
    store[PageBase(cur) := Contents(Splice(page.data, cur % 0x1000, chunk), page.prot)]
  }

  lemma SamePage(a: U64, b: U64)
    requires a - a % 0x1000 == b - b % 0x1000
    ensures PageBase(a) == PageBase(b)
  {
  }

  /** Rewriting bytes that are already there, or a page without execute
      permission, leaves the code as it was. */
  lemma SpliceKeepsCode(store: PageTable, cur: U64, chunk: seq<Byte>)
    requires WellFormed(store) && PageBase(cur) in store && cur % 0x1000 + |chunk| <= 0x1000
    requires store[PageBase(cur)].prot.exec ==>
               store[PageBase(cur)].data[cur % 0x1000..cur % 0x1000 + |chunk|] == chunk
    ensures Code(Poke(Flatten(store), cur, chunk)) == Code(Flatten(store))
  {
    hide Beyond, PageBase;
    forall a: U64 | Allowed(Flatten(store), a, NeedExec) && Beyond(a, cur) < |chunk|
      ensures chunk[Beyond(a, cur)] == Flatten(store)[a].byte
    {
      BeyondInPage(a, cur, |chunk|);
      SamePage(a, cur);
      var data := store[PageBase(cur)].data;
      assert data[cur % 0x1000..cur % 0x1000 + |chunk|][Beyond(a, cur)] == data[a % 0x1000];
    }
    PokeKeepsCode(Flatten(store), cur, chunk);
  }

  /** What one write into a page does to both views of memory. */
  lemma SpliceStep(flat: Flat, store: PageTable, cur: U64, chunk: seq<Byte>)
    requires WellFormed(store) && Tied(flat, store)
    requires PageBase(cur) in store && cur % 0x1000 + |chunk| <= 0x1000
    ensures
      var page, after := store[PageBase(cur)], Spliced(store, cur, chunk);
      && WellFormed(after) && Tied(Poke(flat, cur, chunk), after)
      && after.Keys == store.Keys
      && after[PageBase(cur)] == Contents(Splice(page.data, cur % 0x1000, chunk), page.prot)
      && (forall pa: U64 :: pa in store && pa != PageBase(cur) ==> after[pa] == store[pa])
      && (!page.prot.exec || page.data[cur % 0x1000..cur % 0x1000 + |chunk|] == chunk ==>
            Code(Poke(flat, cur, chunk)) == Code(flat))
  {
    TiedIsFlatten(flat, store);
    SpliceIsPoke(store, cur, chunk);
    TiedIsFlatten(Poke(flat, cur, chunk), Spliced(store, cur, chunk));
    var page := store[PageBase(cur)];
    if !page.prot.exec || page.data[cur % 0x1000..cur % 0x1000 + |chunk|] == chunk {
      SpliceKeepsCode(store, cur, chunk);
    }
  }

  // ---- mapping changes, page by page -----------------------------------------

  /** The page table with fresh pages on [lo, hi). */
  ghost function MapPages(store: PageTable, lo: U64, hi: nat, prot: Prot): PageTable {
    map pa: U64 | pa in store || (lo <= pa < hi && PageAligned(pa)) ::
      if pa in store then store[pa] else Contents(Zeros(), prot)
  }

  lemma MapNoPages(store: PageTable, lo: U64, hi: nat, prot: Prot)
    requires hi <= lo
    ensures MapPages(store, lo, hi, prot) == store
  {
  }

  lemma MapOnePage(store: PageTable, lo: U64, a: U64, prot: Prot)
    requires lo <= a && PageAligned(a) && PageAligned(lo) && a !in store
    ensures a !in MapPages(store, lo, a, prot)
    ensures MapPages(store, lo, a, prot)[a := Contents(Zeros(), prot)] ==
            MapPages(store, lo, a + 0x1000, prot)
  {
  }

  lemma MapMeaning(flat: Flat, store: PageTable, addr: U64, size: U64, prot: Prot)
    requires WellFormed(store) && Tied(flat, store)
    ensures
      var end := Wrap64(addr + size);
      && (MapAccepts(flat, addr, size) <==>
            && PageAligned(addr) && size != 0 && PageAligned(size)
            && forall pa: U64 :: addr <= pa < end && PageAligned(pa) ==> pa !in store)
      && (MapAccepts(flat, addr, size) ==>
            && WellFormed(MapPages(store, addr, end, prot))
            && Tied(MapRange(flat, addr, size, prot), MapPages(store, addr, end, prot)))
      && (!MapAccepts(flat, addr, size) ==> MapRange(flat, addr, size, prot) == flat)
  {
    var end := Wrap64(addr + size);
    hide PageBase;
    forall a: U64
      ensures a in flat <==> PageBase(a) in store
      ensures PageAligned(PageBase(a)) && (PageAligned(a) ==> PageBase(a) == a)
      ensures PageAligned(addr) && PageAligned(size) ==> (addr <= PageBase(a) < end <==> addr <= a < end)
    {
      assert Probe(a);
      PageBaseAligned(a);
      if PageAligned(addr) && PageAligned(size) {
        PageRange(a, addr, end);
      }
    }
    if MapAccepts(flat, addr, size) {
      MapTied(flat, store, addr, size, prot);
    }
  }

  lemma MapTied(flat: Flat, store: PageTable, addr: U64, size: U64, prot: Prot)
    requires WellFormed(store) && Tied(flat, store) && MapAccepts(flat, addr, size)
    ensures WellFormed(MapPages(store, addr, Wrap64(addr + size), prot))
    ensures Tied(MapRange(flat, addr, size, prot), MapPages(store, addr, Wrap64(addr + size), prot))
  {
    hide MapRange, MapPages, MapAccepts, PageBase, Wrap64;
    MapWell(store, addr, Wrap64(addr + size), prot);
    forall a: U64 | Probe(a)
      ensures
        var mapped, after := MapRange(flat, addr, size, prot), MapPages(store, addr, Wrap64(addr + size), prot);
        && (a in mapped <==> PageBase(a) in after)
        && (a in mapped ==> mapped[a] == Cell(after[PageBase(a)].data[a % 0x1000], after[PageBase(a)].prot))
    {
      MapTiedAt(flat, store, addr, size, prot, a);
    }
  }

  lemma MapWell(store: PageTable, lo: U64, hi: U64, prot: Prot)
    requires WellFormed(store)
    ensures WellFormed(MapPages(store, lo, hi, prot))
  {
  }

  lemma EndAligned(flat: Flat, addr: U64, size: U64)
    requires MapAccepts(flat, addr, size)
    ensures PageAligned(addr) && PageAligned(Wrap64(addr + size))
  {
  }

  lemma MapTiedAt(flat: Flat, store: PageTable, addr: U64, size: U64, prot: Prot, a: U64)
    requires WellFormed(store) && Tied(flat, store) && MapAccepts(flat, addr, size)
    ensures
      var mapped, after := MapRange(flat, addr, size, prot), MapPages(store, addr, Wrap64(addr + size), prot);
      && WellFormed(after) && (a in mapped <==> PageBase(a) in after)
      && (a in mapped ==> mapped[a] == Cell(after[PageBase(a)].data[a % 0x1000], after[PageBase(a)].prot))
  {
    hide PageBase, MapAccepts, Wrap64;
    EndAligned(flat, addr, size);
    PageBaseAligned(a);
    PageRange(a, addr, Wrap64(addr + size));
    assert Probe(a);
  }

  ghost function UnmapPages(store: PageTable, lo: U64, hi: nat): PageTable {
    map pa: U64 | pa in store && !(lo <= pa < hi) :: store[pa]
  }

  ghost function ProtectPages(store: PageTable, lo: U64, hi: nat, prot: Prot): PageTable {
    map pa: U64 | pa in store :: if lo <= pa < hi then Contents(store[pa].data, prot) else store[pa]
  }

  lemma ChangeNoPages(store: PageTable, lo: U64, hi: nat, prot: Prot)
    requires hi <= lo
    ensures UnmapPages(store, lo, hi) == store && ProtectPages(store, lo, hi, prot) == store
  {
  }

  lemma ChangeOnePage(store: PageTable, lo: U64, a: U64, prot: Prot)
    requires WellFormed(store) && lo <= a && PageAligned(a) && PageAligned(lo)
    ensures UnmapPages(store, lo, a) - {a} == UnmapPages(store, lo, a + 0x1000)
    ensures ProtectPages(store, lo, a + 0x1000, prot) ==
            if a in store then ProtectPages(store, lo, a, prot)[a := Contents(store[a].data, prot)]
            else ProtectPages(store, lo, a, prot)
    ensures a in store ==> ProtectPages(store, lo, a, prot)[a].data == store[a].data
  {
  }

  lemma RangeAligned(addr: U64, size: U64)
    ensures PageAligned(PageBase(addr)) && PageAligned(PageEnd(addr, size))
  {
    PageBaseAligned(addr);
    PageBaseAligned(Wrap64(addr + size - 1));
    hide Wrap64, PageBase;
    WrapAligned(PageBase(Wrap64(addr + size - 1)), 0x1000);
  }

  lemma WrapAligned(x: U64, y: U64)
    requires PageAligned(x) && PageAligned(y)
    ensures PageAligned(Wrap64(x + y))
  {
    assert Wrap64(x + y) == if x + y < 0x1_0000_0000_0000_0000 then x + y else x + y - 0x1_0000_0000_0000_0000;
  }

  lemma AtZero(addr: U64)
    ensures At(addr, 0) == addr && Wrap64(addr + 0) == addr
  {
  }

  /** From page to page, never past an aligned end. */
  lemma NextPage(a: nat, end: nat)
    requires a % 0x1000 == 0 && end % 0x1000 == 0 && a < end
    ensures (a + 0x1000) % 0x1000 == 0 && a + 0x1000 <= end
  {
  }

  lemma UnmapMeaning(flat: Flat, store: PageTable, addr: U64, size: U64)
    requires WellFormed(store) && Tied(flat, store)
    ensures
      var base, end := PageBase(addr), PageEnd(addr, size);
      WellFormed(UnmapPages(store, base, end)) && Tied(UnmapRange(flat, addr, size), UnmapPages(store, base, end))
  {
    RangeAligned(addr, size);
    hide PageBase, PageEnd, PageAligned;
    var base, end := PageBase(addr), PageEnd(addr, size);
    forall a: U64 | Probe(a)
      ensures base <= PageBase(a) < end <==> base <= a < end
    {
      PageRange(a, base, end);
    }
  }

  lemma ProtectMeaning(flat: Flat, store: PageTable, addr: U64, size: U64, prot: Prot)
    requires WellFormed(store) && Tied(flat, store)
    ensures
      var base, end := PageBase(addr), PageEnd(addr, size);
      WellFormed(ProtectPages(store, base, end, prot)) &&
      Tied(ProtectRange(flat, addr, size, prot), ProtectPages(store, base, end, prot))
  {
    RangeAligned(addr, size);
    hide PageBase, PageEnd, PageAligned;
    var base, end := PageBase(addr), PageEnd(addr, size);
    forall a: U64 | Probe(a)
      ensures base <= PageBase(a) < end <==> base <= a < end
    {
      PageRange(a, base, end);
    }
  }

  lemma ChangeMeaning(flat: Flat, store: PageTable, addr: U64, size: U64, prot: Prot)
    requires WellFormed(store) && Tied(flat, store)
    ensures
      var base, end := PageBase(addr), PageEnd(addr, size);
      && PageAligned(base) && PageAligned(end)
      && WellFormed(UnmapPages(store, base, end)) && WellFormed(ProtectPages(store, base, end, prot))
      && Tied(UnmapRange(flat, addr, size), UnmapPages(store, base, end))
      && Tied(ProtectRange(flat, addr, size, prot), ProtectPages(store, base, end, prot))
  {
    RangeAligned(addr, size);
    UnmapMeaning(flat, store, addr, size);
    ProtectMeaning(flat, store, addr, size, prot);
    hide PageBase, PageEnd, WellFormed, Tied, UnmapPages, ProtectPages, UnmapRange, ProtectRange;
  }

  lemma WithinPage(a: U64, i: nat)
    requires a % 0x1000 + i < 0x1000
    ensures a + i < 0x1_0000_0000_0000_0000 && PageBase(a + i) == PageBase(a)
  {
  }

  /** Addresses of one chunk of a transfer stay in one page. */
  lemma InPage(addr: U64, off: nat, n: nat)
    requires n <= 0x1000 - At(addr, off) % 0x1000
    ensures forall i: nat :: off <= i < off + n ==>
              && At(addr, i) == At(addr, off) + (i - off)
              && PageBase(At(addr, i)) == PageBase(At(addr, off))
  {
    forall i: nat | off <= i < off + n
      ensures At(addr, i) == At(addr, off) + (i - off)
      ensures PageBase(At(addr, i)) == PageBase(At(addr, off))
    {
      hide Wrap64, PageBase;
      WrapSum(i - off, addr + off);
      WrapSmall(At(addr, off) + (i - off));
      WithinPage(At(addr, off), i - off);
    }
  }

  class Memory {
    var pages: map<U64, Page>

    // One-entry cache of the last page looked up.
    var cachedAddr: U64
    var cachedPage: Page?
    var cachedOK: bool

    // Raised by code writes and mapping changes, consumed by the engine.
    var codeDirty: bool

    /** The memory this object stands for. */
    ghost var flat: Flat
    /** The same, page by page. */
    ghost var store: PageTable
    /** The code as it was when `codeDirty` was last consumed. */
    ghost var cleanCode: map<U64, Byte>
    ghost var frames: set<Page>

    /** The pages are distinct objects holding what `store` says. */
    ghost predicate Linked()
      reads `pages, `store, `frames, frames`data, frames`prot
    {
      && store.Keys == pages.Keys
      && (forall pa: U64 :: pa in pages ==>
            && pages[pa] in frames && pages[pa].base == pa
            && store[pa] == Contents(pages[pa].data, pages[pa].prot))
    }

    ghost predicate Valid()
      reads this, frames
    {
      && Linked()
      && WellFormed(store)
      && Tied(flat, store)
      && (cachedOK ==> cachedAddr in pages && cachedPage == pages[cachedAddr])
      && (!codeDirty ==> cleanCode == Code(flat))
    }

    /** A read leaves everything but the lookup cache as it was. */
    twostate predicate Untouched()
      reads this
    {
      frames == old(frames) && cleanCode == old(cleanCode) && flat == old(flat) && codeDirty == old(codeDirty)
    }

    /** A write changes contents only; mappings and the engine's view of what is
        clean stay. */
    twostate predicate Written()
      reads this
    {
      frames == old(frames) && cleanCode == old(cleanCode)
    }

    constructor ()
      ensures Valid() && flat == map[] && cleanCode == Code(flat) && !codeDirty
      ensures pages == map[] && frames == {}
    {
      pages := map[];
      cachedAddr, cachedPage, cachedOK, codeDirty := 0, null, false, false;
      flat, store, cleanCode, frames := map[], map[], Code(map[]), {};
    }

    method LookupPage(pa: U64) returns (p: Page?, ok: bool)
      requires Valid()
      modifies `cachedAddr, `cachedPage, `cachedOK
      ensures Valid()
      ensures ok <==> pa in pages
      ensures ok ==> p == pages[pa]
    {
      if cachedOK && cachedAddr == pa {
        return cachedPage, true;
      }
      ok := pa in pages;
      p := if ok then pages[pa] else null;
      cachedAddr, cachedPage, cachedOK := pa, p, ok;
    }

    method InvalidateCache()
      modifies `cachedOK
      ensures !cachedOK
    {
      cachedOK := false;
    }

    method InvalidateCode()
      modifies `codeDirty
      ensures codeDirty
    {
      codeDirty := true;
    }

    /** The pages stand for another address space now: drop the lookup cache and
        say that code may have changed. */
    method Reshaped(ghost meaning: Flat)
      requires Linked() && WellFormed(store) && Tied(meaning, store)
      modifies `flat, `cachedOK, `codeDirty
      ensures Valid() && flat == meaning && codeDirty
    {
      flat := meaning;
      InvalidateCache();
      InvalidateCode();
    }

    /** Clears the flag and says whether code may have changed since the last call. */
    method ConsumeCodeDirty() returns (dirty: bool)
      requires Valid()
      modifies `codeDirty, `cleanCode
      ensures Valid() && !codeDirty
      ensures dirty == old(codeDirty)
      ensures !dirty ==> cleanCode == old(cleanCode)
    {
      dirty := codeDirty;
      codeDirty := false;
      cleanCode := Code(flat);
    }

    // ---- access ----------------------------------------------------------------

    /** Moves |buf| bytes between the guest at addr and buf, page by page; what
        was read is returned in `out`. */
    method Copy(addr: U64, buf: seq<Byte>, write: bool, need: Need) returns (out: seq<Byte>, fault: Option<Fault>)
      requires Valid()
      requires |buf| <= MAX_SLICE
      modifies this, frames
      ensures Valid() && frames == old(frames) && cleanCode == old(cleanCode)
      ensures write ==> Stored(flat, fault) == Store(old(flat), addr, buf, need)
      ensures !write ==>
                && flat == old(flat) && codeDirty == old(codeDirty)
                && Load(flat, addr, |buf|, need) == if fault.None? then Ok(out) else Err(fault.value)
    {
      var off := 0;
      out := [];
      ghost var before := flat;
      PokeNothing(flat, addr);
      LoadIs(before, addr, |buf|, need);
      assert buf[..0] == [] && buf[..|buf|] == buf;
      while off < |buf|
        invariant off <= Reach(before, addr, |buf|, need)
        invariant Valid() && frames == old(frames) && cleanCode == old(cleanCode)
        invariant write ==> flat == Poke(before, addr, buf[..off])
        invariant !write ==> flat == before && codeDirty == old(codeDirty) && out == Bytes(before, addr, off)
      {
        var n, chunk;
        n, chunk, fault := CopyChunk(addr, buf, off, write, need, before);
        if fault.Some? {
          return;
        }
        out := out + chunk;
        off := off + n;
      }
      fault := None;
    }

    /** One turn of the loop of `Copy`: the part of [off, |buf|) in one page. */
    method CopyChunk(addr: U64, buf: seq<Byte>, off: nat, write: bool, need: Need, ghost before: Flat)
      returns (n: nat, chunk: seq<Byte>, fault: Option<Fault>)
      requires Valid() && off < |buf| <= MAX_SLICE
      requires off <= Reach(before, addr, |buf|, need)
      requires flat == Poke(before, addr, if write then buf[..off] else [])
      modifies `cachedAddr, `cachedPage, `cachedOK, `codeDirty, `flat, `store, frames`data
      ensures Valid()
      ensures fault.None? ==> 0 < n && off + n <= Reach(before, addr, |buf|, need)
      ensures fault.Some? ==>
                && Reach(before, addr, |buf|, need) == off
                && fault.value == FaultAt(write, need, addr, off, |buf|)
                && flat == old(flat)
      ensures write && fault.None? ==> flat == Poke(before, addr, buf[..off + n])
      ensures !write ==> flat == old(flat) && codeDirty == old(codeDirty)
      ensures !write && fault.None? ==> Bytes(flat, addr, off) + chunk == Bytes(flat, addr, off + n)
    {
      hide Poke, Beyond, Reach, Bytes, Linked, WellFormed, Tied, Code, Allowed, PageBase;
      var cur := Wrap64(addr + off);
      var p, ok := LookupPage(PageBase(cur));
      if ok {
        PageLinked(p, PageBase(cur));
      }
      n, chunk, fault := 0, [], None;
      ReachInPage(before, addr, if write then buf[..off] else [], off, |buf|, need);
      if !ok || !Permits(p.prot, need) {
        fault := Some(Fault(KindOf(write, need), cur, |buf| - off));
        return;
      }
      var room := 0x1000 - cur % 0x1000;
      n := if |buf| - off < room then |buf| - off else room;
      if write {
        CopyIn(p, cur, buf[off..off + n]);
        PokeNext(before, addr, buf, off, n);
      } else {
        PageBytes(p, addr, off, n);
        chunk := p.data[cur % 0x1000..cur % 0x1000 + n];
      }
    }

    /** The page of an address decides for all of its bytes. */
    lemma ReachInPage(before: Flat, addr: U64, written: seq<Byte>, off: nat, n: nat, need: Need)
      requires Valid() && flat == Poke(before, addr, written)
      requires off < n && off <= Reach(before, addr, n, need)
      ensures
        var cur := Wrap64(addr + off);
        var end := off + (0x1000 - cur % 0x1000);
        var k := Reach(before, addr, n, need);
        if PageBase(cur) in pages && Permits(pages[PageBase(cur)].prot, need)
        then (if end < n then end else n) <= k
        else k == off
    {
      var cur := At(addr, off);
      var k := Reach(before, addr, n, need);
      InPage(addr, off, 0x1000 - cur % 0x1000);
      if k < off + (0x1000 - cur % 0x1000) {
        var a := At(addr, k);
        assert Probe(a) && (a in before <==> a in flat) && PageBase(a) == PageBase(cur);
      }
      assert Probe(cur) && (cur in before <==> cur in flat);
      assert k > off ==> Allowed(before, At(addr, off), need);
    }

    /** The n bytes at At(addr, off), all in page p, are the memory's. */
    lemma PageBytes(p: Page, addr: U64, off: nat, n: nat)
      requires Valid()
      requires PageBase(At(addr, off)) in pages && pages[PageBase(At(addr, off))] == p
      requires At(addr, off) % 0x1000 + n <= 0x1000
      ensures |p.data| == 0x1000
      ensures Bytes(flat, addr, off + n) ==
              Bytes(flat, addr, off) + p.data[At(addr, off) % 0x1000..At(addr, off) % 0x1000 + n]
    {
      var cur := At(addr, off);
      InPage(addr, off, n);
      forall i: nat | off <= i < off + n
        ensures ByteAt(flat, At(addr, i)) == p.data[cur % 0x1000 + (i - off)]
      {
        assert Probe(At(addr, i)) && PageBase(At(addr, i)) == PageBase(cur);
        assert At(addr, i) % 0x1000 == cur % 0x1000 + (i - off);
      }
    }

    lemma PageLinked(p: Page, pa: U64)
      requires Linked() && WellFormed(store) && pa in pages && pages[pa] == p
      ensures pa in store && store[pa] == Contents(p.data, p.prot) && |p.data| == 0x1000 && p in frames
    {
    }

    lemma SameKeys()
      requires Linked()
      ensures store.Keys == pages.Keys
    {
    }

    /** New bytes for a mapped page; the meaning is updated by the caller. */
    method PutData(pa: U64, p: Page, data: seq<Byte>)
      requires Linked() && pa in pages && pages[pa] == p
      modifies `store, p`data
      ensures Linked() && store == old(store)[pa := Contents(data, p.prot)]
    {
      p.data := data;
      store := store[pa := Contents(data, p.prot)];
    }

    /** Overwrites part of page p, from address cur on. */
    method CopyIn(p: Page, cur: U64, chunk: seq<Byte>)
      requires Valid()
      requires PageBase(cur) in pages && pages[PageBase(cur)] == p
      requires cur % 0x1000 + |chunk| <= 0x1000
      modifies `flat, `store, `codeDirty, p`data
      ensures Valid()
      ensures flat == Poke(old(flat), cur, chunk)
    {
      hide Linked, Splice, Poke, PageBase, Tied, WellFormed, Code;
      PageLinked(p, PageBase(cur));
      var pOff := cur % 0x1000;
      SpliceStep(flat, store, cur, chunk);
      if p.prot.exec && p.data[pOff..pOff + |chunk|] != chunk {
        codeDirty := true;
      }
      PutData(PageBase(cur), p, Splice(p.data, pOff, chunk));
      flat := Poke(flat, cur, chunk);
    }

    // ---- the access paths ------------------------------------------------------

    /** Host access: no permission is asked for. */
    method MemWrite(addr: U64, data: seq<Byte>) returns (fault: Option<Fault>)
      requires Valid() && |data| <= MAX_SLICE
      modifies this, frames
      ensures Valid() && Written()
      ensures Stored(flat, fault) == Store(old(flat), addr, data, AnyAccess)
    {
      if |data| == 0 {
        PokeNothing(flat, addr);
        return None;
      }
      var out;
      out, fault := Copy(addr, data, true, AnyAccess);
    }

    method MemRead(addr: U64, size: nat) returns (r: Result<seq<Byte>, Fault>)
      requires Valid() && size <= MAX_SLICE
      modifies this, frames
      ensures Valid() && Untouched()
      ensures r == Load(flat, addr, size, AnyAccess)
    {
      if size == 0 {
        LoadIs(flat, addr, 0, AnyAccess);
        return Ok([]);
      }
      r := ReadChecked(addr, size, AnyAccess);
    }

    method ReadChecked(addr: U64, size: nat, need: Need) returns (r: Result<seq<Byte>, Fault>)
      requires Valid() && size <= MAX_SLICE
      modifies this, frames
      ensures Valid() && Untouched()
      ensures r == Load(flat, addr, size, need)
    {
      var out, fault := Copy(addr, seq(size, _ => 0), false, need);
      r := if fault.None? then Ok(out) else Err(fault.value);
    }

    method WriteChecked(addr: U64, data: seq<Byte>, need: Need) returns (fault: Option<Fault>)
      requires Valid() && |data| <= MAX_SLICE
      modifies this, frames
      ensures Valid() && Written()
      ensures Stored(flat, fault) == Store(old(flat), addr, data, need)
    {
      var out;
      out, fault := Copy(addr, data, true, need);
    }

    /** The fetch path: one page lookup unless the read straddles two pages. */
    method ReadCheckedInto(addr: U64, n: nat, need: Need) returns (r: Result<seq<Byte>, Fault>)
      requires Valid() && n <= MAX_SLICE
      modifies this, frames
      ensures Valid() && Untouched()
      ensures r == Load(flat, addr, n, need)
    {
      hide Bytes, Reach, Code, Load, At, PageBase, Valid;
      LoadIs(flat, addr, n, need);
      if n == 0 {
        return Ok([]);
      }
      var off := addr % 0x1000;
      if off + n <= 0x1000 {
        AtZero(addr);
        OnePageReach(addr, n, need);
        if PageBase(addr) in pages {
          OnePageBytes(addr, n);
        }
        var p, ok := LookupPage(PageBase(addr));
        if !ok || !Permits(p.prot, need) {
          return Err(Fault(KindOf(false, need), addr, n));
        }
        return Ok(p.data[off..off + n]);
      }
      r := ReadChecked(addr, n, need);
    }

    /** A read inside one page succeeds or fails as a whole. */
    lemma OnePageReach(addr: U64, n: nat, need: Need)
      requires Valid() && 0 < n && addr % 0x1000 + n <= 0x1000
      ensures Reach(flat, addr, n, need) ==
              if PageBase(addr) in pages && Permits(pages[PageBase(addr)].prot, need) then n else 0
    {
      hide Poke, Reach, At, Wrap64, PageBase, Valid;
      AtZero(addr);
      PokeNothing(flat, addr);
      ReachInPage(flat, addr, [], 0, n, need);
    }

    lemma OnePageBytes(addr: U64, n: nat)
      requires Valid() && 0 < n && addr % 0x1000 + n <= 0x1000 && PageBase(addr) in pages
      ensures |pages[PageBase(addr)].data| == 0x1000
      ensures Bytes(flat, addr, n) == pages[PageBase(addr)].data[addr % 0x1000..addr % 0x1000 + n]
    {
      hide Bytes, At, PageBase, Valid;
      AtZero(addr);
      var p := pages[PageBase(addr)];
      PageBytes(p, addr, 0, n);
      var b := p.data[addr % 0x1000..addr % 0x1000 + n];
      assert [] + b == b && Bytes(flat, addr, 0) == [];
    }

    // ---- mappings --------------------------------------------------------------

    /** Puts one zeroed page into the table; the meaning is updated by the caller. */
    method AddPage(a: U64, prot: Prot)
      requires Linked() && a !in pages
      modifies `pages, `store, `frames
      ensures Linked() && fresh(frames - old(frames))
      ensures store == old(store)[a := Contents(Zeros(), prot)]
    {
      var page := new Page(Zeros(), prot, a);
      frames := frames + {page};
      pages := pages[a := page];
      store := store[a := Contents(Zeros(), prot)];
    }

    /** Is no page of the range mapped? */
    method AllFree(lo: U64, hi: U64) returns (free: bool)
      requires Linked() && PageAligned(lo) && PageAligned(hi)
      ensures free <==> forall pa: U64 :: lo <= pa < hi && PageAligned(pa) ==> pa !in store
    {
      var a: nat := lo;
      while a < hi
        invariant a % 0x1000 == 0 && (lo <= hi ==> a <= hi)
        invariant forall pa: U64 :: lo <= pa < a && PageAligned(pa) ==> pa !in store
      {
        if a in pages {
          return false;
        }
        NextPage(a, hi);
        a := a + 0x1000;
      }
      return true;
    }

    method DeletePage(a: U64)
      requires Linked()
      modifies `pages, `store
      ensures Linked() && store == old(store) - {a}
    {
      pages := pages - {a};
      store := store - {a};
    }

    method ProtectPage(a: U64, prot: Prot)
      requires Linked() && a in pages
      modifies `store, frames`prot
      ensures Linked() && store == old(store)[a := Contents(old(store)[a].data, prot)]
    {
      store := store[a := Contents(pages[a].data, prot)];
      pages[a].prot := prot;
    }

    /** Adds every page from addr up to end. */
    method AddPages(addr: U64, end: U64, prot: Prot)
      requires Linked() && PageAligned(addr) && PageAligned(end)
      requires forall pa: U64 :: addr <= pa < end && PageAligned(pa) ==> pa !in store
      modifies `pages, `store, `frames
      ensures Linked() && fresh(frames - old(frames))
      ensures store == MapPages(old(store), addr, end, prot)
    {
      hide MapPages, Zeros, WellFormed;
      ghost var before := store;
      var a: nat := addr;
      MapNoPages(before, addr, addr, prot);
      MapNoPages(before, addr, if end <= addr then end else addr, prot);
      while a < end
        invariant a % 0x1000 == 0 && addr <= a && (addr <= end ==> a <= end)
        invariant end <= addr ==> a == addr
        invariant Linked() && fresh(frames - old(frames))
        invariant store == MapPages(before, addr, a, prot)
      {
        NextPage(a, end);
        MapOnePage(before, addr, a, prot);
        AddPage(a, prot);
        a := a + 0x1000;
      }
    }

    /** Maps fresh zeroed pages, or nothing at all if any page is taken. */
    method MemMap(addr: U64, size: U64, prot: Prot) returns (ok: bool)
      requires Valid()
      modifies this, frames
      ensures Valid() && fresh(frames - old(frames)) && cleanCode == old(cleanCode)
      ensures ok == MapAccepts(old(flat), addr, size)
      ensures flat == MapRange(old(flat), addr, size, prot)
    {
      hide MapRange, MapPages, MapAccepts, Tied, Code, WellFormed, Zeros, Wrap64;
      MapMeaning(flat, store, addr, size, prot);
      if addr % 0x1000 != 0 || size == 0 || size % 0x1000 != 0 {
        return false;
      }
      WrapAligned(addr, size);
      var end := Wrap64(addr + size);
      var free := AllFree(addr, end);
      if !free {
        return false;
      }
      AddPages(addr, end, prot);
      Reshaped(MapRange(flat, addr, size, prot));
      return true;
    }

    /** Removes every page of [addr, addr+size); pages that are not there are skipped. */
    method MemUnmap(addr: U64, size: U64)
      requires Valid()
      modifies this
      ensures Valid() && frames == old(frames) && cleanCode == old(cleanCode)
      ensures flat == UnmapRange(old(flat), addr, size)
    {
      hide UnmapRange, UnmapPages, ProtectPages, Tied, Code, PageEnd, PageBase, WellFormed;
      var a: nat, end := PageBase(addr), PageEnd(addr, size);
      ghost var before, base := store, a;
      ChangeMeaning(flat, store, addr, size, Prot(false, false, false));
      ChangeNoPages(store, base, base, Prot(false, false, false));
      ChangeNoPages(store, base, if end <= base then end else base, Prot(false, false, false));
      while a < end
        invariant a % 0x1000 == 0 && base <= a && (base <= end ==> a <= end) && (end <= base ==> a == base)
        invariant Linked() && frames == old(frames)
        invariant store == UnmapPages(before, base, a)
        invariant flat == old(flat) && cleanCode == old(cleanCode)
      {
        NextPage(a, end);
        ChangeOnePage(before, base, a, Prot(false, false, false));
        DeletePage(a);
        a := a + 0x1000;
      }
      Reshaped(UnmapRange(flat, addr, size));
    }

    /** Changes the protection of every mapped page of [addr, addr+size). */
    method MemProtect(addr: U64, size: U64, prot: Prot)
      requires Valid()
      modifies this, frames
      ensures Valid() && frames == old(frames) && cleanCode == old(cleanCode)
      ensures flat == ProtectRange(old(flat), addr, size, prot)
    {
      hide ProtectRange, UnmapPages, ProtectPages, Tied, Code, PageEnd, PageBase, WellFormed;
      var a: nat, end := PageBase(addr), PageEnd(addr, size);
      ghost var before, base := store, a;
      ChangeMeaning(flat, store, addr, size, prot);
      ChangeNoPages(store, base, base, prot);
      ChangeNoPages(store, base, if end <= base then end else base, prot);
      while a < end
        invariant a % 0x1000 == 0 && base <= a && (base <= end ==> a <= end) && (end <= base ==> a == base)
        invariant Linked() && frames == old(frames)
        invariant store == ProtectPages(before, base, a, prot) && store.Keys == before.Keys
        invariant flat == old(flat) && cleanCode == old(cleanCode)
      {
        NextPage(a, end);
        ChangeOnePage(before, base, a, prot);
        if a in pages {
          ProtectPage(a, prot);
        }
        a := a + 0x1000;
      }
      Reshaped(ProtectRange(flat, addr, size, prot));
    }

    /** A deep copy: equal contents, no page shared. */
    method Clone() returns (out: Memory)
      requires Valid()
      ensures out.Valid() && fresh(out) && fresh(out.frames)
      ensures out.flat == flat && !out.codeDirty && out.cleanCode == Code(flat)
    {
      hide Linked, Tied, WellFormed, Code;
      out := new Memory();
      SameKeys();
      out.SameKeys();
      var todo := pages.Keys;
      while todo != {}
        invariant todo <= pages.Keys && out.store.Keys == pages.Keys - todo
        invariant fresh(out) && fresh(out.frames) && out.Linked()
        invariant forall pa: U64 :: pa in out.store ==> out.store[pa] == store[pa]
        invariant !out.cachedOK && !out.codeDirty
      {
        var a :| a in todo;
        PageLinked(pages[a], a);
        out.CopyPage(a, pages[a]);
        todo := todo - {a};
      }
      assert out.store == store;
      out.Adopt(flat);
    }

    /** Adds a private copy of a page. */
    method CopyPage(a: U64, page: Page)
      requires Linked() && a !in store
      modifies `pages, `store, `frames
      ensures Linked() && fresh(frames - old(frames))
      ensures store == old(store)[a := Contents(page.data, page.prot)]
    {
      var copy := new Page(page.data, page.prot, a);
      frames := frames + {copy};
      pages := pages[a := copy];
      store := store[a := Contents(page.data, page.prot)];
    }

    /** States which memory a finished copy stands for. */
    ghost method Adopt(f: Flat)
      requires Linked() && WellFormed(store) && Tied(f, store) && !cachedOK
      modifies `flat, `cleanCode
      ensures Valid() && flat == f && cleanCode == Code(f)
    {
      flat, cleanCode := f, Code(f);
    }
  }
}
