/** The engine with its caches (internal/cpu/cpu.go, block.go): a decode cache
    indexed by page, basic blocks in a direct-mapped table, and hooks.  Its run
    loop is proved to compute what the reference interpreter computes. */
module Engine {
  import opened Words
  import opened FlatMemory
  import opened PagedMemory
  import opened Registers
  import opened Instructions
  import opened Decoder
  import opened Cursors
  import opened Semantics
  import opened Core
  import opened Reference

  const MAX_BLOCK_INSTRUCTIONS: nat := 64

  /** Direct-indexed cache for one code page. */
  class DecodedPage {
    var entries: seq<Option<Decoded>>
    ghost const base: U64

    constructor (ghost base: U64)
      ensures entries == seq(0x1000, _ => None) && this.base == base
    {
      entries := seq(0x1000, _ => None);
      this.base := base;
    }
  }

  datatype BasicBlock = BasicBlock(start: U64, generation: nat, instructions: seq<Decoded>)

  /** Address of the i-th instruction of a run of instructions from `start`. */
  function PcAt(start: U64, instructions: seq<Decoded>, i: nat): U64
    requires i <= |instructions|
  {
    if i == 0 then start else At(PcAt(start, instructions, i - 1), instructions[i - 1].len)
  }

  // ---- coherence with the code -----------------------------------------------

  /** Every cached entry of a page is a fresh decode. */
  ghost predicate EntriesOk(entries: seq<Option<Decoded>>, base: U64, code: CodeBytes) {
    && |entries| == 0x1000
    && forall i :: 0 <= i < 0x1000 && entries[i].Some? ==> Decode(code, At(base, i)) == Ok(entries[i].value)
  }

  /** The instructions are what decoding from `start` on gives, none has a hook,
      and none but the last ends a block. */
  ghost predicate Decodes(start: U64, instructions: seq<Decoded>, code: CodeBytes) {
    forall i :: 0 <= i < |instructions| ==>
      && Decode(code, PcAt(start, instructions, i)) == Ok(instructions[i])
      && instructions[i].hooked.NotHooked?
      && (i + 1 < |instructions| ==> !instructions[i].endsBlock)
  }

  ghost predicate Compiled(b: BasicBlock, code: CodeBytes) {
    b.instructions != [] && Decodes(b.start, b.instructions, code)
  }

  /** Blocks of the current generation are coherent; older ones are dead. */
  ghost predicate BlockOk(b: BasicBlock, generation: nat, code: CodeBytes) {
    b.generation <= generation && (b.generation == generation ==> Compiled(b, code))
  }

  class Engine {
    const cpu: Processor
    /** The installed hooks, and the answers they will give, call by call. */
    var insnHooks: set<Hooked>
    var unmapHook: bool
    var replies: nat -> HookReply
    var hookCount: nat
    ghost var hookCalls: seq<HookCall>

    var stopRequested: bool

    var decodeCache: map<U64, DecodedPage>
    var cachedDecodePageAddr: U64
    var cachedDecodePage: DecodedPage?

    var blockJIT: bool
    var blockCache: seq<Option<BasicBlock>>
    var blockCacheGeneration: nat
    var cachedBlockStart: U64
    var cachedBlock: Option<BasicBlock>

    ghost var tables: set<DecodedPage>

    /** Every cache agrees with the code that was last declared clean. */
    ghost predicate CachesValid(code: CodeBytes)
      reads `decodeCache, `cachedDecodePageAddr, `cachedDecodePage
      reads `blockCache, `blockCacheGeneration, `cachedBlockStart, `cachedBlock
      reads `tables, tables
    {
      && |blockCache| == 1024
      && (forall pa: U64 :: pa in decodeCache ==>
            && decodeCache[pa] in tables && decodeCache[pa].base == pa && PageAligned(pa)
            && EntriesOk(decodeCache[pa].entries, pa, code))
      && (cachedDecodePage != null ==>
            cachedDecodePageAddr in decodeCache && decodeCache[cachedDecodePageAddr] == cachedDecodePage)
      && (forall s :: 0 <= s < 1024 && blockCache[s].Some? ==>
            BlockOk(blockCache[s].value, blockCacheGeneration, code))
      && (cachedBlock.Some? ==>
            cachedBlock.value.start == cachedBlockStart && BlockOk(cachedBlock.value, blockCacheGeneration, code))
    }

    ghost predicate Valid()
      reads this, cpu, cpu.mem, cpu.mem.frames, tables
    {
      && cpu.mem.Valid()
      && hookCount == |hookCalls|
      && CachesValid(cpu.mem.cleanCode)
    }

    /** Caches and memory agree right now. */
    ghost predicate Clean()
      reads this, cpu, cpu.mem, cpu.mem.frames, tables
    {
      Valid() && !cpu.mem.codeDirty
    }

    ghost function State(): Machine
      reads this, cpu, cpu.mem
    {
      Machine(cpu.State(), stopRequested, hookCalls)
    }

    /** Every heap object the engine may change. */
    ghost function Footprint(): set<object>
      reads this, cpu, cpu.mem
    {
      var pages: set<object>, decoded: set<object> := cpu.mem.frames, tables;
      {this, cpu, cpu.mem} + pages + decoded
    }

    ghost function Hooks(): Env
      reads this
    {
      Env(insnHooks, unmapHook, OracleReply(replies))
    }

    /** Heap objects only get added, and the hooks stay installed. */
    twostate predicate Grows()
      reads this, cpu.mem
    {
      && fresh(cpu.mem.frames - old(cpu.mem.frames)) && fresh(tables - old(tables))
      && insnHooks == old(insnHooks) && unmapHook == old(unmapHook) && replies == old(replies)
    }

    constructor (cpu: Processor)
      requires cpu.mem.Valid()
      ensures Valid() && this.cpu == cpu && tables == {}
      ensures State() == Machine(cpu.State(), false, [])
      ensures insnHooks == {} && !unmapHook && !blockJIT
    {
      this.cpu := cpu;
      insnHooks, unmapHook, replies, hookCount := {}, false, _ => Reply([], false), 0;
      hookCalls, stopRequested := [], false;
      decodeCache, cachedDecodePageAddr, cachedDecodePage := map[], 0, null;
      blockJIT, blockCache, blockCacheGeneration := false, seq(1024, _ => None), 0;
      cachedBlockStart, cachedBlock, tables := 0, None, {};
    }

    // ---- caches ----------------------------------------------------------------

    method InvalidateCodeCaches()
      requires |blockCache| == 1024
      requires forall s :: 0 <= s < 1024 && blockCache[s].Some? ==>
                 blockCache[s].value.generation <= blockCacheGeneration
      modifies `decodeCache, `cachedDecodePage, `blockCacheGeneration, `cachedBlockStart, `cachedBlock
      ensures forall code: CodeBytes :: CachesValid(code)
    {
      decodeCache := map[];
      cachedDecodePage := null;
      blockCacheGeneration := blockCacheGeneration + 1;
      cachedBlockStart := 0;
      cachedBlock := None;
    }

    /** Drops the caches if code may have changed since they were filled. */
    method ConsumeDirty() returns (dirty: bool)
      requires Valid()
      modifies this`decodeCache, this`cachedDecodePage, this`blockCacheGeneration
      modifies this`cachedBlockStart, this`cachedBlock, cpu.mem
      ensures Clean() && State() == old(State())
      ensures cpu.mem.frames == old(cpu.mem.frames)
      ensures dirty == old(cpu.mem.codeDirty)
      ensures !dirty ==> blockCacheGeneration == old(blockCacheGeneration)
      ensures !dirty ==> cpu.mem.cleanCode == old(cpu.mem.cleanCode)
    {
      hide EntriesOk, Compiled;
      dirty := cpu.mem.ConsumeCodeDirty();
      if dirty {
        InvalidateCodeCaches();
      }
    }

    method SetBlockJIT(enabled: bool)
      requires Valid()
      modifies this`blockJIT, this`decodeCache, this`cachedDecodePage, this`blockCacheGeneration
      modifies this`cachedBlockStart, this`cachedBlock
      ensures Valid() && State() == old(State()) && blockJIT == enabled
    {
      hide EntriesOk, Compiled;
      if blockJIT == enabled {
        return;
      }
      blockJIT := enabled;
      InvalidateCodeCaches();
    }

    /** The table of a code page, made on first use. */
    method DecodeTable(pc: U64) returns (page: DecodedPage)
      requires Valid()
      modifies this`decodeCache, this`cachedDecodePage, this`cachedDecodePageAddr, this`tables
      ensures Valid() && State() == old(State()) && fresh(tables - old(tables))
      ensures PageBase(pc) in decodeCache && decodeCache[PageBase(pc)] == page
    {
      hide EntriesOk, BlockOk, Memory.Valid, PageBase;
      var pageAddr := PageBase(pc);
      if cachedDecodePage != null && cachedDecodePageAddr == pageAddr {
        return cachedDecodePage;
      }
      if pageAddr in decodeCache {
        page := decodeCache[pageAddr];
      } else {
        PageBaseAligned(pc);
        page := AddTable(pageAddr);
      }
      cachedDecodePageAddr := pageAddr;
      cachedDecodePage := page;
    }

    /** An empty table for a page that has none. */
    method AddTable(pageAddr: U64) returns (page: DecodedPage)
      requires Valid() && PageAligned(pageAddr) && pageAddr !in decodeCache
      modifies this`decodeCache, this`tables
      ensures Valid() && State() == old(State())
      ensures fresh(page) && tables == old(tables) + {page} && decodeCache == old(decodeCache)[pageAddr := page]
    {
      hide EntriesOk, BlockOk, Memory.Valid;
      page := new DecodedPage(pageAddr);
      NothingDecoded(page.entries, pageAddr, cpu.mem.cleanCode);
      tables := tables + {page};
      decodeCache := decodeCache[pageAddr := page];
    }

    /** Remembers a decoded instruction. */
    method Remember(page: DecodedPage, pc: U64, d: Decoded)
      requires Valid() && PageBase(pc) in decodeCache && decodeCache[PageBase(pc)] == page
      requires Decode(cpu.mem.cleanCode, pc) == Ok(d)
      modifies page
      ensures Valid()
    {
      hide Memory.Valid, Compiled, Decode;
      assert At(PageBase(pc), pc % 0x1000) == pc;
      page.entries := page.entries[pc % 0x1000 := Some(d)];
    }

    method CachedDecode(pc: U64) returns (r: Result<Decoded, EngineError>)
      requires Clean()
      modifies this`decodeCache, this`cachedDecodePage, this`cachedDecodePageAddr, this`tables
      modifies tables, cpu.mem, cpu.mem.frames
      ensures Clean() && State() == old(State()) && fresh(tables - old(tables))
      ensures cpu.mem.frames == old(cpu.mem.frames) && cpu.mem.cleanCode == old(cpu.mem.cleanCode)
      ensures r == Decode(Code(cpu.mem.flat), pc)
    {
      hide Code, Decode;
      var page := DecodeTable(pc);
      assert At(PageBase(pc), pc % 0x1000) == pc;
      var d := page.entries[pc % 0x1000];
      if d.Some? {
        return Ok(d.value);
      }
      r := DecodeOne(cpu.mem, pc);
      if r.Ok? {
        Remember(page, pc, r.value);
      }
    }

    // ---- hooks -----------------------------------------------------------------

    method EmuStop()
      requires Valid()
      modifies `stopRequested
      ensures Valid() && stopRequested
    {
      hide EntriesOk, Compiled;
      stopRequested := true;
    }

    /** One API call made by a hook. */
    method ApplyOp(op: HostOp)
      requires Valid()
      modifies this, cpu, cpu.mem, cpu.mem.frames
      ensures Valid() && Grows() && tables == old(tables)
      ensures State() == Reference.ApplyOp(old(State()), op)
      ensures hookCount == old(hookCount)
    {
      hide CachesValid, Memory.Valid, MapRange, UnmapRange, ProtectRange, Store, Unpack, Code;
      match op {
        case MapOp(addr, size, prot) => var ok := cpu.mem.MemMap(addr, size, prot);
        case UnmapOp(addr, size) => cpu.mem.MemUnmap(addr, size);
        case ProtectOp(addr, size, prot) => cpu.mem.MemProtect(addr, size, prot);
        case WriteOp(addr, data) => var fault := cpu.mem.MemWrite(addr, data);
        case SetRip(v) => cpu.regs := cpu.regs.(rip := v);
        case SetGpr(reg, v) => cpu.SetGpr(reg, v);
        case SetEflags(v) => cpu.SetFlags(Unpack(v));
        case SetFsBase(v) => cpu.regs := cpu.regs.(fsbase := v);
        case SetGsBase(v) => cpu.regs := cpu.regs.(gsbase := v);
        case StopOp => EmuStop();
        case BlockJitOp(on) => SetBlockJIT(on);
      }
    }

    /** Runs the next hook answer and says whether it asked for a retry. */
    method RunHook(ghost call: HookCall) returns (retry: bool)
      requires Valid()
      modifies this, cpu, cpu.mem, cpu.mem.frames
      ensures Valid() && Grows() && tables == old(tables)
      ensures State() == CallHook(Hooks(), old(State()), call)
      ensures retry == Hooks().reply(old(State()).calls + [call]).retry
    {
      hide CachesValid, Memory.Valid, ApplyOps;
      var reply := replies(hookCount);
      hookCount := hookCount + 1;
      hookCalls := hookCalls + [call];
      RunOps(reply.ops);
      retry := reply.retry;
    }

    method RunOps(ops: seq<HostOp>)
      requires Valid()
      modifies this, cpu, cpu.mem, cpu.mem.frames
      ensures Valid() && Grows() && tables == old(tables)
      ensures State() == ApplyOps(old(State()), ops)
    {
      hide Reference.ApplyOp, CachesValid;
      var i := 0;
      assert ops[0..] == ops;
      while i < |ops|
        invariant i <= |ops|
        invariant Valid() && Grows() && tables == old(tables)
        invariant ApplyOps(State(), ops[i..]) == ApplyOps(old(State()), ops)
      {
        assert ops[i..][1..] == ops[i + 1..];
        ApplyOp(ops[i]);
        i := i + 1;
      }
    }

    method HandleFault(e: EngineError) returns (handled: bool)
      requires Valid()
      modifies this, cpu, cpu.mem, cpu.mem.frames
      ensures Valid() && Grows() && tables == old(tables)
      ensures Recover(Hooks(), old(State()), e) ==
              if handled then Continue(State()) else Halt(State(), Some(e))
    {
      hide CallHook;
      if !e.MemFault? || !unmapHook {
        return false;
      }
      handled := RunHook(FaultCall(e.fault, cpu.State()));
    }

    // ---- blocks ----------------------------------------------------------------

    function Slot(start: U64): nat {
      start / 2 % 1024
    }

    method CachedBlockAt(start: U64) returns (block: Option<BasicBlock>)
      requires Valid()
      modifies this`cachedBlockStart, this`cachedBlock
      ensures Valid() && State() == old(State())
      ensures block.Some? ==> block.value.start == start && Compiled(block.value, cpu.mem.cleanCode)
    {
      hide EntriesOk, Compiled;
      if cachedBlock.Some? && cachedBlockStart == start && cachedBlock.value.generation == blockCacheGeneration {
        return cachedBlock;
      }
      block := blockCache[Slot(start)];
      if block.None? || block.value.start != start || block.value.generation != blockCacheGeneration {
        return None;
      }
      cachedBlockStart := start;
      cachedBlock := block;
    }

    /** The block at `start`: cached, or decoded and remembered.  No block means
        the first instruction has a hook; an error is that of its decode. */
    method CompileBlock(start: U64) returns (block: Option<BasicBlock>, err: Option<EngineError>)
      requires Clean()
      modifies this`decodeCache, this`cachedDecodePage, this`cachedDecodePageAddr, this`tables
      modifies this`blockCache, this`cachedBlockStart, this`cachedBlock
      modifies tables, cpu.mem, cpu.mem.frames
      ensures Clean() && State() == old(State()) && fresh(tables - old(tables))
      ensures cpu.mem.frames == old(cpu.mem.frames)
      ensures err.Some? ==> Decode(Code(cpu.mem.flat), start) == Err(err.value)
      ensures err.None? && block.None? ==>
                && Decode(Code(cpu.mem.flat), start).Ok?
                && !Decode(Code(cpu.mem.flat), start).value.hooked.NotHooked?
      ensures err.None? && block.Some? ==>
                block.value.start == start && Compiled(block.value, cpu.mem.cleanCode)
    {
      hide Code, Decode, CachesValid, Compiled, Decodes;
      err := None;
      block := CachedBlockAt(start);
      if block.Some? {
        return;
      }
      var instructions;
      instructions, err := CollectBlock(start);
      if err.Some? || instructions == [] {
        return;
      }
      var b := BasicBlock(start, blockCacheGeneration, instructions);
      assert Compiled(b, cpu.mem.cleanCode) by {
        CompiledIs(b, cpu.mem.cleanCode);
      }
      block := Some(b);
      KeepBlock(b);
    }

    /** Puts a block into its slot. */
    method KeepBlock(b: BasicBlock)
      requires Clean() && b.generation == blockCacheGeneration && Compiled(b, cpu.mem.cleanCode)
      modifies this`blockCache, this`cachedBlockStart, this`cachedBlock
      ensures Clean()
    {
      hide Compiled, EntriesOk, Memory.Valid;
      blockCache := blockCache[Slot(b.start) := Some(b)];
      cachedBlockStart, cachedBlock := b.start, Some(b);
    }

    /** Decodes ahead from `start` until the page or the block ends. */
    method CollectBlock(start: U64) returns (instructions: seq<Decoded>, err: Option<EngineError>)
      requires Clean()
      modifies this`decodeCache, this`cachedDecodePage, this`cachedDecodePageAddr, this`tables
      modifies tables, cpu.mem, cpu.mem.frames
      ensures Clean() && State() == old(State()) && fresh(tables - old(tables))
      ensures cpu.mem.frames == old(cpu.mem.frames) && cpu.mem.cleanCode == old(cpu.mem.cleanCode)
      ensures Decodes(start, instructions, cpu.mem.cleanCode)
      ensures err.Some? ==> Decode(cpu.mem.cleanCode, start) == Err(err.value)
      ensures err.None? && instructions == [] ==>
                && Decode(cpu.mem.cleanCode, start).Ok?
                && !Decode(cpu.mem.cleanCode, start).value.hooked.NotHooked?
    {
      hide Code, Decode, CachesValid, Memory.Valid, Decodes, PcAt;
      instructions, err := [], None;
      DecodesNothing(start, cpu.mem.cleanCode);
      var pc, page := start, PageBase(start);
      while |instructions| < MAX_BLOCK_INSTRUCTIONS
        invariant Clean() && State() == old(State()) && fresh(tables - old(tables))
        invariant cpu.mem.frames == old(cpu.mem.frames) && cpu.mem.cleanCode == old(cpu.mem.cleanCode)
        invariant Decodes(start, instructions, cpu.mem.cleanCode)
        invariant pc == PcAt(start, instructions, |instructions|)
        invariant instructions != [] ==> !instructions[|instructions| - 1].endsBlock
        decreases MAX_BLOCK_INSTRUCTIONS - |instructions|
      {
        if PageBase(pc) != page {
          break;
        }
        CleanCode();
        var r := CachedDecode(pc);
        if r.Err? {
          if instructions == [] {
            err := Some(r.error);
          }
          break;
        }
        var d := r.value;
        if !d.hooked.NotHooked? {
          break;
        }
        DecodesAppend(start, instructions, d, cpu.mem.cleanCode);
        instructions := instructions + [d];
        pc := At(pc, d.len);
        if d.endsBlock {
          break;
        }
      }
    }

    /** Nothing changed since the caches were filled. */
    lemma CleanCode()
      requires Clean()
      ensures cpu.mem.cleanCode == Code(cpu.mem.flat)
    {
      hide Code, CachesValid;
    }

    // ---- execution -------------------------------------------------------------

    /** Executes one decoded instruction at pc; RIP moves past it unless it
        branched.  This is one step of the reference interpreter. */
    method RunInstr(d: Decoded, pc: U64, ghost until: U64) returns (branched: bool, err: Failure)
      requires Valid() && cpu.regs.rip == pc && !AtEnd(State(), until)
      requires Decode(Code(cpu.mem.flat), pc) == Ok(d) && d.hooked.NotHooked?
      modifies cpu, cpu.mem, cpu.mem.frames
      ensures Valid() && cpu.mem.Written()
      ensures Step(Hooks(), old(State()), until) ==
              if err.Some? then Recover(Hooks(), State(), err.value) else Continue(State())
      ensures err.None? && branched ==> d.endsBlock
      ensures err.None? && !branched ==> cpu.regs.rip == At(pc, d.len)
      ensures !stopRequested
    {
      hide Code, Decode, Recover, EntriesOk, Compiled, Exec, At;
      OnlyBranchesBranch(cpu.State(), At(pc, d.len), d.instr);
      cpu.curInstrEnd := At(pc, d.len);
      branched, err := cpu.Exec(d.instr);
      if err.None? && !branched {
        cpu.regs := cpu.regs.(rip := cpu.curInstrEnd);
      }
    }

    /** One instruction of a block; if it changed code the caches are dropped. */
    method Retire(d: Decoded, pc: U64, ghost until: U64, ghost fuel: nat)
      returns (branched: bool, dirty: bool, err: Failure)
      requires Clean() && cpu.regs.rip == pc && !AtEnd(State(), until) && fuel > 0
      requires Decode(cpu.mem.cleanCode, pc) == Ok(d) && d.hooked.NotHooked?
      modifies this`decodeCache, this`cachedDecodePage, this`blockCacheGeneration
      modifies this`cachedBlockStart, this`cachedBlock, cpu, cpu.mem, cpu.mem.frames
      ensures Valid() && cpu.mem.frames == old(cpu.mem.frames)
      ensures Run(Hooks(), old(State()), until, fuel) ==
              if err.Some? then Resume(Hooks(), Recover(Hooks(), State(), err.value), until, fuel - 1)
              else Run(Hooks(), State(), until, fuel - 1)
      ensures err.None? ==> Clean() && !stopRequested
      ensures err.None? && branched ==> d.endsBlock
      ensures err.None? && !branched ==> cpu.regs.rip == At(pc, d.len)
      ensures err.None? && !dirty ==> cpu.mem.cleanCode == old(cpu.mem.cleanCode)
    {
      hide Code, Decode, Step, Recover, CachesValid, At;
      dirty := false;
      branched, err := RunInstr(d, pc, until);
      if err.None? {
        dirty := ConsumeDirty();
      }
    }

    /** The inner loop of executeBlock when no stop address is set.  After a
        branch, which can only be the last instruction, the next block is looked
        up; `continue` then leaves this loop, and the lookup is repeated. */
    method PassUnbounded(block: BasicBlock, fuel: nat) returns (next: Option<BasicBlock>, left: nat, err: Failure)
      requires Clean() && Compiled(block, cpu.mem.cleanCode)
      requires cpu.regs.rip == block.start && !stopRequested
      modifies this, cpu, cpu.mem, cpu.mem.frames
      ensures Valid() && Grows() && tables == old(tables)
      ensures Run(Hooks(), old(State()), 0, fuel) ==
              if err.Some? then Resume(Hooks(), Recover(Hooks(), State(), err.value), 0, left)
              else Run(Hooks(), State(), 0, left)
      ensures if fuel > 0 then left < fuel else left == 0 && err.None? && next.None?
      ensures err.Some? ==> next.None?
      ensures next.Some? ==>
                && Clean() && Compiled(next.value, cpu.mem.cleanCode)
                && cpu.regs.rip == next.value.start && !stopRequested
    {
      hide Code, Decode, Step, Recover, Run, Resume, CachesValid, Memory.Valid, At, Compiled, Decodes, PcAt;
      var instructions, pc := block.instructions, block.start;
      CompiledDecodes(block, cpu.mem.cleanCode);
      next, left, err := None, fuel, None;
      var i := 0;
      while i < |instructions|
        invariant i <= |instructions| && left + i == fuel && err.None?
        invariant Clean() && Grows() && tables == old(tables) && !stopRequested
        invariant Decodes(block.start, instructions, cpu.mem.cleanCode)
        invariant i < |instructions| ==> cpu.regs.rip == pc && pc == PcAt(block.start, instructions, i)
        invariant Run(Hooks(), State(), 0, left) == Run(Hooks(), old(State()), 0, fuel)
      {
        if stopRequested || left == 0 {
          return None, left, None;
        }
        var d := instructions[i];
        DecodesAt(block.start, instructions, cpu.mem.cleanCode, i);
        var branched;
        var dirty;
        branched, dirty, err := Retire(d, pc, 0, left);
        left := left - 1;
        if err.Some? || dirty {
          return None, left, err;
        }
        pc := At(pc, d.len);
        i := i + 1;
        if branched {
          next := CachedBlockAt(cpu.regs.rip);
          if next.None? {
            return None, left, None;
          }
        }
      }
      next := CachedBlockAt(cpu.regs.rip);
    }

    /** The inner loop of executeBlock when a stop address is set. */
    method PassUntil(block: BasicBlock, until: U64, fuel: nat)
      returns (next: Option<BasicBlock>, left: nat, err: Failure)
      requires Clean() && Compiled(block, cpu.mem.cleanCode) && until != 0
      requires cpu.regs.rip == block.start && !AtEnd(State(), until)
      modifies this, cpu, cpu.mem, cpu.mem.frames
      ensures Valid() && Grows() && tables == old(tables)
      ensures Run(Hooks(), old(State()), until, fuel) ==
              if err.Some? then Resume(Hooks(), Recover(Hooks(), State(), err.value), until, left)
              else Run(Hooks(), State(), until, left)
      ensures if fuel > 0 then left < fuel else left == 0 && err.None? && next.None?
      ensures err.Some? ==> next.None?
      ensures next.Some? ==>
                && Clean() && Compiled(next.value, cpu.mem.cleanCode)
                && cpu.regs.rip == next.value.start && !AtEnd(State(), until)
    {
      hide Code, Decode, Step, Recover, Run, Resume, CachesValid, Memory.Valid, At, Compiled, Decodes, PcAt;
      var instructions, pc := block.instructions, block.start;
      CompiledDecodes(block, cpu.mem.cleanCode);
      next, left, err := None, fuel, None;
      var i := 0;
      while i < |instructions|
        invariant i <= |instructions| && left + i == fuel && err.None?
        invariant Clean() && Grows() && tables == old(tables) && !stopRequested
        invariant i == 0 ==> cpu.regs.rip != until
        invariant Decodes(block.start, instructions, cpu.mem.cleanCode)
        invariant i < |instructions| ==> cpu.regs.rip == pc && pc == PcAt(block.start, instructions, i)
        invariant Run(Hooks(), State(), until, left) == Run(Hooks(), old(State()), until, fuel)
      {
        if stopRequested || cpu.regs.rip == until || left == 0 {
          return None, left, None;
        }
        var d := instructions[i];
        DecodesAt(block.start, instructions, cpu.mem.cleanCode, i);
        var branched;
        var dirty;
        branched, dirty, err := Retire(d, pc, until, left);
        left := left - 1;
        if err.Some? || dirty {
          return None, left, err;
        }
        pc := At(pc, d.len);
        i := i + 1;
        if branched {
          if cpu.regs.rip == until {
            return None, left, None;
          }
          next := CachedBlockAt(cpu.regs.rip);
          return next, left, None;
        }
      }
      if cpu.regs.rip == until {
        return None, left, None;
      }
      next := CachedBlockAt(cpu.regs.rip);
    }

    /** executeBlock: runs a block and every cached block it leads to. */
    method ExecuteBlock(first: BasicBlock, until: U64, fuel: nat) returns (left: nat, err: Failure)
      requires Clean() && Compiled(first, cpu.mem.cleanCode)
      requires cpu.regs.rip == first.start && !AtEnd(State(), until)
      modifies this, cpu, cpu.mem, cpu.mem.frames
      ensures Valid() && Grows() && tables == old(tables)
      ensures Run(Hooks(), old(State()), until, fuel) ==
              if err.Some? then Resume(Hooks(), Recover(Hooks(), State(), err.value), until, left)
              else Run(Hooks(), State(), until, left)
      ensures if fuel > 0 then left < fuel else left == 0 && err.None?
    {
      hide Code, Decode, Run, Recover, EntriesOk, CachesValid, Compiled, At;
      var block := first;
      left, err := fuel, None;
      while true
        invariant Clean() && Grows() && tables == old(tables)
        invariant Compiled(block, cpu.mem.cleanCode) && cpu.regs.rip == block.start && !AtEnd(State(), until)
        invariant left <= fuel
        invariant Run(Hooks(), State(), until, left) == Run(Hooks(), old(State()), until, fuel)
        decreases left
      {
        if cpu.regs.rip != block.start {
          return;
        }
        var next;
        if until == 0 {
          next, left, err := PassUnbounded(block, left);
        } else {
          next, left, err := PassUntil(block, until, left);
        }
        if err.Some? || next.None? {
          return;
        }
        block := next.value;
      }
    }

    /** How one turn of a run loop ended. */
    ghost function Turn(done: Outcome): StepResult
      reads this, cpu, cpu.mem
    {
      match done
      case Running => Continue(State())
      case Stopped(e) => Halt(State(), e)
    }

    /** The hook of SYSCALL or CPUID; only SYSCALL advances RIP afterwards. */
    method RunInsnHook(d: Decoded, pc: U64, ghost until: U64) returns (done: Outcome)
      requires Valid() && cpu.regs.rip == pc && !AtEnd(State(), until)
      requires Decode(Code(cpu.mem.flat), pc) == Ok(d) && !d.hooked.NotHooked?
      modifies this, cpu, cpu.mem, cpu.mem.frames
      ensures Valid() && Grows() && tables == old(tables)
      ensures Step(Hooks(), old(State()), until) == Turn(done)
    {
      hide Code, Decode, CallHook, CachesValid, Memory.Valid, At, StepPlain, Recover;
      if d.hooked !in insnHooks {
        return Stopped(Some(NoHook(d.hooked)));
      }
      cpu.curInstrEnd := At(pc, d.len);
      var end := cpu.curInstrEnd;
      var retry := RunHook(InsnCall(d.hooked, cpu.State()));
      if d.hooked == Syscall && !stopRequested {
        cpu.regs := cpu.regs.(rip := end);
      }
      done := Running;
    }

    /** A fault is offered to the hook; unhandled, it ends the run. */
    method AfterFault(e: EngineError) returns (done: Outcome)
      requires Valid()
      modifies this, cpu, cpu.mem, cpu.mem.frames
      ensures Valid() && Grows() && tables == old(tables)
      ensures Recover(Hooks(), old(State()), e) == Turn(done)
    {
      hide Recover, CachesValid, Memory.Valid;
      var handled := HandleFault(e);
      done := if handled then Running else Stopped(Some(e));
    }

    /** The instruction-at-a-time path over the decode cache. */
    method StepOnce(pc: U64, ghost until: U64) returns (done: Outcome)
      requires Clean() && cpu.regs.rip == pc && !AtEnd(State(), until)
      modifies this, cpu, cpu.mem, cpu.mem.frames, tables
      ensures Valid() && Grows()
      ensures Step(Hooks(), old(State()), until) == Turn(done)
    {
      hide Code, Decode, CachesValid, Memory.Valid, At, Step, Recover, AtEnd;
      var r := CachedDecode(pc);
      if r.Err? {
        StepDecodeFails(Hooks(), State(), until, r.error);
        done := AfterFault(r.error);
      } else if !r.value.hooked.NotHooked? {
        done := RunInsnHook(r.value, pc, until);
      } else {
        var branched, err := RunInstr(r.value, pc, until);
        done := Running;
        if err.Some? {
          done := AfterFault(err.value);
        }
      }
    }

    /** The block path: no block means the caller takes the other path. */
    method StepBlock(pc: U64, until: U64, fuel: nat) returns (taken: bool, left: nat, done: Outcome)
      requires Clean() && cpu.regs.rip == pc && !AtEnd(State(), until) && fuel > 0
      modifies this, cpu, cpu.mem, cpu.mem.frames, tables
      ensures Valid() && Grows()
      ensures !taken ==> Clean() && State() == old(State())
      ensures taken ==> left < fuel && Run(Hooks(), old(State()), until, fuel) == Resume(Hooks(), Turn(done), until, left)
    {
      hide Code, Decode, CachesValid, Memory.Valid, Compiled, At, AtEnd, Step, Recover, Run;
      taken, left, done := true, fuel - 1, Running;
      var block, err := CompileBlock(pc);
      RunOne(Hooks(), State(), until, fuel);
      if err.Some? {
        StepDecodeFails(Hooks(), State(), until, err.value);
        done := AfterFault(err.value);
      } else if block.Some? {
        left, err := ExecuteBlock(block.value, until, fuel);
        if err.Some? {
          done := AfterFault(err.value);
        }
      } else {
        taken := false;
      }
    }

    method SetBegin(begin: U64)
      requires Valid()
      modifies this`stopRequested, cpu`regs
      ensures Valid() && State() == Begin(old(State()), begin)
    {
      hide EntriesOk, Compiled;
      cpu.regs := cpu.regs.(rip := begin);
      stopRequested := false;
    }

    /** EmuStart, for at most `fuel` steps.  With or without the block path, with
        whatever was cached before, for every fuel: the state reached, the hook
        calls made and the way the run stops are those of the reference. */
    method EmuStart(begin: U64, until: U64, fuel: nat) returns (out: Outcome)
      requires Valid()
      modifies this, cpu, cpu.mem, cpu.mem.frames, tables
      ensures Valid() && Grows()
      ensures RunResult(State(), out) == Run(Hooks(), Begin(old(State()), begin), until, fuel)
    {
      hide CachesValid, Run;
      SetBegin(begin);
      out := RunLoop(until, fuel);
    }

    /** One turn of the loop: a block and what it leads to, or one instruction. */
    method OneTurn(until: U64, fuel: nat) returns (left: nat, done: Outcome)
      requires Valid() && !AtEnd(State(), until) && fuel > 0
      modifies this, cpu, cpu.mem, cpu.mem.frames, tables
      ensures Valid() && Grows() && left < fuel
      ensures Run(Hooks(), old(State()), until, fuel) == Resume(Hooks(), Turn(done), until, left)
    {
      hide CachesValid, Memory.Valid, Step, AtEnd, Run;
      var pc := cpu.regs.rip;
      var dirty := ConsumeDirty();
      var taken := false;
      if blockJIT {
        taken, left, done := StepBlock(pc, until, fuel);
      }
      if !taken {
        RunOne(Hooks(), State(), until, fuel);
        done := StepOnce(pc, until);
        left := fuel - 1;
      }
    }

    /** The loop of EmuStart, from wherever the engine stands. */
    method RunLoop(until: U64, fuel: nat) returns (out: Outcome)
      requires Valid()
      modifies this, cpu, cpu.mem, cpu.mem.frames, tables
      ensures Valid() && Grows()
      ensures RunResult(State(), out) == Run(Hooks(), old(State()), until, fuel)
    {
      hide CachesValid, Memory.Valid, Step, Run;
      var left: nat := fuel;
      while true
        invariant Valid() && Grows() && left <= fuel
        invariant Run(Hooks(), State(), until, left) == Run(Hooks(), old(State()), until, fuel)
        decreases left
      {
        if left == 0 {
          RunNone(Hooks(), State(), until);
          return Running;
        }
        if stopRequested || (until != 0 && cpu.regs.rip == until) {
          RunOne(Hooks(), State(), until, left);
          StepAtEnd(Hooks(), State(), until);
          return Stopped(None);
        }
        var done;
        left, done := OneTurn(until, left);
        if done.Stopped? {
          return done;
        }
      }
    }

    /** A new engine with equal registers and memory, sharing nothing; hooks are
        for the caller to install. */
    method Clone() returns (child: Engine)
      requires Valid()
      ensures child.Valid() && fresh(child.Footprint())
      ensures child.State() == Machine(State().arch, false, [])
      ensures child.insnHooks == {} && !child.unmapHook && child.blockJIT == blockJIT
    {
      hide EntriesOk, Compiled, Memory.Valid;
      var mem := cpu.mem.Clone();
      var processor := new Processor(mem, cpu.regs);
      child := new Engine(processor);
      child.blockJIT := blockJIT;
    }

    /** What doFork does to the cloned engine: hooks, RAX = 0, RIP past SYSCALL. */
    method StartAsChild(resume: U64, insn: set<Hooked>, unmap: bool, answers: nat -> HookReply)
      requires Valid()
      modifies this, cpu, cpu.mem, cpu.mem.frames
      ensures Valid() && fresh(cpu.mem.frames - old(cpu.mem.frames)) && tables == old(tables)
      ensures insnHooks == insn && unmapHook == unmap && replies == answers
      ensures State() == Begin(Reference.ApplyOp(old(State()), SetGpr(RAX, 0)), resume)
    {
      hide CachesValid;
      InstallHooks(insn, unmap, answers);
      ApplyOp(SetGpr(RAX, 0));
      SetBegin(resume);
    }

    /** HookInsn and HookMemUnmapped. */
    method InstallHooks(insn: set<Hooked>, unmap: bool, answers: nat -> HookReply)
      requires Valid()
      modifies this`insnHooks, this`unmapHook, this`replies
      ensures Valid() && State() == old(State())
      ensures insnHooks == insn && unmapHook == unmap && replies == answers
    {
      hide EntriesOk, Compiled, Memory.Valid;
      insnHooks, unmapHook, replies := insn, unmap, answers;
    }
  }

  lemma StepAtEnd(env: Env, m: Machine, until: U64)
    requires AtEnd(m, until)
    ensures Step(env, m, until) == Halt(m, None)
  {
  }

  lemma NothingDecoded(entries: seq<Option<Decoded>>, base: U64, code: CodeBytes)
    requires |entries| == 0x1000 && forall i :: 0 <= i < 0x1000 ==> entries[i].None?
    ensures EntriesOk(entries, base, code)
  {
  }

  lemma StepDecodeFails(env: Env, m: Machine, until: U64, e: EngineError)
    requires !AtEnd(m, until) && Decode(Code(m.arch.mem), m.arch.regs.rip) == Err(e)
    ensures Step(env, m, until) == Recover(env, m, e)
  {
  }

  lemma RunNone(env: Env, m: Machine, until: U64)
    ensures Run(env, m, until, 0) == RunResult(m, Running)
  {
  }

  lemma RunOne(env: Env, m: Machine, until: U64, n: nat)
    requires n > 0
    ensures Run(env, m, until, n) == Resume(env, Step(env, m, until), until, n - 1)
  {
  }

  lemma DecodesNothing(start: U64, code: CodeBytes)
    ensures Decodes(start, [], code) && PcAt(start, [], 0) == start
  {
  }

  lemma CompiledDecodes(b: BasicBlock, code: CodeBytes)
    requires Compiled(b, code)
    ensures b.instructions != [] && Decodes(b.start, b.instructions, code) && PcAt(b.start, b.instructions, 0) == b.start
  {
  }

  lemma DecodesAt(start: U64, instructions: seq<Decoded>, code: CodeBytes, i: nat)
    requires Decodes(start, instructions, code) && i < |instructions|
    ensures
      var pc, d := PcAt(start, instructions, i), instructions[i];
      && Decode(code, pc) == Ok(d) && d.hooked.NotHooked?
      && (i + 1 < |instructions| ==> !d.endsBlock)
      && PcAt(start, instructions, i + 1) == At(pc, d.len)
  {
  }

  lemma CompiledIs(b: BasicBlock, code: CodeBytes)
    requires b.instructions != [] && Decodes(b.start, b.instructions, code)
    ensures Compiled(b, code)
  {
  }

  lemma {:induction false} PcAtPrefix(start: U64, xs: seq<Decoded>, ys: seq<Decoded>, i: nat)
    requires i <= |xs|
    ensures PcAt(start, xs + ys, i) == PcAt(start, xs, i)
  {
    if i > 0 {
      PcAtPrefix(start, xs, ys, i - 1);
    }
  }

  lemma DecodesAppend(start: U64, xs: seq<Decoded>, d: Decoded, code: CodeBytes)
    requires Decodes(start, xs, code) && (xs != [] ==> !xs[|xs| - 1].endsBlock)
    requires Decode(code, PcAt(start, xs, |xs|)) == Ok(d) && d.hooked.NotHooked?
    ensures Decodes(start, xs + [d], code)
    ensures PcAt(start, xs + [d], |xs| + 1) == At(PcAt(start, xs, |xs|), d.len)
  {
    hide Decode, At;
    forall i | 0 <= i <= |xs|
      ensures PcAt(start, xs + [d], i) == PcAt(start, xs, i)
    {
      PcAtPrefix(start, xs, [d], i);
    }
    assert PcAt(start, xs + [d], |xs| + 1) == At(PcAt(start, xs, |xs|), d.len);
    hide PcAt;
  }

  /** The environment that answers the k-th call with the k-th prepared reply. */
  ghost function OracleReply(replies: nat -> HookReply): seq<HookCall> -> HookReply {
    (calls: seq<HookCall>) => if calls == [] then Reply([], false) else replies(|calls| - 1)
  }
}
