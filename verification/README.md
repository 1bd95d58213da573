# golinux: a verified model

golinux runs x86-64 Linux programs in user space: a CPU engine interprets guest
code over a sparse page memory, and a syscall layer gives the guest processes,
file descriptors and a virtual file system. This project models the parts on
which everything else rests and proves that they do what they are for.

- **The engine.** `Reference` is the plain fetch-decode-execute loop over
  registers and a flat memory, with no cache. `Engine` is the real thing: a
  page-indexed decode cache, basic blocks in a direct-mapped table with a
  generation number, a one-entry page-lookup cache, and a `codeDirty` flag as the
  only link from guest writes to the caches. Its run loop is proved to reach the
  same state, make the same hook calls and stop in the same way as the reference,
  for every program (self-modifying ones included), every `until`, every number of
  steps and every behaviour of the hooks, repair of faults included.
- **Memory.** `PagedMemory` refines `FlatMemory`, a partial map from addresses to
  a byte and its permissions, fault for fault.
- **Decoding.** `Decoder` is a function of the executable bytes alone; `Cursors`
  is the decoder as it is, fetching through the memory. `OpcodeMap` is the opcode map
  of the Intel SDM for the subset, written down line by line on its own, and proves
  that decodeOne inverts it and accepts nothing else; `Addressing` is its part about
  ModRM.
- **Integer semantics.** `Arithmetic` and `WideArithmetic` state what flags,
  condition codes, carry chains, multiplication and division mean, `MulDiv` what the
  registers hold after MUL, IMUL, DIV and IDIV. `Bits`, `Effects`, `Success` and
  `Strings` say what every other instruction of the subset does, when it succeeds and
  what a failing one leaves, by laws about operands before and after, not about how
  the result is computed: logic bit by bit, sums as numbers, the stack by what comes
  back from it, MOVS and STOS by blocks, CMPS and SCAS by where they stop.
- **Runs and restarts.** `Runs` states what a run does by the bytes in memory alone:
  which hook calls are made, where RIP goes, and where the run stops. `Restart` proves
  that a REP instruction that faulted half-way can be run again, `RestartExactly` that
  the condition it needs is exact, and `Retry` when an ALU instruction whose write
  faulted can be. `Ext80` is exact widening to 80-bit floats.
- **The fork tree.** `Fork` proves that parent and child cannot see each other's
  steps. `Descriptors` is the descriptor tables of any number of processes sharing
  one reference-count map, as a state machine of atomic steps; `FileTable` is the
  table as the object it is. `Children` is the wait4 protocol.
- **Paths and encodings.** `Paths`, `Mounts` and `Symlinks` are path algebra,
  longest-prefix mounts and restart-style symlink resolution. `StackImage` and
  `Dirents` are a writer each, the initial stack and getdents64, whose readers are
  proved to get back what was written.

Objects that the program changes in place are classes (`Memory`, `Page`,
`Processor`, `Engine`, `Cursor`, `FileRefs`, `Table`, `Registry`, `MountTable`,
`DirHandle`), and loops are loops. Go arrays that are part of a struct (a page's
bytes, the entries of a decoded page, the block table) are values in Go; here they
are sequence-valued fields that the methods reassign. Operations that several
goroutines perform at once are split at the points where another one can run, and
results about them hold for every sequence of such steps.

`dafny verify dfyconfig.toml` checks the whole project.

## Where the code falls short

Eight of the laws one would expect hold only under a condition. For each the exact
condition is proved, as an if and only if over all inputs.

- IDIV reports only a 64-bit dividend whose high half is neither 0 nor all ones. Any
  other whose quotient does not fit is answered, and wrongly, at every width
  (`WideArithmetic.IdivOverflowAnswered`; 2^40 by 1 in 32 bits and the least 64-bit
  number by -1 are `WideArithmetic.IdivOverflows`). A 64-bit dividend whose high half
  is 0 or all ones but not the sign extension of the low half is answered too, and
  wrongly except for one coincidence (`WideArithmetic.IdivWrongAnswer`).
  `WideArithmetic.DivSignedExactlyWhen` is the exact condition, `MulDiv.IdivRegisters`
  the same on the registers. The comment at internal/cpu/exec.go:184-190 says such
  dividends give an error; the code is followed.
- The next descriptor number is a 64-bit counter that dup2 can set, and Alloc does not
  check it. One dup2 to 2^63-1 leaves it below an open descriptor
  (`Descriptors.GreatestNumber`); dup2 to 2^63-2, dup2 to 2^63-1 and an open overwrite
  an entry whose reference is then never dropped (`Descriptors.TakenNumber`). The
  counter stays above all descriptors at every moment of a run if and only if no
  operation opens the number 2^63-1 (`Descriptors.FreshNeverCollides`, step by step
  `Descriptors.LowExactly`). All counts balance if and only if no open or dup finds its
  number taken (`Descriptors.CountsBalanceExactly`), and a file that no table names any
  more has been closed if and only if no entry naming it was overwritten
  (`Descriptors.ClosedOnceWhenUnnamed`).
- A MOVS whose destination crosses into a page that forbids writing has written the
  part below the page's end when it faults; executed again, it may read its own
  output. For every RSI, RDI, RCX, direction and width, an instruction with or
  without REP can be executed again in every memory of pages, however whole pages
  repair it, if and only if no element crosses a page, or RSI is RDI, or RDI is a
  multiple of the width, or the source holds none of the bytes written
  (`RestartExactly.SafeExactly`). Going down only the first element counts.
- An ALU instruction sets the flags before it writes its memory operand. If that
  write faults and the instruction is executed again, ADC and SBB take the carry they
  have just produced: the retry ends as the uninterrupted instruction would if and only
  if the instruction is another one or the two carries are equal
  (`Retry.AluAgainExactly`).
- MUL of two bytes puts the high byte of the product into DL where the architecture has
  AH; AX is the product if and only if AH held that byte before
  (`MulDiv.ByteMulExactlyWhen`).
- MemUnmap and MemProtect compute the end of their range in 64 bits. They reach exactly
  the pages that a range touches if and only if the range ends below the last page of
  the address space; one that reaches into the last page has no effect at all
  (`FlatMemory.UnmapsTouchedExactlyWhen`, and address by address, also for a size of 0
  and for ranges that wrap around, `FlatMemory.UnmapExactly` and
  `FlatMemory.ProtectExactly`). MemMap of a range that ends at or beyond the end of the
  address space succeeds and maps nothing (`FlatMemory.MapExactly`).
- followSymlinks gives up after the fortieth link. What comes back has no link left
  in it if and only if the path resolves with at most 40 links; otherwise it is the
  path as spliced so far, and resolving it takes up where the walk stopped
  (`Symlinks.FollowExactly`, `Symlinks.FollowThenResolve`; `Symlinks.SelfLink` is an
  input that never resolves).
- getdents64 returns 0 at the end, and also if the next record does not fit the
  buffer (`Dirents.ZeroExactlyWhen`).

decodeOne accepts a little more than the manual lists, and `OpcodeMap` has it in its
table: FE /2, /4 and /6 for FF, any digit for C6 and C7 /0, F6 and F7 /1 for /0, LEA of
a register (an error when it is executed), and LOCK and the address-size prefix, which
change nothing, before any instruction. The immediate of 68 has 32 bits, and PUSH and
POP move 64 bits, whatever the operand size.

A call of getdents64 that faults has moved the cursor all the same, so a reader gets
exactly the entries passed if and only if no call that passed a record faulted
(`Dirents.DeliveredExactly`).

The output of getdents64 parses back if and only if every name passed is one a record
can carry: without NUL, and at most 65508 bytes, so that the 16-bit record length can
count it (`Dirents.CallsParseBack`). That is the encoder's domain and no failure in
practice: names given by the guest are read with a limit of 4096 bytes, names from the
host have at most 255, and only a metadata file written by hand could hold another.

## Model

| member | source | states |
|---|---|---|
| Engine.Engine.EmuStart | internal/cpu/cpu.go:426-525 | for every begin, until and number of steps, with the block path on or off and whatever was cached before, the final registers, memory, hook calls and outcome are those of the cache-free reference run; what that run does at hooks, faults and `until`, `Runs` says |
| Engine.Engine.RunLoop | internal/cpu/cpu.go:429-524 | continuing from any state is the reference run continued, so a run may be cut anywhere |
| Modes.RunBoth | internal/cpu/block.go:201-207 | two engines in equal states, one with and one without the block path, stay equal after any number of steps |
| Engine.Engine.ExecuteBlock | internal/cpu/block.go:79-177 | running a block and the chain of blocks it leads to retires exactly the reference's steps; an error is left for the fault hook with RIP on the faulting instruction |
| Engine.Engine.PassUntil | internal/cpu/block.go:127-175 | one pass over a block with a stop address: every instruction retired is a reference step, the stop address is honoured between any two, and a next block is offered only if it is coherent and starts at RIP |
| Engine.Engine.PassUnbounded | internal/cpu/block.go:84-126 | the same without a stop address, where a branch ends the pass because only the last instruction of a block can branch |
| Engine.Engine.CompileBlock | internal/cpu/block.go:38-77 | a block is returned only if its instructions are what decoding the present code from `start` gives, none hooked and only the last ending a block; an error is the decoder's own |
| Engine.Engine.CachedBlockAt | internal/cpu/block.go:179-191 | a block found in either cache starts where asked and agrees with the present code |
| Engine.Engine.CachedDecode | internal/cpu/block.go:14-36 | a cache hit or miss gives exactly a fresh decode of present memory and changes nothing architectural |
| Engine.Engine.InvalidateCodeCaches | internal/cpu/block.go:193-199 | afterwards the caches are coherent with any code whatsoever |
| Engine.Engine.ConsumeDirty | internal/cpu/cpu.go:449-451 | after the poll, caches and memory agree; without a change of code nothing is dropped |
| Engine.Engine.SetBlockJIT | internal/cpu/block.go:201-207 | switching the mode keeps coherence and the architectural state |
| Engine.Engine.Retire | internal/cpu/block.go:98-118 | one instruction of a block is one reference step; only an instruction that ends its block may branch |
| Engine.Engine.StepOnce | internal/cpu/cpu.go:472-523 | the cached path makes exactly one reference step, hooks and faults included |
| Engine.Engine.StepBlock | internal/cpu/cpu.go:452-470 | the block path makes one or more reference steps or declines, and then nothing has changed |
| Engine.Engine.RunInsnHook | internal/cpu/cpu.go:499-511 | one step of the reference at SYSCALL or CPUID, the outcome of which `Runs.HookedOnce` and `Runs.UnhookedStops` say |
| Engine.Engine.HandleFault | internal/cpu/cpu.go:541-547 | a memory fault is retried exactly when the hook asks for it, with whatever the hook changed |
| Engine.Engine.ApplyOp | internal/cpu/cpu.go:257-340 | every API call a hook may make has its architectural effect and keeps the caches coherent |
| Engine.Engine.RunHook | internal/cpu/cpu.go:541-547 | a hook call is recorded with the state it saw and its operations are carried out in order |
| Engine.Engine.Clone | internal/cpu/cpu.go:240-253 | equal registers, bytes and permissions, and not one heap object shared |
| Engine.DecodesAppend | internal/cpu/block.go:49-73 | decoding ahead by one instruction extends a coherent block |
| Runs.SyscallsRun | internal/cpu/cpu.go:499-511 | n SYSCALLs in a row, under a hook that never stops the engine, sets RIP or touches that code: n steps make exactly n calls, one at each instruction in order, and RIP ends just past the last |
| Runs.HookedOnce | internal/cpu/cpu.go:499-511 | a SYSCALL or CPUID with a hook makes one call with the state before it; then RIP is past a SYSCALL whatever the hook set, and where the hook left it after a CPUID or a stop |
| Runs.StopStops | internal/cpu/cpu.go:430-511 | a hook that stops the engine ends the run after its one call, RIP still on the instruction unless the hook set it |
| Runs.UnhookedStops | internal/cpu/cpu.go:499-503 | without a hook the run ends on the instruction with an error and no call |
| Runs.NopsRun | internal/cpu/cpu.go:513-524 | n NOPs: n steps move RIP by n bytes and change nothing else |
| Runs.PlainOnce | internal/cpu/cpu.go:513-524 | an instruction that succeeds leaves RIP where it jumped, or past its bytes |
| Runs.UntilStops | internal/cpu/cpu.go:430-435 | the run stops when it first gets to `until`, before the instruction there, however many steps are left; with 0 there is no stop address |
| Runs.FaultHooked | internal/cpu/cpu.go:513-547 | a fault calls the hook once, with the fault and the state at it; asked to retry, the run goes on at the same instruction unless the hook set RIP, else it ends there with the fault |
| Runs.FaultEnds | internal/cpu/cpu.go:541-547 | without a fault hook the run ends at the faulting instruction with that fault |
| Runs.ErrorEnds | internal/cpu/cpu.go:541-547 | an error of decoding that is no memory fault ends the run, fault hook or not, without a call |
| Runs.FetchFaults | internal/cpu/modrm.go:23-38 | an instruction that cannot be fetched faults with its own address and one byte left |
| Runs.FetchRepaired | internal/cpu/cpu.go:483-494 | a hook that maps the missing instruction and asks for a retry: after one call it has been executed |
| Runs.HostOpsSeen | internal/cpu/cpu.go:257-340 | what a hook sets through the API is what the guest has: a register reads back, FS and GS addresses start at their bases, EFLAGS packs to the word set |
| Runs.HostMemorySeen | internal/cpu/cpu.go:257-340 | mapping, unmapping and protecting by a hook, address by address |
| Runs.HostWriteSeen | internal/cpu/cpu.go:257-340 | what a hook writes the guest reads |
| Oracles.HooksAsOracles | internal/cpu/cpu.go:541-547 | any hooks, however they depend on the states they see, make the same run as some prepared sequence of answers, so nothing is lost by giving the engine its answers in advance |
| Fork.Interleave | internal/emulator/emulator.go:765-827 | under every schedule of slices of any length, parent and child each end in the state, with the hook calls and the outcome, that their own steps alone produce |
| Fork.DoFork | internal/emulator/emulator.go:765-803 | the child is the parent's registers and memory with RAX zero and RIP at the resume address, sharing nothing |
| Fork.ForkAndRun | internal/emulator/emulator.go:765-827 | fork, then any schedule: the parent ends as if it had not forked, the child as a machine started alone in the parent's state with RAX zero |
| Fork.RunSplit | internal/cpu/cpu.go:429-524 | a run cut in two is the run: preemption is invisible |
| PagedMemory.Memory.Copy | internal/cpu/memory.go:203-254 | a transfer succeeds on exactly its range or faults at the first forbidden byte with the address and size left, having written exactly the bytes below; the flag is raised whenever executable bytes may have changed |
| PagedMemory.Memory.LookupPage | internal/cpu/memory.go:56-64 | the one-entry cache is invisible: the answer is the page table's |
| PagedMemory.Memory.ReadCheckedInto | internal/cpu/memory.go:283-310 | the non-straddling fast read gives the bytes or the very fault of the general one |
| PagedMemory.Memory.MemWrite | internal/cpu/memory.go:180-185 | a host write ignores permissions and is otherwise a store to the flat map |
| PagedMemory.Memory.MemRead | internal/cpu/memory.go:187-198 | a host read ignores permissions and is otherwise a load from the flat map |
| PagedMemory.Memory.ReadChecked | internal/cpu/memory.go:260-266 | a checked read is a load from the flat map, fault for fault |
| PagedMemory.Memory.WriteChecked | internal/cpu/memory.go:268-270 | a checked write is a store to the flat map, fault and partial effect included |
| PagedMemory.Memory.MemMap | internal/cpu/memory.go:104-124 | maps fresh zeroed pages or, if the request is malformed or any page taken, nothing at all, also where the end wraps around |
| PagedMemory.Memory.MemUnmap | internal/cpu/memory.go:126-138 | removes the pages that the flat map loses, which are those that `FlatMemory.UnmapExactly` names |
| PagedMemory.Memory.MemProtect | internal/cpu/memory.go:140-151 | changes the permissions of the mapped pages that `FlatMemory.ProtectExactly` names, and no byte |
| PagedMemory.Memory.Clone | internal/cpu/memory.go:164-172 | equal contents, every page fresh |
| PagedMemory.Memory.ConsumeCodeDirty | internal/cpu/memory.go:81-85 | afterwards the code declared clean is the code in memory |
| PagedMemory.PagedExactly | internal/cpu/memory.go:13-22 | page tables stand for exactly the memories in which mapping and permission are the same throughout a page |
| PagedMemory.SpliceStep | internal/cpu/memory.go:228-251 | writing one page's chunk is a store to the flat map, and leaves the code alone if the page is not executable |
| PagedMemory.MapMeaning | internal/cpu/memory.go:104-124 | page by page mapping is the flat map extended by zero cells |
| PagedMemory.UnmapMeaning | internal/cpu/memory.go:126-138 | page by page removal is the flat map cut down |
| PagedMemory.ProtectMeaning | internal/cpu/memory.go:140-151 | page by page protection is the flat map with new permissions |
| FlatMemory.StoreExact | internal/cpu/memory.go:203-254 | all or the bytes below the first address that is unmapped or lacks the permission are written, nothing else changes, and the fault names its kind, that address and the bytes left |
| FlatMemory.LoadExact | internal/cpu/memory.go:203-254 | all bytes of the range, or the fault with its kind, the first address that is unmapped or lacks the permission, and the bytes left |
| FlatMemory.UnmapExactly | internal/cpu/memory.go:126-138 | an address is gone if and only if some byte of the range lies in its page and the range ends below the last page; an empty or wrapping range reaches at most the page of its first byte; all other cells stay |
| FlatMemory.ProtectExactly | internal/cpu/memory.go:140-151 | the same for permissions, and no byte changes |
| FlatMemory.UnmapsTouchedExactlyWhen | internal/cpu/memory.go:126-138 | the pages removed are those the range touches, in every memory, if and only if the range ends below the last page |
| FlatMemory.MapExactly | internal/cpu/memory.go:104-124 | zeroed cells on exactly the range asked for, all others kept; refused exactly if not aligned, empty or not free; nothing mapped if the end is at or beyond the end of the address space |
| FlatMemory.LoadAfterStore | internal/cpu/memory.go:203-254 | what was stored is what is loaded |
| FlatMemory.PokeAppend | internal/cpu/memory.go:203-254 | two consecutive stores are one of the concatenation, so splitting at pages changes nothing |
| FlatMemory.FetchSeesCodeOnly | internal/cpu/modrm.go:23-30 | an instruction fetch depends on nothing but the executable bytes |
| Cursors.DecodeOne | internal/cpu/decode.go:128-301 | the fetching decoder returns the instruction or the error that the executable bytes alone determine, and touches nothing; which instruction that is, `OpcodeMap` says |
| OpcodeMap.DecodeInvertsEncoding | internal/cpu/decode.go:128-1130 | on the bytes of any line of the opcode map (any prefixes in any order, REX, opcode, every form of the operand, immediate) decodeOne returns that line's instruction or hook, whether it ends a block, and the number of bytes |
| OpcodeMap.OnlyInstructionsDecode | internal/cpu/decode.go:128-1130 | conversely, whatever decodeOne accepts, at any address of any code, is such an encoding of what it returns |
| Semantics.OnlyBranchesBranch | internal/cpu/decode.go:294-297 | only instructions decoded as ending a block set RIP themselves |
| Success.BranchesExactly | internal/cpu/decode.go:294-297 | an instruction ends a block if and only if in some state it sets RIP itself |
| Success.SucceedsExactly | internal/cpu/operand.go:169-198 | an instruction succeeds if and only if every byte it reads and writes carries the permission for that |
| Success.FailureKeeps | internal/cpu/exec.go:8-28 | an instruction that fails has moved no general register and no segment base, but for LEAVE, and has not branched; flags change only where they are computed before the write |
| Core.Processor.Exec | internal/cpu/decode.go:299-930 | executing a decoded instruction on register fields and page memory has exactly the effect of the function `Exec`, partial effects of a failing one included; what that is, `Effects`, `Success`, `Strings` and `MulDiv` say |
| Core.Processor.EffAddr | internal/cpu/operand.go:122-149 | the address summed up step by step in 64-bit arithmetic is base + index*scale + disp + segment reduced once modulo 2^64 |
| Core.Processor.AluBinOp | internal/cpu/decode.go:82-125 | operands, flags and result of the eight operations as in `Effects.AluExecutes`; CMP writes no operand |
| Effects.AluExecutes | internal/cpu/decode.go:82-125 | for every operation, operand and width: the destination reads back as the sum or difference modulo the width or as the bitwise operation on every bit, CF, OF, AF, ZF, SF and PF are what they mean, and nothing else has changed, nothing at all for CMP |
| Effects.AluMeansOne | internal/cpu/decode.go:82-125 | that determines the result |
| Effects.TestExecutes | internal/cpu/decode.go:527-547 | TEST sets the flags of AND and nothing else |
| Effects.CompareAndBranch | internal/cpu/decode.go:973-985 | CMP followed by a conditional jump: it is taken exactly if the condition it names holds of the values compared |
| Effects.IncDecExecutes | internal/cpu/decode.go:833-873 | one more or one less modulo the width, CF kept, the other flags those of the sum or difference |
| Effects.FastForms | internal/cpu/decode.go:510-522 | the specialised 32-bit ADD, INC and DEC are the general instructions on that register |
| Effects.NotExecutes | internal/cpu/exec.go:36-39 | NOT flips every bit and no flag |
| Effects.NegExecutes | internal/cpu/exec.go:40-45 | operand and result of NEG add up to 0 modulo the width, and CF says the operand was not 0 |
| Effects.MovExecutes | internal/cpu/decode.go:581-600 | MOV: the destination reads back as the source, cut to the width, and nothing else has changed |
| Effects.LeaExecutes | internal/cpu/decode.go:665-678 | LEA: the register gets the address cut to the width, and memory is not read |
| Effects.PopUndoesPush | internal/cpu/decode.go:681-711 | PUSH stores the operand in the eight bytes below RSP and nothing else; POP brings RSP back with that value |
| Effects.RetUndoesCall | internal/cpu/decode.go:942-1008 | a direct or indirect CALL goes to its target; RET comes back to the byte after it with RSP restored, n bytes further for RET n |
| Effects.LeaveUndoesEnter | internal/cpu/decode.go:1009-1020 | LEAVE restores RSP and RBP to what they were before PUSH RBP and MOV RBP, RSP, whatever was done in between |
| Effects.JumpsExecute | internal/cpu/decode.go:955-972 | the target counts from the end of the instruction, or is read |
| Effects.SegmentBases | internal/cpu/operand.go:122-149 | an FS or GS prefix adds that segment's base to the address and not the other's |
| Effects.AddressParts | internal/cpu/operand.go:122-149 | base, scaled index and displacement add up modulo 2^64, a missing part being 0; a RIP-relative address counts from the end of the instruction |
| Effects.WrittenReadsBack | internal/cpu/operand.go:169-198 | what an instruction writes to an operand in a register or in memory the next one reads there, and nothing else has changed |
| Bits.LogicalBits | internal/cpu/decode.go:97-118 | every bit of AND, OR and XOR is that operation on the bits |
| Bits.LogicAndSums | internal/cpu/decode.go:97-118 | a + b is a XOR b plus twice a AND b; a XOR a is 0 |
| Bits.EflagsBits | internal/cpu/flags.go:23-31 | the flags are the bits of EFLAGS that the manual numbers them by |
| Core.Processor.PushWord | internal/cpu/exec.go:8-15 | RSP moves only if the store succeeds |
| Core.Processor.StrMovs | internal/cpu/exec.go:239-257 | the loop has the effect of its elements one after the other, with RCX, RSI and RDI saved at a fault |
| Core.Processor.StrCmps | internal/cpu/exec.go:293-319 | the same with the early exit on ZF |
| Strings.MovsCopies | internal/cpu/exec.go:221-257 | CLD or STD, then MOVS with or without REP, on blocks that do not overlap: the destination holds the source, no other byte has changed, the pointers are past the blocks on the side the flag says, RCX is 0 |
| Strings.StosFills | internal/cpu/exec.go:259-274 | the block holds the low bytes of RAX over and over, no other byte has changed |
| Strings.LodsLoads | internal/cpu/exec.go:276-291 | LODS reads the word at RSI into the low bytes of RAX and moves RSI past it |
| Strings.CompareStops | internal/cpu/exec.go:293-343 | REPE stops after the first pair of words that differ, REPNE after the first that are equal, else after RCX pairs; counters and pointers have moved by the pairs compared, and every condition code tells how the last one compares |
| Strings.ComparesUnlessFault | internal/cpu/exec.go:293-343 | words that can all be read are compared without a fault |
| Core.Processor.Grp3Op | internal/cpu/exec.go:30-107 | NOT, NEG, MUL, IMUL, DIV and IDIV on a pair of registers |
| Registers.WriteThenRead | internal/cpu/registers.go:58-115 | what is written to an operand is read back truncated to its width, high-byte registers included |
| Registers.WriteFrame | internal/cpu/registers.go:65-115 | a write changes its own bytes only, except that a 32-bit write clears the upper half |
| Registers.ByteRegisters | internal/cpu/registers.go:58-73 | without REX byte registers 4 to 7 are bits 8 to 15 of RAX, RCX, RDX and RBX, with REX the low bytes of RSP, RBP, RSI and RDI; a write changes those bits and no others |
| Registers.PackUnpack | internal/cpu/flags.go:23-31 | keeping the flag bits apart loses nothing of the EFLAGS word |
| Addressing.ModRMInvertsEncoding | internal/cpu/modrm.go:113-194 | on the bytes of any register, base+index*scale+disp, absolute or RIP-relative operand, in every form the encoding allows, decodeModRM returns that operand and the reg field and consumes exactly those bytes |
| Addressing.OnlyEncodingsDecode | internal/cpu/modrm.go:113-194 | conversely, whatever decodeModRM accepts is an encoding of what it returns |
| Arithmetic.AddExact | internal/cpu/flags.go:55-84 | CF and OF are the mathematical carry and signed overflow at every width, with carry-in |
| Arithmetic.SubExact | internal/cpu/flags.go:92-122 | CF and OF are the mathematical borrow and signed overflow at every width, with borrow-in |
| Arithmetic.AuxiliaryCarry | internal/cpu/flags.go:55-122 | AF is the carry or borrow out of the low nibble |
| Arithmetic.ConditionCodesDecide | internal/cpu/decode.go:39-76 | after a compare each of the sixteen codes decides the signed or unsigned comparison it is named for, at every width |
| Arithmetic.FastPathsAgree | internal/cpu/flags.go:131-163 | the 32-bit ADD, INC and DEC paths give the generic result and whole flag register |
| WideArithmetic.AddChainExact | internal/cpu/flags.go:55-84 | ADD followed by ADCs over n limbs of any width adds n-limb numbers exactly, CF being the outgoing carry, for every n |
| WideArithmetic.SubChainExact | internal/cpu/flags.go:92-122 | the same for SUB and SBB, CF being the outgoing borrow |
| WideArithmetic.MulUnsignedExact | internal/cpu/exec.go:132-142 | the halves are the true product at every width, and the high half is nonzero exactly when it does not fit |
| WideArithmetic.MulSignedExact | internal/cpu/exec.go:144-162 | the halves are the true signed product, and the overflow test fires exactly when it does not fit |
| WideArithmetic.DivUnsignedExact | internal/cpu/exec.go:164-182 | quotient and remainder are Euclidean, or overflow is reported exactly when the quotient does not fit |
| WideArithmetic.DivUndoesMul | internal/cpu/exec.go:132-182 | dividing a product by a nonzero factor gives the other factor and remainder zero |
| WideArithmetic.DivSignedExactlyWhen | internal/cpu/exec.go:191-210 | IDIV is division truncated toward zero if and only if the quotient fits and, at 64 bits, the high half is the sign extension, or in the one case where wrapping hits the right answer |
| WideArithmetic.IdivOverflowAnswered | internal/cpu/exec.go:191-210 | a quotient that does not fit is an error only for a 64-bit dividend whose high half is neither 0 nor all ones; otherwise it is answered, and wrongly |
| WideArithmetic.IdivOverflows | internal/cpu/exec.go:195-209 | two dividends with such quotients, in 32 and in 64 bits |
| WideArithmetic.IdivWrongAnswer | internal/cpu/exec.go:195-202 | a dividend on which the quotient returned has the wrong sign and no error is reported |
| MulDiv.MulRegisters | internal/cpu/exec.go:46-58 | after MUL of any width rDX:rAX (DL:AL for bytes) is the true product, CF and OF say whether it needs rDX, and nothing else has changed |
| MulDiv.ImulRegisters | internal/cpu/exec.go:59-71 | after IMUL rDX:rAX is the true signed product, CF and OF say that it does not fit rAX, and nothing else has changed |
| MulDiv.DivRegisters | internal/cpu/exec.go:72-88 | DIV leaves Euclidean quotient and remainder and changes nothing else, or reports an error and changes nothing, exactly when the divisor is zero or the quotient does not fit |
| MulDiv.IdivRegisters | internal/cpu/exec.go:89-105 | IDIV leaves truncated quotient and remainder exactly under the condition of `DivSignedExactlyWhen` |
| MulDiv.DivAfterMul | internal/cpu/exec.go:30-107 | DIV by the factor of the MUL before brings rAX back and clears rDX |
| MulDiv.ByteMulExactlyWhen | internal/cpu/exec.go:46-58 | after an 8-bit MUL AX is the product if and only if AH held its high byte before |
| Restart.LoopRestart | internal/cpu/exec.go:239-343 | a REP loop that faulted after any number of elements, resumed in repaired memory from the saved RCX, RSI and RDI, ends as one run in the repaired memory; for MOVS under the exact condition `Safe` |
| Restart.MapRestart | internal/cpu/exec.go:239-343 | when the hook maps pages, the resumed run ends as one that had the pages from the start |
| Restart.StepRestart | internal/cpu/cpu.go:513-520 | the engine's retry of the instruction is the step an uninterrupted machine would make, as long as the instruction's bytes decode as before |
| RestartExactly.SafeExactly | internal/cpu/exec.go:239-257 | for every register file, width and REP prefix: every fault in every memory of pages, repaired by whole pages, can be resumed if and only if the instruction is not a MOVS with an element that crosses a page and writes, below the page's end, bytes of a source other than itself |
| Restart.MappingRepairs | internal/cpu/memory.go:104-124 | mapping pages enables without changing a byte |
| Retry.AluAgainExactly | internal/cpu/decode.go:82-125 | executed again after a write fault at the first byte was repaired, an ALU instruction ends as it would have without the fault if and only if it is neither ADC nor SBB or produced the carry it was given |
| Ext80.Float64Exact | internal/cpu/x87.go:15-43 | every finite double, normal or subnormal, keeps its value and sign, and the explicit top bit is set unless it is zero |
| Ext80.Float64Special | internal/cpu/x87.go:20-26 | infinities and NaNs stay what they are, with their sign |
| Ext80.Int64Exact | internal/cpu/x87.go:234-249 | every 64-bit integer keeps its value, with the top bit set unless it is zero |
| Descriptors.CountsAreEntries | internal/fds/fds.go:335-549 | over every interleaving of every process's operations, the count of a file is the number of entries naming it in all tables, less the increments and plus the decrements under way, plus the entries naming it that Alloc overwrote |
| Descriptors.CountsBalanceExactly | internal/fds/fds.go:335-549 | so every count balances if and only if no open or dup of the run found its number taken |
| Descriptors.ClosedOnceWhenUnnamed | internal/fds/fds.go:351-363 | a file is closed at most once, never while a table names it, and once nothing is under way exactly when it was opened, no table names it, and no entry naming it was overwritten |
| Descriptors.FreshNeverCollides | internal/fds/fds.go:443-449 | the next number is above every descriptor of its table at every moment of a run if and only if no operation opens 2^63-1, and then no number handed out is taken |
| Descriptors.LowExactly | internal/fds/fds.go:443-549 | the same for one step |
| Descriptors.GreatestNumber | internal/fds/fds.go:533-549 | after one dup2 to 2^63-1 the next number is 3, below that descriptor |
| Descriptors.TakenNumber | internal/fds/fds.go:443-549 | after two dup2 and an open standard input has two entries and a count of three |
| Descriptors.LastReference | internal/fds/fds.go:351-363 | when the count reaches zero no table names the file, not even by an entry still to be counted |
| Descriptors.NextKeeps | internal/fds/fds.go:335-549 | every operation started and every atomic step taken keeps the invariant |
| FileTable.FileRefs.DecrAndMaybeClose | internal/fds/fds.go:351-363 | one reference fewer, and a Close exactly when that was the last |
| FileTable.FileRefs.Incr | internal/fds/fds.go:342-346 | one reference more |
| FileTable.Table.constructor | internal/fds/fds.go:381-390 | descriptors 0, 1 and 2 open on three files, counted once each |
| FileTable.Table.Alloc | internal/fds/fds.go:443-449 | the file at the next number, counted, whatever was there before; the counter wraps around |
| FileTable.Table.Close | internal/fds/fds.go:455-464 | the entry and its mark gone, one reference dropped; nothing if it was not open |
| FileTable.Table.Dup | internal/fds/fds.go:523-529 | the next number on the same file, as Alloc |
| FileTable.Table.Dup2 | internal/fds/fds.go:533-549 | the number asked for on the same file, its previous file closed first, nothing counted when both are the same; the counter raised with wrap-around |
| FileTable.Table.CloseOnExec | internal/fds/fds.go:421-427 | exactly the marked descriptors are closed, in some order, and no open descriptor is marked afterwards |
| FileTable.Table.CloseAll | internal/fds/fds.go:491-495 | every descriptor is closed, in some order, and the table is empty |
| FileTable.Table.Clone | internal/fds/fds.go:505-520 | an equal table sharing the counts, with one more reference for each entry |
| FileTable.Table.SetCloexec | internal/fds/fds.go:396-402 | the mark of one descriptor, open or not |
| FileTable.OnlyUnmarkedSurvive | internal/fds/fds.go:421-464 | after CloseOnExec exactly the unmarked descriptors are open, on the same files, none of them is marked, and the marks left are those of numbers that were not open |
| FileTable.CloseUnmarks | internal/fds/fds.go:455-549 | a number that is closed, or reused by dup2, carries no mark |
| FileTable.CloseIsScript | internal/fds/fds.go:455-495 | run without interruption, the atomic steps of closing descriptors have the effect of the method, and leave every other process alone |
| FileTable.AllocIsScript | internal/fds/fds.go:443-449 | the atomic steps of Alloc have the effect of the method |
| FileTable.Dup2IsScript | internal/fds/fds.go:533-549 | the atomic steps of Dup2 have the effect of the method |
| FileTable.DupIsScript | internal/fds/fds.go:523-529 | the atomic steps of Dup have the effect of the method |
| FileTable.ForkIsScript | internal/fds/fds.go:505-520 | the atomic steps of Clone, in whatever order the map yields its entries, leave parent and child with equal tables and the counts the method leaves |
| Children.WaitsAreRight | internal/emulator/emulator.go:843-898 | over all runs: child pids are distinct; a wait4 returns only an exited child of its caller that it asked for and that was not reaped before, with a status that the guest's macros read as a normal exit with the low eight bits of the code; ECHILD exactly when no unreaped match is left; 0 only under WNOHANG, and only if this very call polled every unreaped match and found it not yet done |
| Children.ReapedOnce | internal/emulator/emulator.go:880-884 | no child is reaped twice |
| Children.StatusReadsBack | internal/emulator/emulator.go:880-898 | WIFEXITED, WIFSIGNALED and WEXITSTATUS read the status as a normal exit with the low eight bits of the code, also of a negative code |
| Children.ChildrenConserved | internal/emulator/emulator.go:805-825 | running, zombie and reaped children always add up to the children forked |
| Children.NoneLeftIs | internal/emulator/emulator.go:849-861 | the candidate list is empty exactly when every matching child was reaped |
| Children.NextKeeps | internal/emulator/emulator.go:765-934 | every step of fork, exit and wait4 keeps the invariant |
| Children.Registry.Snapshot | internal/emulator/emulator.go:849-857 | the candidates are the unreaped matching children in the order they were forked |
| Children.Registry.FirstDone | internal/emulator/emulator.go:863-873 | the first candidate that is done, if any is |
| Children.Registry.Wait4 | internal/emulator/emulator.go:843-898 | undisturbed, wait4 reaps the first done child that matches and stores its status if asked to, or says which of ECHILD, nothing yet and blocking applies |
| Children.Registry.Fork | internal/emulator/emulator.go:765-806 | a new pid, spent even if the hooks cannot be installed, and a record under the parent if they can |
| Children.ForkIsRun | internal/emulator/emulator.go:765-806 | the registry's fork is the process's two steps in the protocol |
| Children.Wait4IsRun | internal/emulator/emulator.go:843-898 | the registry's wait4 is a run of the caller's steps in the protocol, ending with that result in the log or blocked |
| Paths.NormIdempotent | internal/vfs/vfs.go:148-167 | normalising twice is normalising once |
| Paths.NormOfJoined | internal/vfs/vfs.go:148-167 | a prefix may be normalised before joining |
| Paths.NormDecidesComponents | internal/vfs/vfs.go:148-167 | two paths have one normal form exactly when they name the same components |
| Paths.DotDotUndoesName | internal/vfs/vfs.go:148-167 | a name followed by .. leads back, for every prefix |
| Paths.DotDotIsParent | internal/vfs/vfs.go:148-167 | .. after any path leads to the directory part of its normal form, and not above the root |
| Paths.DotIsNothing | internal/vfs/vfs.go:148-167 | a dot, a trailing slash and a leading slash change nothing |
| Paths.NameIsAppended | internal/vfs/vfs.go:148-167 | a name is appended to the normal form |
| Paths.NormObeys | internal/vfs/vfs.go:148-167 | these laws as one, about what one more component does |
| Paths.LawsDetermineNorm | internal/vfs/vfs.go:148-167 | no other function has them |
| Paths.NormPathLoop | internal/vfs/vfs.go:148-167 | the loop computes the normal form, which `Paths.LawsDetermineNorm` characterises |
| Paths.HostPathBelowRoot | internal/vfs/vfs.go:298-305 | the host path is the root's components followed by the guest's, none of them "." or ".." |
| Paths.SplitGuestBack | internal/vfs/vfs.go:509-517 | parent and name of a canonical path other than the root are its components without the last, and the last |
| Mounts.BestIsUnique | internal/vfs/vfs.go:869-901 | at most one mountpoint is the longest that covers a path |
| Mounts.CoversIsBelow | internal/vfs/vfs.go:869-883 | a mountpoint covers exactly the paths whose components start with its own |
| Mounts.MountTable.MountType | internal/vfs/vfs.go:869-883 | the fstype of the longest covering mount whatever the order of the map, empty if none covers |
| Mounts.MountTable.MountPointFor | internal/vfs/vfs.go:887-901 | the longest covering mountpoint whatever the order of the map, empty if none covers |
| Mounts.MountTable.Mount | internal/vfs/vfs.go:831-852 | the normalised target gets the mount, and no other |
| Mounts.MountTable.Umount | internal/vfs/vfs.go:855-865 | the normalised target loses its mount; false exactly if there was none |
| Mounts.MountTable.ProcRel | internal/syscalls/helpers.go:268-277 | a name inside procfs exactly when the longest covering mount is proc, and under that mountpoint it names the path again |
| Mounts.RelRejoins | internal/syscalls/helpers.go:268-277 | stripping a covering mountpoint from a canonical path is undone by joining |
| Symlinks.FollowLoop | internal/syscalls/helpers.go:133-196 | the hop loop, which ends for every link map, computes the restarting resolution, for relative paths too; what that does to one more component, `Symlinks.FollowObeys` says |
| Symlinks.FollowIsOnePass | internal/syscalls/helpers.go:133-196 | for every absolute path and link map needing at most 39 links the result is that of a one-pass resolver, is canonical, has no prefix that is a link, and is not changed by following it again |
| Symlinks.FollowExactly | internal/syscalls/helpers.go:133-196 | what comes back has no link left in it if and only if the path resolves with at most 40 links, and with n more links it resolves to what the path resolves to with 40 + n |
| Symlinks.FollowThenResolve | internal/syscalls/helpers.go:137-195 | the same for any number of hops: following h links and resolving with n is resolving with h + n |
| Symlinks.FollowObeys | internal/syscalls/helpers.go:133-196 | one more component depends only on where the path before it led: . stays, .. goes to the parent of where it led, be it a directory or an expanded link, a name that is no link is appended, and a link leads where its target leads from there |
| Symlinks.DotDotAfterLink | internal/syscalls/helpers.go:149-160 | in particular .. after a path that ends in a link leads to the parent of the link's destination |
| Symlinks.FollowRoot | internal/syscalls/helpers.go:133-196 | the root leads to itself |
| Symlinks.RelativeFollows | internal/syscalls/helpers.go:133-196 | a relative path leads where the same path from the root leads, but for the leading slash |
| Symlinks.SelfLink | internal/syscalls/helpers.go:137-195 | a link to itself comes back as that link, and never resolves |
| Symlinks.HopResolves | internal/syscalls/helpers.go:139-187 | one restart uses up exactly one link and changes nothing else |
| Symlinks.CollapseSlashes | internal/syscalls/helpers.go:206-211 | the replacement loop leaves one slash of every run |
| StackImage.SetupStack | internal/emulator/emulator.go:470-536 | if everything fits the stack, to the byte, the image holds argc, argv, envp and the auxiliary vector at a 16-aligned sp, wholly below the strings, AT_RANDOM and AT_EXECFN pointing to their data, nothing above the stack changed |
| StackImage.ImageReadsBack | internal/syscalls/helpers.go:59-79 | on that image the readers return argv and envp exactly, strings of 4096 bytes or more being cut there |
| StackImage.AuxReadsBack | internal/emulator/emulator.go:511-525 | getauxval on that image finds for every key given its value, for 25 the random bytes, for 31 the file name, and nothing for any other key |
| StackImage.Cstr | internal/syscalls/helpers.go:19-46 | page by page up to a NUL, an unreadable page or the limit |
| StackImage.CstrExact | internal/syscalls/helpers.go:19-46 | in any memory of pages cstr returns exactly the bytes up to the first NUL, the first unmapped address or the limit |
| StackImage.ReadCStrArray | internal/syscalls/helpers.go:59-79 | the strings up to a NULL or an unreadable pointer |
| StackImage.ArrayExact | internal/syscalls/helpers.go:59-79 | in any memory of pages the array is exactly the strings of its pointers, cut to 4096 bytes, up to the first NULL or unreadable pointer |
| StackImage.FindZero | internal/syscalls/helpers.go:48-55 | the first NUL, or the length if there is none |
| Dirents.DirHandle.Getdents64 | internal/syscalls/dir.go:342-373 | as many records as fit are written from the cursor on, and the cursor passes them even if the guest buffer cannot be written |
| Dirents.CallsParseBack | internal/syscalls/dir.go:342-373 | whatever buffer sizes the caller uses, the output of all calls parses back to exactly the entries passed, in order, none lost or repeated, each with a nonzero inode number and the unknown type, if and only if a record can carry each of their names |
| Dirents.SnapshotReadBack | internal/syscalls/dir.go:342-373 | with buffers that hold any one record, enough calls give the whole snapshot, under the same exact condition |
| Dirents.ReadDirectory | internal/syscalls/dir.go:342-373 | a caller that copies what each call delivered has the records passed by the calls that did not fault |
| Dirents.DeliveredExactly | internal/syscalls/dir.go:342-373 | and these parse to exactly the entries passed if and only if no call that passed a record faulted |
| Dirents.ZeroExactlyWhen | internal/syscalls/dir.go:353-359 | nothing is written exactly when the entries are exhausted or the next record does not fit |
| Dirents.FillIsGreatest | internal/syscalls/dir.go:353-359 | a call passes as many entries as the buffer holds, and the next would not fit |
| Dirents.NameLost | internal/syscalls/dir.go:360-368 | of a record that cannot carry its name, for a NUL in it or a record length over 16 bits, no reader gets that name |

## Left out

- Engine.Engine.EmuStart: carries a bound on the number of steps, because a guest may run for ever; its contract holds for every bound, so every finite prefix of a run is covered.
- Engine.Engine.RunLoop: carries the same bound.
- Cursors.DecodeOne: a run of 2^64 prefix bytes, possible only with the whole address space mapped, is an error here and an endless loop in the program; VEX prefixes and the opcodes outside the subset named below are unsupported.
- StackImage.ReadCStrArray: stops after 2^61 words, where the program would wrap around the address space.
- Symlinks.FollowIsOnePass: says the result is canonical up to 39 links; with exactly 40 it is resolved (`Symlinks.FollowExactly`) but may hold "." or ".." still.
- Fork.Interleave: hooks of one side do not act on the other, so syscalls that reach shared host state are outside it.
- Fork.ForkAndRun: the same.
- Engine.Engine.ApplyOp: no writes of XMM, YMM and MXCSR, which are not modelled.
- Core.Processor.Exec: the subset of opcodes named below.
- Retry.AluAgainExactly: is about writes that fault before their first byte; one that faults at a page crossing has written part of an operand that is read again.
- Symlinks.FollowObeys: speaks of paths that need at most 39 links, as `Symlinks.FollowIsOnePass`.
- Opcodes outside the subset (shifts and rotates, two-operand IMUL, MOVSXD, XCHG, CBW and CQO, SETcc, CMOVcc, bit tests, VEX, SSE, x87) decode as unsupported. The subset is MOV, LEA, the eight ALU operations, TEST, INC and DEC, the F6/F7 group, PUSH, POP, LEAVE, CALL, RET, JMP, Jcc, the string instructions, CLD, STD, NOP, SYSCALL and CPUID.
- SSE, AVX and x87 registers, MXCSR, x87 arithmetic through host floats, and conversion from 80-bit floats back to doubles.
- The execution trace, error texts, logging, and wrap-around of the generation counter.
- Hooks act on their engine only through the API operations listed in `Reference.HostOp`; installing hooks or starting a run from inside a hook is not modelled.
- Symbolic link metadata, the mount table and the directory snapshot are plain maps and sequences; the JSON files behind them, their refresh by modification time, devfs population at mount time and host I/O are left out.
- Folding of file system type names to lower case covers ASCII letters.
- Children.Registry.Wait4: says None where the program blocks; waiting there is the protocol's `Wake`.
- Mounts.MountTable.Mount: no directory creation, devfs population or persistence, nor their errors.
- Mounts.MountTable.Umount: no persistence, nor its error.
- Strings are sequences of characters or bytes; invalid UTF-8 plays no part.
- Go's int is unbounded here where a counter that grows by one would have to pass 2^63 to matter: pids, reference counts, directory positions.
- Sockets, poll and select, ioctl, devices, procfs contents, time, ELF loading, brk and mmap placement, the cgo engine and the command line.
- A child that stops abnormally does not release its descriptors; only exit and exit_group do.
