/** Runs of the interpreter, stated by the bytes in memory and the calls that hooks
    receive: where RIP goes, which calls are made in which order, and where a run
    stops.  No law here speaks of single steps. */
module Runs {
  import opened Words
  import opened FlatMemory
  import opened Registers
  import opened Instructions
  import opened Decoder
  import opened Addressing
  import opened OpcodeMap
  import opened Arithmetic
  import opened WideArithmetic
  import opened Semantics
  import opened Reference
  import Effects
  import Restart
  import Strings

  // ---- what hooks do to RIP, the stop flag and the code ----------------------

  /** The last RIP that these operations set, or the one before them. */
  function LastRip(ops: seq<HostOp>, rip: U64): U64 {
    if ops == [] then rip
    else
      var op := ops[|ops| - 1];
      if op.SetRip? then op.v else LastRip(ops[..|ops| - 1], rip)
  }

  lemma {:induction false} LastRipCons(op: HostOp, ops: seq<HostOp>, rip: U64)
    ensures LastRip([op] + ops, rip) == LastRip(ops, if op.SetRip? then op.v else rip)
    decreases |ops|
  {
    if ops == [] {
      assert [op] + ops == [op] && [op][..0] == [];
    } else {
      var front := ops[..|ops| - 1];
      assert ([op] + ops)[..|ops|] == [op] + front && ([op] + ops)[|ops|] == ops[|ops| - 1];
      LastRipCons(op, front, rip);
    }
  }

  lemma {:induction false} OpsApplied(m: Machine, ops: seq<HostOp>)
    ensures
      var n := ApplyOps(m, ops);
      n.arch.regs.rip == LastRip(ops, m.arch.regs.rip) && n.calls == m.calls && (n.stop <==> m.stop || StopOp in ops)
    decreases |ops|
  {
    hide MapRange, UnmapRange, ProtectRange, Store, Unpack;
    if ops != [] {
      OpsApplied(ApplyOp(m, ops[0]), ops[1..]);
      LastRipCons(ops[0], ops[1..], m.arch.regs.rip);
      assert [ops[0]] + ops[1..] == ops;
    }
  }

  /** An operation that neither stops the engine nor moves RIP, and leaves n bytes of
      code from r on as they are. */
  ghost predicate Gentle(op: HostOp, r: U64, n: nat) {
    match op
    case StopOp => false
    case SetRip(_) => false
    case UnmapOp(_, _) => false
    case ProtectOp(_, _, _) => false
    case WriteOp(addr, data) => forall i: nat :: i < n ==> Beyond(At(r, i), addr) >= |data|
    case _ => true
  }

  /** All the hooks ever do is gentle. */
  ghost predicate GentleHooks(env: Env, r: U64, n: nat) {
    forall h: seq<HookCall>, op: HostOp :: op in env.reply(h).ops ==> Gentle(op, r, n)
  }

  /** The memory holds these bytes as code. */
  ghost predicate HasCode(mem: Flat, r: U64, bytes: seq<Byte>) {
    forall i: nat :: i < |bytes| ==> CodeAt(mem, At(r, i), bytes[i])
  }

  predicate CodeAt(mem: Flat, a: U64, b: Byte) {
    a in mem && mem[a].prot.exec && mem[a].byte == b
  }

  lemma CodeKept(a: Arch, op: HostOp, r: U64, bytes: seq<Byte>)
    requires HasCode(a.mem, r, bytes) && Gentle(op, r, |bytes|)
    ensures HasCode(ApplyToArch(a, op).mem, r, bytes)
  {
    hide At, Beyond, MapAccepts, Unpack, UnmapRange, ProtectRange, Reach;
    forall i: nat | i < |bytes|
      ensures CodeAt(ApplyToArch(a, op).mem, At(r, i), bytes[i])
    {
      assert CodeAt(a.mem, At(r, i), bytes[i]);
    }
  }

  lemma {:induction false} CodeStays(m: Machine, ops: seq<HostOp>, r: U64, bytes: seq<Byte>)
    requires HasCode(m.arch.mem, r, bytes) && forall op :: op in ops ==> Gentle(op, r, |bytes|)
    ensures HasCode(ApplyOps(m, ops).arch.mem, r, bytes)
    ensures LastRip(ops, m.arch.regs.rip) == m.arch.regs.rip && StopOp !in ops
    decreases |ops|
  {
    hide HasCode, ApplyToArch;
    if ops != [] {
      assert Gentle(ops[0], r, |bytes|);
      CodeKept(m.arch, ops[0], r, bytes);
      var n := ApplyOp(m, ops[0]);
      CodeStays(n, ops[1..], r, bytes);
      LastRipCons(ops[0], ops[1..], m.arch.regs.rip);
      assert [ops[0]] + ops[1..] == ops;
      assert LastRip(ops[1..], m.arch.regs.rip) == m.arch.regs.rip by { GentleRip(ops[1..], r, |bytes|, m.arch.regs.rip); }
    }
  }

  lemma {:induction false} GentleRip(ops: seq<HostOp>, r: U64, n: nat, rip: U64)
    requires forall op :: op in ops ==> Gentle(op, r, n)
    ensures LastRip(ops, rip) == rip
    decreases |ops|
  {
    if ops != [] {
      assert Gentle(ops[|ops| - 1], r, n);
      GentleRip(ops[..|ops| - 1], r, n, rip);
    }
  }

  // ---- decoding the bytes ----------------------------------------------------

  lemma CodeEmitted(mem: Flat, r: U64, bytes: seq<Byte>)
    requires HasCode(mem, r, bytes)
    ensures Emitted(Code(mem), r, 0, bytes)
  {
    hide Wrap64;
    forall i: nat | i < |bytes|
      ensures IsCode(Code(mem), Wrap64(r + 0 + i), bytes[i])
    {
      assert CodeAt(mem, At(r, i), bytes[i]);
    }
  }

  /** 0F 05 is SYSCALL, 0F A2 is CPUID, 90 is NOP. */
  function HookBytes(h: Hooked): seq<Byte> {
    match h
    case Syscall => [0x0F, 0x05]
    case Cpuid => [0x0F, 0xA2]
    case NotHooked => [0x90]
  }

  lemma BytesDecode(mem: Flat, r: U64, h: Hooked)
    requires HasCode(mem, r, HookBytes(h))
    ensures Decode(Code(mem), r) ==
            Ok(if h.NotHooked? then Decoded(1, NotHooked, false, Nop) else Decoded(2, h, false, Trap))
  {
    hide HasCode, Emitted, Decode;
    CodeEmitted(mem, r, HookBytes(h));
    var e := Encoding([], None, Line(HookBytes(h), None, []));
    var d := if h.NotHooked? then Decoded(1, NotHooked, false, Nop) else Decoded(2, h, false, Trap);
    assert BytesOf(e) == HookBytes(h);
    if h.NotHooked? {
      assert Stands(Setting(e), e.line, Nop) && Specialised(Nop) == Nop;
    }
    assert Encodes(e, d);
    DecodeInvertsEncoding(Code(mem), r, e, d);
  }

  // ---- one hooked instruction ------------------------------------------------

  predicate Elsewhere(rip: U64, until: U64) {
    until == 0 || rip != until
  }

  /** A SYSCALL or CPUID with a hook: exactly one call, that shows the state before;
      afterwards RIP is past a SYSCALL, unless the hook stopped the engine, and else
      where the hook left it. */
  lemma HookedOnce(env: Env, m: Machine, begin: U64, until: U64, h: Hooked)
    requires h != NotHooked && h in env.insn && HasCode(m.arch.mem, begin, HookBytes(h)) && Elsewhere(begin, until)
    ensures
      var call := InsnCall(h, WithRip(m.arch, begin));
      var ops := env.reply(m.calls + [call]).ops;
      var r := Run(env, Begin(m, begin), until, 1);
      && r.out == Running && r.m.calls == m.calls + [call] && (r.m.stop <==> StopOp in ops)
      && r.m.arch.regs.rip == (if h == Syscall && StopOp !in ops then At(begin, 2) else LastRip(ops, begin))
      && WithRip(r.m.arch, 0) == WithRip(ApplyOps(Begin(m, begin), ops).arch, 0)
  {
    hide Decode, ApplyOps, HasCode, Exec, LastRip;
    var s := Begin(m, begin);
    BytesDecode(m.arch.mem, begin, h);
    var call := InsnCall(h, s.arch);
    var ops := env.reply(m.calls + [call]).ops;
    OpsApplied(s.(calls := m.calls + [call]), ops);
    OpsIgnoreCalls(s, m.calls + [call], ops);
    RunOnce(env, s, until);
  }

  lemma RunOnce(env: Env, m: Machine, until: U64)
    ensures Run(env, m, until, 1) == (match Step(env, m, until) case Continue(n) => RunResult(n, Running) case Halt(n, e) => RunResult(n, Stopped(e)))
  {
    hide Step;
    match Step(env, m, until)
    case Continue(n) => assert Run(env, n, until, 0) == RunResult(n, Running);
    case Halt(_, _) =>
  }

  lemma {:induction false} OpsIgnoreCalls(m: Machine, calls: seq<HookCall>, ops: seq<HostOp>)
    ensures ApplyOps(m.(calls := calls), ops) == ApplyOps(m, ops).(calls := calls)
    decreases |ops|
  {
    hide ApplyToArch;
    if ops != [] {
      OpsIgnoreCalls(ApplyOp(m, ops[0]), calls, ops[1..]);
    }
  }

  /** Without a hook the run ends there, with an error and no call. */
  lemma UnhookedStops(env: Env, m: Machine, begin: U64, until: U64, h: Hooked, n: nat)
    requires n > 0 && h != NotHooked && h !in env.insn
    requires HasCode(m.arch.mem, begin, HookBytes(h)) && Elsewhere(begin, until)
    ensures Run(env, Begin(m, begin), until, n) == RunResult(Begin(m, begin), Stopped(Some(NoHook(h))))
  {
    hide Decode, HasCode, Exec;
    BytesDecode(m.arch.mem, begin, h);
  }

  /** The rest of a run after its first step. */
  lemma RunNext(env: Env, m: Machine, until: U64, n: nat)
    ensures
      var first := Run(env, m, until, 1);
      Run(env, m, until, n + 1) == if first.out.Running? then Run(env, first.m, until, n) else first
  {
    hide Step;
    RunOnce(env, m, until);
  }

  // ---- many system calls -----------------------------------------------------

  lemma CodeParts(mem: Flat, r: U64, x: seq<Byte>, y: seq<Byte>)
    requires HasCode(mem, r, x + y)
    ensures HasCode(mem, r, x) && HasCode(mem, At(r, |x|), y)
  {
    hide At, CodeAt;
    forall i: nat | i < |x|
      ensures CodeAt(mem, At(r, i), x[i])
    {
      assert (x + y)[i] == x[i];
    }
    forall i: nat | i < |y|
      ensures CodeAt(mem, At(At(r, |x|), i), y[i])
    {
      Strings.AtAt(r, |x|, i);
      assert (x + y)[|x| + i] == y[i];
    }
  }

  lemma GentleParts(op: HostOp, r: U64, k: nat, n: nat)
    requires Gentle(op, r, k + n)
    ensures Gentle(op, At(r, k), n)
  {
    hide At, Beyond;
    forall i: nat | i < n
      ensures At(At(r, k), i) == At(r, k + i)
    {
      Strings.AtAt(r, k, i);
    }
  }

  lemma HooksStayGentle(env: Env, r: U64, k: nat, n: nat)
    requires GentleHooks(env, r, k + n)
    ensures GentleHooks(env, At(r, k), n)
  {
    hide At, Gentle;
    forall h: seq<HookCall>, op: HostOp | op in env.reply(h).ops
      ensures Gentle(op, At(r, k), n)
    {
      GentleParts(op, r, k, n);
    }
  }

  /** The stop address is none of the first n instructions of this length. */
  ghost predicate NotReached(r: U64, len: nat, n: nat, until: U64) {
    forall i: nat :: i < n ==> Elsewhere(At(r, i * len), until)
  }

  lemma NotReachedNext(r: U64, len: nat, n: nat, until: U64)
    requires n > 0 && NotReached(r, len, n, until)
    ensures Elsewhere(r, until) && NotReached(At(r, len), len, n - 1, until)
  {
    hide At;
    Strings.AtZero(r);
    assert Elsewhere(At(r, 0 * len), until);
    forall i: nat | i < n - 1
      ensures Elsewhere(At(At(r, len), i * len), until)
    {
      Strings.AtAt(r, len, i * len);
      assert (i + 1) * len == len + i * len;
      assert Elsewhere(At(r, (i + 1) * len), until);
    }
  }

  /** The calls that n SYSCALLs from r on make: one each, in order. */
  ghost predicate CallsFrom(calls: seq<HookCall>, r: U64, n: nat) {
    |calls| == n && forall i: nat :: i < n ==>
      calls[i].InsnCall? && calls[i].hooked == Syscall && calls[i].arch.regs.rip == At(r, i * 2)
  }

  lemma CallsJoin(call: HookCall, calls: seq<HookCall>, r: U64, n: nat)
    requires call.InsnCall? && call.hooked == Syscall && call.arch.regs.rip == r && CallsFrom(calls, At(r, 2), n)
    ensures CallsFrom([call] + calls, r, n + 1)
  {
    hide At;
    Strings.AtZero(r);
    forall i: nat | i < n + 1
      ensures ([call] + calls)[i].InsnCall? && ([call] + calls)[i].hooked == Syscall && ([call] + calls)[i].arch.regs.rip == At(r, i * 2)
    {
      if i > 0 {
        assert ([call] + calls)[i] == calls[i - 1];
        Strings.AtAt(r, 2, (i - 1) * 2);
      }
    }
  }

  /** n SYSCALLs in a row, under a hook that never stops the engine, sets RIP or
      touches that code: n steps make exactly n calls, one at each instruction in
      order, and RIP ends just past the last. */
  lemma {:induction false} SyscallsRun(env: Env, m: Machine, begin: U64, until: U64, n: nat)
    requires Syscall in env.insn && GentleHooks(env, begin, 2 * n)
    requires HasCode(m.arch.mem, begin, Strings.Repeated([0x0F, 0x05], n)) && NotReached(begin, 2, n, until)
    ensures
      var r := Run(env, Begin(m, begin), until, n);
      && r.out == Running && !r.m.stop && r.m.arch.regs.rip == At(begin, n * 2)
      && m.calls <= r.m.calls && CallsFrom(r.m.calls[|m.calls|..], begin, n)
    decreases n
  {
    hide HasCode, Gentle, At, Step;
    var s := Begin(m, begin);
    Strings.AtZero(begin);
    if n == 0 {
      assert s.calls[|m.calls|..] == [];
    } else {
      assert Strings.Repeated([0x0F, 0x05], n) == [0x0F, 0x05] + Strings.Repeated([0x0F, 0x05], n - 1);
      CodeParts(m.arch.mem, begin, [0x0F, 0x05], Strings.Repeated([0x0F, 0x05], n - 1));
      NotReachedNext(begin, 2, n, until);
      FirstSyscall(env, m, begin, until, Strings.Repeated([0x0F, 0x05], n - 1));
      var t := Run(env, s, until, 1).m;
      assert t == Begin(t, At(begin, 2));
      HooksStayGentle(env, begin, 2, 2 * (n - 1));
      SyscallsRun(env, t, At(begin, 2), until, n - 1);
      RunNext(env, s, until, n - 1);
      Strings.AtAt(begin, 2, (n - 1) * 2);
      var call, r := InsnCall(Syscall, s.arch), Run(env, s, until, n).m;
      CallsJoin(call, r.calls[|t.calls|..], begin, n - 1);
      assert t.calls == m.calls + [call] && t.calls <= r.calls;
      assert r.calls[|m.calls|..] == [call] + r.calls[|t.calls|..];
    }
  }

  /** The first of them leaves the others as they are. */
  lemma FirstSyscall(env: Env, m: Machine, begin: U64, until: U64, rest: seq<Byte>)
    requires Syscall in env.insn && GentleHooks(env, begin, 2 + |rest|) && Elsewhere(begin, until)
    requires HasCode(m.arch.mem, begin, [0x0F, 0x05]) && HasCode(m.arch.mem, At(begin, 2), rest)
    ensures
      var t := Run(env, Begin(m, begin), until, 1);
      && t.out == Running && !t.m.stop && t.m.arch.regs.rip == At(begin, 2)
      && t.m.calls == m.calls + [InsnCall(Syscall, WithRip(m.arch, begin))]
      && HasCode(t.m.arch.mem, At(begin, 2), rest)
  {
    hide HasCode, Gentle, At, Run;
    HookedOnce(env, m, begin, until, Syscall);
    var call := InsnCall(Syscall, WithRip(m.arch, begin));
    var ops := env.reply(m.calls + [call]).ops;
    forall op | op in ops
      ensures Gentle(op, At(begin, 2), |rest|)
    {
      GentleParts(op, begin, 2, |rest|);
    }
    CodeStays(Begin(m, begin), ops, At(begin, 2), rest);
    assert WithRip(Run(env, Begin(m, begin), until, 1).m.arch, 0).mem == Run(env, Begin(m, begin), until, 1).m.arch.mem;
  }

  /** A hook that stops the engine ends the run after its one call, with RIP where
      the hook left it: on the instruction, if it did not set RIP. */
  lemma StopStops(env: Env, m: Machine, begin: U64, until: U64, h: Hooked, n: nat)
    requires n > 1 && h != NotHooked && h in env.insn
    requires HasCode(m.arch.mem, begin, HookBytes(h)) && Elsewhere(begin, until)
    requires StopOp in env.reply(m.calls + [InsnCall(h, WithRip(m.arch, begin))]).ops
    ensures
      var call := InsnCall(h, WithRip(m.arch, begin));
      var r := Run(env, Begin(m, begin), until, n);
      && r.out == Stopped(None) && r.m.calls == m.calls + [call]
      && r.m.arch.regs.rip == LastRip(env.reply(m.calls + [call]).ops, begin)
  {
    hide HasCode, Step;
    HookedOnce(env, m, begin, until, h);
    RunNext(env, Begin(m, begin), until, n - 1);
    StoppedStays(env, Run(env, Begin(m, begin), until, 1).m, until, n - 1);
  }

  lemma StoppedStays(env: Env, m: Machine, until: U64, n: nat)
    requires n > 0 && (m.stop || (until != 0 && m.arch.regs.rip == until))
    ensures Run(env, m, until, n) == RunResult(m, Stopped(None))
  {
    hide Decode, Exec;
  }

  // ---- plain instructions ----------------------------------------------------

  /** n NOPs: n steps move RIP by n bytes and change nothing else. */
  lemma {:induction false} NopsRun(env: Env, m: Machine, begin: U64, until: U64, n: nat)
    requires HasCode(m.arch.mem, begin, Strings.Repeated([0x90], n)) && NotReached(begin, 1, n, until)
    ensures Run(env, Begin(m, begin), until, n) == RunResult(Begin(m, At(begin, n)), Running)
    decreases n
  {
    hide HasCode, At, Step;
    Strings.AtZero(begin);
    if n > 0 {
      assert Strings.Repeated([0x90], n) == [0x90] + Strings.Repeated([0x90], n - 1);
      CodeParts(m.arch.mem, begin, [0x90], Strings.Repeated([0x90], n - 1));
      NotReachedNext(begin, 1, n, until);
      NopOnce(env, m, begin, until);
      var t := Begin(m, At(begin, 1));
      NopsRun(env, t, At(begin, 1), until, n - 1);
      RunNext(env, Begin(m, begin), until, n - 1);
      Strings.AtAt(begin, 1, n - 1);
    }
  }

  lemma NopOnce(env: Env, m: Machine, begin: U64, until: U64)
    requires HasCode(m.arch.mem, begin, [0x90]) && Elsewhere(begin, until)
    ensures Run(env, Begin(m, begin), until, 1) == RunResult(Begin(m, At(begin, 1)), Running)
  {
    hide HasCode, Decode, At;
    BytesDecode(m.arch.mem, begin, NotHooked);
    RunOnce(env, Begin(m, begin), until);
  }

  /** The run stops when it first gets to `until`, before the instruction there,
      however many steps are left; with 0 there is no stop address. */
  lemma UntilStops(env: Env, m: Machine, begin: U64, until: U64, k: nat, n: nat)
    requires until != 0 && until == At(begin, k) && n > k && NotReached(begin, 1, k, until)
    requires HasCode(m.arch.mem, begin, Strings.Repeated([0x90], k))
    ensures Run(env, Begin(m, begin), until, n) == RunResult(Begin(m, until), Stopped(None))
  {
    hide HasCode, At, Step;
    NopsRun(env, m, begin, until, k);
    RunFrom(env, Begin(m, begin), until, k, n - k);
    StoppedStays(env, Begin(m, until), until, n - k);
  }

  lemma {:induction false} RunFrom(env: Env, m: Machine, until: U64, k: nat, n: nat)
    requires Run(env, m, until, k).out == Running
    ensures Run(env, m, until, k + n) == Run(env, Run(env, m, until, k).m, until, n)
    decreases k
  {
    hide Step;
    if k > 0 {
      RunNext(env, m, until, k - 1);
      RunNext(env, m, until, k - 1 + n);
      RunFrom(env, Run(env, m, until, 1).m, until, k - 1, n);
    }
  }

  /** An instruction that succeeds leaves RIP where it jumped, or past its bytes. */
  lemma PlainOnce(env: Env, m: Machine, begin: U64, until: U64, d: Decoded)
    requires Decode(Code(m.arch.mem), begin) == Ok(d) && d.hooked == NotHooked && Elsewhere(begin, until)
    requires Exec(WithRip(m.arch, begin), At(begin, d.len), d.instr).error.None?
    ensures
      var e := Exec(WithRip(m.arch, begin), At(begin, d.len), d.instr);
      var r := Run(env, Begin(m, begin), until, 1);
      && r.out == Running && r.m.calls == m.calls && !r.m.stop
      && r.m.arch == (if e.branched then e.arch else WithRip(e.arch, At(begin, d.len)))
  {
    hide Decode, Exec, At;
    RunOnce(env, Begin(m, begin), until);
  }

  // ---- faults ----------------------------------------------------------------

  /** No instruction that fails has moved RIP. */
  lemma ErrorKeepsRip(a: Arch, end: U64, i: Instr)
    requires Exec(a, end, i).error.Some?
    ensures Exec(a, end, i).arch.regs.rip == a.regs.rip
  {
    hide Add, Sub, StrLoop, Store, Load, Logical, WriteWidth, ReadWidth, EffAddr, MulUnsigned, MulSigned, DivUnsigned, DivSigned;
    if i.Str? {
      Restart.LoopKeepsRip(a, i.str, i.w, i.rep, i.rex, Iterations(a.regs, i.rep));
    }
  }

  /** The instruction at `begin` runs into this fault, and this is the state then. */
  ghost predicate FaultsAt(m: Machine, begin: U64, f: Fault, b: Arch) {
    var a := WithRip(m.arch, begin);
    match Decode(Code(m.arch.mem), begin)
    case Err(e) => e == MemFault(f) && b == a
    case Ok(d) =>
      var e := Exec(a, At(begin, d.len), d.instr);
      d.hooked == NotHooked && e.error == Some(MemFault(f)) && b == e.arch
  }

  lemma FaultRip(m: Machine, begin: U64, f: Fault, b: Arch)
    requires FaultsAt(m, begin, f, b)
    ensures b.regs.rip == begin
  {
    hide Decode, Exec;
    var d := Decode(Code(m.arch.mem), begin);
    if d.Ok? {
      ErrorKeepsRip(WithRip(m.arch, begin), At(begin, d.value.len), d.value.instr);
    }
  }

  /** With no fault hook the run ends at the faulting instruction with that fault. */
  lemma FaultEnds(env: Env, m: Machine, begin: U64, until: U64, n: nat, f: Fault, b: Arch)
    requires n > 0 && !env.unmap && FaultsAt(m, begin, f, b) && Elsewhere(begin, until)
    ensures Run(env, Begin(m, begin), until, n) == RunResult(Machine(b, false, m.calls), Stopped(Some(MemFault(f))))
    ensures b.regs.rip == begin
  {
    hide Decode, Exec;
    FaultRip(m, begin, f, b);
  }

  /** A fault hook is called once, with the fault and the state at it.  If it asks for
      a retry the run goes on from RIP, which is still on the instruction unless the
      hook set it; if it refuses the run ends there with the fault. */
  lemma FaultHooked(env: Env, m: Machine, begin: U64, until: U64, f: Fault, b: Arch)
    requires env.unmap && FaultsAt(m, begin, f, b) && Elsewhere(begin, until)
    ensures
      var call := FaultCall(f, b);
      var reply := env.reply(m.calls + [call]);
      var r := Run(env, Begin(m, begin), until, 1);
      && r.out == (if reply.retry then Running else Stopped(Some(MemFault(f))))
      && r.m.calls == m.calls + [call] && (r.m.stop <==> StopOp in reply.ops)
      && r.m.arch.regs.rip == LastRip(reply.ops, begin)
      && r.m == ApplyOps(Machine(b, false, m.calls + [call]), reply.ops)
  {
    hide Decode, Exec, ApplyOps, LastRip;
    FaultRip(m, begin, f, b);
    var calls := m.calls + [FaultCall(f, b)];
    OpsApplied(Machine(b, false, calls), env.reply(calls).ops);
    RunOnce(env, Begin(m, begin), until);
  }

  /** An instruction that cannot be fetched faults with its own address. */
  lemma FetchFaults(m: Machine, begin: U64)
    requires !Open(m.arch.mem, begin, NeedExec)
    ensures FaultsAt(m, begin, Fault(FetchFault, begin, 1), WithRip(m.arch, begin))
  {
    hide Load, Code, OnlyCode;
    Strings.AtZero(begin);
    FetchSeesCodeOnly(m.arch.mem, begin, 1);
    LoadExact(m.arch.mem, begin, 1, NeedExec);
    assert Load(m.arch.mem, begin, 1, NeedExec) == Err(Fault(FetchFault, begin, 1));
    assert Fetch(Code(m.arch.mem), begin, 0, 1) == Err(MemFault(Fault(FetchFault, begin, 1)));
    assert Take(Code(m.arch.mem), begin, 0, 1) == Err(MemFault(Fault(FetchFault, begin, 1)));
  }

  /** A hook that maps the missing page with a NOP in it and asks for a retry: two
      steps, one call, and the NOP has been executed. */
  lemma FetchRepaired(env: Env, m: Machine, begin: U64, until: U64)
    requires env.unmap && !Open(m.arch.mem, begin, NeedExec) && Elsewhere(begin, until)
    requires
      var call := FaultCall(Fault(FetchFault, begin, 1), WithRip(m.arch, begin));
      var reply := env.reply(m.calls + [call]);
      && reply.retry && StopOp !in reply.ops && LastRip(reply.ops, begin) == begin
      && HasCode(ApplyOps(Begin(m, begin), reply.ops).arch.mem, begin, [0x90])
    ensures
      var r := Run(env, Begin(m, begin), until, 2);
      && r.out == Running && r.m.arch.regs.rip == At(begin, 1)
      && r.m.calls == m.calls + [FaultCall(Fault(FetchFault, begin, 1), WithRip(m.arch, begin))]
  {
    hide ApplyOps, LastRip, HasCode, Step, FaultsAt, Open, At;
    FetchFaults(m, begin);
    var a := WithRip(m.arch, begin);
    var call := FaultCall(Fault(FetchFault, begin, 1), a);
    FaultHooked(env, m, begin, until, Fault(FetchFault, begin, 1), a);
    var t := Run(env, Begin(m, begin), until, 1).m;
    OpsIgnoreCalls(Begin(m, begin), m.calls + [call], env.reply(m.calls + [call]).ops);
    assert t == Begin(t, begin);
    NopOnce(env, t, begin, until);
    RunNext(env, Begin(m, begin), until, 1);
  }

  /** Any other error ends the run, fault hook or not, without a call. */
  lemma ErrorEnds(env: Env, m: Machine, begin: U64, until: U64, n: nat, e: EngineError)
    requires n > 0 && Decode(Code(m.arch.mem), begin) == Err(e) && !e.MemFault? && Elsewhere(begin, until)
    ensures Run(env, Begin(m, begin), until, n) == RunResult(Begin(m, begin), Stopped(Some(e)))
  {
    hide Decode;
  }

  // ---- what the operations of a hook do --------------------------------------

  /** What a hook sets through the API is what the guest then has. */
  lemma HostOpsSeen(m: Machine, r: RegIdx, v: U64, end: U64, d: int)
    ensures ReadWidth(ApplyOps(m, [SetGpr(r, v)]).arch.regs.gpr, r, 8, true) == v
    ensures forall j: RegIdx :: j != r ==> ApplyOps(m, [SetGpr(r, v)]).arch.regs.gpr[j] == m.arch.regs.gpr[j]
    ensures Pack(ApplyOps(m, [SetEflags(v)]).arch.regs.flags) == v
    ensures ApplyOps(m, [SetRip(v)]).arch.regs.rip == v
    ensures EffAddr(ApplyOps(m, [SetFsBase(v)]).arch.regs, end, Mem(None, None, 1, d, SegFS)) == (v + d) % Effects.TWO64
    ensures EffAddr(ApplyOps(m, [SetGsBase(v)]).arch.regs, end, Mem(None, None, 1, d, SegGS)) == (v + d) % Effects.TWO64
    ensures ApplyOps(m, [BlockJitOp(true)]) == ApplyOps(m, [BlockJitOp(false)]) == m
  {
    hide Pack, Unpack, Wrap64;
    PackUnpack(v);
    WrapIs(v + d);
    WrapIs(d + v);
    OneOp(m, SetGpr(r, v));
    OneOp(m, SetEflags(v));
    OneOp(m, SetRip(v));
    OneOp(m, SetFsBase(v));
    OneOp(m, SetGsBase(v));
    OneOp(m, BlockJitOp(true));
    OneOp(m, BlockJitOp(false));
    Effects.Whole(m.arch.regs.gpr[r := v], r);
  }

  /** And memory, address by address. */
  lemma HostMemorySeen(m: Machine, addr: U64, size: U64, prot: Prot, a: U64)
    ensures
      var mem := m.arch.mem;
      var mapped := ApplyOps(m, [MapOp(addr, size, prot)]).arch.mem;
      var unmapped := ApplyOps(m, [UnmapOp(addr, size)]).arch.mem;
      var protected := ApplyOps(m, [ProtectOp(addr, size, prot)]).arch.mem;
      && (a in mem ==> a in mapped && mapped[a] == mem[a])
      && (a !in mem && a in mapped ==> addr <= a < addr + size && mapped[a] == Cell(0, prot))
      && (addr + size < Effects.TWO64 && MapAccepts(mem, addr, size) && addr <= a < addr + size ==> a in mapped)
      && (a in unmapped <==> a in mem && !Reached(a, addr, size)) && (a in unmapped ==> unmapped[a] == mem[a])
      && (a in protected <==> a in mem)
      && (a in mem ==> protected[a] == Cell(mem[a].byte, if Reached(a, addr, size) then prot else mem[a].prot))
  {
    hide MapRange, UnmapRange, ProtectRange, Reached, MapAccepts;
    MapExactly(m.arch.mem, addr, size, prot);
    UnmapExactly(m.arch.mem, addr, size);
    ProtectExactly(m.arch.mem, addr, size, prot);
    OneOp(m, MapOp(addr, size, prot));
    OneOp(m, UnmapOp(addr, size));
    OneOp(m, ProtectOp(addr, size, prot));
  }

  /** What the host writes the guest reads, where it may read. */
  lemma HostWriteSeen(m: Machine, addr: U64, data: Slice, need: Need)
    requires forall i: nat :: i < |data| ==> Open(m.arch.mem, At(addr, i), need)
    ensures Load(ApplyOps(m, [WriteOp(addr, data)]).arch.mem, addr, |data|, need) == Ok(data)
    ensures ApplyOps(m, [WriteOp(addr, data)]).arch.regs == m.arch.regs
  {
    hide Load, Store, At;
    OneOp(m, WriteOp(addr, data));
    var mem := m.arch.mem;
    forall i: nat | i < |data|
      ensures Allowed(mem, At(addr, i), need) && Allowed(mem, At(addr, i), AnyAccess)
    {
      assert Open(mem, At(addr, i), need);
    }
    ReachIs(mem, addr, |data|, need, |data|);
    StoreExact(mem, addr, data, AnyAccess);
    LoadAfterStore(mem, addr, data, AnyAccess, need);
  }

  lemma OneOp(m: Machine, op: HostOp)
    ensures ApplyOps(m, [op]) == ApplyOp(m, op)
  {
    hide ApplyOp;
    assert [op][1..] == [];
  }
}
