/** The reference interpreter: fetch, decode, execute, one instruction at a time,
    from the current memory, with no cache of any kind.  Hooks are an environment
    that may answer each call depending on everything it has seen. */
module Reference {
  import opened Words
  import opened FlatMemory
  import opened PagedMemory
  import opened Registers
  import opened Instructions
  import opened Decoder
  import opened Semantics

  type Slice = s: seq<Byte> | |s| <= MAX_SLICE

  /** What a hook may do to the engine through its API. */
  datatype HostOp =
    | MapOp(addr: U64, size: U64, prot: Prot)
    | UnmapOp(addr: U64, size: U64)
    | ProtectOp(addr: U64, size: U64, prot: Prot)
    | WriteOp(addr: U64, data: Slice)
    | SetRip(v: U64)
    | SetGpr(reg: RegIdx, v: U64)
    | SetEflags(v: U64)
    | SetFsBase(v: U64)
    | SetGsBase(v: U64)
    | StopOp
    | BlockJitOp(on: bool)

  /** A hook invocation and the state the hook can inspect. */
  datatype HookCall =
    | InsnCall(hooked: Hooked, arch: Arch)
    | FaultCall(fault: Fault, arch: Arch)

  /** What the hook did, and whether it asks for a retry. */
  datatype HookReply = Reply(ops: seq<HostOp>, retry: bool)

  /** The installed hooks: which there are, and how they answer a history of calls. */
  datatype Env = Env(insn: set<Hooked>, unmap: bool, reply: seq<HookCall> -> HookReply)

  datatype Machine = Machine(arch: Arch, stop: bool, calls: seq<HookCall>)

  function WithRip(a: Arch, rip: U64): Arch {
    a.(regs := a.regs.(rip := rip))
  }

  function Rip(m: Machine): U64 {
    m.arch.regs.rip
  }

  // ---- hooks -----------------------------------------------------------------

  function ApplyToArch(a: Arch, op: HostOp): Arch {
    match op
    case MapOp(addr, size, prot) => a.(mem := MapRange(a.mem, addr, size, prot))
    case UnmapOp(addr, size) => a.(mem := UnmapRange(a.mem, addr, size))
    case ProtectOp(addr, size, prot) => a.(mem := ProtectRange(a.mem, addr, size, prot))
    case WriteOp(addr, data) => a.(mem := Store(a.mem, addr, data, AnyAccess).mem)
    case SetRip(v) => WithRip(a, v)
    case SetGpr(reg, v) => WithGpr(a, reg, v)
    case SetEflags(v) => WithFlags(a, Unpack(v))
    case SetFsBase(v) => a.(regs := a.regs.(fsbase := v))
    case SetGsBase(v) => a.(regs := a.regs.(gsbase := v))
    case StopOp => a
    case BlockJitOp(_) => a
  }

  function ApplyOp(m: Machine, op: HostOp): Machine {
    m.(arch := ApplyToArch(m.arch, op), stop := m.stop || op.StopOp?)
  }

  function ApplyOps(m: Machine, ops: seq<HostOp>): Machine
    decreases |ops|
  {
    if ops == [] then m else ApplyOps(ApplyOp(m, ops[0]), ops[1..])
  }

  /** A hook runs: the call is recorded, its operations are carried out. */
  function CallHook(env: Env, m: Machine, call: HookCall): Machine {
    var n := m.(calls := m.calls + [call]);
    ApplyOps(n, env.reply(n.calls).ops)
  }

  // ---- one step --------------------------------------------------------------

  datatype StepResult = Continue(m: Machine) | Halt(m: Machine, error: Option<EngineError>)

  /** handleFault: the hook may repair a memory fault and ask for a retry. */
  function Recover(env: Env, m: Machine, e: EngineError): StepResult {
    if !e.MemFault? || !env.unmap then Halt(m, Some(e))
    else
      var call := FaultCall(e.fault, m.arch);
      var n := CallHook(env, m, call);
      if env.reply(m.calls + [call]).retry then Continue(n) else Halt(n, Some(e))
  }

  ghost function StepHooked(env: Env, m: Machine, d: Decoded, end: U64): StepResult {
    if d.hooked !in env.insn then Halt(m, Some(NoHook(d.hooked)))
    else
      var n := CallHook(env, m, InsnCall(d.hooked, m.arch));
      if d.hooked == Syscall && !n.stop then Continue(n.(arch := WithRip(n.arch, end))) else Continue(n)
  }

  ghost function StepPlain(env: Env, m: Machine, d: Decoded, end: U64): StepResult {
    var e := Exec(m.arch, end, d.instr);
    if e.error.Some? then Recover(env, m.(arch := e.arch), e.error.value)
    else Continue(m.(arch := if e.branched then e.arch else WithRip(e.arch, end)))
  }

  predicate AtEnd(m: Machine, until: U64) {
    m.stop || (until != 0 && Rip(m) == until)
  }

  ghost function Step(env: Env, m: Machine, until: U64): StepResult {
    if AtEnd(m, until) then Halt(m, None)
    else
      match Decode(Code(m.arch.mem), Rip(m))
      case Err(e) => Recover(env, m, e)
      case Ok(d) =>
        var end := At(Rip(m), d.len);
        if d.hooked.NotHooked? then StepPlain(env, m, d, end) else StepHooked(env, m, d, end)
  }

  // ---- runs ------------------------------------------------------------------

  datatype Outcome = Running | Stopped(error: Option<EngineError>)

  datatype RunResult = RunResult(m: Machine, out: Outcome)

  /** n steps of the reference interpreter. */
  ghost function Run(env: Env, m: Machine, until: U64, n: nat): RunResult
    decreases n, 0
  {
    if n == 0 then RunResult(m, Running) else Resume(env, Step(env, m, until), until, n - 1)
  }

  ghost function Resume(env: Env, r: StepResult, until: U64, n: nat): RunResult
    decreases n, 1
  {
    match r
    case Continue(m) => Run(env, m, until, n)
    case Halt(m, e) => RunResult(m, Stopped(e))
  }

  /** What EmuStart begins with. */
  function Begin(m: Machine, begin: U64): Machine {
    m.(arch := WithRip(m.arch, begin), stop := false)
  }
}
