/** Process isolation after fork (internal/emulator/emulator.go, doFork): parent
    and child engines run in any interleaving, and neither can tell. */
module Fork {
  import opened Words
  import opened Instructions
  import opened Reference
  import opened Engine

  /** A slice of time given to one of the two processes. */
  datatype Turn = Turn(child: bool, steps: nat)

  /** Steps that a schedule gives to one side. */
  function Steps(turns: seq<Turn>, child: bool): nat
    decreases |turns|
  {
    if turns == [] then 0
    else (if turns[0].child == child then turns[0].steps else 0) + Steps(turns[1..], child)
  }

  lemma {:induction false} StepsAppend(turns: seq<Turn>, t: Turn, child: bool)
    ensures Steps(turns + [t], child) == Steps(turns, child) + if t.child == child then t.steps else 0
    decreases |turns|
  {
    if turns != [] {
      assert (turns + [t])[1..] == turns[1..] + [t];
      StepsAppend(turns[1..], t, child);
    }
  }

  /** A run cut in two is the run: preemption is invisible. */
  lemma {:induction false} RunSplit(env: Env, m: Machine, until: U64, a: nat, b: nat)
    ensures
      var first := Run(env, m, until, a);
      Run(env, m, until, a + b) ==
        if first.out.Running? then Run(env, first.m, until, b) else first
    decreases a
  {
    hide Step;
    if a > 0 {
      var r := Step(env, m, until);
      if r.Continue? {
        RunSplit(env, r.m, until, a - 1, b);
      }
    }
  }

  /** One slice for an engine that may have stopped already; an engine with a
      footprint of its own does not notice. */
  method RunSlice(e: Engine, ghost other: Engine, until: U64, steps: nat, out: Outcome,
                  ghost start: Machine, ghost done: nat)
    returns (after: Outcome)
    requires e.Valid() && RunResult(e.State(), out) == Run(e.Hooks(), start, until, done)
    requires other.Valid() && e.Footprint() !! other.Footprint()
    modifies e.Footprint()
    ensures e.Valid() && e.Hooks() == old(e.Hooks()) && fresh(e.Footprint() - old(e.Footprint()))
    ensures RunResult(e.State(), after) == Run(e.Hooks(), start, until, done + steps)
    ensures other.Valid() && e.Footprint() !! other.Footprint()
    ensures other.State() == old(other.State()) && other.Hooks() == old(other.Hooks())
    ensures other.Footprint() == old(other.Footprint())
  {
    hide Run, e.CachesValid, e.cpu.mem.Valid;
    RunSplit(e.Hooks(), start, until, done, steps);
    after := out;
    if out.Running? {
      after := e.RunLoop(until, steps);
    }
  }

  /** Parent and child in any interleaving of slices of any length: each ends in
      the state, with the hook calls and the outcome, that its own steps alone
      produce. */
  method Interleave(p: Engine, c: Engine, pUntil: U64, cUntil: U64, turns: seq<Turn>)
    returns (pOut: Outcome, cOut: Outcome)
    requires p.Valid() && c.Valid() && p.Footprint() !! c.Footprint()
    modifies p.Footprint(), c.Footprint()
    ensures p.Valid() && c.Valid() && p.Footprint() !! c.Footprint()
    ensures RunResult(p.State(), pOut) == Run(old(p.Hooks()), old(p.State()), pUntil, Steps(turns, false))
    ensures RunResult(c.State(), cOut) == Run(old(c.Hooks()), old(c.State()), cUntil, Steps(turns, true))
  {
    hide Run, p.Valid, p.State, p.Hooks, Steps;
    ghost var p0, c0, ph, ch := p.State(), c.State(), p.Hooks(), c.Hooks();
    NoSteps();
    RunNone(ph, p0, pUntil);
    RunNone(ch, c0, cUntil);
    pOut, cOut := Running, Running;
    var i := 0;
    assert turns[..0] == [];
    while i < |turns|
      invariant i <= |turns|
      invariant p.Valid() && c.Valid() && p.Footprint() !! c.Footprint()
      invariant fresh(p.Footprint() - old(p.Footprint())) && fresh(c.Footprint() - old(c.Footprint()))
      invariant p.Hooks() == ph && c.Hooks() == ch
      invariant RunResult(p.State(), pOut) == Run(ph, p0, pUntil, Steps(turns[..i], false))
      invariant RunResult(c.State(), cOut) == Run(ch, c0, cUntil, Steps(turns[..i], true))
    {
      var t := turns[i];
      assert turns[..i + 1] == turns[..i] + [t];
      StepsAppend(turns[..i], t, false);
      StepsAppend(turns[..i], t, true);
      if t.child {
        cOut := RunSlice(c, p, cUntil, t.steps, cOut, c0, Steps(turns[..i], true));
      } else {
        pOut := RunSlice(p, c, pUntil, t.steps, pOut, p0, Steps(turns[..i], false));
      }
      i := i + 1;
    }
    assert turns[..i] == turns;
  }

  lemma NoSteps()
    ensures Steps([], false) == 0 && Steps([], true) == 0
  {
  }

  /** fork: the child starts as a copy of the parent with RAX cleared, hooks of
      its own and the instruction after SYSCALL ahead of it. */
  method DoFork(parent: Engine, resume: U64, insn: set<Hooked>, unmap: bool, answers: nat -> HookReply)
    returns (child: Engine)
    requires parent.Valid()
    ensures child.Valid() && fresh(child.Footprint())
    ensures child.insnHooks == insn && child.unmapHook == unmap && child.replies == answers
    ensures child.State() ==
            Begin(ApplyOp(Machine(old(parent.State()).arch, false, []), SetGpr(0, 0)), resume)
  {
    hide parent.CachesValid, parent.cpu.mem.Valid, ApplyOp, Begin;
    child := parent.Clone();
    child.StartAsChild(resume, insn, unmap, answers);
  }

  /** Fork, then let both run under any schedule: the parent ends as if it had
      never forked, the child as a machine started alone in the parent's state
      with RAX cleared. */
  method ForkAndRun(parent: Engine, resume: U64, insn: set<Hooked>, unmap: bool, answers: nat -> HookReply,
                    pUntil: U64, cUntil: U64, turns: seq<Turn>)
    returns (child: Engine, pOut: Outcome, cOut: Outcome)
    requires parent.Valid()
    modifies parent.Footprint()
    ensures RunResult(parent.State(), pOut) ==
            Run(old(parent.Hooks()), old(parent.State()), pUntil, Steps(turns, false))
    ensures
      var born := Begin(ApplyOp(Machine(old(parent.State()).arch, false, []), SetGpr(0, 0)), resume);
      RunResult(child.State(), cOut) == Run(Env(insn, unmap, OracleReply(answers)), born, cUntil, Steps(turns, true))
  {
    hide Run, Steps, Begin, ApplyOp, OracleReply, parent.CachesValid, parent.cpu.mem.Valid;
    child := DoFork(parent, resume, insn, unmap, answers);
    pOut, cOut := Interleave(parent, child, pUntil, cUntil, turns);
  }
}
