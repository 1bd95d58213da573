/** The engine draws hook answers from a prepared sequence.  Nothing is lost by
    that: whatever hooks are installed, however they depend on the states they
    see, there is a sequence of answers under which the reference interpreter
    makes the very same run. */
module Oracles {
  import opened Words
  import opened Reference
  import opened Engine

  /** The answers that the hooks of `env` give along a history of calls. */
  ghost function Prepared(env: Env, log: seq<HookCall>): nat -> HookReply {
    (k: nat) => if k < |log| then env.reply(log[..k + 1]) else Reply([], false)
  }

  ghost function OracleEnv(env: Env, log: seq<HookCall>): Env {
    Env(env.insn, env.unmap, OracleReply(Prepared(env, log)))
  }

  lemma {:induction false} OpsKeepCalls(m: Machine, ops: seq<HostOp>)
    ensures ApplyOps(m, ops).calls == m.calls
    decreases |ops|
  {
    hide ApplyToArch;
    if ops != [] {
      OpsKeepCalls(ApplyOp(m, ops[0]), ops[1..]);
    }
  }

  lemma SameAnswer(env: Env, log: seq<HookCall>, h: seq<HookCall>)
    requires h != [] && h <= log
    ensures OracleEnv(env, log).reply(h) == env.reply(h)
  {
    assert log[..|h| - 1 + 1] == h;
  }

  lemma SameCall(env: Env, m: Machine, call: HookCall, log: seq<HookCall>)
    requires CallHook(env, m, call).calls <= log
    ensures CallHook(OracleEnv(env, log), m, call) == CallHook(env, m, call)
    ensures OracleEnv(env, log).reply(m.calls + [call]) == env.reply(m.calls + [call])
    ensures m.calls <= CallHook(env, m, call).calls
  {
    var n := m.(calls := m.calls + [call]);
    OpsKeepCalls(n, env.reply(n.calls).ops);
    SameAnswer(env, log, n.calls);
  }

  lemma SameStep(env: Env, m: Machine, until: U64, log: seq<HookCall>)
    requires Step(env, m, until).m.calls <= log
    ensures Step(OracleEnv(env, log), m, until) == Step(env, m, until)
    ensures m.calls <= Step(env, m, until).m.calls
  {
    hide CallHook, Decoder.Decode, Semantics.Exec, FlatMemory.Code, OracleReply, Prepared;
    forall k: Machine, call: HookCall | CallHook(env, k, call).calls <= log
      ensures CallHook(OracleEnv(env, log), k, call) == CallHook(env, k, call)
      ensures OracleEnv(env, log).reply(k.calls + [call]) == env.reply(k.calls + [call])
      ensures k.calls <= CallHook(env, k, call).calls
    {
      SameCall(env, k, call, log);
    }
  }

  lemma {:induction false} CallsGrow(env: Env, m: Machine, until: U64, n: nat)
    ensures m.calls <= Run(env, m, until, n).m.calls
    decreases n
  {
    hide Step;
    if n > 0 {
      var r := Step(env, m, until);
      SameStep(env, m, until, r.m.calls);
      if r.Continue? {
        CallsGrow(env, r.m, until, n - 1);
      }
    }
  }

  lemma {:induction false} SameRun(env: Env, m: Machine, until: U64, n: nat, log: seq<HookCall>)
    requires Run(env, m, until, n).m.calls <= log
    ensures Run(OracleEnv(env, log), m, until, n) == Run(env, m, until, n)
    decreases n
  {
    hide Step;
    if n > 0 {
      var r := Step(env, m, until);
      if r.Continue? {
        CallsGrow(env, r.m, until, n - 1);
        SameStep(env, m, until, log);
        SameRun(env, r.m, until, n - 1, log);
      } else {
        SameStep(env, m, until, log);
      }
    }
  }

  /** Every run under arbitrary hooks is a run under prepared answers. */
  lemma HooksAsOracles(env: Env, m: Machine, until: U64, n: nat)
    ensures exists replies: nat -> HookReply ::
      Run(Env(env.insn, env.unmap, OracleReply(replies)), m, until, n) == Run(env, m, until, n)
  {
    var log := Run(env, m, until, n).m.calls;
    SameRun(env, m, until, n, log);
    assert Run(Env(env.insn, env.unmap, OracleReply(Prepared(env, log))), m, until, n) == Run(env, m, until, n);
  }
}
