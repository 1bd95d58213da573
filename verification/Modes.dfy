/** The two ways to run guest code, side by side. */
module Modes {
  import opened Words
  import opened Reference
  import opened Engine

  /** Two engines in the same architectural state with the same hooks, whatever
      their caches hold and whichever has the block path switched on: after any
      number of steps they are in the same state, have made the same hook calls
      and have stopped alike. */
  method RunBoth(a: Engine, b: Engine, begin: U64, until: U64, fuel: nat) returns (aOut: Outcome, bOut: Outcome)
    requires a.Valid() && b.Valid() && a.Footprint() !! b.Footprint()
    requires a.State() == b.State() && a.Hooks() == b.Hooks()
    modifies a.Footprint(), b.Footprint()
    ensures a.Valid() && b.Valid()
    ensures a.State() == b.State() && aOut == bOut
    ensures RunResult(a.State(), aOut) == Run(old(a.Hooks()), Begin(old(a.State()), begin), until, fuel)
  {
    hide Run, a.CachesValid, a.cpu.mem.Valid, Begin;
    aOut := a.EmuStart(begin, until, fuel);
    bOut := b.EmuStart(begin, until, fuel);
  }
}
