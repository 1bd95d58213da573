/** fork, exit and wait4 (internal/emulator/emulator.go) as a protocol over the
    registry of child records.  Every process runs on its own goroutine; the
    registry's lock is held only for single accesses, so a wait4 is a snapshot of
    candidates, a poll of their done channels one by one, perhaps a block until
    one closes, and at last the reaping. */
module Children {
  import opened Words
  import opened FlatMemory
  import opened PagedMemory

  type Pid = nat

  const CHILD_PID_BASE: nat := 0x80_0000

  /** A child's record: its exit code is written before its channel is closed. */
  datatype Record = Record(parent: Pid, exited: bool, done: bool, code: int, reaped: bool)

  datatype WaitResult = NoChild | NothingYet | Reaped(pid: Pid, status: nat)

  datatype Phase =
    | Running
    | Forking(child: Pid)
    | Polling(want: int, cands: seq<Pid>, k: nat, nohang: bool)
    | Blocked(want: int, cands: seq<Pid>)
    | Claimed(want: int, nohang: bool, child: Pid)
    | Finishing(code: int)
    | Dead

  /** What a run did, in order: forks, exits, done channels closed, candidates that
      a wait4 polled and found open, and wait4s that returned. */
  datatype Event =
    | Forked(parent: Pid, child: Pid)
    | Exited(pid: Pid, code: int)
    | Closed(pid: Pid)
    | SawOpen(pid: Pid, child: Pid)
    | Waited(pid: Pid, want: int, nohang: bool, result: WaitResult)

  datatype World = World(
    root: Pid,
    last: Pid,
    phase: map<Pid, Phase>,
    kids: map<Pid, seq<Pid>>,
    rec: map<Pid, Record>,
    log: seq<Event>)

  datatype Label =
    | AllocPid(pid: Pid)
    | Register(pid: Pid, ok: bool)
    | StartWait(pid: Pid, want: int, nohang: bool)
    | Poll(pid: Pid)
    | Wake(pid: Pid, child: Pid)
    | Reap(pid: Pid)
    | SetCode(pid: Pid, code: int)
    | CloseDone(pid: Pid)

  // ---- wait4's parts ---------------------------------------------------------

  /** A pid of 0 or below means any child. */
  predicate Matches(want: int, child: Pid) {
    want <= 0 || child == want
  }

  predicate Candidate(rec: map<Pid, Record>, want: int, child: Pid) {
    child in rec && !rec[child].reaped && Matches(want, child)
  }

  function Kids(kids: map<Pid, seq<Pid>>, p: Pid): seq<Pid> {
    if p in kids then kids[p] else []
  }

  /** The unreaped matching children, in the order they were forked. */
  function Candidates(rec: map<Pid, Record>, want: int, kids: seq<Pid>): (c: seq<Pid>)
    ensures forall x :: x in c <==> x in kids && Candidate(rec, want, x)
    ensures forall x :: x in c ==> x in rec && !rec[x].reaped && (want <= 0 || x == want)
    ensures forall x :: x in kids && x in rec && !rec[x].reaped && (want <= 0 || x == want) ==> x in c
    decreases |kids|
  {
    if kids == [] then []
    else
      var front := Candidates(rec, want, kids[..|kids| - 1]);
      if Candidate(rec, want, kids[|kids| - 1]) then front + [kids[|kids| - 1]] else front
  }

  /** WIFEXITED with the exit code in bits 8 to 15. */
  function Status(code: int): nat {
    code % 0x100 * 0x100
  }

  /** WTERMSIG, WIFEXITED, WEXITSTATUS and WIFSIGNALED as <sys/wait.h> defines
      them, and the core-dump bit. */
  function TermSig(status: nat): nat {
    status % 0x80
  }

  predicate IfExited(status: nat) {
    TermSig(status) == 0
  }

  predicate IfSignaled(status: nat) {
    1 <= TermSig(status) <= 0x7E
  }

  function ExitStatus(status: nat): nat {
    status / 0x100 % 0x100
  }

  /** The status word of a normal exit with this code: the guest's macros find the
      low eight bits of the code, no signal and no core dump, and nothing else is
      set. */
  predicate IsStatus(status: nat, code: int) {
    && IfExited(status) && !IfSignaled(status) && status / 0x80 % 2 == 0 && status < 0x1_0000
    && (ExitStatus(status) - code) % 0x100 == 0
  }

  /** Also of a negative code; a code of eight bits comes back as it is. */
  lemma StatusReadsBack(code: int)
    ensures IsStatus(Status(code), code)
    ensures 0 <= code <= 0xFF ==> ExitStatus(Status(code)) == code
  {
    ModUnique(Status(code), 0x100, code % 0x100, 0);
    ModUnique(Status(code), 0x80, 2 * (code % 0x100), 0);
    ModUnique(code % 0x100 - code, 0x100, -(code / 0x100), 0);
  }

  // ---- steps -----------------------------------------------------------------

  predicate Enabled(w: World, l: Label) {
    l.pid in w.phase &&
    var x := w.phase[l.pid];
    match l
    case AllocPid(_) => x.Running?
    case Register(_, _) => x.Forking?
    case StartWait(_, _, _) => x.Running?
    case Poll(_) => x.Polling?
    case Wake(_, c) => x.Blocked? && c in x.cands && c in w.rec && w.rec[c].done
    case Reap(_) => x.Claimed? && x.child in w.rec
    case SetCode(_, _) => x.Running?
    case CloseDone(_) => x.Finishing?
  }

  function Goto(w: World, p: Pid, x: Phase): World {
    w.(phase := w.phase[p := x])
  }

  function Return(w: World, p: Pid, want: int, nohang: bool, r: WaitResult): World {
    Goto(w, p, Running).(log := w.log + [Waited(p, want, nohang, r)])
  }

  function RegisterStep(w: World, p: Pid, c: Pid): World {
    w.(phase := w.phase[p := Running][c := Running],
       kids := w.kids[p := Kids(w.kids, p) + [c]],
       rec := w.rec[c := Record(p, false, false, 0, false)],
       log := w.log + [Forked(p, c)])
  }

  function StartWaitStep(w: World, p: Pid, want: int, nohang: bool): World {
    var cands := Candidates(w.rec, want, Kids(w.kids, p));
    if cands == [] then Return(w, p, want, nohang, NoChild) else Goto(w, p, Polling(want, cands, 0, nohang))
  }

  /** The candidate's channel is open: on to the next. */
  function PassStep(w: World, p: Pid, x: Phase): World
    requires x.Polling? && x.k < |x.cands|
  {
    Goto(w, p, x.(k := x.k + 1)).(log := w.log + [SawOpen(p, x.cands[x.k])])
  }

  function PollStep(w: World, p: Pid, x: Phase): World
    requires x.Polling?
  {
    if x.k < |x.cands| then
      var c := x.cands[x.k];
      if c in w.rec && w.rec[c].done then Goto(w, p, Claimed(x.want, x.nohang, c)) else PassStep(w, p, x)
    else if x.nohang then Return(w, p, x.want, true, NothingYet)
    else Goto(w, p, Blocked(x.want, x.cands))
  }

  function ReapStep(w: World, p: Pid, x: Phase): World
    requires x.Claimed? && x.child in w.rec
  {
    var r := w.rec[x.child];
    Return(w, p, x.want, x.nohang, Reaped(x.child, Status(r.code))).(rec := w.rec[x.child := r.(reaped := true)])
  }

  /** The exit code is recorded; the root process has no record. */
  function SetCodeStep(w: World, p: Pid, code: int): World {
    var v := Goto(w, p, Finishing(code)).(log := w.log + [Exited(p, code)]);
    if p in w.rec then v.(rec := w.rec[p := w.rec[p].(exited := true, code := code)]) else v
  }

  function CloseDoneStep(w: World, p: Pid): World {
    var v := Goto(w, p, Dead).(log := w.log + [Closed(p)]);
    if p in w.rec then v.(rec := w.rec[p := w.rec[p].(done := true)]) else v
  }

  function Next(w: World, l: Label): World
    requires Enabled(w, l)
  {
    var p, x := l.pid, w.phase[l.pid];
    match l
    case AllocPid(_) => Goto(w, p, Forking(w.last + 1)).(last := w.last + 1)
    case Register(_, ok) => if ok then RegisterStep(w, p, x.child) else Goto(w, p, Running)
    case StartWait(_, want, nohang) => StartWaitStep(w, p, want, nohang)
    case Poll(_) => PollStep(w, p, x)
    case Wake(_, c) => Goto(w, p, Claimed(x.want, false, c))
    case Reap(_) => ReapStep(w, p, x)
    case SetCode(_, code) => SetCodeStep(w, p, code)
    case CloseDone(_) => CloseDoneStep(w, p)
  }

  predicate IsRun(w: World, run: seq<Label>)
    decreases |run|
  {
    run == [] || (Enabled(w, run[0]) && IsRun(Next(w, run[0]), run[1..]))
  }

  function After(w: World, run: seq<Label>): World
    requires IsRun(w, run)
    decreases |run|
  {
    if run == [] then w else After(Next(w, run[0]), run[1..])
  }

  /** One process with a host pid, which is below every child pid. */
  function Start(root: Pid): World {
    World(root, CHILD_PID_BASE, map[root := Running], map[], map[], [])
  }

  // ---- the log's meaning -----------------------------------------------------

  predicate ReapedIn(log: seq<Event>, c: Pid) {
    exists i :: 0 <= i < |log| && IsReap(log[i], c)
  }

  predicate IsReap(e: Event, c: Pid) {
    e.Waited? && e.result.Reaped? && e.result.pid == c
  }

  /** Every child of p that `want` matches has been reaped. */
  ghost predicate NoneLeft(log: seq<Event>, p: Pid, want: int) {
    forall c :: Forked(p, c) in log && Matches(want, c) ==> ReapedIn(log, c)
  }

  /** The wait4 that p is in has polled c and found it open. */
  predicate PolledOpen(log: seq<Event>, p: Pid, c: Pid)
    decreases |log|
  {
    log != [] &&
    var e := log[|log| - 1];
    e == SawOpen(p, c) || (!(e.Waited? && e.pid == p) && PolledOpen(log[..|log| - 1], p, c))
  }

  /** A wait4 that returned after `before`: ECHILD exactly when there is no
      unreaped match; a pid only for an exited child of the caller that matches
      and was not reaped before, with its own exit status; 0 only under WNOHANG,
      and only if it has polled every unreaped match and found it open. */
  ghost predicate WaitOk(before: seq<Event>, e: Event)
    requires e.Waited?
  {
    && (e.result.NoChild? <==> NoneLeft(before, e.pid, e.want))
    && (e.result.Reaped? ==>
          && Forked(e.pid, e.result.pid) in before && Closed(e.result.pid) in before
          && Matches(e.want, e.result.pid)
          && !ReapedIn(before, e.result.pid)
          && exists code :: Exited(e.result.pid, code) in before && IsStatus(e.result.status, code))
    && (e.result.NothingYet? ==>
          && e.nohang
          && forall c :: Forked(e.pid, c) in before && Matches(e.want, c) && !ReapedIn(before, c) ==>
               PolledOpen(before, e.pid, c))
  }

  /** Forked pids are new; processes exit at most once, and close their channel
      after that; a poll finds a channel open only if it has not been closed. */
  ghost predicate EventOk(before: seq<Event>, e: Event) {
    match e
    case Forked(p, c) => c > CHILD_PID_BASE && forall q :: Forked(q, c) !in before
    case Exited(p, _) => forall code :: Exited(p, code) !in before
    case Closed(p) => exists code :: Exited(p, code) in before
    case SawOpen(_, c) => Closed(c) !in before
    case Waited(_, _, _, _) => WaitOk(before, e)
  }

  ghost predicate LogOk(log: seq<Event>) {
    forall i :: 0 <= i < |log| ==> EventOk(log[..i], log[i])
  }

  // ---- the invariant ---------------------------------------------------------

  ghost predicate RecordOk(w: World, c: Pid) {
    c in w.rec ==>
      var r := w.rec[c];
      && CHILD_PID_BASE < c <= w.last && c in w.phase
      && c in Kids(w.kids, r.parent) && r.parent in w.phase
      && Forked(r.parent, c) in w.log
      && (r.exited ==> Exited(c, r.code) in w.log)
      && (r.done <==> Closed(c) in w.log)
      && (r.done ==> r.exited)
      && (r.reaped ==> r.done)
      && (r.exited <==> w.phase[c].Finishing? || w.phase[c].Dead?)
      && (r.done <==> w.phase[c].Dead?)
      && (r.reaped <==> ReapedIn(w.log, c))
  }

  ghost predicate PhaseOk(w: World, p: Pid, x: Phase) {
    match x
    case Forking(c) =>
      && CHILD_PID_BASE < c <= w.last && c !in w.phase && c !in w.rec
      && forall q :: q in w.phase && q != p ==> w.phase[q] != Forking(c)
    case Polling(want, cands, k, _) =>
      && cands == Candidates(w.rec, want, Kids(w.kids, p)) != []
      && k <= |cands| && forall i :: 0 <= i < k ==> PolledOpen(w.log, p, cands[i])
    case Blocked(want, cands) => cands == Candidates(w.rec, want, Kids(w.kids, p)) != []
    case Claimed(want, _, c) =>
      c in w.rec && w.rec[c].parent == p && Candidate(w.rec, want, c) && w.rec[c].done
    case Finishing(code) => Exited(p, code) in w.log
    case _ => true
  }

  ghost predicate PidOk(w: World, p: Pid) {
    && (p in w.phase ==> p == w.root || (CHILD_PID_BASE < p <= w.last && p in w.rec))
    && (forall c :: c in Kids(w.kids, p) ==> c in w.rec && w.rec[c].parent == p)
    && (p in w.kids ==> p in w.phase)
  }

  /** The log mentions only what the registry knows. */
  ghost predicate LogKnown(w: World) {
    && (forall p, c :: Forked(p, c) in w.log ==> c in w.rec && w.rec[c].parent == p)
    && (forall p, code :: Exited(p, code) in w.log ==> p in w.phase && (w.phase[p].Finishing? || w.phase[p].Dead?))
    && (forall p :: Closed(p) in w.log ==> p in w.phase && w.phase[p].Dead?)
  }

  ghost predicate Inv(w: World) {
    && w.root <= CHILD_PID_BASE <= w.last && w.root in w.phase && w.root !in w.rec
    && (forall c :: RecordOk(w, c))
    && (forall p :: PidOk(w, p))
    && (forall p :: p in w.phase ==> PhaseOk(w, p, w.phase[p]))
    && LogKnown(w) && LogOk(w.log)
  }

  // ---- every step keeps it ---------------------------------------------------

  lemma StartInv(root: Pid)
    requires root <= CHILD_PID_BASE
    ensures Inv(Start(root))
  {
  }

  lemma LogOkAppend(log: seq<Event>, e: Event)
    requires LogOk(log) && EventOk(log, e)
    ensures LogOk(log + [e])
  {
    hide EventOk;
    var all := log + [e];
    forall i | 0 <= i < |all|
      ensures EventOk(all[..i], all[i])
    {
      if i < |log| {
        assert all[..i] == log[..i];
      } else {
        assert all[..i] == log;
      }
    }
  }

  lemma ReapedInAppend(log: seq<Event>, e: Event, c: Pid)
    ensures ReapedIn(log + [e], c) <==> ReapedIn(log, c) || IsReap(e, c)
  {
    var all := log + [e];
    if ReapedIn(log, c) {
      var i :| 0 <= i < |log| && IsReap(log[i], c);
      assert all[i] == log[i];
    }
    if IsReap(e, c) {
      assert all[|log|] == e;
    }
  }

  lemma {:induction false} CandidatesSame(rec: map<Pid, Record>, later: map<Pid, Record>, want: int, kids: seq<Pid>)
    requires forall c :: c in kids ==> (Candidate(rec, want, c) <==> Candidate(later, want, c))
    ensures Candidates(later, want, kids) == Candidates(rec, want, kids)
    decreases |kids|
  {
    if kids != [] {
      CandidatesSame(rec, later, want, kids[..|kids| - 1]);
    }
  }

  /** What the invariant says, piece by piece. */
  lemma Pieces(w: World)
    requires Inv(w)
    ensures w.root <= CHILD_PID_BASE <= w.last && w.root in w.phase && w.root !in w.rec
    ensures LogKnown(w) && LogOk(w.log)
    ensures forall p :: p in w.phase ==> PhaseOk(w, p, w.phase[p])
  {
  }

  lemma PieceOf(w: World, q: Pid)
    requires Inv(w)
    ensures PidOk(w, q) && RecordOk(w, q)
  {
  }

  lemma Together(w: World, v: World)
    requires Inv(w) && v.root == w.root && v.last >= w.last && v.root in v.phase && v.root !in v.rec
    requires LogKnown(v) && LogOk(v.log)
    requires forall d :: RecordOk(v, d)
    requires forall q :: PidOk(v, q)
    requires forall q :: q in v.phase ==> PhaseOk(v, q, v.phase[q])
    ensures Inv(v)
  {
    hide RecordOk, PidOk, PhaseOk, LogKnown, LogOk;
  }

  /** No process, child or parent comes or goes. */
  lemma PidKept(w: World, v: World, q: Pid)
    requires PidOk(w, q) && v.root == w.root && v.kids == w.kids && v.last >= w.last
    requires forall c :: c in v.phase <==> c in w.phase
    requires forall c :: c in w.rec ==> c in v.rec && v.rec[c].parent == w.rec[c].parent
    ensures PidOk(v, q)
  {
  }

  /** A process that is not in the middle of anything. */
  lemma OwnPhase(w: World, p: Pid)
    requires p in w.phase
    requires
      match w.phase[p]
      case Running => true
      case Dead => true
      case Finishing(code) => Exited(p, code) in w.log
      case _ => false
    ensures PhaseOk(w, p, w.phase[p])
  {
  }

  /** A step of p that leaves registry and log alone. */
  lemma QuietKeeps(w: World, v: World, p: Pid)
    requires Inv(w) && p in w.phase && !w.phase[p].Finishing? && !w.phase[p].Dead?
    requires p in v.phase && v == w.(phase := w.phase[p := v.phase[p]], last := v.last) && v.last >= w.last
    requires !v.phase[p].Finishing? && !v.phase[p].Dead? && PhaseOk(v, p, v.phase[p])
    ensures Inv(v)
  {
    hide LogOk, Candidates;
    forall q | q in v.phase
      ensures PhaseOk(v, q, v.phase[q])
    {
      assert PhaseOk(w, q, w.phase[q]);
      if q != p && v.phase[q].Forking? {
        assert v.phase[p] != v.phase[q];
      }
    }
    forall c
      ensures RecordOk(v, c)
    {
      assert RecordOk(w, c);
    }
    forall q
      ensures PidOk(v, q)
    {
      assert PidOk(w, q);
    }
  }

  lemma AllocKeeps(w: World, p: Pid)
    requires Inv(w) && Enabled(w, AllocPid(p))
    ensures Inv(Next(w, AllocPid(p)))
  {
    var v := Next(w, AllocPid(p));
    var c := w.last + 1;
    assert PidOk(w, c) && RecordOk(w, c);
    forall q | q in w.phase && q != p
      ensures w.phase[q] != Forking(c)
    {
      assert PhaseOk(w, q, w.phase[q]);
    }
    QuietKeeps(w, v, p);
  }

  /** No candidate is left exactly when every matching child was reaped. */
  lemma NoneLeftIs(w: World, p: Pid, want: int)
    requires Inv(w)
    ensures Candidates(w.rec, want, Kids(w.kids, p)) == [] <==> NoneLeft(w.log, p, want)
  {
    hide LogOk, PhaseOk, ReapedIn;
    var cands := Candidates(w.rec, want, Kids(w.kids, p));
    if cands == [] {
      forall c | Forked(p, c) in w.log && Matches(want, c)
        ensures ReapedIn(w.log, c)
      {
        assert RecordOk(w, c);
        assert c !in cands;
      }
    } else {
      var c := cands[0];
      assert c in cands;
      assert PidOk(w, p) && RecordOk(w, c);
      assert Forked(p, c) in w.log;
    }
  }

  lemma ReapIs(e: Event, c: Pid)
    ensures IsReap(e, c) <==> e.Waited? && e.result.Reaped? && e.result.pid == c
  {
  }

  /** A wait4 that returns leaves every record right, and marks the one it reaped. */
  lemma WaitedRecord(w: World, v: World, p: Pid, e: Event, d: Pid)
    requires RecordOk(w, d) && p in w.phase && !w.phase[p].Finishing? && !w.phase[p].Dead?
    requires e.Waited? && v.log == w.log + [e] && v.phase == w.phase[p := Running]
    requires v.kids == w.kids && v.last == w.last
    requires d in v.rec <==> d in w.rec
    requires d in w.rec ==> v.rec[d] == w.rec[d].(reaped := w.rec[d].reaped || IsReap(e, d))
    requires d in w.rec && IsReap(e, d) ==> w.rec[d].done
    ensures RecordOk(v, d)
  {
    hide ReapedIn, IsReap;
    ReapedInAppend(w.log, e, d);
  }

  lemma ReturnRecord(w: World, p: Pid, want: int, nohang: bool, r: WaitResult, d: Pid)
    requires Inv(w) && p in w.phase && !w.phase[p].Finishing? && !w.phase[p].Dead? && !r.Reaped?
    ensures RecordOk(Return(w, p, want, nohang, r), d)
  {
    assert RecordOk(w, d);
    hide Inv, IsReap, RecordOk;
    var e := Waited(p, want, nohang, r);
    ReapIs(e, d);
    WaitedRecord(w, Return(w, p, want, nohang, r), p, e, d);
  }

  /** A wait4 that reaps nothing returns. */
  lemma ReturnKeeps(w: World, p: Pid, want: int, nohang: bool, r: WaitResult)
    requires Inv(w) && p in w.phase && !w.phase[p].Finishing? && !w.phase[p].Dead?
    requires !r.Reaped? && WaitOk(w.log, Waited(p, want, nohang, r))
    ensures Inv(Return(w, p, want, nohang, r))
  {
    hide Inv, RecordOk, PidOk, PhaseOk, LogOk, LogKnown, WaitOk;
    var v := Return(w, p, want, nohang, r);
    Pieces(w);
    ReturnLog(w, p, want, nohang, r);
    forall d
      ensures RecordOk(v, d)
    {
      ReturnRecord(w, p, want, nohang, r, d);
    }
    forall q | q in v.phase
      ensures PhaseOk(v, q, v.phase[q])
    {
      if q == p {
        OwnPhase(v, p);
      } else {
        ReturnPhase(w, p, want, nohang, r, q);
      }
    }
    forall q
      ensures PidOk(v, q)
    {
      PieceOf(w, q);
      PidKept(w, v, q);
    }
    Together(w, v);
  }

  lemma ReturnLog(w: World, p: Pid, want: int, nohang: bool, r: WaitResult)
    requires Inv(w) && p in w.phase && !w.phase[p].Finishing? && !w.phase[p].Dead?
    requires WaitOk(w.log, Waited(p, want, nohang, r))
    ensures var v := Return(w, p, want, nohang, r); LogOk(v.log) && LogKnown(v)
  {
    hide Inv, LogOk, WaitOk, PidOk, PhaseOk;
    Pieces(w);
    LogOkAppend(w.log, Waited(p, want, nohang, r));
  }

  lemma ReturnPhase(w: World, p: Pid, want: int, nohang: bool, r: WaitResult, q: Pid)
    requires Inv(w) && p in w.phase && q in w.phase && q != p
    ensures var v := Return(w, p, want, nohang, r); PhaseOk(v, q, v.phase[q])
  {
    hide Inv, Candidates, PolledOpen;
    Pieces(w);
    assert PhaseOk(w, q, w.phase[q]);
    StillPolled(w.log, Waited(p, want, nohang, r), q);
  }

  lemma PolledAppend(log: seq<Event>, e: Event, p: Pid, c: Pid)
    ensures PolledOpen(log + [e], p, c) <==>
            e == SawOpen(p, c) || (!(e.Waited? && e.pid == p) && PolledOpen(log, p, c))
  {
    assert (log + [e])[..|log|] == log;
  }

  /** What others do leaves q's polls standing. */
  lemma StillPolled(log: seq<Event>, e: Event, q: Pid)
    requires !(e.Waited? && e.pid == q)
    ensures forall c :: PolledOpen(log, q, c) ==> PolledOpen(log + [e], q, c)
  {
    hide PolledOpen;
    forall c | PolledOpen(log, q, c)
      ensures PolledOpen(log + [e], q, c)
    {
      PolledAppend(log, e, q, c);
    }
  }

  lemma StartWaitKeeps(w: World, p: Pid, want: int, nohang: bool)
    requires Inv(w) && Enabled(w, StartWait(p, want, nohang))
    ensures Inv(Next(w, StartWait(p, want, nohang)))
  {
    hide Inv;
    NoneLeftIs(w, p, want);
    if Candidates(w.rec, want, Kids(w.kids, p)) == [] {
      ReturnKeeps(w, p, want, nohang, NoChild);
    } else {
      QuietKeeps(w, Next(w, StartWait(p, want, nohang)), p);
    }
  }

  /** A done candidate may be claimed. */
  lemma ClaimOk(w: World, p: Pid, want: int, nohang: bool, c: Pid)
    requires Inv(w) && c in Candidates(w.rec, want, Kids(w.kids, p)) && w.rec[c].done
    ensures PhaseOk(w, p, Claimed(want, nohang, c))
  {
    assert PidOk(w, p);
  }

  lemma PhaseMoves(w: World, p: Pid, x: Phase, y: Phase)
    requires y.Claimed? && PhaseOk(w, p, y)
    ensures PhaseOk(Goto(w, p, x), p, y)
  {
  }

  lemma PassRecord(w: World, p: Pid, d: Pid)
    requires Inv(w) && Enabled(w, Poll(p)) && w.phase[p].k < |w.phase[p].cands|
    ensures RecordOk(PassStep(w, p, w.phase[p]), d)
  {
    hide LogOk, LogKnown, ReapedIn, PhaseOk;
    var x := w.phase[p];
    assert RecordOk(w, d);
    ReapedInAppend(w.log, SawOpen(p, x.cands[x.k]), d);
  }

  lemma PassPhase(w: World, p: Pid, q: Pid)
    requires Inv(w) && Enabled(w, Poll(p)) && w.phase[p].k < |w.phase[p].cands| && q in w.phase
    ensures var v := PassStep(w, p, w.phase[p]); PhaseOk(v, q, v.phase[q])
  {
    hide LogOk, LogKnown, Candidates, RecordOk, PidOk, PolledOpen;
    var c := w.phase[p].cands[w.phase[p].k];
    assert PhaseOk(w, q, w.phase[q]);
    StillPolled(w.log, SawOpen(p, c), q);
    PolledAppend(w.log, SawOpen(p, c), p, c);
  }

  /** A candidate found open. */
  lemma PassKeeps(w: World, p: Pid)
    requires Inv(w) && Enabled(w, Poll(p)) && w.phase[p].k < |w.phase[p].cands|
    requires w.phase[p].cands[w.phase[p].k] in w.rec && !w.rec[w.phase[p].cands[w.phase[p].k]].done
    ensures Inv(PassStep(w, p, w.phase[p]))
  {
    hide Inv, RecordOk, PidOk, PhaseOk, LogOk, LogKnown, Candidates;
    var v := PassStep(w, p, w.phase[p]);
    Pieces(w);
    PassLog(w, p);
    forall d
      ensures RecordOk(v, d)
    {
      PassRecord(w, p, d);
    }
    forall q | q in v.phase
      ensures PhaseOk(v, q, v.phase[q])
    {
      PassPhase(w, p, q);
    }
    forall q
      ensures PidOk(v, q)
    {
      PieceOf(w, q);
      PidKept(w, v, q);
    }
    Together(w, v);
  }

  lemma PassLog(w: World, p: Pid)
    requires Inv(w) && Enabled(w, Poll(p)) && w.phase[p].k < |w.phase[p].cands|
    requires w.phase[p].cands[w.phase[p].k] in w.rec && !w.rec[w.phase[p].cands[w.phase[p].k]].done
    ensures var v := PassStep(w, p, w.phase[p]); LogOk(v.log) && LogKnown(v)
  {
    hide Inv, LogOk, PidOk, PhaseOk;
    var c := w.phase[p].cands[w.phase[p].k];
    Pieces(w);
    PieceOf(w, c);
    LogOkAppend(w.log, SawOpen(p, c));
  }

  /** When every candidate was found open, every unreaped match was. */
  lemma AllPolled(w: World, p: Pid, c: Pid)
    requires Inv(w) && Enabled(w, Poll(p)) && w.phase[p].k >= |w.phase[p].cands|
    requires Forked(p, c) in w.log && Matches(w.phase[p].want, c) && !ReapedIn(w.log, c)
    ensures PolledOpen(w.log, p, c)
  {
    hide LogOk, ReapedIn, PolledOpen;
    var x := w.phase[p];
    assert PhaseOk(w, p, x) && RecordOk(w, c);
    assert c in x.cands;
  }

  lemma PollKeeps(w: World, p: Pid)
    requires Inv(w) && Enabled(w, Poll(p))
    ensures Inv(Next(w, Poll(p)))
  {
    var x, v := w.phase[p], Next(w, Poll(p));
    assert PhaseOk(w, p, x);
    hide LogOk, Candidates, NoneLeft, PolledOpen;
    if x.k < |x.cands| {
      var c := x.cands[x.k];
      assert c in Candidates(w.rec, x.want, Kids(w.kids, p));
      if w.rec[c].done {
        ClaimOk(w, p, x.want, x.nohang, c);
        PhaseMoves(w, p, Claimed(x.want, x.nohang, c), Claimed(x.want, x.nohang, c));
        QuietKeeps(w, v, p);
      } else {
        PassKeeps(w, p);
      }
    } else if x.nohang {
      NoneLeftIs(w, p, x.want);
      forall c | Forked(p, c) in w.log && Matches(x.want, c) && !ReapedIn(w.log, c)
        ensures PolledOpen(w.log, p, c)
      {
        AllPolled(w, p, c);
      }
      ReturnKeeps(w, p, x.want, true, NothingYet);
    } else {
      QuietKeeps(w, v, p);
    }
  }

  lemma WakeKeeps(w: World, p: Pid, c: Pid)
    requires Inv(w) && Enabled(w, Wake(p, c))
    ensures Inv(Next(w, Wake(p, c)))
  {
    var x := w.phase[p];
    assert PhaseOk(w, p, x);
    hide LogOk, Candidates;
    ClaimOk(w, p, x.want, false, c);
    PhaseMoves(w, p, Claimed(x.want, false, c), Claimed(x.want, false, c));
    QuietKeeps(w, Next(w, Wake(p, c)), p);
  }

  /** Another process's phase survives p's step on the registry. */
  lemma PhaseKept(w: World, v: World, p: Pid, q: Pid, x: Phase)
    requires PidOk(w, q) && PhaseOk(w, q, x) && p in w.phase && p in v.phase
    requires v.last == w.last && Kids(v.kids, q) == Kids(w.kids, q)
    requires forall c :: c in w.rec && w.rec[c].parent == q ==>
               c in v.rec && v.rec[c].parent == q && v.rec[c].reaped == w.rec[c].reaped && (w.rec[c].done ==> v.rec[c].done)
    requires x.Forking? ==> x.child !in v.phase && x.child !in v.rec
    requires forall r :: r in v.phase && v.phase[r].Forking? ==> r in w.phase && w.phase[r] == v.phase[r]
    requires exists e :: v.log == w.log + [e] && !(e.Waited? && e.pid == q)
    ensures PhaseOk(v, q, x)
  {
    var e :| v.log == w.log + [e] && !(e.Waited? && e.pid == q);
    StillPolled(w.log, e, q);
    hide PolledOpen;
    if x.Polling? || x.Blocked? {
      CandidatesSame(w.rec, v.rec, x.want, Kids(w.kids, q));
    }
    hide Candidates;
  }

  /** The wait4 that reaps is right about the child it reaps. */
  lemma ReapIsRight(w: World, p: Pid)
    requires Inv(w) && Enabled(w, Reap(p))
    ensures
      var x := w.phase[p];
      WaitOk(w.log, Waited(p, x.want, x.nohang, Reaped(x.child, Status(w.rec[x.child].code))))
  {
    hide Inv, LogOk, ReapedIn, PidOk, PolledOpen, IsStatus, Status;
    var x, c := w.phase[p], w.phase[p].child;
    Pieces(w);
    PieceOf(w, c);
    StatusReadsBack(w.rec[c].code);
    assert PhaseOk(w, p, x);
    assert Forked(p, c) in w.log && Matches(x.want, c) && !ReapedIn(w.log, c);
    assert Exited(c, w.rec[c].code) in w.log;
  }

  lemma ReapLog(w: World, p: Pid)
    requires Inv(w) && Enabled(w, Reap(p))
    ensures var v := Next(w, Reap(p)); LogOk(v.log) && LogKnown(v)
  {
    hide Inv, LogOk, WaitOk, PidOk, PhaseOk;
    var x, c := w.phase[p], w.phase[p].child;
    Pieces(w);
    ReapIsRight(w, p);
    LogOkAppend(w.log, Waited(p, x.want, x.nohang, Reaped(c, Status(w.rec[c].code))));
  }

  lemma ReapRecord(w: World, p: Pid, d: Pid)
    requires Inv(w) && Enabled(w, Reap(p))
    ensures RecordOk(Next(w, Reap(p)), d)
  {
    var x, c := w.phase[p], w.phase[p].child;
    assert PhaseOk(w, p, x) && RecordOk(w, c) && RecordOk(w, d);
    hide Inv, IsReap, PhaseOk, RecordOk;
    var e := Waited(p, x.want, x.nohang, Reaped(c, Status(w.rec[c].code)));
    assert IsReap(e, d) <==> c == d by { ReapIs(e, d); }
    WaitedRecord(w, Next(w, Reap(p)), p, e, d);
  }

  lemma ReapPhase(w: World, p: Pid, q: Pid)
    requires Inv(w) && Enabled(w, Reap(p)) && q != p
    ensures var v := Next(w, Reap(p)); q in v.phase ==> PhaseOk(v, q, v.phase[q])
  {
    hide LogOk, LogKnown, RecordOk, Candidates;
    var v := Next(w, Reap(p));
    assert PhaseOk(w, p, w.phase[p]);
    if q in w.phase {
      assert PhaseOk(w, q, w.phase[q]) && PidOk(w, q);
      PhaseKept(w, v, p, q, w.phase[q]);
    }
  }

  lemma ReapKeeps(w: World, p: Pid)
    requires Inv(w) && Enabled(w, Reap(p))
    ensures Inv(Next(w, Reap(p)))
  {
    hide Inv, RecordOk, PidOk, PhaseOk, LogOk, LogKnown, Candidates;
    var v := Next(w, Reap(p));
    Pieces(w);
    ReapLog(w, p);
    forall d
      ensures RecordOk(v, d)
    {
      ReapRecord(w, p, d);
    }
    forall q | q in v.phase
      ensures PhaseOk(v, q, v.phase[q])
    {
      if q == p {
        OwnPhase(v, p);
      } else {
        ReapPhase(w, p, q);
      }
    }
    forall q
      ensures PidOk(v, q)
    {
      PieceOf(w, q);
      PidKept(w, v, q);
    }
    Together(w, v);
  }

  lemma RegisterLog(w: World, p: Pid)
    requires Inv(w) && Enabled(w, Register(p, true))
    ensures var v := Next(w, Register(p, true)); LogOk(v.log) && LogKnown(v)
  {
    hide LogOk, RecordOk, PidOk;
    var c := w.phase[p].child;
    assert PhaseOk(w, p, w.phase[p]);
    LogOkAppend(w.log, Forked(p, c));
  }

  lemma RegisterRecord(w: World, p: Pid, d: Pid)
    requires Inv(w) && Enabled(w, Register(p, true))
    ensures RecordOk(Next(w, Register(p, true)), d)
  {
    var c := w.phase[p].child;
    assert PhaseOk(w, p, w.phase[p]);
    NotYetReaped(w, c);
    hide LogOk, LogKnown, ReapedIn, PhaseOk;
    assert RecordOk(w, d);
    ReapedInAppend(w.log, Forked(p, c), d);
  }

  lemma RegisterPhase(w: World, p: Pid, q: Pid)
    requires Inv(w) && Enabled(w, Register(p, true)) && q != p
    ensures var v := Next(w, Register(p, true)); q in v.phase ==> PhaseOk(v, q, v.phase[q])
  {
    hide LogOk, LogKnown, RecordOk, Candidates;
    var v := Next(w, Register(p, true));
    assert PhaseOk(w, p, w.phase[p]);
    if q in w.phase {
      assert PhaseOk(w, q, w.phase[q]) && PidOk(w, q);
      PhaseKept(w, v, p, q, w.phase[q]);
    }
  }

  lemma RegisterPid(w: World, p: Pid, q: Pid)
    requires Inv(w) && Enabled(w, Register(p, true))
    ensures PidOk(Next(w, Register(p, true)), q)
  {
    hide Inv, RecordOk, LogOk, LogKnown;
    Pieces(w);
    PieceOf(w, q);
    PieceOf(w, p);
    assert PhaseOk(w, p, w.phase[p]);
  }

  lemma RegisterKeeps(w: World, p: Pid)
    requires Inv(w) && Enabled(w, Register(p, true))
    ensures Inv(Next(w, Register(p, true)))
  {
    hide Inv, RecordOk, PidOk, PhaseOk, LogOk, LogKnown, Candidates;
    var v := Next(w, Register(p, true));
    Pieces(w);
    RegisterFresh(w, p);
    RegisterLog(w, p);
    forall d
      ensures RecordOk(v, d)
    {
      RegisterRecord(w, p, d);
    }
    forall q | q in v.phase
      ensures PhaseOk(v, q, v.phase[q])
    {
      if q == p {
        OwnPhase(v, p);
      } else {
        RegisterPhase(w, p, q);
      }
    }
    forall q
      ensures PidOk(v, q)
    {
      RegisterPid(w, p, q);
    }
    Together(w, v);
  }

  lemma RegisterFresh(w: World, p: Pid)
    requires Inv(w) && Enabled(w, Register(p, true))
    ensures w.phase[p].child > CHILD_PID_BASE && w.phase[p].child !in w.phase && w.phase[p].child !in w.rec
  {
    hide RecordOk, LogOk, LogKnown;
    assert PhaseOk(w, p, w.phase[p]);
  }

  lemma NotYetReaped(w: World, c: Pid)
    requires Inv(w) && c !in w.rec
    ensures !ReapedIn(w.log, c)
  {
    hide Inv;
    if ReapedIn(w.log, c) {
      ReapedWasForked(w, c);
    }
  }

  lemma ReapedWasForked(w: World, c: Pid)
    requires Inv(w) && ReapedIn(w.log, c)
    ensures c in w.rec
  {
    hide PhaseOk;
    var i :| 0 <= i < |w.log| && IsReap(w.log[i], c);
    assert EventOk(w.log[..i], w.log[i]);
    assert Forked(w.log[i].pid, c) in w.log;
  }

  lemma SetCodeLog(w: World, p: Pid, code: int)
    requires Inv(w) && Enabled(w, SetCode(p, code))
    ensures var v := Next(w, SetCode(p, code)); LogOk(v.log) && LogKnown(v)
  {
    hide LogOk, RecordOk, PidOk, PhaseOk;
    LogOkAppend(w.log, Exited(p, code));
  }

  lemma SetCodeRecord(w: World, p: Pid, code: int, d: Pid)
    requires Inv(w) && Enabled(w, SetCode(p, code))
    ensures RecordOk(Next(w, SetCode(p, code)), d)
  {
    hide LogOk, LogKnown, ReapedIn, PhaseOk;
    assert RecordOk(w, d) && RecordOk(w, p) && PidOk(w, p);
    ReapedInAppend(w.log, Exited(p, code), d);
  }

  lemma SetCodePhase(w: World, p: Pid, code: int, q: Pid)
    requires Inv(w) && Enabled(w, SetCode(p, code)) && q != p
    ensures var v := Next(w, SetCode(p, code)); q in v.phase ==> PhaseOk(v, q, v.phase[q])
  {
    hide LogOk, LogKnown, RecordOk, Candidates;
    var v := Next(w, SetCode(p, code));
    if q in w.phase {
      assert PhaseOk(w, q, w.phase[q]) && PidOk(w, q);
      PhaseKept(w, v, p, q, w.phase[q]);
    }
  }

  lemma SetCodeKeeps(w: World, p: Pid, code: int)
    requires Inv(w) && Enabled(w, SetCode(p, code))
    ensures Inv(Next(w, SetCode(p, code)))
  {
    hide Inv, RecordOk, PidOk, PhaseOk, LogOk, LogKnown, Candidates;
    var v := Next(w, SetCode(p, code));
    Pieces(w);
    SetCodeLog(w, p, code);
    forall d
      ensures RecordOk(v, d)
    {
      SetCodeRecord(w, p, code, d);
    }
    forall q | q in v.phase
      ensures PhaseOk(v, q, v.phase[q])
    {
      if q == p {
        OwnPhase(v, p);
      } else {
        SetCodePhase(w, p, code, q);
      }
    }
    forall q
      ensures PidOk(v, q)
    {
      PieceOf(w, q);
      PidKept(w, v, q);
    }
    Together(w, v);
  }

  lemma CloseDoneRecord(w: World, p: Pid, d: Pid)
    requires Inv(w) && Enabled(w, CloseDone(p))
    ensures RecordOk(Next(w, CloseDone(p)), d)
  {
    hide LogOk, ReapedIn, PhaseOk;
    assert RecordOk(w, d) && RecordOk(w, p) && PidOk(w, p);
    ReapedInAppend(w.log, Closed(p), d);
  }

  lemma CloseDonePhase(w: World, p: Pid, q: Pid)
    requires Inv(w) && Enabled(w, CloseDone(p)) && q != p
    ensures var v := Next(w, CloseDone(p)); q in v.phase ==> PhaseOk(v, q, v.phase[q])
  {
    hide LogOk, LogKnown, RecordOk, Candidates;
    var v := Next(w, CloseDone(p));
    if q in w.phase {
      assert PhaseOk(w, q, w.phase[q]) && PidOk(w, q);
      PhaseKept(w, v, p, q, w.phase[q]);
    }
  }

  lemma CloseDoneLog(w: World, p: Pid)
    requires Inv(w) && Enabled(w, CloseDone(p))
    ensures var v := Next(w, CloseDone(p)); LogOk(v.log) && LogKnown(v)
  {
    hide Inv, LogOk, RecordOk, PidOk;
    Pieces(w);
    assert PhaseOk(w, p, w.phase[p]);
    LogOkAppend(w.log, Closed(p));
  }

  lemma CloseDoneKeeps(w: World, p: Pid)
    requires Inv(w) && Enabled(w, CloseDone(p))
    ensures Inv(Next(w, CloseDone(p)))
  {
    hide Inv, RecordOk, PidOk, PhaseOk, LogOk, LogKnown, Candidates;
    var v := Next(w, CloseDone(p));
    Pieces(w);
    CloseDoneLog(w, p);
    forall d
      ensures RecordOk(v, d)
    {
      CloseDoneRecord(w, p, d);
    }
    forall q | q in v.phase
      ensures PhaseOk(v, q, v.phase[q])
    {
      if q == p {
        OwnPhase(v, p);
      } else {
        CloseDonePhase(w, p, q);
      }
    }
    forall q
      ensures PidOk(v, q)
    {
      PieceOf(w, q);
      PidKept(w, v, q);
    }
    Together(w, v);
  }

  lemma NextKeeps(w: World, l: Label)
    requires Inv(w) && Enabled(w, l)
    ensures Inv(Next(w, l))
  {
    match l
    case AllocPid(p) => AllocKeeps(w, p);
    case Register(p, ok) =>
      if ok {
        RegisterKeeps(w, p);
      } else {
        QuietKeeps(w, Next(w, l), p);
      }
    case StartWait(p, want, nohang) => StartWaitKeeps(w, p, want, nohang);
    case Poll(p) => PollKeeps(w, p);
    case Wake(p, c) => WakeKeeps(w, p, c);
    case Reap(p) => ReapKeeps(w, p);
    case SetCode(p, code) => SetCodeKeeps(w, p, code);
    case CloseDone(p) => CloseDoneKeeps(w, p);
  }

  // ---- main results ----------------------------------------------------------

  lemma {:induction false} RunKeeps(w: World, run: seq<Label>)
    requires Inv(w) && IsRun(w, run)
    ensures Inv(After(w, run))
    decreases |run|
  {
    hide Inv, Enabled;
    if run != [] {
      NextKeeps(w, run[0]);
      RunKeeps(Next(w, run[0]), run[1..]);
    }
  }

  /** Over every run of any number of processes: child pids are distinct, a wait4
      returns only an exited child of its caller that it asked for and that was
      not reaped before, with the status of that child's exit; it reports ECHILD
      exactly when every child it could mean has been reaped; and it returns 0 only
      under WNOHANG, after polling every unreaped match and finding it open. */
  lemma WaitsAreRight(root: Pid, run: seq<Label>)
    requires root <= CHILD_PID_BASE && IsRun(Start(root), run)
    ensures LogOk(After(Start(root), run).log)
  {
    StartInv(root);
    RunKeeps(Start(root), run);
  }

  /** In particular no child is reaped twice. */
  lemma ReapedOnce(root: Pid, run: seq<Label>, c: Pid, i: nat, j: nat)
    requires root <= CHILD_PID_BASE && IsRun(Start(root), run)
    requires var log := After(Start(root), run).log; i < |log| && j < |log| && IsReap(log[i], c) && IsReap(log[j], c)
    ensures i == j
  {
    WaitsAreRight(root, run);
    hide After, IsRun;
    var log := After(Start(root), run).log;
    NotReapedBefore(log, c, i);
    NotReapedBefore(log, c, j);
  }

  lemma NotReapedBefore(log: seq<Event>, c: Pid, j: nat)
    requires LogOk(log) && j < |log| && IsReap(log[j], c)
    ensures forall i :: 0 <= i < j ==> !IsReap(log[i], c)
  {
    hide NoneLeft;
    assert EventOk(log[..j], log[j]);
    forall i | 0 <= i < j
      ensures !IsReap(log[i], c)
    {
      assert log[..j][i] == log[i];
    }
  }

  function ForkCount(log: seq<Event>): nat
    decreases |log|
  {
    if log == [] then 0 else ForkCount(log[..|log| - 1]) + if log[|log| - 1].Forked? then 1 else 0
  }

  lemma ForkCountAppend(log: seq<Event>, e: Event)
    ensures ForkCount(log + [e]) == ForkCount(log) + if e.Forked? then 1 else 0
  {
    assert (log + [e])[..|log|] == log;
  }

  ghost function RunningChildren(w: World): set<Pid> {
    set c | c in w.rec && !w.rec[c].done
  }

  ghost function Zombies(w: World): set<Pid> {
    set c | c in w.rec && w.rec[c].done && !w.rec[c].reaped
  }

  ghost function ReapedChildren(w: World): set<Pid> {
    set c | c in w.rec && w.rec[c].reaped
  }

  lemma ForkCountStep(w: World, l: Label)
    requires Inv(w) && Enabled(w, l) && ForkCount(w.log) == |w.rec.Keys|
    ensures ForkCount(Next(w, l).log) == |Next(w, l).rec.Keys|
  {
    hide Inv, Candidates, ForkCount, Next;
    var v := Next(w, l);
    LogStep(w, l);
    RecStep(w, l);
    if v.log != w.log {
      ForkCountAppend(w.log, v.log[|v.log| - 1]);
    }
  }

  /** The log grows by one event at most, and by a fork exactly when one is registered. */
  lemma LogStep(w: World, l: Label)
    requires Enabled(w, l)
    ensures
      var v := Next(w, l);
      && (v.log != w.log ==> v.log != [] && v.log == w.log + [v.log[|v.log| - 1]])
      && (l.Register? && l.ok <==> v.log != w.log && v.log[|v.log| - 1].Forked?)
  {
    hide Candidates;
  }

  /** The registry gets a new child exactly then. */
  lemma RecStep(w: World, l: Label)
    requires Inv(w) && Enabled(w, l)
    ensures |Next(w, l).rec.Keys| == |w.rec.Keys| + if l.Register? && l.ok then 1 else 0
  {
    hide Inv, Candidates;
    if l.Register? && l.ok {
      RegisterFresh(w, l.pid);
      assert Next(w, l).rec.Keys == w.rec.Keys + {w.phase[l.pid].child};
    } else {
      assert Next(w, l).rec.Keys == w.rec.Keys;
    }
  }

  lemma {:induction false} RunForkCount(w: World, run: seq<Label>)
    requires Inv(w) && IsRun(w, run) && ForkCount(w.log) == |w.rec.Keys|
    ensures ForkCount(After(w, run).log) == |After(w, run).rec.Keys|
    decreases |run|
  {
    hide Inv, Enabled, ForkCount;
    if run != [] {
      NextKeeps(w, run[0]);
      ForkCountStep(w, run[0]);
      RunForkCount(Next(w, run[0]), run[1..]);
    }
  }

  /** Nobody is lost: at any time every child ever forked is running, a zombie, or
      reaped, and only one of these. */
  lemma ChildrenConserved(root: Pid, run: seq<Label>)
    requires root <= CHILD_PID_BASE && IsRun(Start(root), run)
    ensures
      var w := After(Start(root), run);
      ForkCount(w.log) == |RunningChildren(w)| + |Zombies(w)| + |ReapedChildren(w)|
  {
    StartInv(root);
    RunKeeps(Start(root), run);
    RunForkCount(Start(root), run);
    hide After, IsRun, LogOk, PidOk, PhaseOk, LogKnown, ForkCount;
    var w := After(Start(root), run);
    forall c | c in w.rec && w.rec[c].reaped
      ensures w.rec[c].done
    {
      assert RecordOk(w, c);
    }
    hide RecordOk, Inv;
    Partition(w);
  }

  lemma Partition(w: World)
    requires forall c :: c in w.rec && w.rec[c].reaped ==> w.rec[c].done
    ensures |w.rec.Keys| == |RunningChildren(w)| + |Zombies(w)| + |ReapedChildren(w)|
  {
    var a, b, c := RunningChildren(w), Zombies(w), ReapedChildren(w);
    forall x
      ensures x in w.rec.Keys <==> x in a || x in b || x in c
      ensures !(x in a && x in b) && !(x in a && x in c) && !(x in b && x in c)
    {
    }
    CountParts(w.rec.Keys, a, b, c);
  }

  lemma CountParts(all: set<Pid>, a: set<Pid>, b: set<Pid>, c: set<Pid>)
    requires forall x :: x in all <==> x in a || x in b || x in c
    requires forall x :: !(x in a && x in b) && !(x in a && x in c) && !(x in b && x in c)
    ensures |all| == |a| + |b| + |c|
  {
    assert all == (a + b) + c;
    assert a !! b && (a + b) !! c;
  }

  // ---- the registry as an object ---------------------------------------------

  /** What a wait4 returns when nothing else runs, None when it blocks, and the
      records it leaves: the first child, in the order they were forked, that
      matches, is not reaped and has exited. */
  function Wait4Alone(rec: map<Pid, Record>, kids: seq<Pid>, want: int, nohang: bool)
    : (Option<WaitResult>, map<Pid, Record>)
  {
    var ready := Candidates(rec, want, DoneOnly(rec, kids));
    if Candidates(rec, want, kids) == [] then (Some(NoChild), rec)
    else if ready == [] then (if nohang then Some(NothingYet) else None, rec)
    else
      var c := ready[0];
      assert c in ready;
      (Some(Reaped(c, Status(rec[c].code))), rec[c := rec[c].(reaped := true)])
  }

  /** childrenOf, nextChildPid and the records they point to. */
  class Registry {
    var kids: map<Pid, seq<Pid>>
    var rec: map<Pid, Record>
    var last: Pid

    constructor ()
      ensures kids == map[] && rec == map[] && last == CHILD_PID_BASE
    {
      kids, rec, last := map[], map[], CHILD_PID_BASE;
    }

    /** doFork's part: a pid is spent even if the child's hooks cannot be installed. */
    method Fork(p: Pid, hooked: bool) returns (c: Pid)
      modifies this
      ensures c == last == old(last) + 1
      ensures !hooked ==> kids == old(kids) && rec == old(rec)
      ensures hooked ==>
                && kids == old(kids)[p := Kids(old(kids), p) + [c]]
                && rec == old(rec)[c := Record(p, false, false, 0, false)]
    {
      last := last + 1;
      c := last;
      if hooked {
        rec := rec[c := Record(p, false, false, 0, false)];
        kids := kids[p := (if p in kids then kids[p] else []) + [c]];
      }
    }

    /** The snapshot of candidates that wait4 takes under the lock. */
    method Snapshot(p: Pid, want: int) returns (cands: seq<Pid>)
      ensures cands == Candidates(rec, want, Kids(kids, p))
    {
      var mine := if p in kids then kids[p] else [];
      cands := [];
      for i := 0 to |mine|
        invariant cands == Candidates(rec, want, mine[..i])
      {
        assert mine[..i + 1][..i] == mine[..i];
        if mine[i] in rec && !rec[mine[i]].reaped && (want <= 0 || mine[i] == want) {
          cands := cands + [mine[i]];
        }
      }
      assert mine[..|mine|] == mine;
    }

    /** The first candidate whose channel is closed. */
    method FirstDone(cands: seq<Pid>) returns (k: nat)
      ensures k <= |cands|
      ensures forall i :: 0 <= i < k ==> !IsDone(rec, cands[i])
      ensures k < |cands| ==> IsDone(rec, cands[k])
    {
      k := 0;
      while k < |cands| && !IsDone(rec, cands[k])
        invariant k <= |cands|
        invariant forall i :: 0 <= i < k ==> !IsDone(rec, cands[i])
      {
        k := k + 1;
      }
    }

    method MarkReaped(c: Pid) returns (status: nat)
      requires c in rec
      modifies `rec
      ensures rec == old(rec)[c := old(rec)[c].(reaped := true)]
      ensures status == Status(old(rec)[c].code)
    {
      rec := rec[c := rec[c].(reaped := true)];
      status := rec[c].code % 0x100 * 0x100;
    }

    /** wait4 when no other process runs in between; None when it would block.  The
        status goes to the guest's memory, and a fault there is ignored. */
    method Wait4(p: Pid, want: int, nohang: bool, mem: Memory, wstatus: U64) returns (r: Option<WaitResult>)
      requires mem.Valid() && forall c :: c in Kids(kids, p) ==> c in rec
      modifies `rec, mem, mem.frames
      ensures (r, rec) == Wait4Alone(old(rec), Kids(kids, p), want, nohang)
      ensures mem.Valid() && mem.Written()
      ensures mem.flat ==
              if r.Some? && r.value.Reaped? && wstatus != 0
              then Store(old(mem.flat), wstatus, NatToLe(r.value.status, 4), AnyAccess).mem
              else old(mem.flat)
    {
      hide Store, NatToLe, mem.Valid;
      var cands := Snapshot(p, want);
      if cands == [] {
        NoneDone(rec, want, Kids(kids, p), 0);
        return Some(NoChild);
      }
      var k := FirstDone(cands);
      NoneDone(rec, want, Kids(kids, p), k);
      if k == |cands| {
        return if nohang then Some(NothingYet) else None;
      }
      var status := MarkReaped(cands[k]);
      if wstatus != 0 {
        var _ := mem.MemWrite(wstatus, NatToLe(status, 4));
      }
      r := Some(Reaped(cands[k], status));
    }
  }

  // ---- the methods are runs of one process alone ------------------------------

  /** The registry's fork is the process's two steps. */
  lemma ForkIsRun(w: World, p: Pid, hooked: bool)
    requires p in w.phase && w.phase[p].Running?
    ensures
      var c, run := w.last + 1, [AllocPid(p), Register(p, hooked)];
      && IsRun(w, run)
      && var v := After(w, run);
         && v.last == c
         && v.kids == (if hooked then w.kids[p := Kids(w.kids, p) + [c]] else w.kids)
         && v.rec == (if hooked then w.rec[c := Record(p, false, false, 0, false)] else w.rec)
         && v.log == (if hooked then w.log + [Forked(p, c)] else w.log)
  {
    var u := Next(w, AllocPid(p));
    RunCons(u, Register(p, hooked), []);
    RunCons(w, AllocPid(p), [Register(p, hooked)]);
    assert [Register(p, hooked)] + [] == [Register(p, hooked)];
    assert [AllocPid(p)] + [Register(p, hooked)] == [AllocPid(p), Register(p, hooked)];
  }

  function FirstDoneFrom(rec: map<Pid, Record>, cands: seq<Pid>, k: nat): (j: nat)
    requires k <= |cands|
    ensures k <= j <= |cands|
    ensures forall i :: k <= i < j ==> !IsDone(rec, cands[i])
    ensures j < |cands| ==> IsDone(rec, cands[j])
    decreases |cands| - k
  {
    if k < |cands| && !IsDone(rec, cands[k]) then FirstDoneFrom(rec, cands, k + 1) else k
  }

  /** Where a wait4 ends that runs from the world `w` on. */
  ghost predicate WaitEnds(w: World, v: World, p: Pid, want: int, nohang: bool, r: Option<WaitResult>,
                           rec: map<Pid, Record>)
  {
    && v.rec == rec && v.kids == w.kids && v.last == w.last && p in v.phase
    && (r.Some? ==> v.phase[p].Running? && v.log != [] && v.log[|v.log| - 1] == Waited(p, want, nohang, r.value))
    && (r.None? ==> v.phase[p].Blocked?)
    && (forall q :: q != p ==> (q in v.phase <==> q in w.phase))
    && (forall q :: q != p && q in w.phase ==> v.phase[q] == w.phase[q])
  }

  lemma RunCons(w: World, l: Label, run: seq<Label>)
    requires Enabled(w, l) && IsRun(Next(w, l), run)
    ensures IsRun(w, [l] + run) && After(w, [l] + run) == After(Next(w, l), run)
  {
    assert ([l] + run)[1..] == run;
  }

  lemma {:induction false} PollRun(w: World, p: Pid) returns (run: seq<Label>)
    requires p in w.phase && w.phase[p].Polling? && w.phase[p].k <= |w.phase[p].cands|
    requires forall c :: c in w.phase[p].cands ==> c in w.rec
    ensures IsRun(w, run) && forall l :: l in run ==> l.pid == p
    ensures
      var x := w.phase[p];
      var j := FirstDoneFrom(w.rec, x.cands, x.k);
      if j == |x.cands| then
        WaitEnds(w, After(w, run), p, x.want, x.nohang, if x.nohang then Some(NothingYet) else None, w.rec)
      else
        var c := x.cands[j];
        WaitEnds(w, After(w, run), p, x.want, x.nohang, Some(Reaped(c, Status(w.rec[c].code))),
                 w.rec[c := w.rec[c].(reaped := true)])
    decreases |w.phase[p].cands| - w.phase[p].k
  {
    var x, v := w.phase[p], Next(w, Poll(p));
    if x.k < |x.cands| && !w.rec[x.cands[x.k]].done {
      run := PollRun(v, p);
    } else if x.k < |x.cands| {
      run := [Reap(p)];
      RunCons(v, Reap(p), []);
      assert [Reap(p)] + [] == run;
    } else {
      run := [];
    }
    RunCons(w, Poll(p), run);
    run := [Poll(p)] + run;
  }

  /** The registry's wait4 is a run of p's steps: it ends with the method's result
      in the log and the method's records, or blocked when the method is. */
  lemma Wait4IsRun(w: World, p: Pid, want: int, nohang: bool) returns (run: seq<Label>)
    requires Inv(w) && p in w.phase && w.phase[p].Running?
    ensures IsRun(w, run) && forall l :: l in run ==> l.pid == p
    ensures
      var (r, rec) := Wait4Alone(w.rec, Kids(w.kids, p), want, nohang);
      WaitEnds(w, After(w, run), p, want, nohang, r, rec)
  {
    hide LogOk, LogKnown, RecordOk, PhaseOk;
    assert PidOk(w, p);
    hide Inv, PidOk, Next, WaitEnds, After, IsRun, DoneOnly;
    var kids := Kids(w.kids, p);
    var cands := Candidates(w.rec, want, kids);
    var v := StartWaitStep(w, p, want, nohang);
    StartsWait(w, p, want, nohang);
    if cands != [] {
      run := PollRun(v, p);
      NoneDone(w.rec, want, kids, FirstDoneFrom(w.rec, cands, 0));
      var (r, rec) := Wait4Alone(w.rec, kids, want, nohang);
      StartsEnds(w, v, After(v, run), p, want, nohang, r, rec);
    } else {
      run := [];
      NothingRun(v);
    }
    RunCons(w, StartWait(p, want, nohang), run);
    run := [StartWait(p, want, nohang)] + run;
  }

  lemma StartsWait(w: World, p: Pid, want: int, nohang: bool)
    requires p in w.phase && w.phase[p].Running?
    ensures Enabled(w, StartWait(p, want, nohang))
    ensures
      var cands, v := Candidates(w.rec, want, Kids(w.kids, p)), StartWaitStep(w, p, want, nohang);
      && Next(w, StartWait(p, want, nohang)) == v
      && if cands == [] then WaitEnds(w, v, p, want, nohang, Some(NoChild), w.rec)
         else v == Goto(w, p, Polling(want, cands, 0, nohang))
  {
  }

  lemma NothingRun(w: World)
    ensures IsRun(w, []) && After(w, []) == w
  {
  }

  lemma StartsEnds(w: World, v: World, u: World, p: Pid, want: int, nohang: bool, r: Option<WaitResult>,
                   rec: map<Pid, Record>)
    requires p in v.phase && v == Goto(w, p, v.phase[p]) && WaitEnds(v, u, p, want, nohang, r, rec)
    ensures WaitEnds(w, u, p, want, nohang, r, rec)
  {
  }

  predicate IsDone(rec: map<Pid, Record>, c: Pid) {
    c in rec && rec[c].done
  }

  /** The children whose channel is closed. */
  function DoneOnly(rec: map<Pid, Record>, kids: seq<Pid>): (d: seq<Pid>)
    ensures forall x :: x in d <==> x in kids && IsDone(rec, x)
    decreases |kids|
  {
    if kids == [] then []
    else
      var front, c := DoneOnly(rec, kids[..|kids| - 1]), kids[|kids| - 1];
      if IsDone(rec, c) then front + [c] else front
  }

  lemma CandidatesAppend(rec: map<Pid, Record>, want: int, kids: seq<Pid>, c: Pid)
    ensures Candidates(rec, want, kids + [c]) == Candidates(rec, want, kids) + if Candidate(rec, want, c) then [c] else []
  {
    assert (kids + [c])[..|kids|] == kids;
  }

  /** The first done candidate is the first candidate among the done children. */
  lemma {:induction false} NoneDone(rec: map<Pid, Record>, want: int, kids: seq<Pid>, k: nat)
    requires
      var cands := Candidates(rec, want, kids);
      && k <= |cands|
      && (forall i :: 0 <= i < k ==> !IsDone(rec, cands[i]))
      && (k < |cands| ==> IsDone(rec, cands[k]))
    ensures
      var cands, ready := Candidates(rec, want, kids), Candidates(rec, want, DoneOnly(rec, kids));
      && (k == |cands| ==> ready == [])
      && (k < |cands| ==> ready != [] && ready[0] == cands[k])
    decreases |kids|
  {
    if kids != [] {
      var front, c := kids[..|kids| - 1], kids[|kids| - 1];
      var cands := Candidates(rec, want, front);
      assert Candidates(rec, want, kids) == cands + if Candidate(rec, want, c) then [c] else [];
      assert forall i :: 0 <= i < |cands| ==> Candidates(rec, want, kids)[i] == cands[i];
      NoneDone(rec, want, front, if k <= |cands| then k else |cands|);
      if IsDone(rec, c) {
        CandidatesAppend(rec, want, DoneOnly(rec, front), c);
      }
    }
  }
}
