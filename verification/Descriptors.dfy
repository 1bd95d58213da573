/** File descriptor tables of forked processes (internal/fds/fds.go) as a state
    machine.  Every process runs on its own goroutine and owns its table, but all
    tables share one reference-count map behind a lock.  A table operation is
    therefore not atomic: an entry is deleted, then the count is decremented under
    the lock, then the file is closed outside it, and other processes may run
    between any two of these steps. */
module Descriptors {
  import opened Words

  type Pid = nat

  type File = nat

  /** A descriptor number: a Go int. */
  type Fd = x: int | -0x8000_0000_0000_0000 <= x < 0x8000_0000_0000_0000 witness 0

  const MAX_FD: Fd := 0x7fff_ffff_ffff_ffff

  /** fd + 1, wrapping around. */
  function Succ(fd: Fd): Fd {
    if fd == MAX_FD then -0x8000_0000_0000_0000 else fd + 1
  }

  /** A table entry: whose table, which descriptor. */
  datatype Key = Key(pid: Pid, fd: Fd)

  /** Between two steps a process may still owe the shared map an increment for
      an entry it has just made, a decrement for one it has just deleted, or the
      file a Close.  An increment for a duplicate remembers the entry copied. */
  datatype Phase =
    | Ready
    | OwesIncr(key: Key, file: File, from: Option<Key>)
    | OwesDecr(file: File)
    | OwesClose(file: File)

  datatype Copy = Copy(to: Key, from: Key)

  /** What a process still has to do in its current operation: descriptors to
      close, then entries to copy, then the child to start. */
  datatype Process = Process(phase: Phase, closing: seq<Fd>, copies: seq<Copy>, spawn: Option<Pid>)

  const IDLE := Process(Ready, [], [], None)

  /** `born` are the files that have been put into a table, `closed` how often each
      was closed, and `lost` how many counted entries naming it were overwritten. */
  datatype World = World(
    entries: map<Key, File>,
    next: map<Pid, Fd>,
    procs: map<Pid, Process>,
    embryos: map<Pid, Pid>,
    counts: map<File, int>,
    born: set<File>,
    closed: map<File, nat>,
    lost: map<File, nat>)

  datatype Label =
    | Open(pid: Pid, file: File)
    | Close(pid: Pid, fd: Fd)
    | CloseMany(pid: Pid, fds: seq<Fd>)
    | Dup(pid: Pid, oldfd: Fd)
    | Dup2(pid: Pid, oldfd: Fd, newfd: Fd)
    | Fork(pid: Pid, child: Pid, fds: seq<Fd>)
    | Tick(pid: Pid)

  // ---- the shared map --------------------------------------------------------

  function Count(counts: map<File, int>, f: File): int {
    if f in counts then counts[f] else 0
  }

  function Incremented(counts: map<File, int>, f: File): map<File, int> {
    counts[f := Count(counts, f) + 1]
  }

  /** The locked half of decrAndMaybeClose: the new map, and whether that was the
      last reference. */
  function Decremented(counts: map<File, int>, f: File): (map<File, int>, bool) {
    var c := Count(counts, f) - 1;
    if c <= 0 then (counts - {f}, true) else (counts[f := c], false)
  }

  function Closes(w: World, f: File): nat {
    if f in w.closed then w.closed[f] else 0
  }

  function Lost(w: World, f: File): nat {
    if f in w.lost then w.lost[f] else 0
  }

  // ---- starting an operation -------------------------------------------------

  /** What Dup2 does to the next number. */
  function Raised(next: Fd, newfd: Fd): Fd {
    if Succ(newfd) > next then Succ(newfd) else next
  }

  function Begin(w: World, p: Pid, x: Process): World {
    w.(procs := w.procs[p := x])
  }

  predicate Idle(w: World, p: Pid) {
    p in w.procs && w.procs[p] == IDLE && p in w.next && p !in w.embryos
  }

  /** `fds` lists the descriptors of p's table, each once, in any order. */
  ghost predicate Lists(w: World, p: Pid, fds: seq<Fd>) {
    && (forall i, j :: 0 <= i < j < |fds| ==> fds[i] != fds[j])
    && (forall fd: Fd :: Key(p, fd) in w.entries <==> fd in fds)
  }

  ghost predicate Enabled(w: World, l: Label) {
    match l
    case Open(p, f) => Idle(w, p) && f !in w.born
    case Close(p, _) => Idle(w, p)
    case CloseMany(p, _) => Idle(w, p)
    case Dup(p, oldfd) => Idle(w, p) && Key(p, oldfd) in w.entries
    case Dup2(p, oldfd, _) => Idle(w, p) && Key(p, oldfd) in w.entries
    case Fork(p, c, fds) =>
      && Idle(w, p) && Lists(w, p, fds)
      && c !in w.procs && c !in w.next && c !in w.embryos
      && forall k :: k in w.entries ==> k.pid != c
    case Tick(p) => p in w.procs && w.procs[p] != IDLE
  }

  /** The copies Clone makes: every entry of p, under the child's name. */
  function CloneCopies(p: Pid, c: Pid, fds: seq<Fd>): (r: seq<Copy>)
    ensures |r| == |fds|
    ensures forall i :: 0 <= i < |fds| ==> r[i] == Copy(Key(c, fds[i]), Key(p, fds[i]))
  {
    seq<Copy>(|fds|, i requires 0 <= i < |fds| => Copy(Key(c, fds[i]), Key(p, fds[i])))
  }

  /** Alloc up to the locked increment.  The next number is not checked: an entry
      that it already has is overwritten, and its reference never dropped. */
  function Allocate(w: World, p: Pid, f: File, from: Option<Key>): World
    requires p in w.next
  {
    var k := Key(p, w.next[p]);
    Begin(w, p, Process(OwesIncr(k, f, from), [], [], None))
      .(entries := w.entries[k := f], next := w.next[p := Succ(w.next[p])], born := w.born + {f},
        lost := if k in w.entries then w.lost[w.entries[k] := Lost(w, w.entries[k]) + 1] else w.lost)
  }

  ghost function Next(w: World, l: Label): World
    requires Enabled(w, l)
  {
    match l
    case Open(p, f) => Allocate(w, p, f, None)
    case Close(p, fd) => Begin(w, p, Process(Ready, [fd], [], None))
    case CloseMany(p, fds) => Begin(w, p, Process(Ready, fds, [], None))
    case Dup(p, oldfd) => Allocate(w, p, w.entries[Key(p, oldfd)], Some(Key(p, oldfd)))
    case Dup2(p, oldfd, newfd) =>
      Begin(w, p, if oldfd == newfd then IDLE
                  else Process(Ready, if Key(p, newfd) in w.entries then [newfd] else [],
                               [Copy(Key(p, newfd), Key(p, oldfd))], None))
        .(next := w.next[p := Raised(w.next[p], newfd)])
    case Fork(p, c, fds) =>
      Begin(w, p, Process(Ready, [], CloneCopies(p, c, fds), Some(c)))
        .(next := w.next[c := w.next[p]], embryos := w.embryos[c := p])
    case Tick(p) => Advance(w, p, w.procs[p])
  }

  // ---- one atomic step -------------------------------------------------------

  function IncrStep(w: World, p: Pid, x: Process): (v: World)
    requires x.phase.OwesIncr?
    ensures v.next == w.next && v.lost == w.lost
  {
    Begin(w, p, x.(phase := Ready)).(counts := Incremented(w.counts, x.phase.file))
  }

  function DecrStep(w: World, p: Pid, x: Process): (v: World)
    requires x.phase.OwesDecr?
    ensures v.next == w.next && v.lost == w.lost
  {
    var f := x.phase.file;
    var (counts, last) := Decremented(w.counts, f);
    Begin(w, p, x.(phase := if last then OwesClose(f) else Ready)).(counts := counts)
  }

  function CloseStep(w: World, p: Pid, x: Process): (v: World)
    requires x.phase.OwesClose?
    ensures v.next == w.next && v.lost == w.lost
  {
    var f := x.phase.file;
    Begin(w, p, x.(phase := Ready)).(closed := w.closed[f := Closes(w, f) + 1])
  }

  /** Table.Close begins: a descriptor that is not open is passed over. */
  function DeleteStep(w: World, p: Pid, x: Process): (v: World)
    requires x.phase.Ready? && x.closing != []
    ensures v.next == w.next && v.lost == w.lost
  {
    var k := Key(p, x.closing[0]);
    if k in w.entries
    then Begin(w, p, x.(phase := OwesDecr(w.entries[k]), closing := x.closing[1..])).(entries := w.entries - {k})
    else Begin(w, p, x.(closing := x.closing[1..]))
  }

  function CopyStep(w: World, p: Pid, x: Process): (v: World)
    requires x.phase.Ready? && x.copies != []
    ensures v.next == w.next && v.lost == w.lost
  {
    var c := x.copies[0];
    if c.from in w.entries
    then
      var f := w.entries[c.from];
      Begin(w, p, x.(phase := OwesIncr(c.to, f, Some(c.from)), copies := x.copies[1..])).(entries := w.entries[c.to := f])
    else Begin(w, p, x.(copies := x.copies[1..]))
  }

  /** The operation is over; a forked child starts to run. */
  function FinishStep(w: World, p: Pid, x: Process): (v: World)
    ensures v.next == w.next && v.lost == w.lost
  {
    match x.spawn
    case None => Begin(w, p, IDLE)
    case Some(c) => w.(procs := w.procs[p := IDLE][c := IDLE], embryos := w.embryos - {c})
  }

  function Advance(w: World, p: Pid, x: Process): (v: World)
    ensures v.next == w.next && v.lost == w.lost
  {
    match x.phase
    case OwesIncr(_, _, _) => IncrStep(w, p, x)
    case OwesDecr(_) => DecrStep(w, p, x)
    case OwesClose(_) => CloseStep(w, p, x)
    case Ready =>
      if x.closing != [] then DeleteStep(w, p, x)
      else if x.copies != [] then CopyStep(w, p, x)
      else FinishStep(w, p, x)
  }

  // ---- runs ------------------------------------------------------------------

  /** Any interleaving: a sequence of operations started and steps taken. */
  ghost predicate IsRun(w: World, run: seq<Label>)
    decreases |run|
  {
    run == [] || (Enabled(w, run[0]) && IsRun(Next(w, run[0]), run[1..]))
  }

  ghost function After(w: World, run: seq<Label>): World
    requires IsRun(w, run)
    decreases |run|
  {
    if run == [] then w else After(Next(w, run[0]), run[1..])
  }

  /** NewTable: one process with descriptors 0, 1 and 2 open on distinct files. */
  function Start(p: Pid): World {
    World(map[Key(p, 0) := 0, Key(p, 1) := 1, Key(p, 2) := 2], map[p := 3], map[p := IDLE], map[],
          map[0 := 1, 1 := 1, 2 := 1], {0, 1, 2}, map[], map[])
  }

  // ---- what the counts mean --------------------------------------------------

  /** The entries naming a file, in all tables. */
  ghost function Named(w: World, f: File): set<Key> {
    set k | k in w.entries && w.entries[k] == f
  }

  /** The entries made but not yet counted. */
  ghost predicate Uncounted(w: World, k: Key) {
    exists p :: p in w.procs && w.procs[p].phase.OwesIncr? && w.procs[p].phase.key == k
  }

  ghost function Counted(w: World, f: File): set<Key> {
    set k | k in w.entries && w.entries[k] == f && !Uncounted(w, k)
  }

  ghost function OwingIncr(w: World, f: File): set<Pid> {
    set p | p in w.procs && w.procs[p].phase.OwesIncr? && w.procs[p].phase.file == f
  }

  ghost function OwingDecr(w: World, f: File): set<Pid> {
    set p | p in w.procs && w.procs[p].phase == OwesDecr(f)
  }

  ghost function OwingClose(w: World, f: File): set<Pid> {
    set p | p in w.procs && w.procs[p].phase == OwesClose(f)
  }

  /** The file can still be reached, or its last reference is still to be dropped,
      or never will be. */
  ghost predicate Alive(w: World, f: File) {
    Named(w, f) != {} || OwingDecr(w, f) != {} || Lost(w, f) > 0
  }

  /** Counts follow the entries, and exactly the dead files have been closed or
      are about to be, once. */
  ghost predicate FileOk(w: World, f: File) {
    && Count(w.counts, f) == |Counted(w, f)| + |OwingDecr(w, f)| + Lost(w, f)
    && (f in w.born ==> Closes(w, f) + |OwingClose(w, f)| == if Alive(w, f) then 0 else 1)
    && (f !in w.born ==> !Alive(w, f) && Closes(w, f) == 0 && OwingClose(w, f) == {})
  }

  function Owner(w: World, pid: Pid): Pid {
    if pid in w.embryos then w.embryos[pid] else pid
  }

  /** The entry that key was copied from is still there. */
  ghost predicate Copied(w: World, p: Pid, key: Key, f: File, from: Key) {
    from.pid == p && from != key && from in w.entries && w.entries[from] == f
  }

  ghost predicate PhaseOk(w: World, p: Pid, x: Process) {
    x.phase.OwesIncr? ==>
      var key, f, from := x.phase.key, x.phase.file, x.phase.from;
      && key in w.entries && w.entries[key] == f && Owner(w, key.pid) == p && x.closing == []
      && (from.Some? ==> Copied(w, p, key, f, from.value) || Lost(w, f) > 0)
      && (from.None? ==> Named(w, f) == {key} && Count(w.counts, f) == 0)
  }

  ghost predicate CopyOk(w: World, p: Pid, x: Process, c: Copy) {
    && c.from.pid == p && c.from in w.entries && c.from.fd !in x.closing
    && Owner(w, c.to.pid) == p && c.to.pid in w.next
    && (c.to in w.entries ==> c.to.pid == p && c.to.fd in x.closing)
    && (forall d :: d in x.copies ==> c.to != d.from)
  }

  ghost predicate PlanOk(w: World, p: Pid, x: Process) {
    && PhaseOk(w, p, x)
    && (forall c :: c in x.copies ==> CopyOk(w, p, x, c))
    && (forall i, j :: 0 <= i < j < |x.copies| ==> x.copies[i].to != x.copies[j].to)
    && (x.spawn.Some? ==> x.spawn.value in w.embryos && w.embryos[x.spawn.value] == p)
  }

  /** Every table belongs to one process: its own, or the parent still building it. */
  ghost predicate TablesOk(w: World) {
    && (forall p :: p in w.procs ==> p in w.next && p !in w.embryos)
    && (forall c :: c in w.embryos ==> c in w.next && w.embryos[c] in w.procs && w.procs[w.embryos[c]].spawn == Some(c))
    && (forall k :: k in w.entries ==> k.pid in w.next && Owner(w, k.pid) in w.procs)
  }

  ghost predicate Inv(w: World) {
    && TablesOk(w)
    && (forall p :: p in w.procs ==> PlanOk(w, p, w.procs[p]))
    && (forall f: File :: FileOk(w, f))
  }

  // ---- the invariant holds over every run ------------------------------------

  lemma StartInv(p: Pid)
    ensures Inv(Start(p))
  {
    var w := Start(p);
    forall f: File
      ensures FileOk(w, f)
    {
      assert OwingDecr(w, f) == {} && OwingClose(w, f) == {};
      if f < 3 {
        assert Counted(w, f) == {Key(p, f)} == Named(w, f);
      } else {
        assert Counted(w, f) == {} == Named(w, f);
      }
    }
  }

  /** A pending entry has one process pending on it. */
  lemma OnePending(w: World, p: Pid, q: Pid)
    requires forall p :: p in w.procs ==> PlanOk(w, p, w.procs[p])
    requires p in w.procs && q in w.procs && w.procs[p].phase.OwesIncr? && w.procs[q].phase.OwesIncr?
    requires w.procs[p].phase.key == w.procs[q].phase.key
    ensures p == q
  {
    assert PlanOk(w, p, w.procs[p]) && PlanOk(w, q, w.procs[q]);
  }

  predicate Concerns(x: Phase, f: File) {
    !x.Ready? && x.file == f
  }

  /** A step of p that does not concern f leaves f's bookkeeping in order. */
  lemma OtherFile(w: World, v: World, p: Pid, f: File)
    requires FileOk(w, f)
    requires p in w.procs && PhaseOk(w, p, w.procs[p]) && p in v.procs && PhaseOk(v, p, v.procs[p])
    requires forall q :: q in v.procs <==> q in w.procs || (q in v.procs && v.procs[q].phase == Ready)
    requires forall q :: q in w.procs && q != p ==> v.procs[q].phase == w.procs[q].phase
    requires !Concerns(w.procs[p].phase, f) && !Concerns(v.procs[p].phase, f)
    requires forall k :: k in Named(w, f) <==> k in Named(v, f)
    requires Count(v.counts, f) == Count(w.counts, f) && Closes(v, f) == Closes(w, f) && Lost(v, f) == Lost(w, f)
    requires f in v.born <==> f in w.born
    ensures FileOk(v, f)
  {
    assert Named(v, f) == Named(w, f);
    forall q
      ensures q in OwingDecr(v, f) <==> q in OwingDecr(w, f)
      ensures q in OwingClose(v, f) <==> q in OwingClose(w, f)
    {
      if q in w.procs && q != p {
        assert v.procs[q].phase == w.procs[q].phase;
      }
    }
    assert OwingDecr(v, f) == OwingDecr(w, f) && OwingClose(v, f) == OwingClose(w, f);
    forall k | k in Named(w, f)
      ensures Uncounted(v, k) <==> Uncounted(w, k)
    {
      SameUncounted(w, v, p, f, k);
      SameUncounted(v, w, p, f, k);
    }
    assert forall k :: k in Counted(v, f) <==> k in Named(v, f) && !Uncounted(v, k);
    assert forall k :: k in Counted(w, f) <==> k in Named(w, f) && !Uncounted(w, k);
    assert Counted(v, f) == Counted(w, f);
  }

  lemma SameUncounted(w: World, v: World, p: Pid, f: File, k: Key)
    requires p in w.procs && PhaseOk(w, p, w.procs[p]) && !Concerns(w.procs[p].phase, f)
    requires forall q :: q in w.procs && q != p && w.procs[q].phase != Ready ==>
               q in v.procs && v.procs[q].phase == w.procs[q].phase
    requires k in Named(w, f)
    ensures Uncounted(w, k) ==> Uncounted(v, k)
  {
    if Uncounted(w, k) {
      var q :| q in w.procs && w.procs[q].phase.OwesIncr? && w.procs[q].phase.key == k;
      assert q != p;
      assert v.procs[q].phase == w.procs[q].phase;
    }
  }

  /** What q relies on when p takes a step. */
  lemma OtherPlan(w: World, v: World, q: Pid, x: Process)
    requires PlanOk(w, q, x) && q !in w.embryos
    requires forall pid :: Owner(w, pid) == q ==> Owner(v, pid) == q
    requires forall k: Key :: Owner(w, k.pid) == q ==> (k in v.entries <==> k in w.entries)
    requires forall k: Key :: Owner(w, k.pid) == q && k in w.entries ==> v.entries[k] == w.entries[k]
    requires forall pid :: pid in w.next ==> pid in v.next
    requires forall f :: Lost(v, f) >= Lost(w, f)
    requires forall c :: c in w.embryos && w.embryos[c] == q ==> c in v.embryos && v.embryos[c] == q
    requires x.phase.OwesIncr? && x.phase.from.None? ==>
               Named(v, x.phase.file) == Named(w, x.phase.file) &&
               Count(v.counts, x.phase.file) == Count(w.counts, x.phase.file)
    ensures PlanOk(v, q, x)
  {
    hide Named, Count;
    assert Owner(w, q) == q;
    forall c | c in x.copies
      ensures CopyOk(v, q, x, c)
    {
      assert CopyOk(w, q, x, c);
    }
  }

  /** A file that p's step concerns is not one another process has just opened. */
  lemma NotFresh(w: World, p: Pid, q: Pid, f: File)
    requires Inv(w) && p in w.procs && q in w.procs && p != q
    requires Concerns(w.procs[p].phase, f) || exists k :: k in Named(w, f) && Owner(w, k.pid) == p
    requires w.procs[q].phase.OwesIncr? && w.procs[q].phase.from.None?
    ensures w.procs[q].phase.file != f || w.procs[p].phase.OwesClose?
  {
    hide CopyOk, FileOk, Counted, OwingDecr, OwingClose;
    assert PlanOk(w, p, w.procs[p]) && PlanOk(w, q, w.procs[q]);
    if w.procs[q].phase.file == f {
      FreshFile(w, q);
      InOwing(w, p, f);
    }
  }

  /** A file just opened has one entry and nothing owed to it. */
  lemma FreshFile(w: World, q: Pid)
    requires Inv(w) && q in w.procs && w.procs[q].phase.OwesIncr? && w.procs[q].phase.from.None?
    ensures Named(w, w.procs[q].phase.file) == {w.procs[q].phase.key}
    ensures OwingDecr(w, w.procs[q].phase.file) == {}
  {
    hide CopyOk, TablesOk, Named, Counted, OwingDecr, OwingClose;
    assert PlanOk(w, q, w.procs[q]) && FileOk(w, w.procs[q].phase.file);
  }

  lemma InOwing(w: World, p: Pid, f: File)
    requires p in w.procs
    ensures w.procs[p].phase == OwesDecr(f) ==> p in OwingDecr(w, f)
    ensures w.procs[p].phase.OwesIncr? && w.procs[p].phase.key in w.entries && w.entries[w.procs[p].phase.key] == f
            ==> w.procs[p].phase.key in Named(w, f)
  {
  }

  // The touched file, step by step.

  /** Which processes owe what after p's own record changed. */
  lemma OwingAfter(w: World, v: World, p: Pid, y: Process, f: File)
    requires p in w.procs && v.procs == w.procs[p := y]
    ensures OwingDecr(v, f) == if y.phase == OwesDecr(f) then OwingDecr(w, f) + {p} else OwingDecr(w, f) - {p}
    ensures OwingClose(v, f) == if y.phase == OwesClose(f) then OwingClose(w, f) + {p} else OwingClose(w, f) - {p}
    ensures p in OwingDecr(w, f) <==> w.procs[p].phase == OwesDecr(f)
    ensures p in OwingClose(w, f) <==> w.procs[p].phase == OwesClose(f)
  {
    assert forall q :: q in OwingDecr(v, f) <==> if q == p then y.phase == OwesDecr(f) else q in OwingDecr(w, f);
    assert forall q :: q in OwingClose(v, f) <==> if q == p then y.phase == OwesClose(f) else q in OwingClose(w, f);
  }

  /** Which entries are still to be counted then. */
  lemma UncountedAfter(w: World, v: World, p: Pid, y: Process, k: Key)
    requires p in w.procs && v.procs == w.procs[p := y]
    requires forall q :: q in w.procs ==> PlanOk(w, q, w.procs[q])
    ensures
      var was := w.procs[p].phase.OwesIncr? && w.procs[p].phase.key == k;
      var now := y.phase.OwesIncr? && y.phase.key == k;
      Uncounted(v, k) <==> now || (Uncounted(w, k) && !was)
  {
    hide PlanOk;
    if Uncounted(w, k) {
      var q :| q in w.procs && w.procs[q].phase.OwesIncr? && w.procs[q].phase.key == k;
      if q != p {
        assert v.procs[q].phase == w.procs[q].phase;
        if w.procs[p].phase.OwesIncr? && w.procs[p].phase.key == k {
          OnePending(w, p, q);
        }
      }
    }
    if y.phase.OwesIncr? && y.phase.key == k {
      assert v.procs[p].phase == y.phase;
    }
    if Uncounted(v, k) {
      var q :| q in v.procs && v.procs[q].phase.OwesIncr? && v.procs[q].phase.key == k;
      if q != p {
        assert w.procs[q].phase == v.procs[q].phase;
        if w.procs[p].phase.OwesIncr? && w.procs[p].phase.key == k {
          OnePending(w, p, q);
        }
      }
    }
  }

  /** The entry whose increment is made becomes a counted one. */
  lemma CountedAfterIncr(w: World, p: Pid)
    requires Inv(w) && p in w.procs && w.procs[p].phase.OwesIncr?
    ensures
      var key, f := w.procs[p].phase.key, w.procs[p].phase.file;
      && key in Named(w, f) && key !in Counted(w, f)
      && Counted(IncrStep(w, p, w.procs[p]), f) == Counted(w, f) + {key}
  {
    hide CopyOk, TablesOk, Uncounted, FileOk;
    var x := w.procs[p];
    var v, f, key := IncrStep(w, p, x), x.phase.file, x.phase.key;
    assert PlanOk(w, p, x);
    hide PlanOk;
    UncountedIs(w, p);
    forall k | k in w.entries
      ensures Uncounted(v, k) <==> Uncounted(w, k) && k != key
    {
      UncountedAfter(w, v, p, x.(phase := Ready), k);
    }
  }

  lemma IncrFile(w: World, p: Pid)
    requires Inv(w) && p in w.procs && w.procs[p].phase.OwesIncr?
    ensures FileOk(IncrStep(w, p, w.procs[p]), w.procs[p].phase.file)
  {
    hide Inv, OwingDecr, OwingClose, Counted, Named;
    var x := w.procs[p];
    var v, f := IncrStep(w, p, x), x.phase.file;
    OfFile(w, f);
    OwingAfter(w, v, p, v.procs[p], f);
    SameNamed(w, v, f);
    CountedAfterIncr(w, p);
  }

  lemma UncountedIs(w: World, p: Pid)
    requires p in w.procs && w.procs[p].phase.OwesIncr?
    ensures Uncounted(w, w.procs[p].phase.key)
  {
  }

  /** When the last counted reference goes, no table names the file any more:
      an entry still to be counted was copied from one that is counted. */
  lemma LastReference(w: World, p: Pid, f: File)
    requires Inv(w) && p in w.procs && w.procs[p].phase == OwesDecr(f)
    ensures Count(w.counts, f) >= 1
    ensures Count(w.counts, f) == 1 ==> OwingDecr(w, f) == {p} && Named(w, f) == {}
    ensures Count(w.counts, f) == 1 ==> Lost(w, f) == 0
    ensures Count(w.counts, f) > 1 ==> Counted(w, f) != {} || OwingDecr(w, f) - {p} != {} || Lost(w, f) > 0
  {
    hide CopyOk, TablesOk, PlanOk, Uncounted;
    assert FileOk(w, f);
    assert p in OwingDecr(w, f);
    assert |OwingDecr(w, f) - {p}| == |OwingDecr(w, f)| - 1;
    if Count(w.counts, f) == 1 {
      assert OwingDecr(w, f) - {p} == {} && Counted(w, f) == {};
      forall k | k in w.entries
        ensures w.entries[k] != f
      {
        if w.entries[k] == f {
          NamedHasCounted(w, p, k);
        }
      }
    }
  }

  /** While a decrement is owed, a file with an entry has a counted entry: what a
      pending increment is for was copied from one. */
  lemma NamedHasCounted(w: World, p: Pid, k: Key)
    requires Inv(w) && k in w.entries && p in w.procs && w.procs[p].phase == OwesDecr(w.entries[k])
    requires Lost(w, w.entries[k]) == 0
    ensures Counted(w, w.entries[k]) != {}
  {
    hide CopyOk, TablesOk, FileOk, OwingDecr, OwingClose;
    if Uncounted(w, k) {
      var q :| q in w.procs && w.procs[q].phase.OwesIncr? && w.procs[q].phase.key == k;
      assert PlanOk(w, q, w.procs[q]);
      if w.procs[q].phase.from.None? {
        FreshFile(w, q);
        InOwing(w, p, w.entries[k]);
      } else {
        OriginCounted(w, q);
        assert w.procs[q].phase.from.value in Counted(w, w.entries[k]);
      }
    } else {
      assert k in Counted(w, w.entries[k]);
    }
  }

  lemma PendingOwner(w: World, k: Key) returns (q: Pid)
    requires Inv(w) && Uncounted(w, k)
    ensures q in w.procs && w.procs[q].phase.OwesIncr? && w.procs[q].phase.key == k && Owner(w, k.pid) == q
  {
    hide CopyOk, TablesOk, FileOk;
    q :| q in w.procs && w.procs[q].phase.OwesIncr? && w.procs[q].phase.key == k;
    assert PlanOk(w, q, w.procs[q]);
  }

  lemma OriginCounted(w: World, q: Pid)
    requires Inv(w) && q in w.procs && w.procs[q].phase.OwesIncr? && w.procs[q].phase.from.Some?
    requires Lost(w, w.procs[q].phase.file) == 0
    ensures !Uncounted(w, w.procs[q].phase.from.value)
  {
    hide CopyOk, FileOk, Uncounted;
    SelfOwned(w, q);
    assert PlanOk(w, q, w.procs[q]);
    if Uncounted(w, w.procs[q].phase.from.value) {
      var r := PendingOwner(w, w.procs[q].phase.from.value);
    }
  }

  lemma SelfOwned(w: World, p: Pid)
    requires TablesOk(w) && p in w.procs
    ensures Owner(w, p) == p
  {
  }

  lemma DecrFile(w: World, p: Pid)
    requires Inv(w) && p in w.procs && w.procs[p].phase.OwesDecr?
    ensures FileOk(DecrStep(w, p, w.procs[p]), w.procs[p].phase.file)
  {
    hide Inv, PlanOk, TablesOk, OwingDecr, OwingClose, Counted, Named;
    var x := w.procs[p];
    var v, f := DecrStep(w, p, x), x.phase.file;
    OfFile(w, f);
    LastReference(w, p, f);
    OwingAfter(w, v, p, v.procs[p], f);
    SameNamed(w, v, f);
    CountedAfterDecr(w, p);
  }

  lemma CountedAfterDecr(w: World, p: Pid)
    requires Inv(w) && p in w.procs && w.procs[p].phase.OwesDecr?
    ensures
      var f := w.procs[p].phase.file;
      Counted(DecrStep(w, p, w.procs[p]), f) == Counted(w, f) <= Named(w, f)
  {
    hide FileOk, PlanOk, TablesOk, Uncounted, Count;
    var v, f := DecrStep(w, p, w.procs[p]), w.procs[p].phase.file;
    forall k | k in Named(w, f)
      ensures Uncounted(v, k) <==> Uncounted(w, k)
    {
      UncountedAfter(w, v, p, v.procs[p], k);
    }
  }

  lemma CloseFile(w: World, p: Pid)
    requires Inv(w) && p in w.procs && w.procs[p].phase.OwesClose?
    ensures FileOk(CloseStep(w, p, w.procs[p]), w.procs[p].phase.file)
  {
    hide PlanOk, TablesOk, OwingDecr, OwingClose, Uncounted;
    var x := w.procs[p];
    var v, f := CloseStep(w, p, x), x.phase.file;
    var y := x.(phase := Ready);
    assert FileOk(w, f);
    OwingAfter(w, v, p, y, f);
    assert Named(v, f) == Named(w, f);
    forall k
      ensures Uncounted(v, k) <==> Uncounted(w, k)
    {
      UncountedAfter(w, v, p, y, k);
    }
    assert Counted(v, f) == Counted(w, f);
  }

  /** A ready process has no uncounted entry in its table. */
  lemma NotPending(w: World, p: Pid, k: Key)
    requires Inv(w) && p in w.procs && !w.procs[p].phase.OwesIncr? && k.pid == p
    ensures !Uncounted(w, k)
  {
    hide PlanOk, FileOk, Uncounted;
    SelfOwned(w, p);
    if Uncounted(w, k) {
      var q := PendingOwner(w, k);
    }
  }

  lemma CountedAfterDelete(w: World, p: Pid)
    requires Inv(w) && p in w.procs && w.procs[p].phase.Ready? && w.procs[p].closing != []
    requires Key(p, w.procs[p].closing[0]) in w.entries
    ensures
      var k := Key(p, w.procs[p].closing[0]);
      var v, f := DeleteStep(w, p, w.procs[p]), w.entries[k];
      Counted(v, f) == Counted(w, f) - {k} && k in Counted(w, f) && k in Named(w, f)
  {
    hide FileOk, PlanOk, TablesOk, Uncounted;
    var k := Key(p, w.procs[p].closing[0]);
    var v, f := DeleteStep(w, p, w.procs[p]), w.entries[k];
    NotPending(w, p, k);
    forall i | i in Named(w, f)
      ensures Uncounted(v, i) <==> Uncounted(w, i)
    {
      UncountedAfter(w, v, p, v.procs[p], i);
    }
  }

  lemma DeleteFile(w: World, p: Pid)
    requires Inv(w) && p in w.procs && w.procs[p].phase.Ready? && w.procs[p].closing != []
    requires Key(p, w.procs[p].closing[0]) in w.entries
    ensures FileOk(DeleteStep(w, p, w.procs[p]), w.entries[Key(p, w.procs[p].closing[0])])
  {
    hide Inv, OwingDecr, OwingClose, Counted, Named;
    var x := w.procs[p];
    var v, f := DeleteStep(w, p, x), w.entries[Key(p, x.closing[0])];
    OfFile(w, f);
    OwingAfter(w, v, p, v.procs[p], f);
    CountedAfterDelete(w, p);
  }

  /** The new entry is not counted yet. */
  lemma CountedAfterCopy(w: World, p: Pid)
    requires Inv(w) && p in w.procs && w.procs[p].phase.Ready? && w.procs[p].closing == [] && w.procs[p].copies != []
    ensures
      var c := w.procs[p].copies[0];
      && c.from in w.entries
      && var v, f := CopyStep(w, p, w.procs[p]), w.entries[c.from];
         Counted(v, f) == Counted(w, f) && c.from in Named(w, f) && c.from in Named(v, f)
  {
    hide Uncounted, FileOk;
    var x := w.procs[p];
    CopyFirst(w, p);
    var c, v := x.copies[0], CopyStep(w, p, x);
    UncountedIs(v, p);
    forall k | k in w.entries
      ensures Uncounted(v, k) <==> Uncounted(w, k)
    {
      UncountedAfter(w, v, p, v.procs[p], k);
    }
  }

  lemma CopyFile(w: World, p: Pid)
    requires Inv(w) && p in w.procs && w.procs[p].phase.Ready? && w.procs[p].closing == [] && w.procs[p].copies != []
    ensures
      var c := w.procs[p].copies[0];
      c.from in w.entries && FileOk(CopyStep(w, p, w.procs[p]), w.entries[c.from])
  {
    hide Inv, PlanOk, TablesOk, OwingDecr, OwingClose, Counted, Named;
    CountedAfterCopy(w, p);
    var x := w.procs[p];
    var v, f := CopyStep(w, p, x), w.entries[x.copies[0].from];
    OfFile(w, f);
    OwingAfter(w, v, p, v.procs[p], f);
  }

  // Every step keeps the invariant.

  /** What the invariant says of one process. */
  lemma OfProcess(w: World, q: Pid)
    requires Inv(w) && q in w.procs
    ensures TablesOk(w) && PlanOk(w, q, w.procs[q]) && PhaseOk(w, q, w.procs[q])
    ensures q in w.next && q !in w.embryos && Owner(w, q) == q
  {
    hide FileOk, CopyOk;
    assert PlanOk(w, q, w.procs[q]);
  }

  lemma OfFile(w: World, f: File)
    requires Inv(w)
    ensures FileOk(w, f)
  {
  }

  /** v differs from w in p's record and in the shared maps only. */
  ghost predicate SharedStep(w: World, v: World, p: Pid) {
    && p in w.procs && p in v.procs && v.procs[p].spawn == w.procs[p].spawn
    && v == w.(procs := w.procs[p := v.procs[p]], counts := v.counts, closed := v.closed)
  }

  lemma SharedTables(w: World, v: World, p: Pid)
    requires TablesOk(w) && SharedStep(w, v, p)
    ensures TablesOk(v)
  {
  }

  lemma SharedOthers(w: World, v: World, p: Pid, q: Pid)
    requires Inv(w) && SharedStep(w, v, p) && q in w.procs && q != p
    requires w.procs[q].phase.OwesIncr? && w.procs[q].phase.from.None? ==>
               Count(v.counts, w.procs[q].phase.file) == Count(w.counts, w.procs[q].phase.file)
    ensures q in v.procs && PlanOk(v, q, v.procs[q])
  {
    hide Inv, FileOk, Named, PlanOk, TablesOk, Count;
    OfProcess(w, q);
    if w.procs[q].phase.OwesIncr? && w.procs[q].phase.from.None? {
      SameNamed(w, v, w.procs[q].phase.file);
    }
    OtherPlan(w, v, q, w.procs[q]);
  }

  lemma SharedFiles(w: World, v: World, p: Pid, f: File)
    requires Inv(w) && SharedStep(w, v, p) && PhaseOk(v, p, v.procs[p])
    requires !Concerns(w.procs[p].phase, f) && !Concerns(v.procs[p].phase, f)
    requires Count(v.counts, f) == Count(w.counts, f) && Closes(v, f) == Closes(w, f)
    ensures FileOk(v, f)
  {
    hide Inv, FileOk, Named, PlanOk, TablesOk, PhaseOk, Count, Closes, Concerns;
    OfProcess(w, p);
    OfFile(w, f);
    SameNamed(w, v, f);
    OtherFile(w, v, p, f);
  }

  /** A shared step keeps the invariant when it keeps what it touches. */
  lemma SharedKeeps(w: World, v: World, p: Pid)
    requires Inv(w) && SharedStep(w, v, p) && PlanOk(v, p, v.procs[p])
    requires forall q :: q in w.procs && q != p ==> q in v.procs && PlanOk(v, q, v.procs[q])
    requires forall f: File :: FileOk(v, f)
    ensures Inv(v)
  {
    hide FileOk, PlanOk, TablesOk;
    SharedTables(w, v, p);
  }

  lemma InNamed(w: World, k: Key)
    requires k in w.entries
    ensures k in Named(w, w.entries[k])
  {
  }

  lemma SameNamed(w: World, v: World, f: File)
    requires v.entries == w.entries
    ensures Named(v, f) == Named(w, f)
  {
  }

  lemma IncrShared(w: World, p: Pid)
    requires Inv(w) && p in w.procs && w.procs[p].phase.OwesIncr?
    ensures
      var v := IncrStep(w, p, w.procs[p]);
      SharedStep(w, v, p) && PlanOk(v, p, v.procs[p]) && PhaseOk(v, p, v.procs[p])
  {
    hide Inv, FileOk, TablesOk, Named, Count;
    OfProcess(w, p);
  }

  lemma IncrOthers(w: World, p: Pid, q: Pid)
    requires Inv(w) && p in w.procs && w.procs[p].phase.OwesIncr? && q in w.procs && q != p
    ensures var v := IncrStep(w, p, w.procs[p]); q in v.procs && PlanOk(v, q, v.procs[q])
  {
    hide Inv, FileOk, Named, PlanOk, CopyOk, TablesOk, PhaseOk;
    IncrShared(w, p);
    OfProcess(w, p);
    if w.procs[q].phase.OwesIncr? && w.procs[q].phase.from.None? {
      NotFresh(w, p, q, w.procs[p].phase.file);
    }
    SharedOthers(w, IncrStep(w, p, w.procs[p]), p, q);
  }

  lemma IncrFiles(w: World, p: Pid, f: File)
    requires Inv(w) && p in w.procs && w.procs[p].phase.OwesIncr?
    ensures FileOk(IncrStep(w, p, w.procs[p]), f)
  {
    hide Inv, FileOk, Named, PlanOk, CopyOk, TablesOk, PhaseOk;
    if f == w.procs[p].phase.file {
      IncrFile(w, p);
    } else {
      IncrShared(w, p);
      SharedFiles(w, IncrStep(w, p, w.procs[p]), p, f);
    }
  }

  lemma IncrKeeps(w: World, p: Pid)
    requires Inv(w) && p in w.procs && w.procs[p].phase.OwesIncr?
    ensures Inv(IncrStep(w, p, w.procs[p]))
  {
    hide Inv, IncrStep, FileOk, PlanOk, PhaseOk;
    var v := IncrStep(w, p, w.procs[p]);
    IncrShared(w, p);
    forall q | q in w.procs && q != p
      ensures q in v.procs && PlanOk(v, q, v.procs[q])
    {
      IncrOthers(w, p, q);
    }
    forall f: File
      ensures FileOk(v, f)
    {
      IncrFiles(w, p, f);
    }
    SharedKeeps(w, v, p);
  }

  lemma DecrShared(w: World, p: Pid)
    requires Inv(w) && p in w.procs && w.procs[p].phase.OwesDecr?
    ensures
      var v := DecrStep(w, p, w.procs[p]);
      SharedStep(w, v, p) && PlanOk(v, p, v.procs[p]) && PhaseOk(v, p, v.procs[p])
  {
    hide Inv, FileOk, TablesOk, Named, Count;
    OfProcess(w, p);
  }

  lemma DecrOthers(w: World, p: Pid, q: Pid)
    requires Inv(w) && p in w.procs && w.procs[p].phase.OwesDecr? && q in w.procs && q != p
    ensures var v := DecrStep(w, p, w.procs[p]); q in v.procs && PlanOk(v, q, v.procs[q])
  {
    hide Inv, FileOk, Named, PlanOk, CopyOk, TablesOk, PhaseOk;
    DecrShared(w, p);
    if w.procs[q].phase.OwesIncr? && w.procs[q].phase.from.None? {
      NotFresh(w, p, q, w.procs[p].phase.file);
    }
    SharedOthers(w, DecrStep(w, p, w.procs[p]), p, q);
  }

  lemma DecrFiles(w: World, p: Pid, f: File)
    requires Inv(w) && p in w.procs && w.procs[p].phase.OwesDecr?
    ensures FileOk(DecrStep(w, p, w.procs[p]), f)
  {
    hide Inv, FileOk, Named, PlanOk, CopyOk, TablesOk, PhaseOk;
    if f == w.procs[p].phase.file {
      DecrFile(w, p);
    } else {
      DecrShared(w, p);
      SharedFiles(w, DecrStep(w, p, w.procs[p]), p, f);
    }
  }

  lemma DecrKeeps(w: World, p: Pid)
    requires Inv(w) && p in w.procs && w.procs[p].phase.OwesDecr?
    ensures Inv(DecrStep(w, p, w.procs[p]))
  {
    hide Inv, DecrStep, FileOk, PlanOk, PhaseOk;
    var v := DecrStep(w, p, w.procs[p]);
    DecrShared(w, p);
    forall q | q in w.procs && q != p
      ensures q in v.procs && PlanOk(v, q, v.procs[q])
    {
      DecrOthers(w, p, q);
    }
    forall f: File
      ensures FileOk(v, f)
    {
      DecrFiles(w, p, f);
    }
    SharedKeeps(w, v, p);
  }

  lemma CloseShared(w: World, p: Pid)
    requires Inv(w) && p in w.procs && w.procs[p].phase.OwesClose?
    ensures
      var v := CloseStep(w, p, w.procs[p]);
      SharedStep(w, v, p) && PlanOk(v, p, v.procs[p]) && PhaseOk(v, p, v.procs[p])
  {
    hide Inv, FileOk, TablesOk, Named, Count;
    OfProcess(w, p);
  }

  lemma CloseOthers(w: World, p: Pid, q: Pid)
    requires Inv(w) && p in w.procs && w.procs[p].phase.OwesClose? && q in w.procs && q != p
    ensures var v := CloseStep(w, p, w.procs[p]); q in v.procs && PlanOk(v, q, v.procs[q])
  {
    hide Inv, FileOk, Named, PlanOk, CopyOk, TablesOk, PhaseOk;
    CloseShared(w, p);
    SharedOthers(w, CloseStep(w, p, w.procs[p]), p, q);
  }

  lemma CloseFiles(w: World, p: Pid, f: File)
    requires Inv(w) && p in w.procs && w.procs[p].phase.OwesClose?
    ensures FileOk(CloseStep(w, p, w.procs[p]), f)
  {
    hide Inv, FileOk, Named, PlanOk, CopyOk, TablesOk, PhaseOk;
    if f == w.procs[p].phase.file {
      CloseFile(w, p);
    } else {
      CloseShared(w, p);
      SharedFiles(w, CloseStep(w, p, w.procs[p]), p, f);
    }
  }

  lemma CloseKeeps(w: World, p: Pid)
    requires Inv(w) && p in w.procs && w.procs[p].phase.OwesClose?
    ensures Inv(CloseStep(w, p, w.procs[p]))
  {
    hide Inv, CloseStep, FileOk, PlanOk, PhaseOk;
    var v := CloseStep(w, p, w.procs[p]);
    CloseShared(w, p);
    forall q | q in w.procs && q != p
      ensures q in v.procs && PlanOk(v, q, v.procs[q])
    {
      CloseOthers(w, p, q);
    }
    forall f: File
      ensures FileOk(v, f)
    {
      CloseFiles(w, p, f);
    }
    SharedKeeps(w, v, p);
  }

  lemma DeletePlan(w: World, p: Pid)
    requires Inv(w) && p in w.procs && w.procs[p].phase.Ready? && w.procs[p].closing != []
    ensures var v := DeleteStep(w, p, w.procs[p]); TablesOk(v) && PlanOk(v, p, v.procs[p])
  {
    hide FileOk, Named;
    var x := w.procs[p];
    var v := DeleteStep(w, p, x);
    DeleteTables(w, p);
    assert PlanOk(w, p, x) && Owner(w, p) == p;
    hide Inv, TablesOk;
    forall c | c in x.copies
      ensures CopyOk(v, p, v.procs[p], c)
    {
      assert CopyOk(w, p, x, c);
      DeleteCopy(w, p, x, c);
    }
  }

  lemma DeleteTables(w: World, p: Pid)
    requires Inv(w) && p in w.procs && w.procs[p].phase.Ready? && w.procs[p].closing != []
    ensures TablesOk(DeleteStep(w, p, w.procs[p]))
  {
    hide Inv, PlanOk, PhaseOk, TablesOk;
    OfProcess(w, p);
    FewerTables(w, DeleteStep(w, p, w.procs[p]), p);
  }

  lemma FewerTables(w: World, v: World, p: Pid)
    requires TablesOk(w) && p in w.procs && p in v.procs && v.procs[p].spawn == w.procs[p].spawn
    requires v == w.(procs := w.procs[p := v.procs[p]], entries := v.entries)
    requires forall k :: k in v.entries ==> k in w.entries
    ensures TablesOk(v)
  {
  }

  lemma DeleteCopy(w: World, p: Pid, x: Process, c: Copy)
    requires x.phase.Ready? && x.closing != [] && CopyOk(w, p, x, c) && Owner(w, p) == p
    ensures var v := DeleteStep(w, p, x); CopyOk(v, p, v.procs[p], c)
  {
    assert x.closing == [x.closing[0]] + x.closing[1..];
  }

  lemma DeletesKey(w: World, p: Pid)
    requires Inv(w) && p in w.procs && w.procs[p].phase.Ready? && w.procs[p].closing != []
    ensures KeyStep(w, DeleteStep(w, p, w.procs[p]), p, Key(p, w.procs[p].closing[0]))
  {
    hide Inv, TablesOk, PlanOk, PhaseOk;
    OfProcess(w, p);
  }

  lemma DeleteOthers(w: World, p: Pid, q: Pid)
    requires Inv(w) && p in w.procs && w.procs[p].phase.Ready? && w.procs[p].closing != [] && q in w.procs && q != p
    ensures var v := DeleteStep(w, p, w.procs[p]); q in v.procs && PlanOk(v, q, v.procs[q])
  {
    hide Inv, FileOk, Named, PlanOk, CopyOk, TablesOk;
    var k := Key(p, w.procs[p].closing[0]);
    DeletesKey(w, p);
    OfProcess(w, p);
    if k in w.entries {
      InNamed(w, k);
      if w.procs[q].phase.OwesIncr? && w.procs[q].phase.from.None? {
        NotFresh(w, p, q, w.entries[k]);
      }
    }
    KeyOthers(w, DeleteStep(w, p, w.procs[p]), p, k, q);
  }

  lemma DeleteFiles(w: World, p: Pid, f: File)
    requires Inv(w) && p in w.procs && w.procs[p].phase.Ready? && w.procs[p].closing != []
    ensures FileOk(DeleteStep(w, p, w.procs[p]), f)
  {
    hide Inv, FileOk, Named, PlanOk, CopyOk, TablesOk;
    var k := Key(p, w.procs[p].closing[0]);
    if k in w.entries && f == w.entries[k] {
      DeleteFile(w, p);
    } else {
      DeletePlan(w, p);
      DeletesKey(w, p);
      PhaseOfPlan(DeleteStep(w, p, w.procs[p]), p);
      KeyFiles(w, DeleteStep(w, p, w.procs[p]), p, k, f);
    }
  }

  lemma DeleteKeeps(w: World, p: Pid)
    requires Inv(w) && p in w.procs && w.procs[p].phase.Ready? && w.procs[p].closing != []
    ensures Inv(DeleteStep(w, p, w.procs[p]))
  {
    hide Inv, DeleteStep, FileOk, PlanOk, TablesOk, KeyStep;
    var v := DeleteStep(w, p, w.procs[p]);
    DeletePlan(w, p);
    DeletesKey(w, p);
    forall q | q in w.procs && q != p
      ensures q in v.procs && PlanOk(v, q, v.procs[q])
    {
      DeleteOthers(w, p, q);
    }
    forall f: File
      ensures FileOk(v, f)
    {
      DeleteFiles(w, p, f);
    }
    KeyKeeps(w, v, p, Key(p, w.procs[p].closing[0]));
  }

  lemma NamedBut(w: World, v: World, k: Key, f: File)
    requires k in w.entries ==> w.entries[k] != f
    requires k in v.entries ==> v.entries[k] != f
    requires forall i :: i != k ==> (i in v.entries <==> i in w.entries)
    requires forall i :: i != k && i in w.entries ==> v.entries[i] == w.entries[i]
    ensures Named(v, f) == Named(w, f)
  {
  }

  /** v differs from w in p's record and its plans, and in the entry k of p. */
  ghost predicate KeyStep(w: World, v: World, p: Pid, k: Key) {
    && p in w.procs && p in v.procs && Owner(w, k.pid) == p
    && v == w.(procs := w.procs[p := v.procs[p]], entries := v.entries, next := v.next, born := v.born, lost := v.lost)
    && (forall i :: i != k ==> (i in v.entries <==> i in w.entries))
    && (forall i :: i != k && i in w.entries ==> v.entries[i] == w.entries[i])
    && (forall pid :: pid in w.next ==> pid in v.next)
    && (forall f :: Lost(v, f) >= Lost(w, f))
  }

  /** The entry k names f neither before nor after. */
  ghost predicate Elsewhere(w: World, v: World, k: Key, f: File) {
    (k in w.entries ==> w.entries[k] != f) && (k in v.entries ==> v.entries[k] != f)
  }

  lemma KeyOthers(w: World, v: World, p: Pid, k: Key, q: Pid)
    requires Inv(w) && KeyStep(w, v, p, k) && q in w.procs && q != p
    requires w.procs[q].phase.OwesIncr? && w.procs[q].phase.from.None? ==> Elsewhere(w, v, k, w.procs[q].phase.file)
    ensures q in v.procs && PlanOk(v, q, v.procs[q])
  {
    hide Inv, FileOk, Named, PlanOk, TablesOk, Count;
    OfProcess(w, q);
    if w.procs[q].phase.OwesIncr? && w.procs[q].phase.from.None? {
      NamedBut(w, v, k, w.procs[q].phase.file);
    }
    OtherPlan(w, v, q, w.procs[q]);
  }

  lemma KeyFiles(w: World, v: World, p: Pid, k: Key, f: File)
    requires Inv(w) && KeyStep(w, v, p, k) && PhaseOk(v, p, v.procs[p]) && Elsewhere(w, v, k, f)
    requires !Concerns(w.procs[p].phase, f) && !Concerns(v.procs[p].phase, f)
    requires (f in v.born <==> f in w.born) && Lost(v, f) == Lost(w, f)
    ensures FileOk(v, f)
  {
    hide Inv, FileOk, Named, PlanOk, TablesOk, PhaseOk, Concerns;
    OfProcess(w, p);
    OfFile(w, f);
    NamedBut(w, v, k, f);
    OtherFile(w, v, p, f);
  }

  lemma KeyKeeps(w: World, v: World, p: Pid, k: Key)
    requires Inv(w) && KeyStep(w, v, p, k) && TablesOk(v) && PlanOk(v, p, v.procs[p])
    requires forall q :: q in w.procs && q != p ==> q in v.procs && PlanOk(v, q, v.procs[q])
    requires forall f: File :: FileOk(v, f)
    ensures Inv(v)
  {
    hide FileOk, PlanOk, TablesOk;
  }

  lemma CopyFirst(w: World, p: Pid)
    requires Inv(w) && p in w.procs && w.procs[p].closing == [] && w.procs[p].copies != []
    ensures
      var c := w.procs[p].copies[0];
      && c.from in w.entries && c.to !in w.entries && c.from.pid == p && Owner(w, c.to.pid) == p && c.to != c.from
      && c.to.pid in w.next
  {
    hide FileOk, TablesOk;
    assert PlanOk(w, p, w.procs[p]);
    assert CopyOk(w, p, w.procs[p], w.procs[p].copies[0]);
  }

  lemma CopyTables(w: World, p: Pid)
    requires Inv(w) && p in w.procs && w.procs[p].phase.Ready? && w.procs[p].closing == [] && w.procs[p].copies != []
    ensures TablesOk(CopyStep(w, p, w.procs[p]))
  {
    hide Inv, PlanOk, PhaseOk;
    CopyFirst(w, p);
    OfProcess(w, p);
  }

  lemma CopyPlan(w: World, p: Pid)
    requires Inv(w) && p in w.procs && w.procs[p].phase.Ready? && w.procs[p].closing == [] && w.procs[p].copies != []
    ensures var v := CopyStep(w, p, w.procs[p]); TablesOk(v) && PlanOk(v, p, v.procs[p])
    ensures var c := w.procs[p].copies[0]; c.from in w.entries && c.to !in w.entries && c.from.pid == p && Owner(w, c.to.pid) == p
  {
    hide FileOk, Named;
    var x := w.procs[p];
    var c := x.copies[0];
    var v := CopyStep(w, p, x);
    CopyFirst(w, p);
    CopyTables(w, p);
    CopyPhase(w, p);
    assert PlanOk(w, p, x);
    hide TablesOk, Inv, PhaseOk;
    forall d | d in v.procs[p].copies
      ensures CopyOk(v, p, v.procs[p], d)
    {
      var i :| 0 <= i < |v.procs[p].copies| && v.procs[p].copies[i] == d;
      CopyRest(w, p, x, i);
    }
    hide CopyOk;
    assert forall i, j :: 0 <= i < j < |v.procs[p].copies| ==> v.procs[p].copies[i] == x.copies[i + 1] && v.procs[p].copies[j] == x.copies[j + 1];
  }

  lemma CopyPhase(w: World, p: Pid)
    requires Inv(w) && p in w.procs && w.procs[p].phase.Ready? && w.procs[p].closing == [] && w.procs[p].copies != []
    ensures var v := CopyStep(w, p, w.procs[p]); PhaseOk(v, p, v.procs[p])
  {
    hide FileOk, PlanOk, TablesOk, Named;
    CopyFirst(w, p);
  }

  lemma CopyRest(w: World, p: Pid, x: Process, i: nat)
    requires PlanOk(w, p, x) && x.phase.Ready? && x.closing == [] && i + 1 < |x.copies|
    ensures var v := CopyStep(w, p, x); CopyOk(v, p, v.procs[p], x.copies[i + 1])
  {
    hide PhaseOk;
    var d := x.copies[i + 1];
    assert CopyOk(w, p, x, d) && CopyOk(w, p, x, x.copies[0]);
    assert x.copies[0].to != d.to;
    assert forall e :: e in x.copies[1..] ==> e in x.copies;
  }

  lemma CopiesKey(w: World, p: Pid)
    requires Inv(w) && p in w.procs && w.procs[p].phase.Ready? && w.procs[p].closing == [] && w.procs[p].copies != []
    ensures KeyStep(w, CopyStep(w, p, w.procs[p]), p, w.procs[p].copies[0].to)
  {
    hide Inv, TablesOk, PlanOk, PhaseOk;
    CopyFirst(w, p);
  }

  lemma CopyOthers(w: World, p: Pid, q: Pid)
    requires Inv(w) && p in w.procs && w.procs[p].phase.Ready? && w.procs[p].closing == [] && w.procs[p].copies != [] && q in w.procs && q != p
    ensures var v := CopyStep(w, p, w.procs[p]); q in v.procs && PlanOk(v, q, v.procs[q])
  {
    hide Inv, FileOk, Named, PlanOk, CopyOk, TablesOk;
    var c := w.procs[p].copies[0];
    CopyFirst(w, p);
    CopiesKey(w, p);
    OfProcess(w, p);
    InNamed(w, c.from);
    if w.procs[q].phase.OwesIncr? && w.procs[q].phase.from.None? {
      NotFresh(w, p, q, w.entries[c.from]);
    }
    KeyOthers(w, CopyStep(w, p, w.procs[p]), p, c.to, q);
  }

  lemma CopyFiles(w: World, p: Pid, f: File)
    requires Inv(w) && p in w.procs && w.procs[p].phase.Ready? && w.procs[p].closing == [] && w.procs[p].copies != []
    ensures FileOk(CopyStep(w, p, w.procs[p]), f)
  {
    hide Inv, FileOk, Named, PlanOk, CopyOk, TablesOk, PhaseOk;
    var c := w.procs[p].copies[0];
    CopyFirst(w, p);
    if f == w.entries[c.from] {
      CopyFile(w, p);
    } else {
      CopyPlan(w, p);
      CopiesKey(w, p);
      PhaseOfPlan(CopyStep(w, p, w.procs[p]), p);
      KeyFiles(w, CopyStep(w, p, w.procs[p]), p, c.to, f);
    }
  }

  lemma CopyKeeps(w: World, p: Pid)
    requires Inv(w) && p in w.procs && w.procs[p].phase.Ready? && w.procs[p].closing == [] && w.procs[p].copies != []
    ensures Inv(CopyStep(w, p, w.procs[p]))
  {
    hide Inv, CopyStep, FileOk, PlanOk, TablesOk, KeyStep;
    var v := CopyStep(w, p, w.procs[p]);
    CopyPlan(w, p);
    CopiesKey(w, p);
    forall q | q in w.procs && q != p
      ensures q in v.procs && PlanOk(v, q, v.procs[q])
    {
      CopyOthers(w, p, q);
    }
    forall f: File
      ensures FileOk(v, f)
    {
      CopyFiles(w, p, f);
    }
    KeyKeeps(w, v, p, w.procs[p].copies[0].to);
  }

  lemma PhaseOfPlan(w: World, p: Pid)
    requires p in w.procs && PlanOk(w, p, w.procs[p])
    ensures PhaseOk(w, p, w.procs[p])
  {
  }

  lemma FinishPlan(w: World, p: Pid)
    requires Inv(w) && p in w.procs && w.procs[p].phase.Ready? && w.procs[p].closing == [] && w.procs[p].copies == []
    ensures TablesOk(FinishStep(w, p, w.procs[p]))
    ensures w.procs[p].spawn.Some? ==> w.procs[p].spawn.value in w.embryos && w.embryos[w.procs[p].spawn.value] == p
  {
    hide Inv, TablesOk, PlanOk, PhaseOk, FinishStep;
    SpawnIsMine(w, p);
    OfProcess(w, p);
    if w.procs[p].spawn.Some? {
      BirthTables(w, p, w.procs[p].spawn.value);
    } else {
      RestTables(w, p);
    }
  }

  lemma RestTables(w: World, p: Pid)
    requires TablesOk(w) && p in w.procs && w.procs[p].spawn.None?
    ensures TablesOk(FinishStep(w, p, w.procs[p]))
  {
  }

  lemma BirthTables(w: World, p: Pid, c: Pid)
    requires TablesOk(w) && p in w.procs && w.procs[p].spawn == Some(c) && c in w.embryos && w.embryos[c] == p
    ensures TablesOk(FinishStep(w, p, w.procs[p]))
  {
    var v := FinishStep(w, p, w.procs[p]);
    forall k | k in v.entries
      ensures k.pid in v.next && Owner(v, k.pid) in v.procs
    {
      assert Owner(w, k.pid) in w.procs;
    }
    forall d | d in v.embryos
      ensures d in v.next && v.embryos[d] in v.procs && v.procs[v.embryos[d]].spawn == Some(d)
    {
      assert w.embryos[d] in w.procs && w.procs[w.embryos[d]].spawn == Some(d);
    }
  }

  lemma SpawnIsMine(w: World, p: Pid)
    requires Inv(w) && p in w.procs
    ensures w.procs[p].spawn.Some? ==> w.procs[p].spawn.value in w.embryos && w.embryos[w.procs[p].spawn.value] == p
  {
    hide FileOk, CopyOk, TablesOk;
    assert PlanOk(w, p, w.procs[p]);
  }

  lemma FinishKeeps(w: World, p: Pid)
    requires Inv(w) && p in w.procs && w.procs[p].phase.Ready? && w.procs[p].closing == [] && w.procs[p].copies == []
    ensures Inv(FinishStep(w, p, w.procs[p]))
  {
    hide TablesOk, FileOk, PlanOk;
    var x := w.procs[p];
    var v := FinishStep(w, p, x);
    FinishPlan(w, p);
    forall q | q in v.procs
      ensures PlanOk(v, q, v.procs[q])
    {
      if q == p || x.spawn == Some(q) {
        IdlePlan(v, q);
      } else {
        FinishOthers(w, p, q);
      }
    }
    forall f: File
      ensures FileOk(v, f)
    {
      FinishFile(w, p, f);
    }
  }

  lemma IdlePlan(w: World, q: Pid)
    ensures PlanOk(w, q, IDLE) && PhaseOk(w, q, IDLE)
  {
  }

  lemma FinishOthers(w: World, p: Pid, q: Pid)
    requires Inv(w) && p in w.procs && w.procs[p].phase.Ready? && w.procs[p].closing == [] && w.procs[p].copies == []
    requires q in w.procs && q != p && w.procs[p].spawn != Some(q)
    ensures var v := FinishStep(w, p, w.procs[p]); q in v.procs && PlanOk(v, q, v.procs[q])
  {
    hide Inv, FileOk, Named, PlanOk, CopyOk, TablesOk, PhaseOk;
    var v := FinishStep(w, p, w.procs[p]);
    FinishPlan(w, p);
    OfProcess(w, q);
    if w.procs[q].phase.OwesIncr? && w.procs[q].phase.from.None? {
      SameNamed(w, v, w.procs[q].phase.file);
    }
    OtherPlan(w, v, q, w.procs[q]);
  }

  lemma FinishFile(w: World, p: Pid, f: File)
    requires Inv(w) && p in w.procs && w.procs[p].phase.Ready? && w.procs[p].closing == [] && w.procs[p].copies == []
    ensures FileOk(FinishStep(w, p, w.procs[p]), f)
  {
    hide Inv, FileOk, Named, PlanOk, TablesOk, PhaseOk;
    var v := FinishStep(w, p, w.procs[p]);
    OfProcess(w, p);
    SpawnIsNew(w, p);
    IdlePlan(v, p);
    OfFile(w, f);
    SameNamed(w, v, f);
    OtherFile(w, v, p, f);
  }

  lemma SpawnIsNew(w: World, p: Pid)
    requires Inv(w) && p in w.procs
    ensures w.procs[p].spawn.Some? ==> w.procs[p].spawn.value !in w.procs
  {
    hide FileOk, PlanOk;
    SpawnIsMine(w, p);
  }

  lemma TickKeeps(w: World, p: Pid)
    requires Inv(w) && p in w.procs
    ensures Inv(Advance(w, p, w.procs[p]))
  {
    hide Inv, IncrStep, DecrStep, CloseStep, DeleteStep, CopyStep, FinishStep;
    var x := w.procs[p];
    match x.phase
    case OwesIncr(_, _, _) => IncrKeeps(w, p);
    case OwesDecr(_) => DecrKeeps(w, p);
    case OwesClose(_) => CloseKeeps(w, p);
    case Ready =>
      if x.closing != [] {
        DeleteKeeps(w, p);
      } else if x.copies != [] {
        CopyKeeps(w, p);
      } else {
        FinishKeeps(w, p);
      }
  }

  /** Starting an operation that has touched nothing shared yet. */
  lemma BeginKeeps(w: World, v: World, p: Pid)
    requires Inv(w) && Idle(w, p) && p in v.procs && v.procs == w.procs[p := v.procs[p]]
    requires v.procs[p].phase.Ready? && PlanOk(v, p, v.procs[p]) && TablesOk(v)
    requires v.entries == w.entries && v.counts == w.counts && v.closed == w.closed && v.born == w.born && v.lost == w.lost
    requires forall pid :: pid in w.next ==> pid in v.next
    requires forall c :: c in w.embryos ==> c in v.embryos && v.embryos[c] == w.embryos[c]
    requires forall c :: c in v.embryos && c !in w.embryos ==> c !in w.procs
    ensures Inv(v)
  {
    hide FileOk, Named, PlanOk, CopyOk;
    forall q | q in v.procs && q != p
      ensures PlanOk(v, q, v.procs[q])
    {
      SelfOwned(w, q);
      if w.procs[q].phase.OwesIncr? && w.procs[q].phase.from.None? {
        SameNamed(w, v, w.procs[q].phase.file);
      }
      OtherPlan(w, v, q, w.procs[q]);
    }
    hide TablesOk;
    forall f: File
      ensures FileOk(v, f)
    {
      SameNamed(w, v, f);
      OtherFile(w, v, p, f);
    }
  }

  /** f may be put at p's next number: it is new, or copied from an entry of p. */
  ghost predicate MayAllocate(w: World, p: Pid, f: File, from: Option<Key>) {
    && Idle(w, p)
    && (from.None? ==> f !in w.born)
    && (from.Some? ==> from.value.pid == p && from.value in w.entries && w.entries[from.value] == f)
  }

  lemma AllocateTables(w: World, p: Pid, f: File, from: Option<Key>)
    requires Inv(w) && MayAllocate(w, p, f, from)
    ensures TablesOk(Allocate(w, p, f, from))
  {
    hide Inv, PlanOk, PhaseOk;
    OfProcess(w, p);
  }

  lemma AllocatePlan(w: World, p: Pid, f: File, from: Option<Key>)
    requires Inv(w) && MayAllocate(w, p, f, from)
    ensures
      var v := Allocate(w, p, f, from);
      PlanOk(v, p, v.procs[p]) && PhaseOk(v, p, v.procs[p])
  {
    hide Inv, TablesOk, PhaseOk, Named, FileOk, Lost;
    var v := Allocate(w, p, f, from);
    OfProcess(w, p);
    OfFile(w, f);
    AllocatePhase(w, p, f, from);
    assert v.procs[p].copies == [];
  }

  lemma AllocatePhase(w: World, p: Pid, f: File, from: Option<Key>)
    requires MayAllocate(w, p, f, from) && FileOk(w, f) && Owner(w, p) == p
    ensures var v := Allocate(w, p, f, from); PhaseOk(v, p, v.procs[p])
  {
    hide FileOk, Named;
    if from.None? {
      OnlyEntry(w, p, f);
    }
  }

  lemma OnlyEntry(w: World, p: Pid, f: File)
    requires FileOk(w, f) && f !in w.born && p in w.next
    ensures var v := Allocate(w, p, f, None); Named(v, f) == {Key(p, w.next[p])} && Count(v.counts, f) == 0
  {
    hide OwingDecr, OwingClose, Uncounted;
    assert Named(w, f) == {} && Counted(w, f) <= Named(w, f);
    assert Named(Allocate(w, p, f, None), f) == Named(w, f) + {Key(p, w.next[p])};
  }

  lemma AllocatesKey(w: World, p: Pid, f: File, from: Option<Key>)
    requires Inv(w) && MayAllocate(w, p, f, from)
    ensures KeyStep(w, Allocate(w, p, f, from), p, Key(p, w.next[p]))
  {
    hide Inv, TablesOk, PlanOk, PhaseOk;
    OfProcess(w, p);
  }

  lemma AllocateOthers(w: World, p: Pid, f: File, from: Option<Key>, q: Pid)
    requires Inv(w) && MayAllocate(w, p, f, from) && q in w.procs && q != p
    ensures var v := Allocate(w, p, f, from); q in v.procs && PlanOk(v, q, v.procs[q])
  {
    hide Inv, FileOk, Named, PlanOk, CopyOk, TablesOk, PhaseOk;
    var k := Key(p, w.next[p]);
    OfProcess(w, p);
    AllocatesKey(w, p, f, from);
    if w.procs[q].phase.OwesIncr? && w.procs[q].phase.from.None? {
      KnownFile(w, q);
      if k in w.entries {
        InNamed(w, k);
        NotFresh(w, p, q, w.entries[k]);
      }
      if from.Some? {
        InNamed(w, from.value);
        NotFresh(w, p, q, f);
      }
    }
    KeyOthers(w, Allocate(w, p, f, from), p, k, q);
  }

  lemma AllocateFiles(w: World, p: Pid, f: File, from: Option<Key>, g: File)
    requires Inv(w) && MayAllocate(w, p, f, from)
    ensures FileOk(Allocate(w, p, f, from), g)
  {
    hide Inv, FileOk, Named, PlanOk, CopyOk, TablesOk, PhaseOk;
    var k := Key(p, w.next[p]);
    if g == f || (k in w.entries && w.entries[k] == g) {
      AllocateFile(w, p, f, from, g);
    } else {
      AllocatesKey(w, p, f, from);
      AllocatePlan(w, p, f, from);
      KeyFiles(w, Allocate(w, p, f, from), p, k, g);
    }
  }

  lemma AllocateKeeps(w: World, p: Pid, f: File, from: Option<Key>)
    requires Inv(w) && MayAllocate(w, p, f, from)
    ensures Inv(Allocate(w, p, f, from))
  {
    hide Inv, FileOk, PlanOk, PhaseOk, TablesOk, KeyStep, MayAllocate;
    assert p in w.next by { IdleNext(w, p, f, from); }
    var v := Allocate(w, p, f, from);
    AllocateTables(w, p, f, from);
    AllocatePlan(w, p, f, from);
    AllocatesKey(w, p, f, from);
    forall q | q in w.procs && q != p
      ensures q in v.procs && PlanOk(v, q, v.procs[q])
    {
      AllocateOthers(w, p, f, from, q);
    }
    forall g: File
      ensures FileOk(v, g)
    {
      AllocateFiles(w, p, f, from, g);
    }
    KeyKeeps(w, v, p, Key(p, w.next[p]));
  }

  lemma IdleNext(w: World, p: Pid, f: File, from: Option<Key>)
    requires MayAllocate(w, p, f, from)
    ensures p in w.next
  {
  }

  lemma KnownFile(w: World, q: Pid)
    requires Inv(w) && q in w.procs && w.procs[q].phase.OwesIncr?
    ensures w.procs[q].phase.file in w.born
  {
    var f := w.procs[q].phase.file;
    assert PlanOk(w, q, w.procs[q]) && FileOk(w, f);
    InNamed(w, w.procs[q].phase.key);
  }

  /** The new entry is still to be counted, and one it replaces no longer is. */
  lemma CountedAfterAllocate(w: World, p: Pid, f: File, from: Option<Key>, g: File)
    requires Inv(w) && MayAllocate(w, p, f, from)
    ensures
      var v, k := Allocate(w, p, f, from), Key(p, w.next[p]);
      && Counted(v, g) == Counted(w, g) - {k}
      && (k in Counted(w, g) <==> k in w.entries && w.entries[k] == g)
  {
    hide FileOk, PlanOk, TablesOk, Uncounted;
    var v, k := Allocate(w, p, f, from), Key(p, w.next[p]);
    NotPending(w, p, k);
    UncountedIs(v, p);
    forall i | i in w.entries && i != k
      ensures Uncounted(v, i) <==> Uncounted(w, i)
    {
      UncountedAfter(w, v, p, v.procs[p], i);
    }
  }

  /** The file allocated, and the one overwritten. */
  lemma AllocateOwing(w: World, p: Pid, f: File, from: Option<Key>, g: File)
    requires MayAllocate(w, p, f, from)
    ensures
      var v := Allocate(w, p, f, from);
      OwingDecr(v, g) == OwingDecr(w, g) && OwingClose(v, g) == OwingClose(w, g)
  {
    hide OwingDecr, OwingClose;
    var v := Allocate(w, p, f, from);
    OwingAfter(w, v, p, v.procs[p], g);
  }

  lemma AllocateAlive(w: World, p: Pid, f: File, from: Option<Key>, g: File)
    requires MayAllocate(w, p, f, from)
    requires g == f || (Key(p, w.next[p]) in w.entries && w.entries[Key(p, w.next[p])] == g)
    ensures g != f || from.Some? ==> Alive(w, g)
    ensures Alive(Allocate(w, p, f, from), g)
  {
    hide Named, OwingDecr;
    var k := Key(p, w.next[p]);
    InNamed(Allocate(w, p, f, from), k);
    if k in w.entries {
      InNamed(w, k);
    }
    if from.Some? {
      InNamed(w, from.value);
    }
  }

  /** The file allocated, and the one overwritten. */
  lemma AllocateFile(w: World, p: Pid, f: File, from: Option<Key>, g: File)
    requires Inv(w) && MayAllocate(w, p, f, from)
    requires g == f || (Key(p, w.next[p]) in w.entries && w.entries[Key(p, w.next[p])] == g)
    ensures FileOk(Allocate(w, p, f, from), g)
  {
    hide Inv, OwingDecr, OwingClose, Counted, Alive;
    OfFile(w, g);
    AllocateOwing(w, p, f, from, g);
    AllocateAlive(w, p, f, from, g);
    CountedAfterAllocate(w, p, f, from, g);
  }

  lemma ForkTables(w: World, p: Pid, c: Pid, fds: seq<Fd>)
    requires Inv(w) && Enabled(w, Fork(p, c, fds))
    ensures TablesOk(Next(w, Fork(p, c, fds)))
  {
    hide FileOk, PlanOk, Lists;
  }

  lemma ForkPlan(w: World, p: Pid, c: Pid, fds: seq<Fd>)
    requires Inv(w) && Enabled(w, Fork(p, c, fds))
    ensures PlanOk(Next(w, Fork(p, c, fds)), p, Next(w, Fork(p, c, fds)).procs[p])
  {
    hide FileOk, Named, PhaseOk;
    var v := Next(w, Fork(p, c, fds));
    var x := v.procs[p];
    SelfOwned(w, p);
    hide Inv, TablesOk;
    assert PhaseOk(v, p, x) by {
      ReadyOk(v, p, x);
    }
    forall i | 0 <= i < |fds|
      ensures CopyOk(v, p, x, Copy(Key(c, fds[i]), Key(p, fds[i])))
    {
      assert Key(p, fds[i]) in w.entries;
    }
  }

  lemma ReadyOk(w: World, p: Pid, x: Process)
    requires x.phase.Ready?
    ensures PhaseOk(w, p, x)
  {
  }

  lemma ForkKeeps(w: World, p: Pid, c: Pid, fds: seq<Fd>)
    requires Inv(w) && Enabled(w, Fork(p, c, fds))
    ensures Inv(Next(w, Fork(p, c, fds)))
  {
    var v := Next(w, Fork(p, c, fds));
    ForkTables(w, p, c, fds);
    ForkPlan(w, p, c, fds);
    hide Inv, PlanOk, TablesOk, Lists;
    BeginKeeps(w, v, p);
  }

  lemma Dup2Plan(w: World, p: Pid, oldfd: Fd, newfd: Fd, closing: seq<Fd>, next: Fd)
    requires Inv(w) && Idle(w, p) && Key(p, oldfd) in w.entries && newfd != oldfd
    requires closing == if Key(p, newfd) in w.entries then [newfd] else []
    ensures
      var x := Process(Ready, closing, [Copy(Key(p, newfd), Key(p, oldfd))], None);
      PlanOk(Begin(w, p, x).(next := w.next[p := next]), p, x)
  {
    hide Inv, TablesOk;
    OfProcess(w, p);
  }

  lemma Dup2Keeps(w: World, p: Pid, oldfd: Fd, newfd: Fd, closing: seq<Fd>, next: Fd)
    requires Inv(w) && Idle(w, p) && Key(p, oldfd) in w.entries && newfd != oldfd
    requires closing == if Key(p, newfd) in w.entries then [newfd] else []
    ensures
      Inv(Begin(w, p, Process(Ready, closing, [Copy(Key(p, newfd), Key(p, oldfd))], None)).(next := w.next[p := next]))
  {
    hide Inv, PlanOk, TablesOk;
    var x := Process(Ready, closing, [Copy(Key(p, newfd), Key(p, oldfd))], None);
    ClosingTables(w, p, x, next);
    Dup2Plan(w, p, oldfd, newfd, closing, next);
    BeginKeeps(w, Begin(w, p, x).(next := w.next[p := next]), p);
  }

  lemma ClosingTables(w: World, p: Pid, x: Process, next: Fd)
    requires Inv(w) && Idle(w, p) && x.spawn.None?
    ensures TablesOk(Begin(w, p, x).(next := w.next[p := next]))
  {
    hide FileOk, PlanOk;
  }

  lemma CloseManyKeeps(w: World, p: Pid, fds: seq<Fd>, next: Fd)
    requires Inv(w) && Idle(w, p)
    ensures Inv(Begin(w, p, Process(Ready, fds, [], None)).(next := w.next[p := next]))
  {
    var v := Begin(w, p, Process(Ready, fds, [], None)).(next := w.next[p := next]);
    ClosingTables(w, p, Process(Ready, fds, [], None), next);
    assert PlanOk(v, p, v.procs[p]);
    hide Inv, TablesOk, PlanOk;
    BeginKeeps(w, v, p);
  }

  /** Every operation started and every step taken keeps the invariant. */
  lemma NextKeeps(w: World, l: Label)
    requires Inv(w) && Enabled(w, l)
    ensures Inv(Next(w, l))
  {
    hide Inv, Lists, Advance;
    match l
    case Open(p, f) => AllocateKeeps(w, p, f, None);
    case Close(p, fd) =>
      CloseManyKeeps(w, p, [fd], w.next[p]);
      assert w.next[p := w.next[p]] == w.next;
    case CloseMany(p, fds) =>
      CloseManyKeeps(w, p, fds, w.next[p]);
      assert w.next[p := w.next[p]] == w.next;
    case Dup(p, oldfd) => AllocateKeeps(w, p, w.entries[Key(p, oldfd)], Some(Key(p, oldfd)));
    case Dup2(p, oldfd, newfd) =>
      var next := Raised(w.next[p], newfd);
      if oldfd == newfd {
        CloseManyKeeps(w, p, [], next);
      } else {
        Dup2Keeps(w, p, oldfd, newfd, if Key(p, newfd) in w.entries then [newfd] else [], next);
      }
    case Fork(p, c, fds) => ForkKeeps(w, p, c, fds);
    case Tick(p) => TickKeeps(w, p);
  }

  // ---- main results ----------------------------------------------------------

  lemma {:induction false} RunKeeps(w: World, run: seq<Label>)
    requires Inv(w) && IsRun(w, run)
    ensures Inv(After(w, run))
    decreases |run|
  {
    hide Inv, Enabled;
    if run != [] {
      NextKeeps(w, run[0]);
      RunKeeps(Next(w, run[0]), run[1..]);
    }
  }

  // What is lost when a number that is taken is handed out again.

  /** The number that Open or Dup is about to hand out is open already. */
  predicate Taken(w: World, l: Label) {
    (l.Open? || l.Dup?) && l.pid in w.next && Key(l.pid, w.next[l.pid]) in w.entries
  }

  /** No Open or Dup of the run finds its number taken. */
  ghost predicate NoneTaken(w: World, run: seq<Label>)
    requires IsRun(w, run)
    decreases |run|
  {
    run == [] || (!Taken(w, run[0]) && NoneTaken(Next(w, run[0]), run[1..]))
  }

  /** How many of them overwrite an entry naming f. */
  ghost function Overwrites(w: World, run: seq<Label>, f: File): nat
    requires IsRun(w, run)
    decreases |run|
  {
    if run == [] then 0
    else
      (if Taken(w, run[0]) && w.entries[Key(run[0].pid, w.next[run[0].pid])] == f then 1 else 0)
      + Overwrites(Next(w, run[0]), run[1..], f)
  }

  lemma LostStep(w: World, l: Label, f: File)
    requires Enabled(w, l)
    ensures
      Lost(Next(w, l), f) ==
      Lost(w, f) + if Taken(w, l) && w.entries[Key(l.pid, w.next[l.pid])] == f then 1 else 0
  {
    hide Lists, Advance;
  }

  lemma {:induction false} LostIs(w: World, run: seq<Label>, f: File)
    requires IsRun(w, run)
    ensures Lost(After(w, run), f) == Lost(w, f) + Overwrites(w, run, f)
    decreases |run|
  {
    hide Lost, Taken, Enabled;
    if run != [] {
      LostStep(w, run[0], f);
      LostIs(Next(w, run[0]), run[1..], f);
    }
  }

  lemma {:induction false} NoneTakenExactly(w: World, run: seq<Label>)
    requires IsRun(w, run)
    ensures NoneTaken(w, run) ==> forall f: File :: Overwrites(w, run, f) == 0
    ensures !NoneTaken(w, run) ==> exists f: File :: Overwrites(w, run, f) > 0
    decreases |run|
  {
    hide Enabled;
    if run != [] {
      var v, rest := Next(w, run[0]), run[1..];
      NoneTakenExactly(v, rest);
      if Taken(w, run[0]) {
        assert Overwrites(w, run, w.entries[Key(run[0].pid, w.next[run[0].pid])]) > 0;
      } else if !NoneTaken(v, rest) {
        var f: File :| Overwrites(v, rest, f) > 0;
        assert Overwrites(w, run, f) > 0;
      }
    }
  }

  /** Over every interleaving of every process's operations: the count of a file
      is the number of entries naming it in all tables, less the increments still
      to be made, plus the decrements still to be made, plus the entries naming it
      that were overwritten. */
  lemma CountsAreEntries(p: Pid, run: seq<Label>, f: File)
    requires IsRun(Start(p), run)
    ensures
      var w := After(Start(p), run);
      Count(w.counts, f) + |OwingIncr(w, f)| ==
      |Named(w, f)| + |OwingDecr(w, f)| + Overwrites(Start(p), run, f)
  {
    hide Inv, After, IsRun, Named, OwingIncr, OwingDecr;
    StartInv(p);
    RunKeeps(Start(p), run);
    LostIs(Start(p), run, f);
    CountsBalance(After(Start(p), run), f);
  }

  /** The count is that of the entries, but for what is under way. */
  ghost predicate Balanced(w: World, f: File) {
    Count(w.counts, f) + |OwingIncr(w, f)| == |Named(w, f)| + |OwingDecr(w, f)|
  }

  /** So all counts balance exactly when no Open or Dup found its number taken. */
  lemma CountsBalanceExactly(p: Pid, run: seq<Label>)
    requires IsRun(Start(p), run)
    ensures NoneTaken(Start(p), run) <==> forall f: File :: Balanced(After(Start(p), run), f)
  {
    hide After, IsRun, NoneTaken, Overwrites;
    var w := After(Start(p), run);
    NoneTakenExactly(Start(p), run);
    forall f: File
      ensures Balanced(w, f) <==> Overwrites(Start(p), run, f) == 0
    {
      CountsAreEntries(p, run, f);
    }
  }

  lemma CountsBalance(w: World, f: File)
    requires Inv(w)
    ensures Count(w.counts, f) + |OwingIncr(w, f)| == |Named(w, f)| + |OwingDecr(w, f)| + Lost(w, f)
  {
    hide Inv, OwingIncr, OwingDecr, Uncounted, Alive, Pending;
    OfFile(w, f);
    PendingEntries(w, f);
    PendingKeys(w, OwingIncr(w, f), f);
    assert Named(w, f) == Counted(w, f) + Pending(w, f) && Counted(w, f) !! Pending(w, f);
  }

  /** The entries that pending increments are for. */
  ghost function Pending(w: World, f: File): set<Key> {
    KeysOf(w, OwingIncr(w, f))
  }

  /** The uncounted entries of a file are those its pending increments are for. */
  lemma PendingEntries(w: World, f: File)
    requires Inv(w)
    ensures forall k :: k in Pending(w, f) <==> k in w.entries && w.entries[k] == f && Uncounted(w, k)
  {
    hide FileOk, TablesOk, CopyOk;
    forall k | k in w.entries && w.entries[k] == f && Uncounted(w, k)
      ensures k in Pending(w, f)
    {
      var q :| q in w.procs && w.procs[q].phase.OwesIncr? && w.procs[q].phase.key == k;
      assert PlanOk(w, q, w.procs[q]);
      assert q in OwingIncr(w, f);
    }
    forall q | q in OwingIncr(w, f)
      ensures var k := w.procs[q].phase.key; k in w.entries && w.entries[k] == f && Uncounted(w, k)
    {
      assert PlanOk(w, q, w.procs[q]);
      UncountedIs(w, q);
    }
  }

  ghost function KeysOf(w: World, s: set<Pid>): set<Key>
    requires forall p :: p in s ==> p in w.procs && w.procs[p].phase.OwesIncr?
  {
    set p | p in s :: w.procs[p].phase.key
  }

  lemma {:induction false} PendingKeys(w: World, s: set<Pid>, f: File)
    requires Inv(w) && s <= OwingIncr(w, f)
    ensures |KeysOf(w, s)| == |s|
    ensures s == OwingIncr(w, f) ==> |Pending(w, f)| == |s|
    decreases s
  {
    hide Inv;
    if q :| q in s {
      PendingKeys(w, s - {q}, f);
      if w.procs[q].phase.key in KeysOf(w, s - {q}) {
        var r :| r in s - {q} && w.procs[r].phase.key == w.procs[q].phase.key;
        PlansOf(w);
        OnePending(w, q, r);
        assert false;
      }
      assert KeysOf(w, s) == KeysOf(w, s - {q}) + {w.procs[q].phase.key};
    }
  }

  lemma PlansOf(w: World)
    requires Inv(w)
    ensures forall p :: p in w.procs ==> PlanOk(w, p, w.procs[p])
  {
  }

  /** A file is closed at most once and never while a table names it.  Once no
      step concerning it is outstanding it has been closed exactly if it was
      opened, no table names it any more, and no entry naming it was ever
      overwritten. */
  lemma ClosedOnceWhenUnnamed(p: Pid, run: seq<Label>, f: File)
    requires IsRun(Start(p), run)
    ensures
      var w := After(Start(p), run);
      && Closes(w, f) <= 1
      && (Closes(w, f) > 0 ==> Named(w, f) == {} && Overwrites(Start(p), run, f) == 0)
      && (OwingDecr(w, f) == {} && OwingClose(w, f) == {} ==>
            (Closes(w, f) == 1 <==> f in w.born && Named(w, f) == {} && Overwrites(Start(p), run, f) == 0))
      && (OwingDecr(w, f) == {} && OwingClose(w, f) == {} && NoneTaken(Start(p), run) ==>
            (Closes(w, f) == 1 <==> f in w.born && Named(w, f) == {}))
  {
    hide Inv, After, IsRun, NoneTaken, Overwrites;
    StartInv(p);
    RunKeeps(Start(p), run);
    LostIs(Start(p), run, f);
    NoneTakenExactly(Start(p), run);
    OfFile(After(Start(p), run), f);
  }

  // ---- when the next number is free ------------------------------------------

  /** The next number of every table is above all it holds and all it is about to. */
  ghost predicate Low(w: World) {
    && (forall k :: k in w.entries && k.pid in w.next ==> k.fd < w.next[k.pid])
    && (forall p, c :: p in w.procs && c in w.procs[p].copies && c.to.pid in w.next ==> c.to.fd < w.next[c.to.pid])
  }

  /** The operation opens the greatest number, from which there is no next one. */
  predicate Tops(w: World, l: Label) {
    match l
    case Open(p, _) => p in w.next && w.next[p] == MAX_FD
    case Dup(p, _) => p in w.next && w.next[p] == MAX_FD
    case Dup2(_, oldfd, newfd) => newfd == MAX_FD && oldfd != newfd
    case _ => false
  }

  lemma LowIsFree(w: World, l: Label)
    requires Low(w)
    ensures !Taken(w, l)
  {
  }

  /** A step keeps the next numbers above exactly if it does not open the greatest. */
  lemma LowExactly(w: World, l: Label)
    requires Inv(w) && Low(w) && Enabled(w, l)
    ensures Low(Next(w, l)) <==> !Tops(w, l)
  {
    hide Inv, Low, Advance;
    match l
    case Open(p, f) => LowAllocate(w, p, f, None);
    case Dup(p, oldfd) => LowAllocate(w, p, w.entries[Key(p, oldfd)], Some(Key(p, oldfd)));
    case Dup2(p, oldfd, newfd) => LowDup2(w, p, oldfd, newfd);
    case Fork(p, c, fds) => LowFork(w, p, c, fds);
    case Tick(p) => LowTick(w, p);
    case Close(p, fd) => LowClose(w, p, [fd]);
    case CloseMany(p, fds) => LowClose(w, p, fds);
  }

  lemma LowAllocate(w: World, p: Pid, f: File, from: Option<Key>)
    requires Low(w) && Idle(w, p)
    ensures Low(Allocate(w, p, f, from)) <==> w.next[p] != MAX_FD
  {
    var v := Allocate(w, p, f, from);
    var k := Key(p, w.next[p]);
    assert k in v.entries;
    assert v.procs[p].copies == [];
  }

  lemma LowDup2(w: World, p: Pid, oldfd: Fd, newfd: Fd)
    requires Low(w) && Enabled(w, Dup2(p, oldfd, newfd))
    ensures Low(Next(w, Dup2(p, oldfd, newfd))) <==> newfd != MAX_FD || oldfd == newfd
  {
    var v := Next(w, Dup2(p, oldfd, newfd));
    if oldfd != newfd {
      assert v.procs[p].copies == [Copy(Key(p, newfd), Key(p, oldfd))];
      assert Copy(Key(p, newfd), Key(p, oldfd)) in v.procs[p].copies;
    } else {
      assert v.procs[p].copies == [];
    }
  }

  lemma LowFork(w: World, p: Pid, c: Pid, fds: seq<Fd>)
    requires Inv(w) && Low(w) && Enabled(w, Fork(p, c, fds))
    ensures Low(Next(w, Fork(p, c, fds)))
  {
    hide FileOk, PhaseOk;
    var v := Next(w, Fork(p, c, fds));
    forall q, d | q in v.procs && d in v.procs[q].copies && d.to.pid in v.next
      ensures d.to.fd < v.next[d.to.pid]
    {
      if q == p {
        var i :| 0 <= i < |fds| && d == CloneCopies(p, c, fds)[i];
        assert Key(p, fds[i]) in w.entries;
      } else {
        assert PlanOk(w, q, w.procs[q]) && CopyOk(w, q, w.procs[q], d);
      }
    }
  }

  lemma LowClose(w: World, p: Pid, fds: seq<Fd>)
    requires Low(w) && Idle(w, p)
    ensures Low(Begin(w, p, Process(Ready, fds, [], None)))
  {
  }

  lemma LowTick(w: World, p: Pid)
    requires Low(w) && p in w.procs
    ensures Low(Advance(w, p, w.procs[p]))
  {
    hide Low, IncrStep, DecrStep, CloseStep, DeleteStep, CopyStep, FinishStep;
    var x := w.procs[p];
    match x.phase
    case OwesIncr(_, _, _) => LowIncr(w, p);
    case OwesDecr(_) => LowDecr(w, p);
    case OwesClose(_) => LowCloseStep(w, p);
    case Ready =>
      if x.closing != [] {
        LowDelete(w, p);
      } else if x.copies != [] {
        LowCopy(w, p);
      } else {
        LowFinish(w, p);
      }
  }

  lemma LowIncr(w: World, p: Pid)
    requires Low(w) && p in w.procs && w.procs[p].phase.OwesIncr?
    ensures Low(IncrStep(w, p, w.procs[p]))
  {
    hide Incremented;
  }

  lemma LowDecr(w: World, p: Pid)
    requires Low(w) && p in w.procs && w.procs[p].phase.OwesDecr?
    ensures Low(DecrStep(w, p, w.procs[p]))
  {
    hide Decremented;
  }

  lemma LowCloseStep(w: World, p: Pid)
    requires Low(w) && p in w.procs && w.procs[p].phase.OwesClose?
    ensures Low(CloseStep(w, p, w.procs[p]))
  {
    hide Closes;
  }

  lemma LowDelete(w: World, p: Pid)
    requires Low(w) && p in w.procs && w.procs[p].phase.Ready? && w.procs[p].closing != []
    ensures Low(DeleteStep(w, p, w.procs[p]))
  {
  }

  lemma LowCopy(w: World, p: Pid)
    requires Low(w) && p in w.procs && w.procs[p].phase.Ready? && w.procs[p].copies != []
    ensures Low(CopyStep(w, p, w.procs[p]))
  {
    var x, v := w.procs[p], CopyStep(w, p, w.procs[p]);
    assert x.copies[0] in x.copies && forall c :: c in x.copies[1..] ==> c in x.copies;
    forall k | k in v.entries && k.pid in v.next
      ensures k.fd < v.next[k.pid]
    {
      assert k in w.entries || k == x.copies[0].to;
    }
    forall q, c | q in v.procs && c in v.procs[q].copies && c.to.pid in v.next
      ensures c.to.fd < v.next[c.to.pid]
    {
      assert q in w.procs && c in w.procs[q].copies;
    }
  }

  lemma LowFinish(w: World, p: Pid)
    requires Low(w) && p in w.procs
    ensures Low(FinishStep(w, p, w.procs[p]))
  {
  }

  /** No operation of the run opens the greatest number. */
  ghost predicate NeverTops(w: World, run: seq<Label>)
    requires IsRun(w, run)
    decreases |run|
  {
    run == [] || (!Tops(w, run[0]) && NeverTops(Next(w, run[0]), run[1..]))
  }

  /** The next numbers are above at every moment of the run. */
  ghost predicate AlwaysLow(w: World, run: seq<Label>)
    requires IsRun(w, run)
    decreases |run|
  {
    Low(w) && (run == [] || AlwaysLow(Next(w, run[0]), run[1..]))
  }

  lemma {:induction false} AlwaysLowExactly(w: World, run: seq<Label>)
    requires Inv(w) && Low(w) && IsRun(w, run)
    ensures AlwaysLow(w, run) <==> NeverTops(w, run)
    ensures NeverTops(w, run) ==> NoneTaken(w, run) && Low(After(w, run))
    decreases |run|
  {
    hide Inv, Low, Enabled, Tops, Taken;
    if run != [] {
      LowIsFree(w, run[0]);
      LowExactly(w, run[0]);
      NextKeeps(w, run[0]);
      if Low(Next(w, run[0])) {
        AlwaysLowExactly(Next(w, run[0]), run[1..]);
      }
    }
  }

  /** A number that Alloc hands out is above every descriptor of the table at every
      moment of a run exactly if no operation of the run opens the greatest number;
      and then none that it hands out is taken. */
  lemma FreshNeverCollides(p: Pid, run: seq<Label>)
    requires IsRun(Start(p), run)
    ensures AlwaysLow(Start(p), run) <==> NeverTops(Start(p), run)
    ensures NeverTops(Start(p), run) ==> NoneTaken(Start(p), run)
  {
    hide Inv;
    StartInv(p);
    AlwaysLowExactly(Start(p), run);
  }

  // ---- inputs on which it is not ---------------------------------------------

  lemma {:induction false} RunAppend(w: World, a: seq<Label>, b: seq<Label>, f: File)
    requires IsRun(w, a) && IsRun(After(w, a), b)
    ensures IsRun(w, a + b) && After(w, a + b) == After(After(w, a), b)
    ensures Overwrites(w, a + b, f) == Overwrites(w, a, f) + Overwrites(After(w, a), b, f)
    decreases |a|
  {
    hide Enabled, Taken, Next;
    if a == [] {
      assert a + b == b;
    } else {
      assert (a + b)[0] == a[0] && (a + b)[1..] == a[1..] + b;
      RunAppend(Next(w, a[0]), a[1..], b, f);
    }
  }

  lemma RunOne(w: World, l: Label)
    requires Enabled(w, l)
    ensures IsRun(w, [l]) && After(w, [l]) == Next(w, l)
    ensures forall f: File :: !Taken(w, l) ==> Overwrites(w, [l], f) == 0
    ensures forall f: File :: Taken(w, l) ==>
              Overwrites(w, [l], f) == if w.entries[Key(l.pid, w.next[l.pid])] == f then 1 else 0
  {
    hide Enabled, Taken, Next;
    assert [l][1..] == [] && [l][0] == l;
  }

  /** A process taking its steps until it is idle again. */
  lemma {:induction false} TicksRun(w: World, p: Pid, v: World, n: nat) returns (run: seq<Label>)
    requires p in w.procs && Ticks(w, p, n) == Some(v)
    ensures IsRun(w, run) && After(w, run) == v && forall f: File :: Overwrites(w, run, f) == 0
    decreases n
  {
    hide Advance;
    run := [];
    if n > 0 {
      var u := Advance(w, p, w.procs[p]);
      run := TicksRun(u, p, v, n - 1);
      RunOne(w, Tick(p));
      forall f: File
        ensures Overwrites(w, [Tick(p)] + run, f) == 0 && After(w, [Tick(p)] + run) == v
      {
        RunAppend(w, [Tick(p)], run, f);
      }
      RunAppend(w, [Tick(p)], run, 0);
      run := [Tick(p)] + run;
    }
  }

  function Ticks(w: World, p: Pid, n: nat): Option<World>
    decreases n
  {
    if n == 0 then Some(w)
    else if p in w.procs && w.procs[p] != IDLE && p in Advance(w, p, w.procs[p]).procs
    then Ticks(Advance(w, p, w.procs[p]), p, n - 1)
    else None
  }

  /** dup2 to a free number, undisturbed. */
  lemma Dup2Run(w: World, p: Pid, oldfd: Fd, newfd: Fd) returns (run: seq<Label>)
    requires Idle(w, p) && Key(p, oldfd) in w.entries && oldfd != newfd && Key(p, newfd) !in w.entries
    ensures IsRun(w, run) && forall f: File :: Overwrites(w, run, f) == 0
    ensures
      var f := w.entries[Key(p, oldfd)];
      After(w, run) ==
      w.(entries := w.entries[Key(p, newfd) := f], next := w.next[p := Raised(w.next[p], newfd)],
         counts := Incremented(w.counts, f))
  {
    var l, f := Dup2(p, oldfd, newfd), w.entries[Key(p, oldfd)];
    var u0 := Next(w, l);
    var u1 := CopyStep(u0, p, u0.procs[p]);
    var u2 := IncrStep(u1, p, u1.procs[p]);
    assert [Copy(Key(p, newfd), Key(p, oldfd))][1..] == [];
    assert u0.procs[p] != IDLE && Advance(u0, p, u0.procs[p]) == u1;
    assert u1.procs[p] != IDLE && Advance(u1, p, u1.procs[p]) == u2;
    assert Ticks(u2, p, 0) == Some(u2) && Ticks(u1, p, 1) == Some(u2) && Ticks(u0, p, 2) == Some(u2);
    assert u2.procs == w.procs;
    RunOne(w, l);
    var ticks := TicksRun(u0, p, u2, 2);
    forall f: File
      ensures Overwrites(w, [l] + ticks, f) == 0 && After(w, [l] + ticks) == u2
    {
      RunAppend(w, [l], ticks, f);
    }
    RunAppend(w, [l], ticks, 0);
    run := [l] + ticks;
  }

  /** One dup2 to the greatest number leaves the next number below an open one. */
  lemma GreatestNumber(p: Pid) returns (run: seq<Label>)
    ensures IsRun(Start(p), run)
    ensures var w := After(Start(p), run); Key(p, MAX_FD) in w.entries && p in w.next && w.next[p] == 3
  {
    run := Dup2Run(Start(p), p, 0, MAX_FD);
  }

  /** Two dup2 and an open: standard input has two entries and a count of three. */
  lemma TakenNumber(p: Pid) returns (run: seq<Label>)
    ensures IsRun(Start(p), run) && !NoneTaken(Start(p), run)
    ensures
      var w := After(Start(p), run);
      && Named(w, 0) == {Key(p, 0), Key(p, MAX_FD - 1)} && Count(w.counts, 0) == 3
      && Key(p, MAX_FD) in w.entries && w.entries[Key(p, MAX_FD)] == 3
      && OwingIncr(w, 0) == {} && OwingDecr(w, 0) == {}
  {
    hide Enabled, Next, After, IsRun, Named, OwingIncr, OwingDecr, Overwrites, NoneTaken;
    var w0 := Start(p);
    var a := Dup2Run(w0, p, 0, MAX_FD - 1);
    var b := Dup2Run(After(w0, a), p, 0, MAX_FD);
    var w2 := After(After(w0, a), b);
    var l := Open(p, 3);
    LastOpen(w2, p);
    RunOne(w2, l);
    RunAppend(w0, a, b, 0);
    RunAppend(w0, a + b, [l], 0);
    run := a + b + [l];
    NoneTakenExactly(w0, run);
  }

  lemma LastOpen(w: World, p: Pid)
    requires Idle(w, p) && w.next[p] == MAX_FD && 3 !in w.born && w.procs.Keys == {p}
    requires w.entries == map[Key(p, 0) := 0, Key(p, 1) := 1, Key(p, 2) := 2, Key(p, MAX_FD - 1) := 0, Key(p, MAX_FD) := 0]
    ensures
      var l := Open(p, 3);
      && Enabled(w, l) && Taken(w, l)
      && var v := Next(w, l);
         && Named(v, 0) == {Key(p, 0), Key(p, MAX_FD - 1)} && v.counts == w.counts
         && Key(p, MAX_FD) in v.entries && v.entries[Key(p, MAX_FD)] == 3
         && OwingIncr(v, 0) == {} && OwingDecr(v, 0) == {}
  {
  }
}
