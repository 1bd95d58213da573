/** fds.Table and fileRefs as the objects they are.  Each method is what its
    script of atomic steps in `Descriptors` does when no other process runs in
    between, so the results proved there over all interleavings are about it. */
module FileTable {
  import opened Words
  import opened Descriptors

  /** A table's own fields. */
  datatype Tab = Tab(files: map<Fd, File>, next: Fd, cloexec: set<Fd>)

  /** The shared counts, and how often each file has been closed. */
  datatype Refs = Refs(counts: map<File, int>, closed: map<File, nat>)

  datatype State = State(tab: Tab, refs: Refs)

  function ClosedTimes(r: Refs, f: File): nat {
    if f in r.closed then r.closed[f] else 0
  }

  function TakeRef(r: Refs, f: File): Refs {
    r.(counts := Incremented(r.counts, f))
  }

  function DropRef(r: Refs, f: File): Refs {
    var (counts, last) := Decremented(r.counts, f);
    Refs(counts, if last then r.closed[f := ClosedTimes(r, f) + 1] else r.closed)
  }

  /** Put f at fd, counted. */
  function PutFd(s: State, fd: Fd, f: File): State {
    State(s.tab.(files := s.tab.files[fd := f]), TakeRef(s.refs, f))
  }

  /** Put f at the next number, whether that is taken or not. */
  function AllocState(s: State, f: File): State {
    PutFd(s.(tab := s.tab.(next := Succ(s.tab.next))), s.tab.next, f)
  }

  function CloseFd(s: State, fd: Fd): State {
    if fd !in s.tab.files then s
    else State(s.tab.(files := s.tab.files - {fd}, cloexec := s.tab.cloexec - {fd}), DropRef(s.refs, s.tab.files[fd]))
  }

  function CloseFds(s: State, fds: seq<Fd>): State
    decreases |fds|
  {
    if fds == [] then s else CloseFds(CloseFd(s, fds[0]), fds[1..])
  }

  function Dup2State(s: State, oldfd: Fd, newfd: Fd): State
    requires oldfd in s.tab.files
  {
    var f := s.tab.files[oldfd];
    var t := if newfd == oldfd then s else PutFd(CloseFd(s, newfd), newfd, f);
    t.(tab := t.tab.(next := Raised(t.tab.next, newfd)))
  }

  /** Every element of `s`, each once, in some order: what a map's iteration gives. */
  ghost predicate Enumerates(order: seq<Fd>, s: set<Fd>) {
    && (forall x: Fd :: x in order <==> x in s)
    && (forall i, j :: 0 <= i < j < |order| ==> order[i] != order[j])
  }

  lemma EnumeratesNothing(all: set<Fd>)
    ensures Enumerates([], all - all)
  {
  }

  lemma EnumeratesAppend(order: seq<Fd>, all: set<Fd>, rest: set<Fd>, fd: Fd)
    requires Enumerates(order, all - rest) && rest <= all && fd in rest
    ensures Enumerates(order + [fd], all - (rest - {fd}))
  {
  }

  lemma MapBack(m: map<Fd, File>, rest: set<Fd>, fd: Fd)
    requires fd in rest && fd in m
    ensures (m - rest)[fd := m[fd]] == m - (rest - {fd})
  {
  }

  class FileRefs {
    var counts: map<File, int>
    var closed: map<File, nat>

    function View(): Refs
      reads this
    {
      Refs(counts, closed)
    }

    constructor ()
      ensures View() == Refs(map[], map[])
    {
      counts, closed := map[], map[];
    }

    method Incr(f: File)
      modifies this
      ensures View() == TakeRef(old(View()), f)
    {
      counts := counts[f := (if f in counts then counts[f] else 0) + 1];
    }

    /** The file is closed exactly when the count falls to zero. */
    method DecrAndMaybeClose(f: File)
      modifies this
      ensures View() == DropRef(old(View()), f)
    {
      var c := (if f in counts then counts[f] else 0) - 1;
      counts := counts[f := c];
      var last := c <= 0;
      if last {
        counts := counts - {f};
        assert counts == old(counts) - {f};
        CloseHost(f);
      }
    }

    /** File.Close, as a record of the call. */
    method CloseHost(f: File)
      modifies this`closed
      ensures closed == old(closed)[f := ClosedTimes(old(View()), f) + 1]
    {
      closed := closed[f := (if f in closed then closed[f] else 0) + 1];
    }
  }

  class Table {
    var entries: map<Fd, File>
    var next: Fd
    var cloexec: set<Fd>
    const refs: FileRefs

    function View(): State
      reads this, refs
    {
      State(Tab(entries, next, cloexec), refs.View())
    }

    /** NewTable: 0, 1 and 2 open on three files. */
    constructor ()
      ensures View() == State(Tab(map[0 := 0, 1 := 1, 2 := 2], 3, {}), Refs(map[0 := 1, 1 := 1, 2 := 1], map[]))
      ensures fresh(refs)
    {
      entries, next, cloexec := map[0 := 0, 1 := 1, 2 := 2], 3, {};
      var r := new FileRefs();
      refs := r;
      new;
      refs.Incr(0);
      refs.Incr(1);
      refs.Incr(2);
    }

    constructor Copy(entries: map<Fd, File>, next: Fd, cloexec: set<Fd>, refs: FileRefs)
      ensures View() == State(Tab(entries, next, cloexec), refs.View()) && this.refs == refs
    {
      this.entries, this.next, this.cloexec, this.refs := entries, next, cloexec, refs;
    }

    method SetCloexec(fd: Fd, val: bool)
      modifies this`cloexec
      ensures cloexec == if val then old(cloexec) + {fd} else old(cloexec) - {fd}
    {
      if val {
        cloexec := cloexec + {fd};
      } else {
        cloexec := cloexec - {fd};
      }
    }

    method Alloc(f: File) returns (fd: Fd)
      modifies this, refs
      ensures fd == old(next) && View() == AllocState(old(View()), f)
    {
      fd := next;
      next := Succ(next);
      entries := entries[fd := f];
      refs.Incr(f);
    }

    method Close(fd: Fd) returns (ok: bool)
      modifies this, refs
      ensures ok == (fd in old(entries))
      ensures View() == CloseFd(old(View()), fd)
    {
      if fd !in entries {
        return false;
      }
      var f := entries[fd];
      entries := entries - {fd};
      cloexec := cloexec - {fd};
      refs.DecrAndMaybeClose(f);
      return true;
    }

    method Dup(oldfd: Fd) returns (fd: Fd, ok: bool)
      modifies this, refs
      ensures ok == (oldfd in old(entries))
      ensures !ok ==> View() == old(View())
      ensures ok ==>
                fd == old(next) && View() == AllocState(old(View()), old(entries)[oldfd])
    {
      if oldfd !in entries {
        return 0, false;
      }
      fd := Alloc(entries[oldfd]);
      ok := true;
    }

    method Dup2(oldfd: Fd, newfd: Fd) returns (fd: Fd, ok: bool)
      modifies this, refs
      ensures ok == (oldfd in old(entries))
      ensures !ok ==> View() == old(View())
      ensures ok ==> fd == newfd && View() == Dup2State(old(View()), oldfd, newfd)
    {
      if oldfd !in entries {
        return 0, false;
      }
      var f := entries[oldfd];
      if newfd != oldfd {
        if newfd in entries {
          var _ := Close(newfd);
        }
        entries := entries[newfd := f];
        refs.Incr(f);
      }
      if Succ(newfd) > next {
        next := Succ(newfd);
      }
      return newfd, true;
    }

    /** Close every descriptor of a set, in whatever order the map yields them. */
    method CloseEach(fds: set<Fd>) returns (ghost order: seq<Fd>)
      modifies this, refs
      ensures Enumerates(order, fds) && View() == CloseFds(old(View()), order)
    {
      hide Enumerates;
      order := [];
      EnumeratesNothing(fds);
      var rest := fds;
      while rest != {}
        invariant rest <= fds && Enumerates(order, fds - rest)
        invariant View() == CloseFds(old(View()), order)
        decreases |rest|
      {
        var fd :| fd in rest;
        CloseFdsAppend(old(View()), order, fd);
        EnumeratesAppend(order, fds, rest, fd);
        var _ := Close(fd);
        order := order + [fd];
        rest := rest - {fd};
      }
      assert fds - rest == fds;
    }

    method CloseOnExec() returns (ghost order: seq<Fd>)
      modifies this, refs
      ensures Enumerates(order, old(cloexec)) && View() == CloseFds(old(View()), order)
      ensures entries.Keys == old(entries.Keys) - old(cloexec) && entries.Keys !! cloexec
    {
      order := CloseEach(cloexec);
      OnlyUnmarkedSurvive(old(View()), order);
    }

    method CloseAll() returns (ghost order: seq<Fd>)
      modifies this, refs
      ensures Enumerates(order, old(entries.Keys)) && View() == CloseFds(old(View()), order)
      ensures entries == map[]
    {
      order := CloseEach(entries.Keys);
      CloseFdsFiles(old(View()), order);
      assert (set fd | fd in order) == old(entries.Keys);
      assert entries.Keys == {};
    }

    /** fork's half: the same descriptors on the same files, sharing the counts. */
    method Clone() returns (out: Table, ghost order: seq<Fd>)
      modifies refs
      ensures fresh(out) && out.refs == refs && Enumerates(order, entries.Keys)
      ensures View().tab == old(View().tab) && out.View().tab == View().tab
      ensures refs.View() == TakeRefs(old(View()), order)
    {
      hide Enumerates, TakeRefs, TakeRef;
      ghost var was := View();
      var files := entries;
      order := [];
      EnumeratesNothing(files.Keys);
      TakeNothing(was);
      out := new Table.Copy(map[], next, {}, refs);
      var rest := files.Keys;
      while rest != {}
        invariant rest <= files.Keys && Enumerates(order, files.Keys - rest)
        invariant out.entries == files - rest && out.next == next
        invariant refs.View() == TakeRefs(was, order)
        decreases |rest|
      {
        var fd :| fd in rest;
        TakeRefsAppend(was, order, fd);
        EnumeratesAppend(order, files.Keys, rest, fd);
        MapBack(files, rest, fd);
        out.entries := out.entries[fd := files[fd]];
        refs.Incr(files[fd]);
        order := order + [fd];
        rest := rest - {fd};
      }
      NothingLeft(files);
      out.cloexec := cloexec;
    }
  }

  lemma NothingLeft(files: map<Fd, File>)
    ensures files.Keys - {} == files.Keys && files - {} == files
  {
  }

  /** One more reference for each listed descriptor's file. */
  function TakeRefs(s: State, fds: seq<Fd>): Refs
    decreases |fds|
  {
    if fds == [] || fds[|fds| - 1] !in s.tab.files then s.refs
    else TakeRef(TakeRefs(s, fds[..|fds| - 1]), s.tab.files[fds[|fds| - 1]])
  }

  lemma TakeNothing(s: State)
    ensures TakeRefs(s, []) == s.refs
  {
  }

  lemma TakeRefsAppend(s: State, fds: seq<Fd>, fd: Fd)
    requires fd in s.tab.files
    ensures TakeRefs(s, fds + [fd]) == TakeRef(TakeRefs(s, fds), s.tab.files[fd])
  {
    assert (fds + [fd])[..|fds|] == fds;
  }

  lemma {:induction false} CloseFdsAppend(s: State, fds: seq<Fd>, fd: Fd)
    ensures CloseFds(s, fds + [fd]) == CloseFd(CloseFds(s, fds), fd)
    decreases |fds|
  {
    if fds != [] {
      CloseFdsAppend(CloseFd(s, fds[0]), fds[1..], fd);
      assert (fds + [fd])[1..] == fds[1..] + [fd];
    } else {
      assert CloseFds(s, [fd]) == CloseFds(CloseFd(s, fd), []);
    }
  }

  /** Exactly the listed descriptors are gone. */
  lemma {:induction false} CloseFdsFiles(s: State, fds: seq<Fd>)
    ensures CloseFds(s, fds).tab.files == s.tab.files - (set fd | fd in fds)
    ensures CloseFds(s, fds).tab.next == s.tab.next
    decreases |fds|
  {
    if fds != [] {
      CloseFdsFiles(CloseFd(s, fds[0]), fds[1..]);
      assert (set fd | fd in fds) == (set fd | fd in fds[1..]) + {fds[0]};
    }
  }

  /** A listed descriptor that was open loses its mark; no other mark changes. */
  lemma {:induction false} CloseFdsMarks(s: State, fds: seq<Fd>)
    ensures forall fd: Fd :: fd in CloseFds(s, fds).tab.cloexec <==>
              fd in s.tab.cloexec && !(fd in fds && fd in s.tab.files)
    decreases |fds|
  {
    if fds != [] {
      var t := CloseFd(s, fds[0]);
      CloseFdsMarks(t, fds[1..]);
      forall fd: Fd
        ensures fd in CloseFds(s, fds).tab.cloexec <==> fd in s.tab.cloexec && !(fd in fds && fd in s.tab.files)
      {
        assert fd in fds <==> fd == fds[0] || fd in fds[1..];
      }
    }
  }

  /** execve: of the open descriptors exactly the unmarked ones survive, none of
      them is marked, and the marks left are those of numbers that were not open.
      So a number reused after an execve or a close does not inherit a mark. */
  lemma OnlyUnmarkedSurvive(s: State, order: seq<Fd>)
    requires Enumerates(order, s.tab.cloexec)
    ensures
      var t := CloseFds(s, order);
      && (forall fd: Fd :: fd in t.tab.files <==> fd in s.tab.files && fd !in s.tab.cloexec)
      && (forall fd: Fd :: fd in t.tab.files ==> t.tab.files[fd] == s.tab.files[fd] && fd !in t.tab.cloexec)
      && (forall fd: Fd :: fd in t.tab.cloexec <==> fd in s.tab.cloexec && fd !in s.tab.files)
  {
    CloseFdsFiles(s, order);
    CloseFdsMarks(s, order);
  }

  /** close and dup2: the number closed, or reused by dup2, carries no mark; the
      marks of all other numbers stay. */
  lemma CloseUnmarks(s: State, fd: Fd)
    requires fd in s.tab.files
    ensures CloseFd(s, fd).tab.cloexec == s.tab.cloexec - {fd}
    ensures fd !in CloseFd(s, fd).tab.files && CloseFd(s, fd).tab.files == s.tab.files - {fd}
    ensures forall from: Fd :: from in s.tab.files && from != fd ==>
              fd !in Dup2State(s, from, fd).tab.cloexec && Dup2State(s, from, fd).tab.files[fd] == s.tab.files[from]
  {
    CloseFdsMarks(s, [fd]);
    CloseFdsFiles(s, [fd]);
    assert CloseFds(s, [fd]) == CloseFds(CloseFd(s, fd), []);
  }

  // ---- methods are scripts run alone -----------------------------------------

  function Work(x: Process): nat {
    4 * |x.closing| + 3 * |x.copies| + (if x.spawn.Some? then 1 else 0)
    + match x.phase case OwesDecr(_) => 2 case Ready => 0 case _ => 1
  }

  lemma AdvanceWorks(w: World, p: Pid, x: Process)
    requires x != IDLE
    ensures p in Advance(w, p, x).procs && Work(Advance(w, p, x).procs[p]) < Work(x)
  {
    hide DeleteStep, CopyStep, DecrStep, Work;
    match x.phase
    case OwesIncr(_, _, _) => assert Work(x.(phase := Ready)) < Work(x) by { ReadyWorks(x); }
    case OwesClose(_) => assert Work(x.(phase := Ready)) < Work(x) by { ReadyWorks(x); }
    case OwesDecr(f) => DecrWorks(w, p, x);
    case Ready =>
      if x.closing != [] {
        DeleteWorks(w, p, x);
      } else if x.copies != [] {
        CopyWorks(w, p, x);
      } else {
        ReadyWorks(x);
      }
  }

  lemma ReadyWorks(x: Process)
    ensures !x.phase.Ready? ==> Work(x.(phase := Ready)) < Work(x)
    ensures x.spawn.Some? ==> Work(IDLE) < Work(x)
  {
  }

  lemma DecrWorks(w: World, p: Pid, x: Process)
    requires x.phase.OwesDecr?
    ensures p in DecrStep(w, p, x).procs && Work(DecrStep(w, p, x).procs[p]) < Work(x)
  {
    hide Count;
    var y := DecrStep(w, p, x).procs[p];
    assert y.closing == x.closing && y.copies == x.copies && y.spawn == x.spawn && !y.phase.OwesDecr?;
  }

  lemma DeleteWorks(w: World, p: Pid, x: Process)
    requires x.phase.Ready? && x.closing != []
    ensures p in DeleteStep(w, p, x).procs && Work(DeleteStep(w, p, x).procs[p]) < Work(x)
  {
    var y := DeleteStep(w, p, x).procs[p];
    assert y.closing == x.closing[1..] && y.copies == x.copies && y.spawn == x.spawn;
  }

  lemma CopyWorks(w: World, p: Pid, x: Process)
    requires x.phase.Ready? && x.copies != []
    ensures p in CopyStep(w, p, x).procs && Work(CopyStep(w, p, x).procs[p]) < Work(x)
  {
    var y := CopyStep(w, p, x).procs[p];
    assert y.copies == x.copies[1..] && y.closing == x.closing && y.spawn == x.spawn && !y.phase.OwesDecr?;
  }

  /** p runs its script to the end while every other process stands still. */
  ghost function Alone(w: World, p: Pid): World
    requires p in w.procs
    decreases Work(w.procs[p])
  {
    if w.procs[p] == IDLE then w
    else
      AdvanceWorks(w, p, w.procs[p]);
      Alone(Advance(w, p, w.procs[p]), p)
  }

  lemma AloneStep(w: World, v: World, p: Pid)
    requires p in w.procs && w.procs[p] != IDLE && v == Advance(w, p, w.procs[p])
    ensures p in v.procs && Alone(w, p) == Alone(v, p)
  {
    hide Work, Advance;
    AdvanceWorks(w, p, w.procs[p]);
  }

  lemma FilesPut(w: World, v: World, p: Pid, fd: Fd, f: File)
    requires v.entries == w.entries[Key(p, fd) := f]
    ensures FilesOf(v, p) == FilesOf(w, p)[fd := f]
  {
    FilesAre(w, p);
    FilesAre(v, p);
  }

  lemma FilesGone(w: World, v: World, p: Pid, fd: Fd)
    requires v.entries == w.entries - {Key(p, fd)}
    ensures FilesOf(v, p) == FilesOf(w, p) - {fd}
  {
    FilesAre(w, p);
    FilesAre(v, p);
  }

  lemma FilesAre(w: World, p: Pid)
    ensures forall fd: Fd :: fd in FilesOf(w, p) <==> Key(p, fd) in w.entries
    ensures forall fd: Fd :: fd in FilesOf(w, p) ==> FilesOf(w, p)[fd] == w.entries[Key(p, fd)]
  {
    forall fd: Fd
      ensures fd in FilesOf(w, p) <==> Key(p, fd) in w.entries
    {
      if Key(p, fd) in w.entries {
        assert Key(p, fd).fd in FilesOf(w, p);
      }
    }
  }

  lemma FilesSame(w: World, v: World, p: Pid)
    requires v.entries == w.entries
    ensures FilesOf(v, p) == FilesOf(w, p)
  {
    FilesAre(w, p);
    FilesAre(v, p);
  }

  ghost function FilesOf(w: World, p: Pid): map<Fd, File> {
    map k | k in w.entries && k.pid == p :: k.fd := w.entries[k]
  }

  /** The object's state is p's part of the world. */
  ghost predicate Agrees(s: State, w: World, p: Pid) {
    && s.tab.files == FilesOf(w, p)
    && s.refs == Refs(w.counts, w.closed)
    && p in w.next && s.tab.next == w.next[p]
  }

  /** Nothing of the other processes has changed. */
  ghost predicate OthersSame(w: World, v: World, p: Pid) {
    && (forall k: Key :: k.pid != p ==> (k in v.entries <==> k in w.entries))
    && (forall k: Key :: k.pid != p && k in w.entries ==> v.entries[k] == w.entries[k])
    && (forall q :: q != p ==> (q in v.procs <==> q in w.procs))
    && (forall q :: q != p && q in w.procs ==> v.procs[q] == w.procs[q])
    && v.next == w.next && v.embryos == w.embryos
  }

  /** One descriptor closed: delete, decrement, and Close on the last reference. */
  lemma AloneCloseOne(w: World, p: Pid, s: State) returns (v: World)
    requires p in w.procs && w.procs[p].phase.Ready? && w.procs[p].closing != [] && Agrees(s, w, p)
    ensures p in v.procs && v.procs[p] == w.procs[p].(closing := w.procs[p].closing[1..])
    ensures Alone(w, p) == Alone(v, p) && OthersSame(w, v, p)
    ensures Agrees(CloseFd(s, w.procs[p].closing[0]), v, p)
  {
    hide Alone, FilesOf;
    var x := w.procs[p];
    var k := Key(p, x.closing[0]);
    v := DeleteStep(w, p, x);
    AloneStep(w, v, p);
    FilesAre(w, p);
    if k in w.entries {
      FilesGone(w, v, p, k.fd);
      var u := AloneDrop(v, p);
      FilesSame(v, u, p);
      v := u;
    } else {
      FilesSame(w, v, p);
    }
  }

  lemma AloneDrop(w: World, p: Pid) returns (v: World)
    requires p in w.procs && w.procs[p].phase.OwesDecr?
    ensures v.procs == w.procs[p := w.procs[p].(phase := Ready)]
    ensures v.entries == w.entries && v.next == w.next && v.embryos == w.embryos
    ensures Refs(v.counts, v.closed) == DropRef(Refs(w.counts, w.closed), w.procs[p].phase.file)
    ensures Alone(w, p) == Alone(v, p)
  {
    hide Alone;
    v := DecrStep(w, p, w.procs[p]);
    AloneStep(w, v, p);
    if v.procs[p].phase.OwesClose? {
      var u := CloseStep(v, p, v.procs[p]);
      AloneStep(v, u, p);
      v := u;
    }
  }

  /** Several closed, in the order listed. */
  lemma {:induction false} AloneCloses(w: World, p: Pid, s: State) returns (v: World)
    requires p in w.procs && w.procs[p].phase.Ready? && Agrees(s, w, p)
    ensures p in v.procs && v.procs[p] == w.procs[p].(closing := [])
    ensures Alone(w, p) == Alone(v, p) && OthersSame(w, v, p)
    ensures Agrees(CloseFds(s, w.procs[p].closing), v, p)
    decreases |w.procs[p].closing|
  {
    hide Agrees, Alone;
    var x := w.procs[p];
    if x.closing == [] {
      v := w;
    } else {
      var u := AloneCloseOne(w, p, s);
      v := AloneCloses(u, p, CloseFd(s, x.closing[0]));
    }
  }

  /** The end of a script. */
  lemma AloneDone(w: World, p: Pid)
    requires p in w.procs && w.procs[p] == IDLE
    ensures Alone(w, p) == w
  {
  }

  /** Close, CloseAll and CloseOnExec. */
  lemma CloseIsScript(w: World, p: Pid, s: State, fds: seq<Fd>)
    requires Idle(w, p) && Agrees(s, w, p)
    ensures
      var v := Alone(Begin(w, p, Process(Ready, fds, [], None)), p);
      Agrees(CloseFds(s, fds), v, p) && OthersSame(w, v, p)
  {
    hide Alone, FilesOf;
    var u := Begin(w, p, Process(Ready, fds, [], None));
    FilesSame(w, u, p);
    var v := AloneCloses(u, p, s);
    AloneDone(v, p);
  }

  lemma AllocIsScript(w: World, p: Pid, s: State, f: File)
    requires Enabled(w, Open(p, f)) && Agrees(s, w, p)
    ensures
      var v := Alone(Next(w, Open(p, f)), p);
      Agrees(AllocState(s, f), v, p) && v.procs == w.procs
  {
    hide Alone, FilesOf;
    AloneAllocates(w, p, s, f, None);
  }

  lemma AloneAllocates(w: World, p: Pid, s: State, f: File, from: Option<Key>)
    requires Idle(w, p) && Agrees(s, w, p)
    ensures
      var v := Alone(Allocate(w, p, f, from), p);
      Agrees(AllocState(s, f), v, p) && v.procs == w.procs
  {
    hide Alone, FilesOf;
    var u := Allocate(w, p, f, from);
    FilesPut(w, u, p, s.tab.next, f);
    var v := IncrStep(u, p, u.procs[p]);
    FilesSame(u, v, p);
    AloneStep(u, v, p);
    AloneDone(v, p);
    assert v.procs == w.procs;
  }

  /** A copied entry, counted. */
  lemma AloneCopy(w: World, p: Pid, s: State, c: Copy) returns (v: World)
    requires p in w.procs && w.procs[p] == Process(Ready, [], [c], None) && Agrees(s, w, p)
    requires c.to.pid == p && c.from.pid == p && c.from in w.entries
    ensures Alone(w, p) == v && v.procs == w.procs[p := IDLE] && v.next == w.next
    ensures Agrees(PutFd(s, c.to.fd, w.entries[c.from]), v, p)
  {
    hide Alone, FilesOf;
    var u := CopyStep(w, p, w.procs[p]);
    v := IncrStep(u, p, u.procs[p]);
    AloneStep(w, u, p);
    AloneStep(u, v, p);
    AloneDone(v, p);
    FilesPut(w, u, p, c.to.fd, w.entries[c.from]);
    FilesSame(u, v, p);
  }

  lemma Dup2IsScript(w: World, p: Pid, s: State, oldfd: Fd, newfd: Fd)
    requires Enabled(w, Dup2(p, oldfd, newfd)) && Agrees(s, w, p)
    ensures oldfd in s.tab.files
    ensures Agrees(Dup2State(s, oldfd, newfd), Alone(Next(w, Dup2(p, oldfd, newfd)), p), p)
  {
    hide Alone, FilesOf;
    FilesAre(w, p);
    var u := Next(w, Dup2(p, oldfd, newfd));
    var t := s.(tab := s.tab.(next := Raised(s.tab.next, newfd)));
    FilesSame(w, u, p);
    if oldfd == newfd {
      AloneDone(u, p);
    } else {
      var fds := u.procs[p].closing;
      var v := AloneCloses(u, p, t);
      assert CloseFds(t, fds) == CloseFd(t, newfd) by {
        if fds != [] {
          assert CloseFds(CloseFd(t, newfd), []) == CloseFd(t, newfd);
        }
      }
      CloseFdsFiles(t, fds);
      FilesAre(v, p);
      var z := AloneCopy(v, p, CloseFd(t, newfd), Copy(Key(p, newfd), Key(p, oldfd)));
    }
  }

  lemma DupIsScript(w: World, p: Pid, s: State, oldfd: Fd)
    requires Enabled(w, Dup(p, oldfd)) && Agrees(s, w, p)
    ensures oldfd in s.tab.files
    ensures
      var v := Alone(Next(w, Dup(p, oldfd)), p);
      Agrees(AllocState(s, s.tab.files[oldfd]), v, p) && v.procs == w.procs
  {
    hide Alone, FilesOf;
    FilesAre(w, p);
    AloneAllocates(w, p, s, w.entries[Key(p, oldfd)], Some(Key(p, oldfd)));
  }

  // ---- Clone -----------------------------------------------------------------

  /** Half-way through Clone: p's table as it was, the listed part of it under the
      child's name, and that part counted. */
  ghost predicate Cloning(s: State, w: World, p: Pid, c: Pid, done: seq<Fd>) {
    && FilesOf(w, p) == s.tab.files
    && FilesOf(w, c) == (map fd | fd in s.tab.files && fd in done :: s.tab.files[fd])
    && Refs(w.counts, w.closed) == TakeRefs(s, done)
  }

  lemma FilesOther(w: World, v: World, p: Pid, k: Key, f: File)
    requires v.entries == w.entries[k := f] && k.pid != p
    ensures FilesOf(v, p) == FilesOf(w, p)
  {
    FilesAre(w, p);
    FilesAre(v, p);
  }

  /** One entry copied and counted. */
  lemma AloneCloneOne(w: World, p: Pid, s: State, c: Pid, done: seq<Fd>, todo: seq<Fd>) returns (v: World)
    requires p != c && todo != [] && todo[0] in s.tab.files && Cloning(s, w, p, c, done)
    requires p in w.procs && w.procs[p] == Process(Ready, [], CloneCopies(p, c, todo), Some(c))
    ensures v.procs == w.procs[p := Process(Ready, [], CloneCopies(p, c, todo[1..]), Some(c))]
    ensures v.next == w.next && v.embryos == w.embryos
    ensures Alone(w, p) == Alone(v, p) && Cloning(s, v, p, c, done + [todo[0]])
  {
    hide Alone, FilesOf, TakeRefs;
    var fd := todo[0];
    var f := s.tab.files[fd];
    FilesAre(w, p);
    var u := CopyStep(w, p, w.procs[p]);
    assert CloneCopies(p, c, todo)[1..] == CloneCopies(p, c, todo[1..]);
    v := IncrStep(u, p, u.procs[p]);
    AloneStep(w, u, p);
    AloneStep(u, v, p);
    FilesPut(w, u, c, fd, f);
    FilesOther(w, u, p, Key(c, fd), f);
    FilesSame(u, v, p);
    FilesSame(u, v, c);
    TakeRefsAppend(s, done, fd);
  }

  lemma {:induction false} AloneClones(w: World, p: Pid, s: State, c: Pid, done: seq<Fd>, todo: seq<Fd>) returns (v: World)
    requires p != c && (forall fd :: fd in todo ==> fd in s.tab.files) && Cloning(s, w, p, c, done)
    requires p in w.procs && w.procs[p] == Process(Ready, [], CloneCopies(p, c, todo), Some(c))
    ensures v.procs == w.procs[p := IDLE][c := IDLE]
    ensures v.next == w.next && v.embryos == w.embryos - {c}
    ensures Alone(w, p) == v && Cloning(s, v, p, c, done + todo)
    decreases |todo|
  {
    hide Alone, FilesOf, TakeRefs;
    if todo == [] {
      v := FinishStep(w, p, w.procs[p]);
      AloneStep(w, v, p);
      AloneDone(v, p);
      FilesSame(w, v, p);
      FilesSame(w, v, c);
      assert done + todo == done;
    } else {
      var u := AloneCloneOne(w, p, s, c, done, todo);
      v := AloneClones(u, p, s, c, done + [todo[0]], todo[1..]);
      assert done + [todo[0]] + todo[1..] == done + todo;
      assert v.procs == w.procs[p := IDLE][c := IDLE];
    }
  }

  lemma ForkStarts(w: World, p: Pid, s: State, c: Pid, fds: seq<Fd>)
    requires Enabled(w, Fork(p, c, fds)) && Agrees(s, w, p)
    ensures p != c && Enumerates(fds, s.tab.files.Keys) && (forall fd :: fd in fds ==> fd in s.tab.files)
    ensures Cloning(s, Next(w, Fork(p, c, fds)), p, c, [])
  {
    hide FilesOf;
    FilesAre(w, p);
    FilesAre(w, c);
    var u := Next(w, Fork(p, c, fds));
    FilesSame(w, u, p);
    FilesSame(w, u, c);
    assert FilesOf(w, c) == map[];
  }

  lemma CloningEnds(s: State, w: World, p: Pid, c: Pid, fds: seq<Fd>)
    requires Cloning(s, w, p, c, fds) && Enumerates(fds, s.tab.files.Keys)
    ensures FilesOf(w, c) == s.tab.files
  {
    hide FilesOf;
    assert (map fd | fd in s.tab.files && fd in fds :: s.tab.files[fd]) == s.tab.files;
  }

  /** fork: parent and child end with equal tables, and the counts are Clone's. */
  lemma ForkIsScript(w: World, p: Pid, s: State, c: Pid, fds: seq<Fd>)
    requires Enabled(w, Fork(p, c, fds)) && Agrees(s, w, p)
    ensures Enumerates(fds, s.tab.files.Keys)
    ensures
      var v := Alone(Next(w, Fork(p, c, fds)), p);
      && Agrees(s.(refs := TakeRefs(s, fds)), v, p) && Agrees(s.(refs := TakeRefs(s, fds)), v, c)
      && v.procs == w.procs[c := IDLE] && v.embryos == w.embryos
  {
    hide Alone, FilesOf, TakeRefs, Enumerates, Lists;
    ForkStarts(w, p, s, c, fds);
    var u := Next(w, Fork(p, c, fds));
    var v := AloneClones(u, p, s, c, [], fds);
    assert [] + fds == fds;
    CloningEnds(s, v, p, c, fds);
    assert v.procs == w.procs[c := IDLE];
  }
}
