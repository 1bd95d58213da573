/** The mount table (internal/vfs/vfs.go) and procfs-relative paths
    (internal/syscalls/helpers.go): the longest covering mount decides. */
module Mounts {
  import opened Words
  import opened Paths

  datatype MountInfo = MountInfo(source: string, fstype: string, flags: int, data: string)

  type Table = map<string, MountInfo>

  /** strings.ToLower on ASCII names. */
  function Lower(s: string): (r: string)
    ensures |r| == |s|
    ensures forall i :: 0 <= i < |s| ==> !('A' <= r[i] <= 'Z')
    ensures forall i :: 0 <= i < |s| ==> r[i] as int - s[i] as int == if 'A' <= s[i] <= 'Z' then 32 else 0
  {
    seq(|s|, i requires 0 <= i < |s| => if 'A' <= s[i] <= 'Z' then s[i] - 'A' + 'a' else s[i])
  }

  /** strings.TrimSuffix(mp, "/"). */
  function TrimOneSlash(mp: string): string {
    if mp != "" && mp[|mp| - 1] == '/' then mp[..|mp| - 1] else mp
  }

  predicate Covers(mp: string, path: string) {
    path == mp || TrimOneSlash(mp) + "/" <= path
  }

  /** The most specific mountpoint covering a path. */
  ghost predicate IsBest(m: Table, path: string, mp: string) {
    mp in m && Covers(mp, path) && forall o :: o in m && Covers(o, path) ==> |o| <= |mp|
  }

  /** Every covering mountpoint is a prefix of the path. */
  lemma CoversIsPrefix(mp: string, path: string)
    requires Covers(mp, path)
    ensures mp <= path
  {
    if path != mp && mp != "" && mp[|mp| - 1] == '/' {
      assert TrimOneSlash(mp) + "/" == mp;
    }
  }

  lemma SplitCanonical(cs: seq<string>)
    requires AllPlain(cs) && cs != []
    ensures Split("/" + Join(cs)) == [""] + cs
    ensures TrimOneSlash("/" + Join(cs)) == "/" + Join(cs)
  {
    hide Join;
    var p := "/" + Join(cs);
    assert p[1..] == Join(cs);
    SplitJoin(cs);
    assert Split(p) == [""] + cs;
    assert Plain(cs[|cs| - 1]) && ([""] + cs)[|cs|] != "";
    if p[|p| - 1] == '/' {
      var q := p[..|p| - 1];
      assert p == q + "/" + "";
      SplitAppend(q, "");
      SplitPlain("");
      assert false;
    }
  }

  lemma {:induction false} JoinBoth(a: seq<string>, b: seq<string>)
    requires a != [] && b != []
    ensures Join(a + b) == Join(a) + "/" + Join(b)
    decreases |a|
  {
    assert (a + b)[0] == a[0] && (a + b)[1..] == a[1..] + b;
    if |a| > 1 {
      JoinBoth(a[1..], b);
      assert Join(a + b) == a[0] + "/" + (Join(a[1..]) + "/" + Join(b));
    } else {
      assert a[1..] + b == b;
    }
  }

  /** A mountpoint covers exactly the paths below it in the tree: those whose
      components start with its own, so that /ab is not below /a. */
  lemma CoversIsBelow(mp: string, path: string)
    requires NormPath(mp) == mp && NormPath(path) == path
    ensures Covers(mp, path) <==> Components(mp) <= Components(path)
  {
    hide Components, Join, Split;
    var a, b := Components(mp), Components(path);
    NormIs(mp);
    NormIs(path);
    ComponentsPlain(mp);
    ComponentsPlain(path);
    if a == [] {
      JoinNothing();
      assert "/" <= path;
    } else {
      SplitCanonical(a);
      if a <= b && a != b {
        assert b == a + b[|a|..];
        JoinBoth(a, b[|a|..]);
        assert path == mp + "/" + Join(b[|a|..]);
      }
      if mp + "/" <= path {
        var rest := path[|mp| + 1..];
        assert path == mp + "/" + rest;
        SplitAppend(mp, rest);
        if b != [] {
          SplitCanonical(b);
          assert b == ([""] + b)[1..] == a + Split(rest);
        } else {
          JoinNothing();
          assert false;
        }
      }
    }
  }

  /** So there is only one most specific mountpoint. */
  lemma BestIsUnique(m: Table, path: string, a: string, b: string)
    requires IsBest(m, path, a) && IsBest(m, path, b)
    ensures a == b
  {
    CoversIsPrefix(a, path);
    CoversIsPrefix(b, path);
    assert |a| == |b|;
    assert a == path[..|a|] && b == path[..|b|];
  }

  /** The mount table of one VFS. */
  class MountTable {
    var mounts: Table

    constructor ()
      ensures mounts == map[]
    {
      mounts := map[];
    }

    method Mount(source: string, target: string, fstype: string, flags: int, data: string)
      modifies this
      ensures mounts == old(mounts)[NormPath(target) := MountInfo(if source == "" then "none" else source, Lower(fstype), flags, data)]
    {
      var t := NormPathLoop(target);
      var s := if source == "" then "none" else source;
      mounts := mounts[t := MountInfo(s, Lower(fstype), flags, data)];
    }

    /** False is EINVAL: nothing is mounted there. */
    method Umount(target: string) returns (ok: bool)
      modifies this
      ensures ok == (NormPath(target) in old(mounts))
      ensures mounts == old(mounts) - {NormPath(target)}
    {
      var t := NormPathLoop(target);
      ok := t in mounts;
      mounts := mounts - {t};
    }

    /** The scan of both lookups, over the map in any order. */
    method Best(path: string) returns (best: Option<string>)
      ensures best.Some? ==> IsBest(mounts, path, best.value)
      ensures best.None? ==> forall o :: o in mounts ==> !Covers(o, path)
    {
      best := None;
      var bestLen := -1;
      var rest := mounts.Keys;
      while rest != {}
        invariant rest <= mounts.Keys
        invariant bestLen == if best.Some? then |best.value| else -1
        invariant best.Some? ==> best.value in mounts && Covers(best.value, path)
        invariant forall o :: o in mounts && o !in rest && Covers(o, path) ==> |o| <= bestLen
        decreases |rest|
      {
        var mp :| mp in rest;
        if (path == mp || TrimOneSlash(mp) + "/" <= path) && |mp| > bestLen {
          best, bestLen := Some(mp), |mp|;
        }
        rest := rest - {mp};
      }
    }

    /** The fstype of the most specific mount covering the path, whatever the
        order of the map; empty if there is none. */
    method MountType(guest: string) returns (fstype: string)
      ensures forall mp :: IsBest(mounts, NormPath(guest), mp) ==> fstype == mounts[mp].fstype
      ensures (forall mp :: mp in mounts ==> !Covers(mp, NormPath(guest))) ==> fstype == ""
    {
      var path := NormPathLoop(guest);
      var best := Best(path);
      if best.Some? {
        forall mp | IsBest(mounts, path, mp)
          ensures mp == best.value
        {
          BestIsUnique(mounts, path, mp, best.value);
        }
        fstype := mounts[best.value].fstype;
      } else {
        fstype := "";
      }
    }

    method MountPointFor(guest: string) returns (mp: string)
      ensures forall b :: IsBest(mounts, NormPath(guest), b) ==> mp == b
      ensures (forall o :: o in mounts ==> !Covers(o, NormPath(guest))) ==> mp == ""
    {
      var path := NormPathLoop(guest);
      var best := Best(path);
      if best.Some? {
        forall b | IsBest(mounts, path, b)
          ensures b == best.value
        {
          BestIsUnique(mounts, path, b, best.value);
        }
        mp := best.value;
      } else {
        mp := "";
      }
    }

    /** procRel: the name inside procfs, if a proc mount covers the path.  The
        name put back under that mountpoint names the path again. */
    method ProcRel(cwd: string, path: string) returns (r: Option<string>)
      ensures
        var full := ResolveAbs(cwd, path);
        && (r.Some? <==> exists mp :: IsBest(mounts, full, mp) && mounts[mp].fstype == "proc")
        && (forall mp :: IsBest(mounts, full, mp) && r.Some? ==> NormPath(mp + "/" + r.value) == full)
        && (r.Some? ==> !IsAbs(r.value))
    {
      var full := ResolveAbs(cwd, path);
      NormIdempotent(if IsAbs(path) then path else TrimSlashes(cwd) + "/" + path);
      var t := MountType(full);
      BestExists(mounts, full);
      if t != "proc" {
        return None;
      }
      var best := MountPointFor(full);
      var mp := TrimOneSlash(best);
      ghost var b :| IsBest(mounts, full, b);
      assert b == best;
      CoversIsPrefix(best, full);
      var rel := TrimPrefix(full, mp);
      rel := TrimPrefix(rel, "/");
      RelRejoins(best, full);
      forall o | IsBest(mounts, full, o)
        ensures o == best
      {
        BestIsUnique(mounts, full, o, best);
      }
      r := Some(rel);
    }
  }

  /** Either nothing covers the path or there is a most specific mountpoint. */
  lemma BestExists(m: Table, path: string)
    ensures (exists mp :: mp in m && Covers(mp, path)) ==> exists mp :: IsBest(m, path, mp)
  {
    var covering := set mp | mp in m && Covers(mp, path);
    if covering != {} {
      var mp := Longest(covering);
      forall o | o in m && Covers(o, path)
        ensures |o| <= |mp|
      {
        assert o in covering;
      }
      assert mp in covering;
      assert IsBest(m, path, mp);
    } else {
      assert forall mp :: mp in m && Covers(mp, path) ==> mp in covering;
    }
  }

  lemma {:induction false} Longest(s: set<string>) returns (x: string)
    requires s != {}
    ensures x in s && forall y :: y in s ==> |y| <= |x|
    decreases s
  {
    x :| x in s;
    if s != {x} {
      var y := Longest(s - {x});
      if |y| > |x| {
        x := y;
      }
    }
  }

  function TrimPrefix(s: string, prefix: string): string {
    if prefix <= s then s[|prefix|..] else s
  }

  /** resolveAbs: join to the working directory, then collapse. */
  function ResolveAbs(cwd: string, path: string): string {
    NormPath(if IsAbs(path) then path else TrimSlashes(cwd) + "/" + path)
  }

  lemma RelRejoins(mp: string, full: string)
    requires Covers(mp, full) && NormPath(full) == full
    ensures
      var rel := TrimPrefix(TrimPrefix(full, TrimOneSlash(mp)), "/");
      NormPath(mp + "/" + rel) == full && !IsAbs(rel)
  {
    hide NormPath, Components, Join;
    var trimmed := TrimOneSlash(mp);
    var rest := TrimPrefix(full, trimmed);
    var rel := TrimPrefix(rest, "/");
    NormIs(full);
    if full == mp {
      CanonicalEnd(full);
      assert rel == "" && !IsAbs(rel);
      ComponentsJoined(mp, "");
      assert Walk(Components(mp), Split("")) == Components(mp) by {
        assert Walk(Components(mp), [""]) == Walk(Components(mp), []);
      }
      assert mp + "/" + rel == mp + "/" + "";
      NormIs(mp + "/" + "");
    } else {
      assert full == trimmed + "/" + rel;
      SingleSlashes(full, trimmed, rel);
      if mp != trimmed {
        assert mp == trimmed + "/";
        assert mp + "/" + rel == trimmed + "/" + ("/" + rel);
        ComponentsJoined(trimmed, "/" + rel);
        ComponentsJoined(trimmed, rel);
        assert Split("/" + rel) == [""] + Split(rel);
        assert Walk(Components(trimmed), [""] + Split(rel)) == Walk(Components(trimmed), Split(rel)) by {
          assert ([""] + Split(rel))[1..] == Split(rel);
        }
        NormIs(trimmed + "/" + ("/" + rel));
      }
    }
  }

  /** A canonical path has no component to spare between two slashes. */
  lemma SingleSlashes(full: string, a: string, b: string)
    requires NormPath(full) == full && full == a + "/" + b
    ensures !IsAbs(b)
  {
    hide NormPath, Components, Join, Walk;
    var cs := Components(full);
    NormIs(full);
    ComponentsPlain(full);
    SplitAppend(a, b);
    assert Split(full) == Split(a) + Split(b);
    if cs == [] {
      assert Join([]) == "" by { JoinNothing(); }
      assert |a| + |b| == 0;
    } else {
      SplitJoin(cs);
      assert full[1..] == Join(cs);
      assert Split(full) == [""] + cs;
      var k := |Split(a)|;
      assert Split(b)[0] == Split(full)[k] == cs[k - 1];
      assert Plain(cs[k - 1]);
    }
  }

  lemma CanonicalEnd(full: string)
    requires NormPath(full) == full
    ensures full == "/" || TrimOneSlash(full) == full
  {
    NormIs(full);
    hide NormPath, Components, Join;
    var cs := Components(full);
    ComponentsPlain(full);
    if cs == [] {
      JoinNothing();
    } else {
      var front, c := cs[..|cs| - 1], cs[|cs| - 1];
      assert cs == front + [c] && Plain(c);
      JoinLast(front, c);
      assert full[|full| - 1] == c[|c| - 1];
      assert c[|c| - 1] in c;
    }
  }
}
