/** followSymlinks (internal/syscalls/helpers.go): after every link the walk
    starts over from the root with the link's target spliced into the path.  It
    is proved to find what a one-pass resolver finds. */
module Symlinks {
  import opened Words
  import opened Paths

  /** The link metadata: canonical path of each symbolic link, and its target. */
  type Links = map<string, string>

  const MAX_HOPS: nat := 40

  function LinkAt(links: Links, path: string): Option<string> {
    var p := NormPath(path);
    if p in links then Some(links[p]) else None
  }

  function JoinAbs(orig: string, parts: seq<string>): string {
    (if IsAbs(orig) then "/" else "") + Join(parts)
  }

  // ---- one walk --------------------------------------------------------------

  /** A walk ends at the end of the path or at the first link, whose own component
      is the last of `resolved`. */
  datatype Scanned =
    | AtEnd(resolved: seq<string>)
    | AtLink(resolved: seq<string>, target: string, rest: seq<string>)

  function Scan(links: Links, orig: string, resolved: seq<string>, parts: seq<string>): (r: Scanned)
    ensures r.AtLink? ==> r.resolved != []
    decreases |parts|
  {
    if parts == [] then AtEnd(resolved)
    else
      var next := Descend(resolved, parts[0]);
      if |next| <= |resolved| then Scan(links, orig, next, parts[1..])
      else
        match LinkAt(links, JoinAbs(orig, next))
        case Some(t) => AtLink(next, t, parts[1..])
        case None => Scan(links, orig, next, parts[1..])
  }

  // ---- splicing --------------------------------------------------------------

  /** Runs of slashes become one. */
  function Collapse(s: string): (r: string)
    ensures |r| <= |s|
    ensures IsAbs(s) <==> IsAbs(r)
    ensures s != "" ==> r != ""
  {
    if |s| < 2 then s
    else if s[0] == '/' && s[1] == '/' then Collapse(s[1..])
    else [s[0]] + Collapse(s[1..])
  }

  /** The path to walk next. */
  function Splice(orig: string, resolved: seq<string>, target: string, rest: seq<string>): string
    requires resolved != []
  {
    var tail := "/" + Join(rest);
    var parent := JoinAbs(orig, resolved[..|resolved| - 1]);
    var rem :=
      if IsAbs(target) then target + tail
      else if parent == "" && !IsAbs(orig) then target + tail
      else parent + "/" + target + tail;
    var p := Collapse(rem);
    if p != "/" then TrimSlashes(p) else p
  }

  /** Up to `hops` walks. */
  function Follow(links: Links, path: string, hops: nat): string
    decreases hops
  {
    if hops == 0 then path
    else
      match Scan(links, path, [], Split(path))
      case AtEnd(resolved) =>
        var p := JoinAbs(path, resolved);
        if p == "" then "/" else p
      case AtLink(resolved, target, rest) => Follow(links, Splice(path, resolved, target, rest), hops - 1)
  }

  function FollowSymlinks(links: Links, path: string): string {
    if path == "" then path else Follow(links, path, MAX_HOPS)
  }

  // ---- the loops as they are -------------------------------------------------

  /** strings.ReplaceAll(s, "//", "/"). */
  function ReplaceDouble(s: string): (r: string)
    ensures |r| <= |s|
    ensures IsAbs(s) <==> IsAbs(r)
    ensures Collapse(r) == Collapse(s)
    ensures HasDouble(s) ==> |r| < |s|
  {
    if |s| < 2 then s
    else if s[0] == '/' && s[1] == '/' then
      var r := ReplaceDouble(s[2..]);
      CollapseCons("/" , r, s[2..]);
      "/" + r
    else
      var r := ReplaceDouble(s[1..]);
      CollapseCons([s[0]], r, s[1..]);
      [s[0]] + r
  }

  predicate HasDouble(s: string) {
    exists i :: 0 <= i < |s| - 1 && s[i] == '/' && s[i + 1] == '/'
  }

  lemma CollapseCons(c: string, r: string, s: string)
    requires |c| == 1 && Collapse(r) == Collapse(s) && (IsAbs(r) <==> IsAbs(s)) && |r| <= |s|
    ensures Collapse(c + r) == Collapse(c + s)
  {
    assert (c + r)[1..] == r && (c + s)[1..] == s;
  }

  lemma HasDoubleTail(s: string)
    requires s != "" && HasDouble(s[1..])
    ensures HasDouble(s)
  {
    var i :| 0 <= i < |s[1..]| - 1 && s[1..][i] == '/' && s[1..][i + 1] == '/';
    assert s[i + 1] == '/' && s[i + 1 + 1] == '/';
  }

  lemma {:induction false} CollapseSingle(s: string)
    requires !HasDouble(s)
    ensures Collapse(s) == s
  {
    if |s| >= 2 {
      if HasDouble(s[1..]) {
        HasDoubleTail(s);
      }
      CollapseSingle(s[1..]);
      assert s[0] == '/' ==> s[0 + 1] != '/';
    }
  }

  method CollapseSlashes(path: string) returns (s: string)
    ensures s == Collapse(path)
  {
    s := path;
    while HasDouble(s)
      invariant Collapse(s) == Collapse(path)
      decreases |s|
    {
      s := ReplaceDouble(s);
    }
    CollapseSingle(s);
  }

  /** The walk of one hop. */
  method ScanPath(links: Links, path: string) returns (r: Scanned)
    ensures r == Scan(links, path, [], Split(path))
  {
    var parts := Split(path);
    var resolved: seq<string> := [];
    for i := 0 to |parts|
      invariant Scan(links, path, resolved, parts[i..]) == Scan(links, path, [], parts)
    {
      var part := parts[i];
      assert parts[i..][0] == part && parts[i..][1..] == parts[i + 1..];
      if part == "" || part == "." {
        continue;
      }
      if part == ".." {
        if |resolved| > 0 {
          resolved := resolved[..|resolved| - 1];
        }
        continue;
      }
      resolved := resolved + [part];
      var link := LinkAt(links, JoinAbs(path, resolved));
      if link.Some? {
        return AtLink(resolved, link.value, parts[i + 1..]);
      }
    }
    r := AtEnd(resolved);
  }

  method FollowLoop(links: Links, guest: string) returns (r: string)
    ensures r == FollowSymlinks(links, guest)
  {
    hide Scan, Collapse, Split, LinkAt, Join, TrimSlashes;
    var path := guest;
    if path == "" {
      return path;
    }
    for hops := 0 to MAX_HOPS
      invariant Follow(links, path, MAX_HOPS - hops) == Follow(links, guest, MAX_HOPS)
    {
      var scanned := ScanPath(links, path);
      match scanned {
        case AtEnd(resolved) =>
          var final := JoinAbs(path, resolved);
          return if final == "" then "/" else final;
        case AtLink(resolved, target, rest) =>
          ghost var walked := path;
          var tail := "/" + Join(rest);
          var rem: string;
          if IsAbs(target) {
            rem := target + tail;
          } else {
            var parent := JoinAbs(path, resolved[..|resolved| - 1]);
            if parent == "" && !IsAbs(path) {
              rem := target + tail;
            } else {
              rem := parent + "/" + target + tail;
            }
          }
          path := CollapseSlashes(rem);
          if path != "/" {
            path := TrimSlashes(path);
          }
          assert path == Splice(walked, resolved, target, rest);
          assert Follow(links, walked, MAX_HOPS - hops) == Follow(links, path, MAX_HOPS - hops - 1);
      }
    }
    r := path;
  }

  // ---- the one-pass resolver -------------------------------------------------

  /** Pathname resolution (POSIX.1-2017, section 4.13): go down component by
      component; at a link put its target in front of what is left, staying where
      we are or starting at the root; at most n links. */
  function Resolve(links: Links, stack: seq<string>, parts: seq<string>, n: nat): Option<seq<string>>
    decreases n, |parts|
  {
    if parts == [] then Some(stack)
    else
      var next := Descend(stack, parts[0]);
      if |next| <= |stack| then Resolve(links, next, parts[1..], n)
      else
        match LinkAt(links, "/" + Join(next))
        case None => Resolve(links, next, parts[1..], n)
        case Some(t) =>
          if n == 0 then None
          else Resolve(links, if IsAbs(t) then [] else stack, Split(t) + parts[1..], n - 1)
  }

  // ---- components that count -------------------------------------------------

  /** The nonempty components. */
  function Solid(parts: seq<string>): seq<string>
    decreases |parts|
  {
    if parts == [] then [] else (if parts[0] == "" then [] else [parts[0]]) + Solid(parts[1..])
  }

  lemma {:induction false} SolidAppend(a: seq<string>, b: seq<string>)
    ensures Solid(a + b) == Solid(a) + Solid(b)
    decreases |a|
  {
    if a == [] {
      assert a + b == b;
    } else {
      assert (a + b)[1..] == a[1..] + b;
      SolidAppend(a[1..], b);
    }
  }

  lemma {:induction false} SolidPlain(cs: seq<string>)
    requires AllPlain(cs)
    ensures Solid(cs) == cs
    decreases |cs|
  {
    if cs != [] {
      assert Plain(cs[0]);
      SolidPlain(cs[1..]);
    }
  }

  lemma {:induction false} SolidTwice(a: seq<string>)
    ensures Solid(Solid(a)) == Solid(a)
    decreases |a|
  {
    if a != [] {
      SolidTwice(a[1..]);
      SolidAppend(if a[0] == "" then [] else [a[0]], Solid(a[1..]));
    }
  }

  lemma {:induction false} CollapseSolid(s: string)
    ensures Solid(Split(Collapse(s))) == Solid(Split(s))
    ensures Split(Collapse(s))[0] == Split(s)[0]
  {
    if |s| < 2 {
    } else if s[0] == '/' && s[1] == '/' {
      CollapseSolid(s[1..]);
      assert Split(s)[1..] == Split(s[1..]);
    } else {
      var r := Collapse(s[1..]);
      CollapseSolid(s[1..]);
      assert ([s[0]] + r)[1..] == r;
      if s[0] == '/' {
        assert Split([s[0]] + r)[1..] == Split(r);
        assert Split(s)[1..] == Split(s[1..]);
      } else {
        var x, y := Split(r), Split(s[1..]);
        assert Split([s[0]] + r)[1..] == x[1..];
        assert Split(s)[1..] == y[1..];
        SolidHead(x);
        SolidHead(y);
        var h := if x[0] == "" then [] else [x[0]];
        assert Solid(x[1..]) == Solid(x)[|h|..] && Solid(y[1..]) == Solid(y)[|h|..];
        SolidHead(Split([s[0]] + r));
        SolidHead(Split(s));
      }
    }
  }

  lemma SolidHead(x: seq<string>)
    requires x != []
    ensures Solid(x) == (if x[0] == "" then [] else [x[0]]) + Solid(x[1..])
  {
  }

  lemma {:induction false} TrimSolid(s: string)
    ensures Solid(Split(TrimSlashes(s))) == Solid(Split(s))
  {
    if s != "" && s[|s| - 1] == '/' {
      var t := s[..|s| - 1];
      TrimSolid(t);
      assert s == t + "/" + "";
      SplitAppend(t, "");
      SolidAppend(Split(t), [""]);
    }
  }

  lemma {:induction false} TrimKeepsAbs(s: string)
    requires IsAbs(s) && s != "/"
    requires Collapse(s) == s
    ensures IsAbs(TrimSlashes(s))
  {
    if s[|s| - 1] == '/' {
      var t := s[..|s| - 1];
      NoDoubleEnd(s);
      assert TrimSlashes(t) == t;
    }
  }

  lemma {:induction false} NoDoubleEnd(s: string)
    requires |s| >= 2 && Collapse(s) == s && s[|s| - 1] == '/'
    ensures s[|s| - 2] != '/'
  {
    if |s| > 2 {
      assert Collapse(s) == [s[0]] + Collapse(s[1..]);
      assert Collapse(s[1..]) == s[1..];
      NoDoubleEnd(s[1..]);
    }
  }

  lemma {:induction false} CollapseTwice(s: string)
    ensures Collapse(Collapse(s)) == Collapse(s)
  {
    if |s| >= 2 {
      CollapseTwice(s[1..]);
      if !(s[0] == '/' && s[1] == '/') {
        var r := Collapse(s[1..]);
        assert ([s[0]] + r)[1..] == r;
        assert IsAbs(r) <==> IsAbs(s[1..]);
      }
    }
  }

  /** What the spliced path is made of. */
  lemma SpliceParts(orig: string, resolved: seq<string>, target: string, rest: seq<string>)
    requires IsAbs(orig) && resolved != [] && AllPlain(resolved) && SlashFree(rest)
    ensures IsAbs(Splice(orig, resolved, target, rest))
    ensures
      Solid(Split(Splice(orig, resolved, target, rest))) ==
      (if IsAbs(target) then [] else resolved[..|resolved| - 1]) + (Solid(Split(target)) + Solid(rest))
  {
    hide Split, Collapse, TrimSlashes, Solid, Join;
    var pre := resolved[..|resolved| - 1];
    var parent := "/" + Join(pre);
    var tail := "/" + Join(rest);
    var rem := if IsAbs(target) then target + tail else parent + "/" + target + tail;
    RestSolid(rest);
    assert target + tail == target + "/" + Join(rest);
    SplitAppend(target, Join(rest));
    SolidAppend(Split(target), Split(Join(rest)));
    if !IsAbs(target) {
      assert rem == parent + "/" + (target + tail);
      SplitAppend(parent, target + tail);
      SolidAppend(Split(parent), Split(target + tail));
      ParentSolid(pre);
    }
    CollapseSolid(rem);
    CollapseTwice(rem);
    var p := Collapse(rem);
    TrimSolid(p);
    if p != "/" {
      TrimKeepsAbs(p);
    }
  }

  lemma RestSolid(rest: seq<string>)
    requires SlashFree(rest)
    ensures Solid(Split(Join(rest))) == Solid(rest)
  {
    if rest != [] {
      SplitJoin(rest);
    } else {
      assert Solid([""]) == Solid([]);
    }
  }

  lemma ParentSolid(pre: seq<string>)
    requires AllPlain(pre)
    ensures Solid(Split("/" + Join(pre))) == pre
  {
    assert ("/" + Join(pre))[1..] == Join(pre);
    assert Split("/" + Join(pre)) == [""] + Split(Join(pre));
    assert ([""] + Split(Join(pre)))[1..] == Split(Join(pre));
    RestSolid(pre);
    SolidPlain(pre);
  }

  // ---- resolving -------------------------------------------------------------

  /** Empty components never matter. */
  lemma {:induction false} ResolveSolid(links: Links, stack: seq<string>, parts: seq<string>, n: nat)
    ensures Resolve(links, stack, parts, n) == Resolve(links, stack, Solid(parts), n)
    decreases n, |parts|
  {
    if parts != [] {
      SolidHead(parts);
      var tail := Solid(parts[1..]);
      var next := Descend(stack, parts[0]);
      if parts[0] == "" {
        ResolveSolid(links, stack, parts[1..], n);
        assert Solid(parts) == tail;
      } else {
        assert Solid(parts)[1..] == tail;
        if |next| <= |stack| || LinkAt(links, "/" + Join(next)).None? {
          ResolveSolid(links, next, parts[1..], n);
        } else if n > 0 {
          var t := LinkAt(links, "/" + Join(next)).value;
          var from := if IsAbs(t) then [] else stack;
          ResolveSolid(links, from, Split(t) + parts[1..], n - 1);
          ResolveSolid(links, from, Split(t) + tail, n - 1);
          SolidAppend(Split(t), parts[1..]);
          SolidAppend(Split(t), tail);
          SolidTwice(parts[1..]);
        }
      }
    }
  }

  /** No prefix of these components is a link. */
  ghost predicate LinkFree(links: Links, stack: seq<string>) {
    forall k :: 1 <= k <= |stack| ==> LinkAt(links, "/" + Join(stack[..k])).None?
  }

  /** Walking down what is already resolved meets nothing. */
  lemma {:induction false} ResolvePrefix(links: Links, stack: seq<string>, pre: seq<string>, parts: seq<string>, n: nat)
    requires AllPlain(pre) && LinkFree(links, stack + pre)
    ensures Resolve(links, stack, pre + parts, n) == Resolve(links, stack + pre, parts, n)
    decreases |pre|
  {
    if pre == [] {
      assert pre + parts == parts && stack + pre == stack;
    } else {
      var next := stack + [pre[0]];
      assert Plain(pre[0]);
      assert (pre + parts)[1..] == pre[1..] + parts && (pre + parts)[0] == pre[0];
      assert next + pre[1..] == stack + pre;
      assert (stack + pre)[..|stack| + 1] == next;
      assert LinkAt(links, "/" + Join(next)).None?;
      ResolvePrefix(links, next, pre[1..], parts, n);
    }
  }

  /** A walk does what the resolver does up to the first link, and stays clean. */
  lemma {:induction false} ScanResolves(links: Links, orig: string, stack: seq<string>, parts: seq<string>, n: nat)
    requires IsAbs(orig) && AllPlain(stack) && SlashFree(parts) && LinkFree(links, stack)
    ensures
      match Scan(links, orig, stack, parts)
      case AtEnd(s) => Resolve(links, stack, parts, n) == Some(s) && AllPlain(s) && LinkFree(links, s)
      case AtLink(s, t, rest) =>
        && AllPlain(s) && SlashFree(rest) && LinkFree(links, s[..|s| - 1])
        && Resolve(links, stack, parts, n) ==
           if n == 0 then None else Resolve(links, if IsAbs(t) then [] else s[..|s| - 1], Split(t) + rest, n - 1)
    decreases |parts|
  {
    hide LinkAt, Join;
    if parts != [] {
      var next := Descend(stack, parts[0]);
      if |next| <= |stack| {
        assert LinkFree(links, next) by {
          forall k | 1 <= k <= |next|
            ensures LinkAt(links, "/" + Join(next[..k])).None?
          {
            assert next[..k] == stack[..k];
          }
        }
        ScanResolves(links, orig, next, parts[1..], n);
      } else {
        assert next == stack + [parts[0]] && Plain(parts[0]);
        assert next[..|next| - 1] == stack;
        if LinkAt(links, "/" + Join(next)).None? {
          assert LinkFree(links, next) by {
            forall k | 1 <= k <= |next|
              ensures LinkAt(links, "/" + Join(next[..k])).None?
            {
              assert k <= |stack| ==> next[..k] == stack[..k];
              assert k == |next| ==> next[..k] == next;
            }
          }
          ScanResolves(links, orig, next, parts[1..], n);
        }
      }
    }
  }

  /** Starting over with the spliced path is as good as carrying on. */
  lemma SpliceResolves(links: Links, orig: string, resolved: seq<string>, target: string, rest: seq<string>, n: nat)
    requires IsAbs(orig) && resolved != [] && AllPlain(resolved) && SlashFree(rest)
    requires LinkFree(links, resolved[..|resolved| - 1])
    ensures
      Resolve(links, [], Split(Splice(orig, resolved, target, rest)), n) ==
      Resolve(links, if IsAbs(target) then [] else resolved[..|resolved| - 1], Split(target) + rest, n)
  {
    hide Resolve, Splice, Solid, Split;
    var from := if IsAbs(target) then [] else resolved[..|resolved| - 1];
    var more := Solid(Split(target)) + Solid(rest);
    SpliceParts(orig, resolved, target, rest);
    ResolveSolid(links, [], Split(Splice(orig, resolved, target, rest)), n);
    assert [] + from == from;
    ResolvePrefix(links, [], from, more, n);
    SolidAppend(Split(target), rest);
    ResolveSolid(links, from, Split(target) + rest, n);
  }

  /** One hop of the restarting resolver uses up one link. */
  lemma HopResolves(links: Links, path: string, n: nat)
    requires IsAbs(path)
    ensures
      match Scan(links, path, [], Split(path))
      case AtEnd(s) => Resolve(links, [], Split(path), n) == Some(s) && AllPlain(s) && LinkFree(links, s)
      case AtLink(s, t, rest) =>
        var p := Splice(path, s, t, rest);
        && IsAbs(p)
        && Resolve(links, [], Split(path), n) == if n == 0 then None else Resolve(links, [], Split(p), n - 1)
  {
    hide Resolve, Scan, Splice, Split;
    SplitSlashFree(path);
    ScanResolves(links, path, [], Split(path), n);
    match Scan(links, path, [], Split(path))
    case AtEnd(s) =>
    case AtLink(s, t, rest) =>
      SpliceParts(path, s, t, rest);
      if n > 0 {
        SpliceResolves(links, path, s, t, rest, n - 1);
      }
  }

  lemma {:induction false} FollowResolves(links: Links, path: string, n: nat, hops: nat)
    requires IsAbs(path) && hops > n && Resolve(links, [], Split(path), n).Some?
    ensures
      var s := Resolve(links, [], Split(path), n).value;
      Follow(links, path, hops) == "/" + Join(s) && AllPlain(s) && LinkFree(links, s)
    decreases n
  {
    hide Resolve, Scan, Splice, Split, LinkFree;
    HopResolves(links, path, n);
    match Scan(links, path, [], Split(path))
    case AtEnd(s) =>
    case AtLink(s, t, rest) => FollowResolves(links, Splice(path, s, t, rest), n - 1, hops - 1);
  }

  // ---- main results ----------------------------------------------------------

  /** For every absolute path and every link map that needs at most 39 links, the
      restarting walk finds what one pass finds; no prefix of the result is a
      link, it is canonical, and following it again changes nothing. */
  lemma FollowIsOnePass(links: Links, path: string)
    requires IsAbs(path) && Resolve(links, [], Split(path), MAX_HOPS - 1).Some?
    ensures
      var s := Resolve(links, [], Split(path), MAX_HOPS - 1).value;
      var r := FollowSymlinks(links, path);
      && r == "/" + Join(s) && LinkFree(links, s) && NormPath(r) == r
      && FollowSymlinks(links, r) == r
  {
    hide Resolve, LinkFree, Split, Follow, Join, LinkAt;
    var s := Resolve(links, [], Split(path), MAX_HOPS - 1).value;
    FollowResolves(links, path, MAX_HOPS - 1, MAX_HOPS);
    var r := "/" + Join(s);
    CanonicalResolves(links, s, MAX_HOPS - 1);
    FollowResolves(links, r, MAX_HOPS - 1, MAX_HOPS);
    ComponentsBack(s);
    NormIs(r);
  }

  /** A canonical path without links resolves to itself. */
  lemma CanonicalResolves(links: Links, s: seq<string>, n: nat)
    requires AllPlain(s) && LinkFree(links, s)
    ensures Resolve(links, [], Split("/" + Join(s)), n) == Some(s)
  {
    hide Resolve, LinkFree, Split, Join, LinkAt;
    var r := "/" + Join(s);
    ParentSolid(s);
    ResolveSolid(links, [], Split(r), n);
    assert [] + s == s && s + [] == s;
    ResolvePrefix(links, [], s, [], n);
    assert Resolve(links, s, [], n) == Some(s) by { ResolveNothing(links, s, n); }
  }

  lemma ResolveNothing(links: Links, stack: seq<string>, n: nat)
    ensures Resolve(links, stack, [], n) == Some(stack)
  {
  }

  /** Following up to `hops` links and then resolving what comes back with n links
      is resolving the path with hops + n links, whether or not the hops suffice. */
  lemma {:induction false} FollowThenResolve(links: Links, path: string, hops: nat, n: nat)
    requires IsAbs(path)
    ensures IsAbs(Follow(links, path, hops))
    ensures Resolve(links, [], Split(Follow(links, path, hops)), n) == Resolve(links, [], Split(path), hops + n)
    decreases hops
  {
    hide Resolve, Scan, Splice, Split, LinkFree;
    if hops > 0 {
      HopResolves(links, path, hops + n);
      match Scan(links, path, [], Split(path))
      case AtEnd(s) => CanonicalResolves(links, s, n);
      case AtLink(s, t, rest) => FollowThenResolve(links, Splice(path, s, t, rest), hops - 1, n);
    }
  }

  /** What comes back has no link left in it exactly when the path resolves with
      at most 40 links, and then it names what the path resolves to; of any other
      path it is the part that 40 links leave to be resolved. */
  lemma FollowExactly(links: Links, path: string)
    requires IsAbs(path)
    ensures
      var r := FollowSymlinks(links, path);
      && (Resolve(links, [], Split(r), 0).Some? <==> Resolve(links, [], Split(path), MAX_HOPS).Some?)
      && (forall n: nat :: Resolve(links, [], Split(r), n) == Resolve(links, [], Split(path), MAX_HOPS + n))
  {
    hide Resolve, Follow, Split;
    forall n: nat
      ensures Resolve(links, [], Split(FollowSymlinks(links, path)), n) ==
              Resolve(links, [], Split(path), MAX_HOPS + n)
    {
      FollowThenResolve(links, path, MAX_HOPS, n);
    }
    FollowThenResolve(links, path, MAX_HOPS, 0);
  }

  /** The limit is needed: a link to itself never resolves, and what comes back is
      still that link. */
  lemma SelfLink(n: nat)
    ensures
      var links: Links := map["/a" := "/a"];
      && FollowSymlinks(links, "/a") == "/a" && LinkAt(links, "/a").Some?
      && Resolve(links, [], Split("/a"), n).None?
  {
    var links: Links := map["/a" := "/a"];
    SelfLinkHop(links, MAX_HOPS);
    SelfLinkLost(links, n);
    assert LinkAt(links, "/a").Some? by { SelfLinkScan(links); }
  }

  lemma SelfLinkScan(links: Links)
    requires links == map["/a" := "/a"]
    ensures Split("/a") == ["", "a"] && LinkAt(links, "/a") == Some("/a")
    ensures Scan(links, "/a", [], Split("/a")) == AtLink(["a"], "/a", [])
    ensures Splice("/a", ["a"], "/a", []) == "/a"
  {
    assert "/a" == "/" + "a";
    SplitPlain("a");
    assert "/a"[1..] == "a";
    assert Split("/a") == ["", "a"];
    assert AllPlain(["a"]);
    ComponentsBack(["a"]);
    assert Join(["a"]) == "a";
    NormIs("/a");
    assert Descend([], "a") == ["a"];
    assert ["", "a"][1..] == ["a"] && ["a"][1..] == [];
    assert JoinAbs("/a", ["a"]) == "/a";
    assert Scan(links, "/a", [], ["a"]) == AtLink(["a"], "/a", []);
    var rem := "/a" + ("/" + Join([]));
    assert rem == "/a/";
    assert rem[1..] == "a/" && "a/"[1..] == "/";
    assert Collapse("a/") == "a/";
    assert Collapse(rem) == "/a/";
    assert "/a/"[..2] == "/a";
    assert TrimSlashes("/a/") == "/a";
  }

  lemma {:induction false} SelfLinkHop(links: Links, hops: nat)
    requires links == map["/a" := "/a"]
    ensures Follow(links, "/a", hops) == "/a"
    decreases hops
  {
    hide Scan, Splice, Split, LinkAt;
    if hops > 0 {
      SelfLinkScan(links);
      SelfLinkHop(links, hops - 1);
    }
  }

  lemma {:induction false} SelfLinkLost(links: Links, n: nat)
    requires links == map["/a" := "/a"]
    ensures Resolve(links, [], Split("/a"), n).None?
    decreases n
  {
    hide Resolve, Scan, Splice, Split, LinkAt;
    SelfLinkScan(links);
    assert IsAbs("/a");
    HopResolves(links, "/a", n);
    if n > 0 {
      SelfLinkLost(links, n - 1);
    }
  }

  // ---- what one more component does ------------------------------------------

  /** More links allowed make no difference to what has been resolved. */
  lemma {:induction false} ResolveMore(links: Links, stack: seq<string>, parts: seq<string>, n: nat, more: nat)
    requires Resolve(links, stack, parts, n).Some? && more >= n
    ensures Resolve(links, stack, parts, more) == Resolve(links, stack, parts, n)
    decreases n, |parts|
  {
    hide LinkAt, Join, Split;
    if parts != [] {
      var next := Descend(stack, parts[0]);
      if |next| <= |stack| || LinkAt(links, "/" + Join(next)).None? {
        ResolveMore(links, next, parts[1..], n, more);
      } else {
        var t := LinkAt(links, "/" + Join(next)).value;
        ResolveMore(links, if IsAbs(t) then [] else stack, Split(t) + parts[1..], n - 1, more - 1);
      }
    }
  }

  /** The last component acts on what everything before it has been resolved to,
      however many links that took. */
  lemma {:induction false} ResolveLast(links: Links, stack: seq<string>, a: seq<string>, c: string, n: nat)
    ensures
      var r := Resolve(links, stack, a + [c], n);
      match Resolve(links, stack, a, n)
      case None => r == None
      case Some(s) =>
        var next := Descend(s, c);
        if |next| <= |s| || LinkAt(links, "/" + Join(next)).None? then r == Some(next)
        else
          var t := LinkAt(links, "/" + Join(next)).value;
          r.Some? ==> n > 0 && Resolve(links, if IsAbs(t) then [] else s, Split(t), n - 1) == r
    decreases n, |a|
  {
    hide LinkAt, Join, Split, Descend;
    if a == [] {
      ResolveOne(links, stack, a + [c], c, n);
    } else {
      assert (a + [c])[0] == a[0] && (a + [c])[1..] == a[1..] + [c];
      var next := Descend(stack, a[0]);
      if |next| <= |stack| || LinkAt(links, "/" + Join(next)).None? {
        ResolveLast(links, next, a[1..], c, n);
      } else if n > 0 {
        var t := LinkAt(links, "/" + Join(next)).value;
        var from := if IsAbs(t) then [] else stack;
        ResolveLast(links, from, Split(t) + a[1..], c, n - 1);
        assert Split(t) + (a[1..] + [c]) == Split(t) + a[1..] + [c];
        ResolveLastMore(links, from, Split(t) + a[1..], c, n - 1);
      }
    }
  }

  lemma ResolveOne(links: Links, stack: seq<string>, parts: seq<string>, c: string, n: nat)
    requires parts == [c]
    ensures
      var next := Descend(stack, c);
      Resolve(links, stack, parts, n) ==
      if |next| <= |stack| || LinkAt(links, "/" + Join(next)).None? then Some(next)
      else if n == 0 then None
      else
        var t := LinkAt(links, "/" + Join(next)).value;
        Resolve(links, if IsAbs(t) then [] else stack, Split(t), n - 1)
  {
    hide LinkAt, Join, Split, Descend;
    assert parts[0] == c && parts[1..] == [];
    ResolveNothing(links, Descend(stack, c), n);
    if LinkAt(links, "/" + Join(Descend(stack, c))).Some? {
      var t := LinkAt(links, "/" + Join(Descend(stack, c))).value;
      assert Split(t) + [] == Split(t);
    }
  }

  /** One link more for the target of the last component does no harm. */
  lemma ResolveLastMore(links: Links, stack: seq<string>, a: seq<string>, c: string, n: nat)
    ensures
      Resolve(links, stack, a, n).Some? ==>
        var s := Resolve(links, stack, a, n).value;
        var link := LinkAt(links, "/" + Join(Descend(s, c)));
        link.Some? && n > 0 ==>
          var from := if IsAbs(link.value) then [] else s;
          Resolve(links, from, Split(link.value), n - 1).Some? ==>
            Resolve(links, from, Split(link.value), n) == Resolve(links, from, Split(link.value), n - 1)
  {
    hide Resolve, LinkAt, Join, Split, Descend;
    if Resolve(links, stack, a, n).Some? {
      var s := Resolve(links, stack, a, n).value;
      var link := LinkAt(links, "/" + Join(Descend(s, c)));
      if link.Some? && n > 0 {
        var from := if IsAbs(link.value) then [] else s;
        if Resolve(links, from, Split(link.value), n - 1).Some? {
          ResolveMore(links, from, Split(link.value), n - 1, n);
        }
      }
    }
  }

  /** The walk's stack and the strings it stands for move alike. */
  lemma DescendIsBelow(s: seq<string>, c: string)
    requires AllPlain(s) && '/' !in c
    ensures "/" + Join(Descend(s, c)) == Below("/" + Join(s), c)
    ensures |Descend(s, c)| > |s| <==> Plain(c)
  {
    hide Join, Components, Below;
    var r := "/" + Join(s);
    ComponentsBack(s);
    NormIs(r);
    NormIs(r + "/" + c);
    ComponentsOneMore(r, c);
    StepObeys(r, c);
  }

  /** What followSymlinks does with one more component depends only on where the
      path before it led: "." and the empty one stay there, ".." goes to the parent
      of where it led, be it a directory or an expanded link, a name that is no
      link is appended, and a link leads where its target leads from there. */
  lemma FollowObeys(links: Links, p: string, c: string)
    requires IsAbs(p) && '/' !in c && Resolve(links, [], Split(p), MAX_HOPS - 1).Some?
    ensures
      var r := FollowSymlinks(links, p);
      var next := Below(r, c);
      if !Plain(c) || next !in links then FollowSymlinks(links, p + "/" + c) == next
      else
        var t := links[next];
        Resolve(links, [], Split(p + "/" + c), MAX_HOPS - 1).Some? ==>
          FollowSymlinks(links, p + "/" + c) == FollowSymlinks(links, if IsAbs(t) then t else r + "/" + t)
  {
    hide Resolve, FollowSymlinks, Split, Join, LinkFree, Descend, Below, Components;
    var n := MAX_HOPS - 1;
    var s := Resolve(links, [], Split(p), n).value;
    FollowIsOnePass(links, p);
    FollowResolves(links, p, n, MAX_HOPS);
    SplitAppend(p, c);
    SplitPlain(c);
    ResolveLast(links, [], Split(p), c, n);
    DescendIsBelow(s, c);
    NextIsCanonical(s, c);
    var q := p + "/" + c;
    if Resolve(links, [], Split(q), n).Some? {
      FollowIsOnePass(links, q);
      var next := Below("/" + Join(s), c);
      if Plain(c) && next in links {
        TargetFollowed(links, s, links[next], Resolve(links, [], Split(q), n).value);
      }
    }
  }

  lemma NextIsCanonical(s: seq<string>, c: string)
    requires AllPlain(s) && '/' !in c
    ensures NormPath("/" + Join(Descend(s, c))) == "/" + Join(Descend(s, c))
  {
    var next := Descend(s, c);
    assert AllPlain(next);
    hide Join, Components;
    ComponentsBack(next);
    NormIs("/" + Join(next));
  }

  lemma TargetFollowed(links: Links, s: seq<string>, t: string, v: seq<string>)
    requires AllPlain(s) && LinkFree(links, s)
    requires Resolve(links, if IsAbs(t) then [] else s, Split(t), MAX_HOPS - 2) == Some(v)
    ensures FollowSymlinks(links, if IsAbs(t) then t else "/" + Join(s) + "/" + t) == "/" + Join(v)
  {
    hide Resolve, FollowSymlinks, Split, Join, LinkFree, Solid;
    var n := MAX_HOPS - 1;
    ResolveMore(links, if IsAbs(t) then [] else s, Split(t), n - 1, n);
    if IsAbs(t) {
      FollowIsOnePass(links, t);
    } else {
      var r := "/" + Join(s);
      var q := r + "/" + t;
      SplitAppend(r, t);
      ParentSolid(s);
      ResolveSolid(links, [], Split(q), n);
      SolidAppend(Split(r), Split(t));
      assert [] + s == s;
      ResolvePrefix(links, [], s, Solid(Split(t)), n);
      ResolveSolid(links, s, Split(t), n);
      FollowIsOnePass(links, q);
    }
  }

  lemma FollowRoot(links: Links)
    ensures FollowSymlinks(links, "/") == "/"
  {
    hide Resolve, FollowSymlinks, LinkAt, Split;
    CanonicalResolves(links, [], MAX_HOPS - 1);
    assert "/" + Join([]) == "/" by { JoinNothing(); }
    FollowIsOnePass(links, "/");
  }

  /** In particular ".." after any path that resolves, links and all, leads to the
      directory part of where that path led. */
  lemma DotDotAfterLink(links: Links, p: string)
    requires IsAbs(p) && Resolve(links, [], Split(p), MAX_HOPS - 1).Some?
    ensures FollowSymlinks(links, p + "/..") == SplitGuest(FollowSymlinks(links, p)).0
  {
    hide Resolve, FollowSymlinks, SplitGuest, Split;
    FollowObeys(links, p, "..");
    assert p + "/" + ".." == p + "/..";
  }

  // ---- relative paths --------------------------------------------------------

  function Rooted(p: string): string {
    if IsAbs(p) then p else "/" + p
  }

  lemma LinkOfRooted(links: Links, parts: seq<string>)
    ensures LinkAt(links, Join(parts)) == LinkAt(links, "/" + Join(parts))
  {
    hide Components, Join;
    NormIs(Join(parts));
    NormIs("/" + Join(parts));
    ComponentsSlash(Join(parts));
  }

  /** The leading slash plays no part in a walk. */
  lemma {:induction false} ScanRooted(links: Links, p: string, q: string, resolved: seq<string>, parts: seq<string>)
    ensures Scan(links, p, resolved, parts) == Scan(links, q, resolved, parts)
    decreases |parts|
  {
    hide LinkAt, Join;
    if parts != [] {
      var next := Descend(resolved, parts[0]);
      LinkOfRooted(links, next);
      assert "" + Join(next) == Join(next);
      ScanRooted(links, p, q, next, parts[1..]);
    }
  }

  lemma ScanFromRoot(links: Links, p: string)
    ensures Scan(links, Rooted(p), [], Split(Rooted(p))) == Scan(links, p, [], Split(p))
  {
    hide LinkAt, Join;
    if !IsAbs(p) {
      assert ("/" + p)[1..] == p;
      assert Split("/" + p) == [""] + Split(p);
      assert ([""] + Split(p))[1..] == Split(p);
      ScanRooted(links, "/" + p, p, [], Split(p));
    }
  }

  lemma CollapseSlash(s: string)
    ensures Collapse("/" + s) == if IsAbs(s) then Collapse(s) else "/" + Collapse(s)
  {
    assert ("/" + s)[1..] == s;
    if s == "" {
      assert "/" + s == "/";
    }
  }

  lemma {:induction false} TrimRooted(s: string)
    requires s != "" && !IsAbs(s)
    ensures TrimSlashes("/" + s) == "/" + TrimSlashes(s) && !IsAbs(TrimSlashes(s))
  {
    var t := "/" + s;
    assert t[|t| - 1] == s[|s| - 1];
    if s[|s| - 1] == '/' {
      assert t[..|t| - 1] == "/" + s[..|s| - 1];
      TrimRooted(s[..|s| - 1]);
    }
  }

  lemma SpliceRooted(p: string, resolved: seq<string>, target: string, rest: seq<string>)
    requires resolved != [] && AllPlain(resolved) && SlashFree(rest)
    ensures Splice(Rooted(p), resolved, target, rest) == Rooted(Splice(p, resolved, target, rest))
  {
    hide Splice;
    if IsAbs(p) {
      SpliceParts(p, resolved, target, rest);
    } else if IsAbs(target) {
      SpliceToAbs(p, resolved, target, rest);
    } else {
      SpliceToRel(p, resolved, target, rest);
    }
  }

  lemma SpliceToAbs(p: string, resolved: seq<string>, target: string, rest: seq<string>)
    requires resolved != [] && IsAbs(target)
    ensures Splice("/" + p, resolved, target, rest) == Splice(p, resolved, target, rest)
    ensures IsAbs(Splice(p, resolved, target, rest))
  {
    hide Collapse, TrimSlashes, Join;
    SplicedAbs(target + ("/" + Join(rest)));
  }

  /** What is left to walk at a link with a relative target, of a relative path. */
  function Remaining(pre: seq<string>, target: string, rest: seq<string>): string {
    if Join(pre) == "" then target + ("/" + Join(rest)) else Join(pre) + "/" + target + ("/" + Join(rest))
  }

  lemma SplicesAre(p: string, resolved: seq<string>, target: string, rest: seq<string>)
    requires resolved != [] && !IsAbs(p) && !IsAbs(target)
    ensures
      var pre := resolved[..|resolved| - 1];
      && Splice(p, resolved, target, rest) == Trimmed(Collapse(Remaining(pre, target, rest)))
      && Splice("/" + p, resolved, target, rest) == Trimmed(Collapse("/" + Join(pre) + "/" + target + ("/" + Join(rest))))
  {
    hide Collapse, TrimSlashes, Join;
    var pre := resolved[..|resolved| - 1];
    assert JoinAbs(p, pre) == Join(pre);
  }

  lemma SpliceToRel(p: string, resolved: seq<string>, target: string, rest: seq<string>)
    requires resolved != [] && AllPlain(resolved) && !IsAbs(p) && !IsAbs(target)
    ensures Splice("/" + p, resolved, target, rest) == Rooted(Splice(p, resolved, target, rest))
  {
    hide Collapse, TrimSlashes, Join, Splice, Trimmed;
    var pre := resolved[..|resolved| - 1];
    var rem := Remaining(pre, target, rest);
    SplicesAre(p, resolved, target, rest);
    CollapseSlash(rem);
    SplicedRel(rem);
    if pre == [] {
      JoinNothing();
      assert "/" + Join(pre) + "/" + target + ("/" + Join(rest)) == "/" + ("/" + rem);
      CollapseSlash("/" + rem);
    } else {
      JoinRelative(pre);
      assert "/" + Join(pre) + "/" + target + ("/" + Join(rest)) == "/" + rem;
    }
  }

  lemma JoinRelative(cs: seq<string>)
    requires cs != [] && AllPlain(cs)
    ensures Join(cs) != "" && !IsAbs(Join(cs))
  {
    assert Plain(cs[0]);
    assert Join(cs)[0] == cs[0][0];
    assert cs[0][0] in cs[0];
  }

  function Trimmed(p: string): string {
    if p != "/" then TrimSlashes(p) else p
  }

  lemma SplicedAbs(rem: string)
    requires IsAbs(rem)
    ensures IsAbs(Trimmed(Collapse(rem)))
  {
    hide Collapse, TrimSlashes;
    var p := Collapse(rem);
    CollapseTwice(rem);
    if p != "/" {
      TrimKeepsAbs(p);
    }
  }

  lemma SplicedRel(rem: string)
    requires rem != ""
    ensures Trimmed(if IsAbs(rem) then Collapse(rem) else "/" + Collapse(rem)) == Rooted(Trimmed(Collapse(rem)))
  {
    hide Collapse, TrimSlashes;
    if IsAbs(rem) {
      SplicedAbs(rem);
    } else {
      TrimRooted(Collapse(rem));
    }
  }

  lemma {:induction false} ScanPlain(links: Links, orig: string, stack: seq<string>, parts: seq<string>)
    requires AllPlain(stack) && SlashFree(parts)
    ensures AllPlain(Scan(links, orig, stack, parts).resolved)
    ensures Scan(links, orig, stack, parts).AtLink? ==> SlashFree(Scan(links, orig, stack, parts).rest)
    decreases |parts|
  {
    hide LinkAt, JoinAbs;
    if parts != [] {
      var next := Descend(stack, parts[0]);
      assert AllPlain(next);
      ScanPlain(links, orig, next, parts[1..]);
    }
  }

  lemma {:induction false} FollowRooted(links: Links, p: string, hops: nat)
    ensures Follow(links, Rooted(p), hops) == Rooted(Follow(links, p, hops))
    decreases hops
  {
    hide Scan, Splice, Split, Join;
    if hops > 0 {
      ScanFromRoot(links, p);
      SplitSlashFree(p);
      ScanPlain(links, p, [], Split(p));
      match Scan(links, p, [], Split(p))
      case AtEnd(s) =>
        if s == [] {
          JoinNothing();
        } else {
          JoinRelative(s);
        }
      case AtLink(s, t, rest) =>
        SpliceRooted(p, s, t, rest);
        FollowRooted(links, Splice(p, s, t, rest), hops - 1);
    }
  }

  /** A relative path leads where the same path from the root leads; so all the
      laws about absolute paths are laws about relative ones.  Only the empty path
      stays as it is. */
  lemma RelativeFollows(links: Links, p: string)
    ensures FollowSymlinks(links, "") == ""
    ensures p != "" && !IsAbs(p) ==>
              var r := FollowSymlinks(links, p);
              FollowSymlinks(links, "/" + p) == if IsAbs(r) then r else "/" + r
  {
    hide Follow;
    FollowRooted(links, p, MAX_HOPS);
  }
}
