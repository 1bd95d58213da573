/** Guest path algebra (internal/vfs/vfs.go): pure string work, no file system. */
module Paths {

  // ---- components ------------------------------------------------------------

  /** strings.Split(s, "/"). */
  function Split(s: string): (r: seq<string>)
    ensures |r| >= 1
  {
    if s == "" then [""]
    else if s[0] == '/' then [""] + Split(s[1..])
    else
      var r := Split(s[1..]);
      [[s[0]] + r[0]] + r[1..]
  }

  /** strings.Join(parts, "/"). */
  function Join(parts: seq<string>): string {
    if parts == [] then "" else if |parts| == 1 then parts[0] else parts[0] + "/" + Join(parts[1..])
  }

  predicate IsAbs(p: string) {
    p != "" && p[0] == '/'
  }

  /** A component that names something. */
  predicate Plain(c: string) {
    c != "" && c != "." && c != ".." && '/' !in c
  }

  predicate AllPlain(cs: seq<string>) {
    forall c :: c in cs ==> Plain(c)
  }

  predicate SlashFree(cs: seq<string>) {
    forall c :: c in cs ==> '/' !in c
  }

  /** One component: "." and empty ones stay, ".." goes up but not above the root. */
  function Descend(stack: seq<string>, c: string): seq<string> {
    if c == "" || c == "." then stack
    else if c == ".." then if stack == [] then [] else stack[..|stack| - 1]
    else stack + [c]
  }

  function Walk(stack: seq<string>, comps: seq<string>): seq<string>
    decreases |comps|
  {
    if comps == [] then stack else Walk(Descend(stack, comps[0]), comps[1..])
  }

  /** The components that a path names from the root. */
  function Components(p: string): seq<string> {
    Walk([], Split(p))
  }

  function NormPath(p: string): string {
    "/" + Join(Components(if IsAbs(p) then p else "/" + p))
  }

  /** strings.TrimRight(s, "/"). */
  function TrimSlashes(s: string): string {
    if s != "" && s[|s| - 1] == '/' then TrimSlashes(s[..|s| - 1]) else s
  }

  // ---- splitting and joining -------------------------------------------------

  lemma {:induction false} SplitAppend(a: string, b: string)
    ensures Split(a + "/" + b) == Split(a) + Split(b)
  {
    var s := a + "/" + b;
    if a == "" {
      assert s[1..] == b;
    } else {
      assert s[1..] == a[1..] + "/" + b;
      SplitAppend(a[1..], b);
    }
  }

  lemma {:induction false} SplitPlain(c: string)
    requires '/' !in c
    ensures Split(c) == [c]
  {
    if c != "" {
      SplitPlain(c[1..]);
      assert [c[0]] + c[1..] == c;
    }
  }

  lemma {:induction false} SplitSlashFree(s: string)
    ensures SlashFree(Split(s))
  {
    if s != "" {
      SplitSlashFree(s[1..]);
    }
  }

  lemma {:induction false} SplitJoin(cs: seq<string>)
    requires cs != [] && SlashFree(cs)
    ensures Split(Join(cs)) == cs
    decreases |cs|
  {
    if |cs| == 1 {
      SplitPlain(cs[0]);
    } else {
      SplitJoin(cs[1..]);
      hide Split;
      SplitAppend(cs[0], Join(cs[1..]));
      SplitPlain(cs[0]);
      assert [cs[0]] + cs[1..] == cs;
    }
  }

  // ---- walking ---------------------------------------------------------------

  lemma {:induction false} WalkAppend(stack: seq<string>, a: seq<string>, b: seq<string>)
    ensures Walk(stack, a + b) == Walk(Walk(stack, a), b)
    decreases |a|
  {
    if a == [] {
      assert a + b == b;
    } else {
      assert (a + b)[1..] == a[1..] + b;
      WalkAppend(Descend(stack, a[0]), a[1..], b);
    }
  }

  lemma {:induction false} WalkPlain(stack: seq<string>, cs: seq<string>)
    requires AllPlain(cs)
    ensures Walk(stack, cs) == stack + cs
    decreases |cs|
  {
    if cs != [] {
      assert Plain(cs[0]);
      WalkPlain(stack + [cs[0]], cs[1..]);
      assert stack + [cs[0]] + cs[1..] == stack + cs;
    }
  }

  /** Whatever is walked, only plain components are left. */
  lemma {:induction false} WalkStaysPlain(stack: seq<string>, cs: seq<string>)
    requires AllPlain(stack) && SlashFree(cs)
    ensures AllPlain(Walk(stack, cs))
    decreases |cs|
  {
    if cs != [] {
      WalkStaysPlain(Descend(stack, cs[0]), cs[1..]);
    }
  }

  lemma ComponentsPlain(p: string)
    ensures AllPlain(Components(p))
  {
    SplitSlashFree(p);
    WalkStaysPlain([], Split(p));
  }

  lemma ComponentsSlash(p: string)
    ensures Components("/" + p) == Components(p)
  {
    assert ("/" + p)[1..] == p;
    assert Split("/" + p) == [""] + Split(p);
  }

  lemma NormIs(p: string)
    ensures NormPath(p) == "/" + Join(Components(p))
  {
    ComponentsSlash(p);
  }

  /** A canonical path is read back as the components it was made of. */
  lemma ComponentsBack(cs: seq<string>)
    requires AllPlain(cs)
    ensures Components("/" + Join(cs)) == cs
  {
    ComponentsSlash(Join(cs));
    if cs != [] {
      SplitJoin(cs);
      WalkPlain([], cs);
    } else {
      assert Walk([], [""]) == Walk([], []);
    }
  }

  lemma ComponentsJoined(a: string, b: string)
    ensures Components(a + "/" + b) == Walk(Components(a), Split(b))
  {
    SplitAppend(a, b);
    WalkAppend([], Split(a), Split(b));
  }

  // ---- the laws --------------------------------------------------------------

  lemma NormKeepsComponents(p: string)
    ensures Components(NormPath(p)) == Components(p)
  {
    NormIs(p);
    ComponentsPlain(p);
    ComponentsBack(Components(p));
  }

  lemma NormIdempotent(p: string)
    ensures NormPath(NormPath(p)) == NormPath(p)
  {
    NormIs(p);
    NormIs(NormPath(p));
    NormKeepsComponents(p);
  }

  /** A prefix may be normalised first. */
  lemma NormOfJoined(a: string, b: string)
    ensures NormPath(a + "/" + b) == NormPath(NormPath(a) + "/" + b)
  {
    NormIs(a + "/" + b);
    NormIs(NormPath(a) + "/" + b);
    ComponentsJoined(a, b);
    ComponentsJoined(NormPath(a), b);
    NormKeepsComponents(a);
  }

  /** Two paths have one canonical form exactly when they name the same components. */
  lemma NormDecidesComponents(p: string, q: string)
    ensures NormPath(p) == NormPath(q) <==> Components(p) == Components(q)
  {
    NormIs(p);
    NormIs(q);
    NormKeepsComponents(p);
    NormKeepsComponents(q);
  }

  lemma JoinNothing()
    ensures Join([]) == ""
  {
  }

  // ---- what "." and ".." mean ------------------------------------------------

  /** Laws that speak of nothing but normal forms and determine them: the root,
      and what one more component does to the normal form of any path. */
  lemma DotDotUndoesName(p: string, c: string)
    requires Plain(c)
    ensures NormPath(p + "/" + c + "/..") == NormPath(p)
  {
    hide Split, Join;
    NormIs(p);
    NormIs(p + "/" + c + "/..");
    ComponentsJoined(p + "/" + c, "..");
    assert p + "/" + c + "/.." == p + "/" + c + "/" + "..";
    ComponentsOneMore(p, c);
    SplitPlain("..");
    var cs := Components(p);
    assert Walk(cs + [c], [".."]) == cs by { WalkUp(cs, c); }
  }

  lemma WalkUp(cs: seq<string>, c: string)
    ensures Walk(cs + [c], [".."]) == cs
  {
    assert [".."][1..] == [];
    assert Walk(cs + [c], [".."]) == Walk(Descend(cs + [c], ".."), []);
    assert (cs + [c])[..|cs|] == cs;
  }

  lemma WalkOne(cs: seq<string>, c: string)
    ensures Walk(cs, [c]) == Descend(cs, c)
  {
    assert [c][1..] == [];
    assert Walk(cs, [c]) == Walk(Descend(cs, c), []);
  }

  lemma ComponentsOneMore(p: string, c: string)
    requires '/' !in c
    ensures Components(p + "/" + c) == Descend(Components(p), c)
  {
    hide Split;
    ComponentsJoined(p, c);
    SplitPlain(c);
    WalkOne(Components(p), c);
  }

  lemma RootIsItsParent()
    ensures NormPath("") == "/" && NormPath("/") == "/" && NormPath("/..") == "/"
  {
    hide Split;
    NormIs("");
    NormIs("/");
    NormIs("/..");
    SplitPlain("");
    SplitPlain("..");
    ComponentsSlash("");
    ComponentsSlash("..");
    assert "/" + ".." == "/..";
    WalkOne([], "");
    WalkOne([], "..");
    JoinNothing();
  }

  lemma DotIsNothing(p: string)
    ensures NormPath(p + "/.") == NormPath(p) && NormPath(p + "/") == NormPath(p) && NormPath("/" + p) == NormPath(p)
  {
    hide Split, Join;
    NormIs(p);
    NormIs(p + "/.");
    NormIs(p + "/");
    NormIs("/" + p);
    ComponentsSlash(p);
    assert p + "/." == p + "/" + "." && p + "/" == p + "/" + "";
    ComponentsOneMore(p, ".");
    ComponentsOneMore(p, "");
  }

  /** A name is appended to the normal form. */
  lemma NameIsAppended(p: string, c: string)
    requires Plain(c)
    ensures NormPath(p + "/" + c) == if NormPath(p) == "/" then "/" + c else NormPath(p) + "/" + c
  {
    hide Split, Join;
    NormIs(p);
    NormIs(p + "/" + c);
    ComponentsOneMore(p, c);
    var cs := Components(p);
    JoinLast(cs, c);
    if cs == [] {
      JoinNothing();
    } else {
      ComponentsPlain(p);
      JoinNotEmpty(cs);
    }
  }

  // ---- NormPath as the loop it is --------------------------------------------

  method NormPathLoop(path: string) returns (r: string)
    ensures r == NormPath(path)
  {
    var p := path;
    if !IsAbs(p) {
      p := "/" + p;
    }
    var comps := Split(p);
    var parts: seq<string> := [];
    for i := 0 to |comps|
      invariant Walk(parts, comps[i..]) == Walk([], comps)
    {
      var c := comps[i];
      assert comps[i..][0] == c && comps[i..][1..] == comps[i + 1..];
      if c == "" || c == "." {
        continue;
      }
      if c == ".." {
        if |parts| > 0 {
          parts := parts[..|parts| - 1];
        }
        continue;
      }
      parts := parts + [c];
    }
    r := "/" + Join(parts);
  }

  lemma JoinNotEmpty(cs: seq<string>)
    requires cs != [] && AllPlain(cs)
    ensures Join(cs) != ""
  {
    assert Plain(cs[0]);
  }

  // ---- host paths ------------------------------------------------------------

  function TrimSlash(p: string): string {
    if IsAbs(p) then p[1..] else p
  }

  /** filepath.Join of an absolute host root; Clean is the same algebra. */
  function HostPath(root: string, guest: string): string {
    var rel := TrimSlash(NormPath(guest));
    if rel == "" then root else NormPath(root + "/" + rel)
  }

  /** A guest path is backed below the host root: the root's components, then
      the guest's own, none of which is "." or "..". */
  lemma HostPathBelowRoot(root: string, guest: string)
    requires NormPath(root) == root
    ensures HostPath(root, guest) == "/" + Join(Components(root) + Components(guest))
    ensures AllPlain(Components(guest))
    ensures Components(HostPath(root, guest)) == Components(root) + Components(guest)
  {
    var cs := Components(guest);
    ComponentsPlain(guest);
    ComponentsPlain(root);
    NormIs(guest);
    var rel := TrimSlash(NormPath(guest));
    assert rel == Join(cs);
    if cs == [] {
      NormIs(root);
      assert Components(root) + cs == Components(root);
    } else {
      JoinNotEmpty(cs);
      ComponentsJoined(root, rel);
      SplitJoin(cs);
      WalkPlain(Components(root), cs);
      NormIs(root + "/" + rel);
    }
    ComponentsBack(Components(root) + cs);
  }

  /** Everything before the last slash, and the rest; the root for nothing. */
  function SplitGuest(p: string): (string, string) {
    var i := LastSlash(p);
    (if i == 0 then "/" else p[..i], if i < |p| then p[i + 1..] else "")
  }

  function LastSlash(p: string): (i: nat)
    ensures i <= |p|
    ensures '/' in p ==> i < |p| && p[i] == '/'
  {
    if p == "" then 0
    else if '/' in p[1..] then 1 + LastSlash(p[1..])
    else if p[0] == '/' then 0 else |p|
  }

  lemma {:induction false} LastSlashAt(a: string, c: string)
    requires '/' !in c
    ensures LastSlash(a + "/" + c) == |a|
  {
    var s := a + "/" + c;
    if a == "" {
      assert s[1..] == c;
    } else {
      assert s[1..] == a[1..] + "/" + c;
      LastSlashAt(a[1..], c);
      assert s[1..][|a| - 1] == '/';
    }
  }

  lemma {:induction false} JoinLast(cs: seq<string>, c: string)
    ensures Join(cs + [c]) == if cs == [] then c else Join(cs) + "/" + c
    decreases |cs|
  {
    if |cs| > 0 {
      JoinLast(cs[1..], c);
      assert (cs + [c])[1..] == cs[1..] + [c];
      if |cs| > 1 {
        assert Join(cs + [c]) == cs[0] + "/" + (Join(cs[1..]) + "/" + c);
      } else {
        assert cs[1..] == [];
      }
    }
  }

  /** A canonical path other than the root is its parent and its last component. */
  lemma SplitGuestBack(p: string)
    requires NormPath(p) == p && p != "/"
    ensures
      var (parent, name) := SplitGuest(p);
      var cs := Components(p);
      && cs != [] && name == cs[|cs| - 1] && Plain(name)
      && NormPath(parent) == parent && Components(parent) == cs[..|cs| - 1]
  {
    hide Join, Components, LastSlash;
    var cs := Components(p);
    NormIs(p);
    ComponentsPlain(p);
    if cs == [] {
      assert Join([]) == "" by { JoinNothing(); }
      assert false;
    }
    var front, c := cs[..|cs| - 1], cs[|cs| - 1];
    assert cs == front + [c] && Plain(c);
    ComponentsBack(front);
    NormIs("/" + Join(front));
    JoinLast(front, c);
    if front == [] {
      JoinNothing();
      assert p == "" + "/" + c;
      LastSlashAt("", c);
      assert "/" + Join(front) == "/" && p[1..] == c;
    } else {
      var parent := "/" + Join(front);
      assert p == parent + "/" + c;
      LastSlashAt(parent, c);
      assert p[..|parent|] == parent && p[|parent| + 1..] == c;
    }
  }

  // ---- the laws determine the normal form ------------------------------------

  /** One more component: nothing for "." and the empty one, the directory part
      for "..", a name appended for any other. */
  function Below(dir: string, c: string): string {
    if c == "" || c == "." then dir
    else if c == ".." then SplitGuest(dir).0
    else if dir == "/" then "/" + c
    else dir + "/" + c
  }

  /** Where a path leads, component by component from its end, as a law about a
      function on strings. */
  ghost predicate PathLaw(f: string -> string) {
    && f("") == "/"
    && (forall c: string :: '/' !in c ==> f(c) == Below("/", c))
    && (forall p: string, c: string :: '/' !in c ==> f(p + "/" + c) == Below(f(p), c))
  }

  /** ".." leads to the directory part of where the path before it led. */
  lemma DotDotIsParent(p: string)
    ensures NormPath(p + "/..") == SplitGuest(NormPath(p)).0
  {
    hide Split, Join, Components, LastSlash;
    var cs := Components(p);
    NormIs(p);
    NormIs(p + "/..");
    assert p + "/.." == p + "/" + "..";
    ComponentsOneMore(p, "..");
    ComponentsPlain(p);
    JoinNothing();
    if cs == [] {
      assert NormPath(p) == "" + "/" + "";
      LastSlashAt("", "");
    } else {
      NormKeepsComponents(p);
      NormIdempotent(p);
      JoinNotEmpty(cs);
      SplitGuestBack(NormPath(p));
      var parent := SplitGuest(NormPath(p)).0;
      NormIs(parent);
    }
  }

  /** NormPath has these laws. */
  lemma NormObeys()
    ensures PathLaw(NormPath)
  {
    hide Components, Join, SplitGuest;
    RootIsItsParent();
    forall p: string, c: string | '/' !in c
      ensures NormPath(p + "/" + c) == Below(NormPath(p), c)
    {
      StepObeys(p, c);
    }
    forall c: string | '/' !in c
      ensures NormPath(c) == Below("/", c)
    {
      StepObeys("", c);
      DotIsNothing(c);
      assert "" + "/" + c == "/" + c;
    }
  }

  lemma StepObeys(p: string, c: string)
    requires '/' !in c
    ensures NormPath(p + "/" + c) == Below(NormPath(p), c)
  {
    hide NormPath, SplitGuest;
    assert p + "/" + ".." == p + "/.." && p + "/" + "." == p + "/." && p + "/" + "" == p + "/";
    if c == ".." {
      DotDotIsParent(p);
    } else if c == "." || c == "" {
      DotIsNothing(p);
    } else {
      NameIsAppended(p, c);
    }
  }

  lemma LawOne(f: string -> string, c: string)
    requires PathLaw(f) && '/' !in c
    ensures f(c) == Below("/", c)
  {
  }

  lemma LawStep(f: string -> string, p: string, c: string)
    requires PathLaw(f) && '/' !in c
    ensures f(p + "/" + c) == Below(f(p), c)
  {
  }

  /** And is the only function that has them. */
  lemma {:induction false} LawsDetermineNorm(f: string -> string, p: string)
    requires PathLaw(f)
    ensures f(p) == NormPath(p)
    decreases |p|
  {
    hide NormPath, Below, PathLaw;
    NormObeys();
    if '/' in p {
      var i := LastSlash(p);
      var dir, c := p[..i], p[i + 1..];
      LastSlashLast(p);
      LawsDetermineNorm(f, dir);
      LawStep(f, dir, c);
      LawStep(NormPath, dir, c);
      assert p == dir + "/" + c;
    } else {
      LawOne(f, p);
      LawOne(NormPath, p);
    }
  }

  lemma {:induction false} LastSlashLast(p: string)
    requires '/' in p
    ensures '/' !in p[LastSlash(p) + 1..]
  {
    if '/' in p[1..] {
      LastSlashLast(p[1..]);
      assert p[LastSlash(p) + 1..] == p[1..][LastSlash(p[1..]) + 1..];
    } else {
      assert p[LastSlash(p) + 1..] == p[1..];
    }
  }
}
