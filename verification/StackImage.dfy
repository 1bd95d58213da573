/** The initial stack of a program (internal/emulator/emulator.go, System V AMD64
    ABI section 3.4.1) and the readers of argument arrays that execve uses
    (internal/syscalls/helpers.go).  The readers undo the writer. */
module StackImage {
  import opened Words
  import opened FlatMemory
  import opened PagedMemory

  const STACK_TOP: U64 := 0x7FFF_FFFF_F000
  const STACK_SIZE: nat := 0x80_0000
  const STACK_LOW: U64 := 0x7FFF_FF7F_F000

  const AT_NULL: U64 := 0
  const AT_RANDOM: U64 := 25
  const AT_EXECFN: U64 := 31

  const MAX_STRING: nat := 4096

  // ---- bytes in memory -------------------------------------------------------

  predicate ByteIs(f: Flat, a: nat, b: Byte) {
    a in f && f[a].byte == b
  }

  ghost predicate Holds(f: Flat, addr: nat, b: seq<Byte>) {
    forall i: nat :: i < |b| ==> ByteIs(f, addr + i, b[i])
  }

  /** The stack's pages are mapped. */
  ghost predicate StackMapped(f: Flat) {
    forall a: U64 :: STACK_LOW <= a < STACK_TOP ==> a in f
  }

  /** Nothing from `base` on has changed. */
  ghost predicate SameFrom(f: Flat, g: Flat, base: nat) {
    forall a: U64 :: base <= a && a in f ==> a in g && g[a] == f[a]
  }

  lemma HoldsFrame(f: Flat, g: Flat, base: nat, addr: nat, b: seq<Byte>)
    requires SameFrom(f, g, base) && addr >= base && Holds(f, addr, b)
    ensures Holds(g, addr, b)
  {
    forall i: nat | i < |b|
      ensures ByteIs(g, addr + i, b[i])
    {
      assert ByteIs(f, addr + i, b[i]);
    }
  }

  lemma AtLow(addr: U64, i: nat)
    requires addr + i < 0x1_0000_0000_0000_0000
    ensures At(addr, i) == addr + i
  {
  }

  /** A write inside the stack succeeds and changes nothing above it. */
  lemma WriteInStack(f: Flat, addr: U64, data: seq<Byte>)
    requires StackMapped(f) && STACK_LOW <= addr && addr + |data| <= STACK_TOP
    ensures
      var s := Store(f, addr, data, AnyAccess);
      && s.fault.None? && StackMapped(s.mem) && Holds(s.mem, addr, data) && SameFrom(f, s.mem, addr + |data|)
  {
    StoreExact(f, addr, data, AnyAccess);
    hide Store, At, Reach;
    var s := Store(f, addr, data, AnyAccess);
    forall i: nat | i < |data|
      ensures At(addr, i) == addr + i && Allowed(f, At(addr, i), AnyAccess)
    {
      AtLow(addr, i);
    }
    forall i: nat | i < |data|
      ensures ByteIs(s.mem, addr + i, data[i])
    {
      assert s.mem[At(addr, i)].byte == data[i];
    }
  }

  /** Bytes held in the stack can be loaded. */
  lemma LoadHeld(f: Flat, addr: U64, b: seq<Byte>)
    requires Holds(f, addr, b) && addr + |b| < 0x1_0000_0000_0000_0000
    ensures Load(f, addr, |b|, AnyAccess) == Ok(b)
  {
    hide At, Reach;
    forall i: nat | i < |b|
      ensures Allowed(f, At(addr, i), AnyAccess) && ByteAt(f, At(addr, i)) == b[i]
    {
      AtLow(addr, i);
      assert ByteIs(f, addr + i, b[i]);
    }
    ReachIs(f, addr, |b|, AnyAccess, |b|);
    assert Bytes(f, addr, |b|) == b;
  }

  // ---- words -----------------------------------------------------------------

  function WordsBytes(words: seq<U64>): (b: seq<Byte>)
    ensures |b| == 8 * |words|
    decreases |words|
  {
    if words == [] then [] else NatToLe(words[0], 8) + WordsBytes(words[1..])
  }

  lemma {:induction false} WordBytesAt(words: seq<U64>, i: nat)
    requires i < |words|
    ensures WordsBytes(words)[8 * i..8 * i + 8] == NatToLe(words[i], 8)
    decreases i
  {
    if i > 0 {
      WordBytesAt(words[1..], i - 1);
      var head, tail := NatToLe(words[0], 8), WordsBytes(words[1..]);
      assert (head + tail)[8 * i..8 * i + 8] == tail[8 * (i - 1)..8 * (i - 1) + 8];
    }
  }

  lemma WordAt(f: Flat, sp: U64, words: seq<U64>, i: nat)
    requires Holds(f, sp, WordsBytes(words)) && sp + 8 * |words| < 0x1_0000_0000_0000_0000 && i < |words|
    ensures Load(f, sp + 8 * i, 8, AnyAccess) == Ok(NatToLe(words[i], 8)) && LeWord(NatToLe(words[i], 8)) == words[i]
  {
    hide WordsBytes, Load, LeWord, NatToLe, LeToNat, Pow256, Holds;
    WordBytesAt(words, i);
    WordBack(words[i], 8);
    var at: U64 := sp + 8 * i;
    HoldsSlice(f, sp, WordsBytes(words), 8 * i, 8 * i + 8);
    LoadHeld(f, at, NatToLe(words[i], 8));
  }

  lemma HoldsSlice(f: Flat, addr: nat, b: seq<Byte>, lo: nat, hi: nat)
    requires Holds(f, addr, b) && lo <= hi <= |b|
    ensures Holds(f, addr + lo, b[lo..hi])
  {
    forall k: nat | k < hi - lo
      ensures ByteIs(f, addr + lo + k, b[lo..hi][k])
    {
      assert ByteIs(f, addr + (lo + k), b[lo + k]);
    }
  }

  // ---- the readers -----------------------------------------------------------

  function IndexZero(b: seq<Byte>): (i: nat)
    ensures i <= |b|
    ensures forall k :: 0 <= k < i ==> b[k] != 0
    ensures i < |b| ==> b[i] == 0
    decreases |b|
  {
    if b == [] || b[0] == 0 then 0 else 1 + IndexZero(b[1..])
  }

  function ChunkLen(cur: U64, left: nat): nat {
    var want := 0x1000 - cur % 0x1000;
    if want < left then want else left
  }

  /** cstr from `cur` on: page by page up to a NUL, an unreadable page, or maxlen. */
  function CstrFrom(f: Flat, cur: U64, data: seq<Byte>, maxlen: nat): seq<Byte>
    decreases maxlen - |data|
  {
    if |data| >= maxlen then data
    else
      var n := ChunkLen(cur, maxlen - |data|);
      match Load(f, cur, n, AnyAccess)
      case Err(_) => data
      case Ok(b) =>
        var z := IndexZero(b);
        if z < |b| then data + b[..z] else CstrFrom(f, At(cur, n), data + b, maxlen)
  }

  /** Words a caller could ever see: more would wrap around the address space. */
  const MAX_WORDS: nat := 0x2000_0000_0000_0000

  function ReadArrayFrom(f: Flat, ptr: U64, i: nat): seq<seq<Byte>>
    decreases if i <= MAX_WORDS then MAX_WORDS - i else 0
  {
    if i >= MAX_WORDS then []
    else
      match Load(f, At(ptr, i * 8), 8, AnyAccess)
      case Err(_) => []
      case Ok(b) =>
        var p := LeWord(b);
        if p == 0 then [] else [CstrFrom(f, p, [], MAX_STRING)] + ReadArrayFrom(f, ptr, i + 1)
  }

  function ReadArray(f: Flat, ptr: U64): seq<seq<Byte>> {
    if ptr == 0 then [] else ReadArrayFrom(f, ptr, 0)
  }

  /** The loop of indexZero. */
  method FindZero(b: seq<Byte>) returns (i: nat)
    ensures i == IndexZero(b)
  {
    i := 0;
    while i < |b| && b[i] != 0
      invariant i <= |b|
      invariant IndexZero(b) == i + IndexZero(b[i..])
    {
      assert b[i..][1..] == b[i + 1..];
      i := i + 1;
    }
  }

  method Cstr(mem: Memory, addr: U64, limit: int) returns (s: seq<Byte>, ok: bool)
    requires mem.Valid() && limit <= MAX_SLICE
    modifies mem, mem.frames
    ensures mem.Valid() && mem.Untouched()
    ensures ok == (addr != 0)
    ensures s == if addr == 0 then [] else CstrFrom(mem.flat, addr, [], if limit <= 0 then MAX_STRING else limit)
  {
    hide Load;
    if addr == 0 {
      return [], false;
    }
    var maxlen: nat := if limit <= 0 then MAX_STRING else limit;
    var cur := addr;
    s := [];
    while |s| < maxlen
      invariant mem.Valid() && mem.Untouched()
      invariant CstrFrom(mem.flat, cur, s, maxlen) == CstrFrom(mem.flat, addr, [], maxlen)
      invariant |s| <= maxlen
      decreases maxlen - |s|
    {
      var n := ChunkLen(cur, maxlen - |s|);
      var chunk := mem.MemRead(cur, n);
      if chunk.Err? {
        break;
      }
      var z := FindZero(chunk.value);
      if z < |chunk.value| {
        return s + chunk.value[..z], true;
      }
      s := s + chunk.value;
      cur := At(cur, n);
    }
    ok := true;
  }

  method ReadCStrArray(mem: Memory, ptr: U64) returns (out: seq<seq<Byte>>)
    requires mem.Valid()
    modifies mem, mem.frames
    ensures mem.Valid() && mem.Untouched()
    ensures out == ReadArray(mem.flat, ptr)
  {
    hide Load, CstrFrom;
    out := [];
    if ptr == 0 {
      return;
    }
    var i := 0;
    while i < MAX_WORDS
      invariant mem.Valid() && mem.Untouched() && i <= MAX_WORDS
      invariant out + ReadArrayFrom(mem.flat, ptr, i) == ReadArrayFrom(mem.flat, ptr, 0)
    {
      var raw := mem.MemRead(At(ptr, i * 8), 8);
      if raw.Err? {
        break;
      }
      var p := LeWord(raw.value);
      if p == 0 {
        break;
      }
      var s, _ := Cstr(mem, p, MAX_STRING);
      assert out + ([s] + ReadArrayFrom(mem.flat, ptr, i + 1)) == (out + [s]) + ReadArrayFrom(mem.flat, ptr, i + 1);
      out := out + [s];
      i := i + 1;
    }
  }

  // ---- the writer ------------------------------------------------------------

  function Total(strings: seq<seq<Byte>>): nat
    decreases |strings|
  {
    if strings == [] then 0 else Total(strings[..|strings| - 1]) + |strings[|strings| - 1]| + 1
  }

  /** Each string lies NUL-terminated between lo and hi at its pointer. */
  ghost predicate Strings(f: Flat, ptrs: seq<U64>, strings: seq<seq<Byte>>, lo: nat, hi: nat) {
    && |ptrs| == |strings|
    && forall i :: 0 <= i < |strings| ==>
         lo <= ptrs[i] && ptrs[i] + |strings[i]| + 1 <= hi && Holds(f, ptrs[i], strings[i] + [0])
  }

  lemma StringsFrame(f: Flat, g: Flat, ptrs: seq<U64>, strings: seq<seq<Byte>>, lo: nat, hi: nat, base: nat,
                     low: nat)
    requires Strings(f, ptrs, strings, lo, hi) && SameFrom(f, g, base) && low <= lo && base <= lo
    ensures Strings(g, ptrs, strings, low, hi)
  {
    hide Holds, SameFrom;
    forall i | 0 <= i < |strings|
      ensures Holds(g, ptrs[i], strings[i] + [0])
    {
      HoldsFrame(f, g, base, ptrs[i], strings[i] + [0]);
    }
  }

  method PushStr(mem: Memory, top: U64, s: seq<Byte>) returns (ptr: U64, fault: Option<Fault>)
    requires mem.Valid() && |s| < MAX_SLICE
    modifies mem, mem.frames
    ensures mem.Valid() && mem.Written()
    ensures ptr == At(top, -(|s| + 1))
    ensures Stored(mem.flat, fault) == Store(old(mem.flat), ptr, s + [0], AnyAccess)
  {
    ptr := At(top, -(|s| + 1));
    fault := mem.MemWrite(ptr, s + [0]);
  }

  /** Pushes strings downwards from `top`, first string highest. */
  method PushAll(mem: Memory, from: U64, strings: seq<seq<Byte>>) returns (ptrs: seq<U64>, top: U64, fault: Option<Fault>)
    requires mem.Valid() && forall s :: s in strings ==> |s| < MAX_SLICE
    modifies mem, mem.frames
    ensures mem.Valid() && mem.Written()
    ensures StackMapped(old(mem.flat)) && STACK_LOW + Total(strings) <= from <= STACK_TOP ==>
              && fault.None? && top == from - Total(strings) && StackMapped(mem.flat)
              && SameFrom(old(mem.flat), mem.flat, from) && Strings(mem.flat, ptrs, strings, top, from)
    ensures fault.None? ==> |ptrs| == |strings|
  {
    hide Store, Holds, SameFrom, StackMapped;
    ptrs, top, fault := [], from, None;
    ghost var fits := StackMapped(mem.flat) && STACK_LOW + Total(strings) <= from <= STACK_TOP;
    assert SameFrom(mem.flat, mem.flat, from) by { SameAll(mem.flat, from); }
    for i := 0 to |strings|
      invariant mem.Valid() && mem.Written() && fault.None? && |ptrs| == i
      invariant fits ==> top == from - Total(strings[..i]) && StackMapped(mem.flat)
      invariant fits ==> SameFrom(old(mem.flat), mem.flat, from) && Strings(mem.flat, ptrs, strings[..i], top, from)
    {
      ghost var before, high := mem.flat, top;
      assert strings[i] in strings;
      assert strings[..i + 1][..i] == strings[..i];
      TotalGrows(strings, i + 1);
      var ptr;
      ptr, fault := PushStr(mem, top, strings[i]);
      if fits {
        Pushed(before, mem.flat, ptr, high, strings[i], fault);
        SameTrans(old(mem.flat), before, mem.flat, from, high);
        StringsFrame(before, mem.flat, ptrs, strings[..i], high, from, high, ptr);
      }
      if fault.Some? {
        return;
      }
      top := ptr;
      ptrs := ptrs + [ptr];
    }
    assert strings[..|strings|] == strings;
  }

  lemma SameAll(f: Flat, base: nat)
    ensures SameFrom(f, f, base)
  {
  }

  lemma SameTrans(f: Flat, g: Flat, h: Flat, hi: nat, lo: nat)
    requires SameFrom(f, g, hi) && SameFrom(g, h, lo) && lo <= hi
    ensures SameFrom(f, h, hi)
  {
  }

  lemma SameHigher(f: Flat, g: Flat, lo: nat, hi: nat)
    requires SameFrom(f, g, lo) && lo <= hi
    ensures SameFrom(f, g, hi)
  {
  }

  lemma {:induction false} TotalGrows(strings: seq<seq<Byte>>, i: nat)
    requires i <= |strings|
    ensures Total(strings[..i]) <= Total(strings)
    decreases |strings| - i
  {
    if i == |strings| {
      assert strings[..i] == strings;
    } else {
      TotalGrows(strings, i + 1);
      assert strings[..i + 1][..i] == strings[..i];
    }
  }

  /** What pushing one string did. */
  lemma Pushed(before: Flat, after: Flat, ptr: U64, top: U64, s: seq<Byte>, fault: Option<Fault>)
    requires StackMapped(before) && STACK_LOW + |s| + 1 <= top <= STACK_TOP && ptr == At(top, -(|s| + 1))
    requires Stored(after, fault) == Store(before, ptr, s + [0], AnyAccess)
    ensures ptr == top - (|s| + 1) && fault.None? && StackMapped(after)
    ensures Holds(after, ptr, s + [0]) && SameFrom(before, after, top)
    ensures SameFrom(before, after, ptr + |s| + 1)
  {
    hide Store;
    WriteInStack(before, ptr, s + [0]);
  }

  /** The auxiliary vector's words: every entry, in some order, then AT_NULL. */
  ghost predicate AuxListed(words: seq<U64>, aux: map<U64, U64>, order: seq<U64>) {
    && (forall k :: k in order <==> k in aux)
    && (forall i, j :: 0 <= i < j < |order| ==> order[i] != order[j])
    && |words| == 2 * |order| + 2
    && (forall i :: 0 <= i < |order| ==> words[2 * i] == order[i] && order[i] in aux && words[2 * i + 1] == aux[order[i]])
    && words[2 * |order|] == AT_NULL && words[2 * |order| + 1] == 0
  }

  /** The pairs of a map, in whatever order it yields them. */
  method AuxWords(aux: map<U64, U64>) returns (words: seq<U64>, ghost order: seq<U64>)
    ensures AuxListed(words, aux, order) && |words| == 2 * |aux| + 2
  {
    words, order := [], [];
    var rest := aux.Keys;
    while rest != {}
      invariant rest <= aux.Keys && |words| == 2 * |order| && |order| + |rest| == |aux.Keys|
      invariant forall k :: k in order <==> k in aux && k !in rest
      invariant forall i, j :: 0 <= i < j < |order| ==> order[i] != order[j]
      invariant forall i :: 0 <= i < |order| ==> words[2 * i] == order[i] && order[i] in aux && words[2 * i + 1] == aux[order[i]]
      decreases |rest|
    {
      var k :| k in rest;
      words := words + [k, aux[k]];
      order := order + [k];
      rest := rest - {k};
    }
    words := words + [AT_NULL, 0];
  }

  function HeadWords(argc: nat, argv: seq<U64>, envp: seq<U64>): seq<U64>
    requires argc < 0x1_0000_0000_0000_0000
  {
    [argc] + argv + [0] + envp + [0]
  }

  /** Where setupStack put things. */
  datatype Layout = Layout(argvPtrs: seq<U64>, envpPtrs: seq<U64>, aux: map<U64, U64>, auxWords: seq<U64>,
                           order: seq<U64>, low: nat)

  const NO_LAYOUT := Layout([], [], map[], [], [], 0)

  function AllWords(argc: nat, l: Layout): seq<U64>
    requires argc < 0x1_0000_0000_0000_0000
  {
    HeadWords(argc, l.argvPtrs, l.envpPtrs) + l.auxWords
  }

  /** What the image at `sp` is: the words of the ABI, 16-aligned, below strings that
      the argv and envp pointers point to. */
  ghost predicate IsImage(f: Flat, sp: U64, argv: seq<seq<Byte>>, envp: seq<seq<Byte>>, l: Layout) {
    && sp % 16 == 0 && STACK_LOW <= sp && |argv| < 0x1_0000_0000_0000_0000
    && sp + 8 * |AllWords(|argv|, l)| <= l.low <= STACK_TOP
    && Holds(f, sp, WordsBytes(AllWords(|argv|, l)))
    && Strings(f, l.argvPtrs, argv, l.low, STACK_TOP)
    && Strings(f, l.envpPtrs, envp, l.low, STACK_TOP)
  }

  /** The auxiliary vector given, with AT_RANDOM and AT_EXECFN pointing to their data. */
  ghost predicate AuxOk(f: Flat, auxv: map<U64, U64>, execfn: seq<Byte>, random: seq<Byte>, l: Layout) {
    && AuxListed(l.auxWords, l.aux, l.order)
    && l.aux.Keys == AuxKeys(auxv)
    && (forall k :: k in auxv && k != AT_RANDOM && k != AT_EXECFN ==> l.aux[k] == auxv[k])
    && l.low <= l.aux[AT_RANDOM] && Holds(f, l.aux[AT_RANDOM], random)
    && l.low <= l.aux[AT_EXECFN] && Holds(f, l.aux[AT_EXECFN], execfn + [0])
  }

  /** The keys of the auxiliary vector: those given and the two that setupStack adds. */
  function AuxKeys(auxv: map<U64, U64>): set<U64> {
    auxv.Keys + {AT_RANDOM, AT_EXECFN}
  }

  /** Everything setupStack puts on the stack has room there, down to the last byte. */
  predicate Fits(argv: seq<seq<Byte>>, envp: seq<seq<Byte>>, execfn: seq<Byte>, auxv: map<U64, U64>) {
    Total(argv) + Total(envp) + |execfn| + 1 + 16 + 8 * (|argv| + |envp| + 2 * |AuxKeys(auxv)| + 5) <= STACK_SIZE
  }

  lemma FitsParts(argv: seq<seq<Byte>>, envp: seq<seq<Byte>>, execfn: seq<Byte>, aux: map<U64, U64>)
    requires Fits(argv, envp, execfn, aux)
    ensures STACK_LOW + Total(argv) + Total(envp) + |execfn| + 17 <= STACK_TOP
  {
  }

  /** The words go below the strings, at the next multiple of 16. */
  method PushWords(mem: Memory, top: U64, words: seq<U64>) returns (sp: U64, fault: Option<Fault>)
    requires mem.Valid() && 8 * |words| <= MAX_SLICE
    modifies mem, mem.frames
    ensures mem.Valid() && mem.Written()
    ensures sp == WordsAt(top, |words|)
    ensures Stored(mem.flat, fault) == Store(old(mem.flat), sp, WordsBytes(words), AnyAccess)
  {
    var x := At(top, -(8 * |words|));
    sp := x - x % 16;
    var blob: seq<Byte> := [];
    for i := 0 to |words|
      invariant blob + WordsBytes(words[i..]) == WordsBytes(words)
    {
      assert words[i..][1..] == words[i + 1..];
      assert blob + (NatToLe(words[i], 8) + WordsBytes(words[i + 1..])) ==
             (blob + NatToLe(words[i], 8)) + WordsBytes(words[i + 1..]);
      blob := blob + NatToLe(words[i], 8);
    }
    assert blob == WordsBytes(words);
    fault := mem.MemWrite(sp, blob);
  }

  /** execfn and the random bytes. */
  method PushExtras(mem: Memory, from: U64, execfn: seq<Byte>, random: seq<Byte>)
    returns (execfnAt: U64, top: U64, fault: Option<Fault>)
    requires mem.Valid() && |execfn| < MAX_SLICE && |random| == 16
    modifies mem, mem.frames
    ensures mem.Valid() && mem.Written()
    ensures StackMapped(old(mem.flat)) && STACK_LOW + |execfn| + 17 <= from <= STACK_TOP ==>
              && fault.None? && execfnAt == from - (|execfn| + 1) && top == execfnAt - 16
              && StackMapped(mem.flat) && SameFrom(old(mem.flat), mem.flat, from)
              && Holds(mem.flat, execfnAt, execfn + [0]) && Holds(mem.flat, top, random)
  {
    hide Store, Holds, SameFrom, StackMapped;
    ghost var fits := StackMapped(mem.flat) && STACK_LOW + |execfn| + 17 <= from <= STACK_TOP;
    ghost var f0 := mem.flat;
    execfnAt, fault := PushStr(mem, from, execfn);
    top := At(execfnAt, -16);
    if fits {
      Pushed(f0, mem.flat, execfnAt, from, execfn, fault);
    }
    if fault.Some? {
      return;
    }
    ghost var f1 := mem.flat;
    fault := mem.MemWrite(top, random);
    if fits {
      WriteInStack(f1, top, random);
      HoldsFrame(f1, mem.flat, execfnAt, execfnAt, execfn + [0]);
      SameTrans(f0, f1, mem.flat, from, execfnAt);
    }
  }

  /** argv and envp, string by string. */
  method PushStrings(mem: Memory, argv: seq<seq<Byte>>, envp: seq<seq<Byte>>)
    returns (argvPtrs: seq<U64>, envpPtrs: seq<U64>, top: U64, fault: Option<Fault>)
    requires mem.Valid() && (forall s :: s in argv ==> |s| < MAX_SLICE) && forall s :: s in envp ==> |s| < MAX_SLICE
    modifies mem, mem.frames
    ensures mem.Valid() && mem.Written()
    ensures StackMapped(old(mem.flat)) && STACK_LOW + Total(argv) + Total(envp) <= STACK_TOP ==>
              && fault.None? && top == STACK_TOP - Total(argv) - Total(envp)
              && StackMapped(mem.flat) && SameFrom(old(mem.flat), mem.flat, STACK_TOP)
              && Strings(mem.flat, argvPtrs, argv, top, STACK_TOP) && Strings(mem.flat, envpPtrs, envp, top, STACK_TOP)
    ensures fault.None? ==> |argvPtrs| == |argv| && |envpPtrs| == |envp|
  {
    hide Store, SameFrom, StackMapped, Strings, Total;
    ghost var fits := StackMapped(mem.flat) && STACK_LOW + Total(argv) + Total(envp) <= STACK_TOP;
    argvPtrs, top, fault := PushAll(mem, STACK_TOP, argv);
    envpPtrs := [];
    if fault.Some? {
      return;
    }
    ghost var f1, top1 := mem.flat, top;
    envpPtrs, top, fault := PushAll(mem, top, envp);
    if fits {
      SameTrans(old(mem.flat), f1, mem.flat, STACK_TOP, top1);
      StringsFrame(f1, mem.flat, argvPtrs, argv, top1, STACK_TOP, top1, top);
      StringsWithin(mem.flat, envpPtrs, envp, top, top1, STACK_TOP);
    }
  }

  lemma StringsWithin(f: Flat, ptrs: seq<U64>, strings: seq<seq<Byte>>, lo: nat, hi: nat, high: nat)
    requires Strings(f, ptrs, strings, lo, hi) && hi <= high
    ensures Strings(f, ptrs, strings, lo, high)
  {
    hide Holds;
  }

  /** Where the words go. */
  function WordsAt(top: U64, n: nat): U64 {
    At(top, -(8 * n)) - At(top, -(8 * n)) % 16
  }

  /** argc, the pointers and the auxiliary vector, below the strings. */
  method PushTable(mem: Memory, top: U64, argvPtrs: seq<U64>, envpPtrs: seq<U64>, auxv: map<U64, U64>, execfnAt: U64)
    returns (sp: U64, fault: Option<Fault>, ghost l: Layout)
    requires mem.Valid() && 8 * (|argvPtrs| + |envpPtrs| + 2 * (|auxv| + 2) + 5) <= MAX_SLICE
    modifies mem, mem.frames
    ensures mem.Valid() && mem.Written()
    ensures l == Layout(argvPtrs, envpPtrs, auxv[AT_RANDOM := top][AT_EXECFN := execfnAt], l.auxWords, l.order, top)
    ensures AuxListed(l.auxWords, l.aux, l.order) && |l.auxWords| == 2 * |l.aux| + 2
    ensures sp == WordsAt(top, |AllWords(|argvPtrs|, l)|)
    ensures Stored(mem.flat, fault) == Store(old(mem.flat), sp, WordsBytes(AllWords(|argvPtrs|, l)), AnyAccess)
  {
    hide Store, WordsBytes, AuxListed;
    var aux := auxv[AT_RANDOM := top][AT_EXECFN := execfnAt];
    AuxSize(auxv, top, execfnAt);
    var auxWords;
    ghost var order;
    auxWords, order := AuxWords(aux);
    l := Layout(argvPtrs, envpPtrs, aux, auxWords, order, top);
    sp, fault := PushWords(mem, top, HeadWords(|argvPtrs|, argvPtrs, envpPtrs) + auxWords);
  }

  /** setupStack; `random` is what /dev/urandom gave. */
  method SetupStack(mem: Memory, argv: seq<seq<Byte>>, envp: seq<seq<Byte>>, execfn: seq<Byte>,
                    auxv: map<U64, U64>, random: seq<Byte>)
    returns (r: Result<U64, Fault>, ghost l: Layout)
    requires mem.Valid() && |random| == 16 && |execfn| < MAX_SLICE
    requires 8 * (|argv| + |envp| + 2 * (|auxv| + 2) + 5) <= MAX_SLICE
    requires (forall s :: s in argv ==> |s| < MAX_SLICE) && forall s :: s in envp ==> |s| < MAX_SLICE
    modifies mem, mem.frames
    ensures mem.Valid() && mem.Written()
    ensures StackMapped(old(mem.flat)) && Fits(argv, envp, execfn, auxv) ==>
              && r.Ok? && IsImage(mem.flat, r.value, argv, envp, l) && AuxOk(mem.flat, auxv, execfn, random, l)
              && StackMapped(mem.flat) && SameFrom(old(mem.flat), mem.flat, STACK_TOP)
  {
    hide Store, Holds, SameFrom, StackMapped, Strings, WordsBytes, AuxListed, IsImage, AuxOk, AllWords;
    ghost var f0 := mem.flat;
    ghost var fits := StackMapped(f0) && Fits(argv, envp, execfn, auxv);
    if fits {
      FitsParts(argv, envp, execfn, auxv);
    }
    hide Fits, Total;
    l := NO_LAYOUT;
    var argvPtrs, envpPtrs, from, fault := PushStrings(mem, argv, envp);
    if fault.Some? {
      return Err(fault.value), l;
    }
    ghost var f1 := mem.flat;
    var execfnAt, top;
    execfnAt, top, fault := PushExtras(mem, from, execfn, random);
    if fault.Some? {
      return Err(fault.value), l;
    }
    ghost var f2 := mem.flat;
    var sp;
    sp, fault, l := PushTable(mem, top, argvPtrs, envpPtrs, auxv, execfnAt);
    if fits {
      Assembled(f0, f1, f2, Stored(mem.flat, fault), l, argv, envp, execfn, random, auxv, from, execfnAt, sp);
    }
    r := if fault.None? then Ok(sp) else Err(fault.value);
  }

  /** All parts in place make the image. */
  lemma Assembled(f0: Flat, f1: Flat, f2: Flat, s: Stored, l: Layout, argv: seq<seq<Byte>>, envp: seq<seq<Byte>>,
                  execfn: seq<Byte>, random: seq<Byte>, auxv: map<U64, U64>, from: U64, execfnAt: U64, sp: U64)
    requires Fits(argv, envp, execfn, auxv) && StackMapped(f2) && |random| == 16
    requires from == STACK_TOP - Total(argv) - Total(envp)
    requires execfnAt == from - (|execfn| + 1) && l.low == execfnAt - 16
    requires SameFrom(f0, f1, STACK_TOP) && SameFrom(f1, f2, from)
    requires Strings(f1, l.argvPtrs, argv, from, STACK_TOP) && Strings(f1, l.envpPtrs, envp, from, STACK_TOP)
    requires Holds(f2, execfnAt, execfn + [0]) && Holds(f2, l.low, random)
    requires l.aux == auxv[AT_RANDOM := l.low][AT_EXECFN := execfnAt]
    requires AuxListed(l.auxWords, l.aux, l.order) && |l.auxWords| == 2 * |l.aux| + 2
    requires |argv| < 0x1_0000_0000_0000_0000
    requires
      var words := AllWords(|argv|, l);
      sp == WordsAt(l.low, |words|) && s == Store(f2, sp, WordsBytes(words), AnyAccess)
    ensures s.fault.None? && StackMapped(s.mem) && SameFrom(f0, s.mem, STACK_TOP)
    ensures IsImage(s.mem, sp, argv, envp, l) && AuxOk(s.mem, auxv, execfn, random, l)
  {
    hide Store, Holds, SameFrom, StackMapped, WordsBytes, AuxListed, AllWords, At, WordsAt;
    var words := AllWords(|argv|, l);
    RoomForWords(argv, envp, execfn, auxv, l, execfnAt);
    hide Strings, Fits, Total, AuxOk;
    WordsPlaced(l.low, |words|);
    WordsStored(f2, s, l.low, sp, WordsBytes(words));
    SameTrans(f1, f2, s.mem, from, l.low);
    SameTrans(f0, f1, s.mem, STACK_TOP, from);
    StringsFrame(f1, s.mem, l.argvPtrs, argv, from, STACK_TOP, from, l.low);
    StringsFrame(f1, s.mem, l.envpPtrs, envp, from, STACK_TOP, from, l.low);
    HoldsFrame(f2, s.mem, l.low, l.low, random);
    HoldsFrame(f2, s.mem, l.low, execfnAt, execfn + [0]);
    AuxPlaced(s.mem, auxv, execfn, random, l, execfnAt);
  }

  lemma AuxPlaced(f: Flat, auxv: map<U64, U64>, execfn: seq<Byte>, random: seq<Byte>, l: Layout, execfnAt: U64)
    requires l.low <= execfnAt && l.low < 0x1_0000_0000_0000_0000
    requires l.aux == auxv[AT_RANDOM := l.low][AT_EXECFN := execfnAt] && AuxListed(l.auxWords, l.aux, l.order)
    requires Holds(f, l.low, random) && Holds(f, execfnAt, execfn + [0])
    ensures AuxOk(f, auxv, execfn, random, l)
  {
    hide Holds, AuxListed;
    assert l.aux.Keys == AuxKeys(auxv);
  }

  lemma WordsStored(f: Flat, s: Stored, low: U64, sp: U64, data: seq<Byte>)
    requires StackMapped(f) && STACK_LOW <= sp && sp + |data| <= low <= STACK_TOP
    requires s == Store(f, sp, data, AnyAccess)
    ensures s.fault.None? && StackMapped(s.mem) && SameFrom(f, s.mem, low) && Holds(s.mem, sp, data)
  {
    hide Store, Holds, SameFrom, StackMapped;
    WriteInStack(f, sp, data);
    SameHigher(f, s.mem, sp + |data|, low);
  }

  lemma RoomForWords(argv: seq<seq<Byte>>, envp: seq<seq<Byte>>, execfn: seq<Byte>, auxv: map<U64, U64>, l: Layout,
                     execfnAt: U64)
    requires Fits(argv, envp, execfn, auxv) && |l.argvPtrs| == |argv| < 0x1_0000_0000_0000_0000 && |l.envpPtrs| == |envp|
    requires l.low == STACK_TOP - Total(argv) - Total(envp) - (|execfn| + 1) - 16
    requires l.aux == auxv[AT_RANDOM := l.low][AT_EXECFN := execfnAt] && |l.auxWords| == 2 * |l.aux| + 2
    ensures STACK_LOW + 8 * |AllWords(|argv|, l)| <= l.low <= STACK_TOP
  {
    hide Total;
    AuxSize(auxv, l.low, execfnAt);
    WordCount(argv, envp, l);
  }

  lemma WordCount(argv: seq<seq<Byte>>, envp: seq<seq<Byte>>, l: Layout)
    requires |l.argvPtrs| == |argv| < 0x1_0000_0000_0000_0000 && |l.envpPtrs| == |envp|
    requires |l.auxWords| == 2 * |l.aux| + 2
    ensures |AllWords(|argv|, l)| == |argv| + |envp| + 2 * |l.aux| + 5
  {
  }

  lemma WordsPlaced(top: U64, n: nat)
    requires STACK_LOW + 8 * n <= top
    ensures var sp := WordsAt(top, n); sp % 16 == 0 && STACK_LOW <= sp && sp + 8 * n <= top
  {
  }

  lemma AuxSize(aux: map<U64, U64>, a: U64, b: U64)
    ensures |aux[AT_RANDOM := a][AT_EXECFN := b]| == |AuxKeys(aux)| <= |aux| + 2
  {
    var m := aux[AT_RANDOM := a];
    assert m.Keys == aux.Keys + {AT_RANDOM};
    assert m[AT_EXECFN := b].Keys == m.Keys + {AT_EXECFN} == AuxKeys(aux);
  }

  // ---- reading back ----------------------------------------------------------

  predicate NulFree(s: seq<Byte>) {
    0 !in s
  }

  /** What a reader of at most MAX_STRING bytes makes of a string. */
  function Cut(s: seq<Byte>): seq<Byte> {
    if |s| < MAX_STRING then s else s[..MAX_STRING]
  }

  function CutAll(strings: seq<seq<Byte>>): (r: seq<seq<Byte>>)
    ensures |r| == |strings| && forall i :: 0 <= i < |strings| ==> r[i] == Cut(strings[i])
    ensures (forall s :: s in strings ==> |s| < MAX_STRING) ==> r == strings
  {
    seq(|strings|, i requires 0 <= i < |strings| => Cut(strings[i]))
  }

  /** The next piece of a string: a whole rest of a page can be read. */
  lemma ChunkLoads(f: Flat, addr: U64, s: seq<Byte>, k: nat, n: nat)
    requires StackMapped(f) && STACK_LOW <= addr && addr + |s| + 1 <= STACK_TOP
    requires Holds(f, addr, s + [0]) && k <= |s| && k < MAX_STRING && n == ChunkLen(addr + k, MAX_STRING - k)
    ensures
      var l := Load(f, addr + k, n, AnyAccess);
      && l.Ok? && forall i :: 0 <= i < n && k + i <= |s| ==> l.value[i] == (s + [0])[k + i]
  {
    hide At, Reach, ChunkLen;
    var cur: U64 := addr + k;
    ChunkInPage(cur, MAX_STRING - k);
    forall i: nat | i < n
      ensures Allowed(f, At(cur, i), AnyAccess) && (k + i <= |s| ==> ByteAt(f, At(cur, i)) == (s + [0])[k + i])
    {
      AtLow(cur, i);
      if k + i <= |s| {
        assert ByteIs(f, addr + (k + i), (s + [0])[k + i]);
      }
    }
    ReachIs(f, cur, n, AnyAccess, n);
  }

  lemma ChunkInPage(cur: U64, left: nat)
    requires cur < STACK_TOP && left > 0
    ensures var n := ChunkLen(cur, left); 0 < n <= left && cur + n <= STACK_TOP
  {
  }

  lemma IndexZeroIs(b: seq<Byte>, z: nat)
    requires z <= |b| && (forall i :: 0 <= i < z ==> b[i] != 0) && (z < |b| ==> b[z] == 0)
    ensures IndexZero(b) == z
  {
    hide IndexZero;
    var i := IndexZero(b);
    assert !(i < z) && !(z < i);
  }

  /** cstr finds a string that setupStack wrote. */
  lemma {:induction false} CstrReadsFrom(f: Flat, addr: U64, s: seq<Byte>, k: nat)
    requires StackMapped(f) && STACK_LOW <= addr && addr + |s| + 1 <= STACK_TOP
    requires Holds(f, addr, s + [0]) && NulFree(s) && k <= |s| && k <= MAX_STRING
    ensures CstrFrom(f, addr + k, s[..k], MAX_STRING) == Cut(s)
    decreases MAX_STRING - k
  {
    hide Load, Holds, StackMapped, ChunkLen, IndexZero, At, NulFree;
    if k < MAX_STRING {
      var n := ChunkLen(addr + k, MAX_STRING - k);
      ChunkInPage(addr + k, MAX_STRING - k);
      ChunkLoads(f, addr, s, k, n);
      var b := Load(f, addr + k, n, AnyAccess).value;
      if |s| - k >= n {
        ChunkContinues(s, k, b);
        AtLow(addr + k, n);
        CstrReadsFrom(f, addr, s, k + n);
      } else {
        ChunkEnds(s, k, b);
      }
    } else {
      assert s[..k] == Cut(s);
    }
  }

  /** A piece that holds the string's end. */
  lemma ChunkEnds(s: seq<Byte>, k: nat, b: seq<Byte>)
    requires NulFree(s) && k <= |s| < k + |b|
    requires forall i :: 0 <= i < |b| && k + i <= |s| ==> b[i] == (s + [0])[k + i]
    ensures IndexZero(b) == |s| - k && s[..k] + b[..|s| - k] == s
  {
    hide IndexZero, NulFree;
    var z := |s| - k;
    forall i | 0 <= i < z
      ensures b[i] == s[k + i] && b[i] != 0
    {
      ChunkByte(s, k, i);
    }
    ChunkByte(s, k, z);
    IndexZeroIs(b, z);
    assert b[..z] == s[k..];
  }

  /** A piece from the middle. */
  lemma ChunkContinues(s: seq<Byte>, k: nat, b: seq<Byte>)
    requires NulFree(s) && k + |b| <= |s|
    requires forall i :: 0 <= i < |b| && k + i <= |s| ==> b[i] == (s + [0])[k + i]
    ensures IndexZero(b) == |b| && s[..k] + b == s[..k + |b|]
  {
    hide IndexZero, NulFree;
    forall i | 0 <= i < |b|
      ensures b[i] == s[k + i] && b[i] != 0
    {
      ChunkByte(s, k, i);
    }
    IndexZeroIs(b, |b|);
    assert b == s[k..k + |b|];
  }

  lemma ChunkByte(s: seq<Byte>, k: nat, i: nat)
    requires NulFree(s) && k + i <= |s|
    ensures (s + [0])[k + i] == if k + i < |s| then s[k + i] else 0
    ensures k + i < |s| ==> s[k + i] != 0
  {
  }

  lemma CstrReads(f: Flat, addr: U64, s: seq<Byte>)
    requires StackMapped(f) && STACK_LOW <= addr && addr + |s| + 1 <= STACK_TOP
    requires Holds(f, addr, s + [0]) && NulFree(s)
    ensures CstrFrom(f, addr, [], MAX_STRING) == Cut(s)
  {
    hide CstrFrom, Holds, StackMapped, Cut, NulFree;
    assert s[..0] == [];
    assert addr + 0 == addr;
    CstrReadsFrom(f, addr, s, 0);
  }

  /** An array of pointers to strings, ended by a NULL, is read back. */
  lemma {:induction false} ArrayReadsFrom(f: Flat, sp: U64, words: seq<U64>, at: nat, ptrs: seq<U64>,
                                          strings: seq<seq<Byte>>, low: nat, i: nat)
    requires StackMapped(f) && STACK_LOW <= sp && sp + 8 * |words| <= low <= STACK_TOP
    requires Holds(f, sp, WordsBytes(words)) && Strings(f, ptrs, strings, low, STACK_TOP)
    requires forall s :: s in strings ==> NulFree(s)
    requires at + |ptrs| < |words| && words[at..at + |ptrs|] == ptrs && words[at + |ptrs|] == 0
    requires i <= |strings|
    ensures ReadArrayFrom(f, sp + 8 * at, i) == CutAll(strings)[i..]
    decreases |strings| - i
  {
    hide Load, Holds, StackMapped, WordsBytes, CstrFrom, LeWord, NatToLe;
    assert STACK_TOP / 8 < MAX_WORDS;
    AtLow(sp + 8 * at, i * 8);
    WordAt(f, sp, words, at + i);
    assert sp + 8 * (at + i) == sp + 8 * at + i * 8;
    if i < |strings| {
      assert words[at + i] == words[at..at + |ptrs|][i] == ptrs[i];
      assert strings[i] in strings;
      CstrReads(f, ptrs[i], strings[i]);
      ArrayReadsFrom(f, sp, words, at, ptrs, strings, low, i + 1);
      assert CutAll(strings)[i..] == [Cut(strings[i])] + CutAll(strings)[i + 1..];
    }
  }

  /** On the image that setupStack builds, the readers of execve return exactly the
      arguments and the environment (cut to 4096 bytes each), and argc is right. */
  lemma ImageReadsBack(f: Flat, sp: U64, argv: seq<seq<Byte>>, envp: seq<seq<Byte>>, l: Layout)
    requires StackMapped(f) && IsImage(f, sp, argv, envp, l)
    requires (forall s :: s in argv ==> NulFree(s)) && forall s :: s in envp ==> NulFree(s)
    ensures Load(f, sp, 8, AnyAccess) == Ok(NatToLe(|argv|, 8))
    ensures ReadArray(f, sp + 8) == CutAll(argv)
    ensures ReadArray(f, sp + 8 + 8 * (|argv| + 1)) == CutAll(envp)
  {
    hide StackMapped, IsImage, Load, ReadArray, CutAll;
    ArgcReadsBack(f, sp, argv, envp, l);
    ArgvReadsBack(f, sp, argv, envp, l);
    EnvpReadsBack(f, sp, argv, envp, l);
  }

  lemma ArgcReadsBack(f: Flat, sp: U64, argv: seq<seq<Byte>>, envp: seq<seq<Byte>>, l: Layout)
    requires IsImage(f, sp, argv, envp, l)
    ensures Load(f, sp, 8, AnyAccess) == Ok(NatToLe(|argv|, 8))
  {
    hide Load, Holds, WordsBytes, AllWords, Strings, LeWord, NatToLe;
    StringsLength(f, l, argv, envp);
    WordsAre(|argv|, l);
    WordAt(f, sp, AllWords(|argv|, l), 0);
  }

  lemma ArgvReadsBack(f: Flat, sp: U64, argv: seq<seq<Byte>>, envp: seq<seq<Byte>>, l: Layout)
    requires StackMapped(f) && IsImage(f, sp, argv, envp, l) && forall s :: s in argv ==> NulFree(s)
    ensures sp + 8 < STACK_TOP && ReadArray(f, sp + 8) == CutAll(argv)
  {
    hide Load, Holds, StackMapped, WordsBytes, ReadArray, AllWords, CutAll, Strings, NulFree;
    StringsLength(f, l, argv, envp);
    WordsAre(|argv|, l);
    ArrayReads(f, sp, AllWords(|argv|, l), 1, l.argvPtrs, argv, l.low);
  }

  lemma EnvpReadsBack(f: Flat, sp: U64, argv: seq<seq<Byte>>, envp: seq<seq<Byte>>, l: Layout)
    requires StackMapped(f) && IsImage(f, sp, argv, envp, l) && forall s :: s in envp ==> NulFree(s)
    ensures sp + 8 + 8 * (|argv| + 1) < STACK_TOP && ReadArray(f, sp + 8 + 8 * (|argv| + 1)) == CutAll(envp)
  {
    hide Load, Holds, StackMapped, WordsBytes, ReadArray, AllWords, CutAll, Strings, NulFree;
    StringsLength(f, l, argv, envp);
    WordsAre(|argv|, l);
    ArrayReads(f, sp, AllWords(|argv|, l), |argv| + 2, l.envpPtrs, envp, l.low);
    assert sp + 8 * (|argv| + 2) == sp + 8 + 8 * (|argv| + 1);
  }

  lemma ArrayReads(f: Flat, sp: U64, words: seq<U64>, at: nat, ptrs: seq<U64>, strings: seq<seq<Byte>>, low: nat)
    requires StackMapped(f) && STACK_LOW <= sp && sp + 8 * |words| <= low <= STACK_TOP
    requires Holds(f, sp, WordsBytes(words)) && Strings(f, ptrs, strings, low, STACK_TOP)
    requires forall s :: s in strings ==> NulFree(s)
    requires at + |ptrs| < |words| && words[at..at + |ptrs|] == ptrs && words[at + |ptrs|] == 0
    ensures ReadArray(f, sp + 8 * at) == CutAll(strings)
  {
    hide Holds, StackMapped, WordsBytes, Strings, ReadArrayFrom;
    ArrayReadsFrom(f, sp, words, at, ptrs, strings, low, 0);
    assert CutAll(strings)[0..] == CutAll(strings);
  }

  lemma StringsLength(f: Flat, l: Layout, argv: seq<seq<Byte>>, envp: seq<seq<Byte>>)
    requires Strings(f, l.argvPtrs, argv, l.low, STACK_TOP) && Strings(f, l.envpPtrs, envp, l.low, STACK_TOP)
    ensures |l.argvPtrs| == |argv| && |l.envpPtrs| == |envp|
  {
  }

  lemma WordsAre(n: nat, l: Layout)
    requires n < 0x1_0000_0000_0000_0000 && |l.argvPtrs| == n
    ensures
      var words, m := AllWords(n, l), |l.envpPtrs|;
      && |words| >= n + m + 3 && words[0] == n
      && words[1..1 + n] == l.argvPtrs && words[1 + n] == 0
      && words[n + 2..n + 2 + m] == l.envpPtrs && words[n + 2 + m] == 0
  {
  }

  // ---- the auxiliary vector --------------------------------------------------

  function WordIn(f: Flat, addr: U64): Option<U64> {
    match Load(f, addr, 8, AnyAccess)
    case Ok(b) => Some(LeWord(b))
    case Err(_) => None
  }

  /** getauxval: pair by pair from `p` to the AT_NULL, at most n pairs. */
  function GetAux(f: Flat, p: U64, key: U64, n: nat): Option<U64>
    decreases n
  {
    if n == 0 then None
    else
      var k := WordIn(f, p);
      if k.None? || k.value == 0 then None
      else if k.value == key then WordIn(f, At(p, 8))
      else GetAux(f, At(p, 16), key, n - 1)
  }

  lemma {:induction false} AuxScanned(f: Flat, p: U64, words: seq<U64>, at: nat, aux: map<U64, U64>, auxWords: seq<U64>,
                                      order: seq<U64>, key: U64, i: nat)
    requires Holds(f, p, WordsBytes(words)) && p + 8 * |words| <= STACK_TOP && at + |auxWords| == |words|
    requires words[at..] == auxWords && AuxListed(auxWords, aux, order) && 0 !in aux && key != 0
    requires i <= |order| && forall j :: 0 <= j < i ==> order[j] != key
    ensures GetAux(f, p + 8 * (at + 2 * i), key, |order| + 1 - i) == if key in aux then Some(aux[key]) else None
    decreases |order| - i
  {
    hide Load, Holds, WordsBytes, LeWord, NatToLe;
    var here := p + 8 * (at + 2 * i);
    assert words[at + 2 * i] == auxWords[2 * i] && words[at + 2 * i + 1] == auxWords[2 * i + 1];
    WordAt(f, p, words, at + 2 * i);
    WordAt(f, p, words, at + 2 * i + 1);
    AtLow(here, 8);
    AtLow(here, 16);
    assert key in aux ==> key in order;
    if i < |order| {
      assert order[i] in order;
      if order[i] != key {
        AuxScanned(f, p, words, at, aux, auxWords, order, key, i + 1);
      }
    }
  }

  /** What a program finds behind its environment: for every key given the value
      given, for AT_RANDOM and AT_EXECFN (25 and 31) the addresses of the random
      bytes and of the file name, and for any other key nothing. */
  lemma AuxReadsBack(f: Flat, sp: U64, argv: seq<seq<Byte>>, envp: seq<seq<Byte>>, execfn: seq<Byte>, random: seq<Byte>,
                     auxv: map<U64, U64>, l: Layout, key: U64)
    requires IsImage(f, sp, argv, envp, l) && AuxOk(f, auxv, execfn, random, l) && 0 !in auxv && key != 0
    ensures
      var p := sp + 8 * (|argv| + |envp| + 3);
      && p < STACK_TOP
      && var r := GetAux(f, p, key, |l.order| + 1);
         if key == 25 then r.Some? && Holds(f, r.value, random)
         else if key == 31 then r.Some? && Holds(f, r.value, execfn + [0])
         else r == if key in auxv then Some(auxv[key]) else None
  {
    hide Load, Holds, WordsBytes, Strings, LeWord, NatToLe, GetAux;
    var words, at := AllWords(|argv|, l), |argv| + |envp| + 3;
    StringsLength(f, l, argv, envp);
    assert words[at..] == l.auxWords;
    assert 0 !in l.aux;
    AuxScanned(f, sp, words, at, l.aux, l.auxWords, l.order, key, 0);
  }

  // ---- what the readers return -----------------------------------------------

  /** `r` is the longest run of nonzero bytes from `addr` on, but at most maxlen. */
  ghost predicate IsCstr(f: Flat, addr: U64, r: seq<Byte>, maxlen: nat) {
    && |r| <= maxlen
    && (forall i: nat :: i < |r| ==> At(addr, i) in f && f[At(addr, i)].byte == r[i] != 0)
    && (|r| < maxlen ==> At(addr, |r|) !in f || f[At(addr, |r|)].byte == 0)
  }

  lemma ChunkRead(f: Flat, cur: U64, n: nat)
    requires Paged(f) && 0 < n <= 0x1000 - cur % 0x1000
    ensures
      match Load(f, cur, n, AnyAccess)
      case Err(_) => cur !in f
      case Ok(b) => forall i: nat :: i < n ==> At(cur, i) in f && f[At(cur, i)].byte == b[i]
  {
    hide Load, At, PageBase;
    LoadExact(f, cur, n, AnyAccess);
    var l := Load(f, cur, n, AnyAccess);
    if l.Err? {
      var k := n - l.error.size;
      AtStart(cur);
      InPage(cur, 0, n);
      assert PageBase(At(cur, k)) == PageBase(At(cur, 0));
    }
  }

  lemma AtStart(a: U64)
    ensures At(a, 0) == a
  {
  }

  /** In a memory of pages, cstr returns exactly the bytes up to the first NUL, the
      first unmapped address, or the limit: reading page by page makes no difference. */
  lemma {:induction false} CstrExact(f: Flat, cur: U64, maxlen: nat, data: seq<Byte>) returns (r: seq<Byte>)
    requires Paged(f) && |data| <= maxlen
    ensures CstrFrom(f, cur, data, maxlen) == data + r && IsCstr(f, cur, r, maxlen - |data|)
    decreases maxlen - |data|
  {
    hide Load, At, Paged, IndexZero;
    AtStart(cur);
    if |data| == maxlen {
      r := [];
      assert data + r == data;
    } else {
      var n := ChunkLen(cur, maxlen - |data|);
      ChunkRead(f, cur, n);
      match Load(f, cur, n, AnyAccess)
      case Err(_) =>
        r := [];
        assert data + r == data;
      case Ok(b) =>
        var z := IndexZero(b);
        if z < |b| {
          r := b[..z];
          assert At(cur, z) in f && f[At(cur, z)].byte == b[z];
        } else {
          var rest := CstrExact(f, At(cur, n), maxlen, data + b);
          r := b + rest;
          assert data + b + rest == data + r;
          CstrJoined(f, cur, b, rest, maxlen - |data|);
        }
    }
  }

  lemma CstrJoined(f: Flat, cur: U64, b: seq<Byte>, rest: seq<Byte>, maxlen: nat)
    requires forall i: nat :: i < |b| ==> At(cur, i) in f && f[At(cur, i)].byte == b[i] != 0
    requires |b| <= maxlen && IsCstr(f, At(cur, |b|), rest, maxlen - |b|)
    ensures IsCstr(f, cur, b + rest, maxlen)
  {
    hide Wrap64;
    forall i: nat | i <= |rest|
      ensures At(cur, |b| + i) == At(At(cur, |b|), i)
    {
      WrapSum(i, cur + |b|);
    }
    forall i: nat | i < |b + rest|
      ensures At(cur, i) in f && f[At(cur, i)].byte == (b + rest)[i] != 0
    {
      if i >= |b| {
        assert At(cur, i) == At(At(cur, |b|), i - |b|);
      }
    }
  }

  /** `r` are the strings of the pointers from the i-th on, each cut to 4096 bytes, up
      to the first NULL or the first that cannot be read. */
  ghost predicate IsArray(f: Flat, ptr: U64, i: nat, r: seq<seq<Byte>>) {
    && (forall k: nat :: k < |r| ==> StringAt(f, ptr, i + k, r[k]))
    && (i + |r| < MAX_WORDS ==> EndAt(f, ptr, i + |r|))
  }

  ghost predicate StringAt(f: Flat, ptr: U64, i: nat, s: seq<Byte>) {
    var p := WordIn(f, At(ptr, i * 8));
    p.Some? && p.value != 0 && IsCstr(f, p.value, s, 4096)
  }

  predicate EndAt(f: Flat, ptr: U64, i: nat) {
    var p := WordIn(f, At(ptr, i * 8));
    p.None? || p.value == 0
  }

  /** readCStrArray, for any memory of pages and any pointer. */
  lemma {:induction false} ArrayExact(f: Flat, ptr: U64, i: nat)
    requires Paged(f)
    ensures IsArray(f, ptr, i, ReadArrayFrom(f, ptr, i))
    decreases if i <= MAX_WORDS then MAX_WORDS - i else 0
  {
    hide Load, At, CstrFrom, IsCstr, Paged, LeWord;
    if i < MAX_WORDS {
      var p := WordIn(f, At(ptr, i * 8));
      if p.Some? && p.value != 0 {
        var s := CstrExact(f, p.value, MAX_STRING, []);
        assert [] + s == s;
        ArrayExact(f, ptr, i + 1);
        var rest := ReadArrayFrom(f, ptr, i + 1);
        var r := ReadArrayFrom(f, ptr, i);
        assert r == [s] + rest;
        forall k: nat | k < |r|
          ensures StringAt(f, ptr, i + k, r[k])
        {
          if k > 0 {
            assert r[k] == rest[k - 1] && i + k == i + 1 + (k - 1);
          }
        }
        assert i + |r| == i + 1 + |rest|;
      }
    }
  }
}
