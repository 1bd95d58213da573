/** getdents64 (internal/syscalls/dir.go): a directory handle writes the rest of
    its snapshot record by record.  A reader of the records gets the snapshot
    back, however the caller sized its buffers. */
module Dirents {
  import opened Words
  import opened FlatMemory
  import opened PagedMemory

  type Name = seq<Byte>

  const EFAULT: int := 14
  const HEADER: nat := 19

  /** Length of a record: header, name and NUL, rounded up to a multiple of 8. */
  function RecLen(name: Name): (n: nat)
    ensures n % 8 == 0 && HEADER + |name| + 1 <= n < HEADER + |name| + 9
  {
    (HEADER + (|name| + 1) + 7) / 8 * 8
  }

  function Zeros(n: nat): (z: seq<Byte>)
    ensures |z| == n && forall i :: 0 <= i < n ==> z[i] == 0
  {
    seq<Byte>(n, _ => 0)
  }

  /** d_ino, d_off, d_reclen (16 bits), d_type, the name, and zeros to the end. */
  function Record(name: Name, pos: nat): (r: seq<Byte>)
    ensures |r| == RecLen(name)
  {
    NatToLe(1, 8) + NatToLe(pos + 1, 8) + NatToLe(RecLen(name) % 0x1_0000, 2) + [0] + name
    + Zeros(RecLen(name) - HEADER - |name|)
  }

  /** The records of entries i to j. */
  function Records(entries: seq<Name>, i: nat, j: nat): seq<Byte>
    requires i <= j <= |entries|
    decreases j - i
  {
    if i == j then [] else Record(entries[i], i) + Records(entries, i + 1, j)
  }

  /** How many entries from `pos` on fit into `room` bytes. */
  function Fill(entries: seq<Name>, pos: nat, room: int): (k: nat)
    requires pos <= |entries|
    ensures pos + k <= |entries|
    ensures |Records(entries, pos, pos + k)| <= if room > 0 then room else 0
    decreases |entries| - pos
  {
    if pos < |entries| && RecLen(entries[pos]) <= room
    then 1 + Fill(entries, pos + 1, room - RecLen(entries[pos]))
    else 0
  }

  /** int(count): the 64-bit argument read as signed. */
  function AsInt(count: U64): int {
    if count < 0x8000_0000_0000_0000 then count else count - 0x1_0000_0000_0000_0000
  }

  class DirHandle {
    const entries: seq<Name>
    var pos: nat

    ghost predicate Valid()
      reads this
    {
      pos <= |entries|
    }

    /** The snapshot, with the entries every directory has in front. */
    constructor (names: seq<Name>)
      ensures Valid() && pos == 0 && entries == [[0x2E], [0x2E, 0x2E]] + names
    {
      entries, pos := [[0x2E], [0x2E, 0x2E]] + names, 0;
    }

    /** The result is the number of bytes written, or EFAULT; the cursor has moved
        over the records in either case. */
    method Getdents64(mem: Memory, buf: U64, count: U64) returns (ret: int)
      requires Valid() && mem.Valid()
      modifies this, mem, mem.frames
      ensures Valid() && mem.Valid() && mem.Written()
      ensures pos == old(pos) + Fill(entries, old(pos), AsInt(count))
      ensures
        var out := Records(entries, old(pos), pos);
        var s := Store(old(mem.flat), buf, out, AnyAccess);
        mem.flat == s.mem && ret == if s.fault.None? then |out| else -14
    {
      hide Store, Record, Records, RecLen, NatToLe, mem.Valid;
      var out: seq<Byte> := [];
      RecordsNothing(entries, pos);
      while pos < |entries|
        invariant Valid() && old(pos) <= pos && mem.Valid() && mem.Written() && mem.flat == old(mem.flat)
        invariant out == Records(entries, old(pos), pos) && |out| <= MAX_SLICE
        invariant Fill(entries, old(pos), AsInt(count)) == pos - old(pos) + Fill(entries, pos, AsInt(count) - |out|)
        decreases |entries| - pos
      {
        var name := entries[pos];
        var reclen := RecLen(name);
        if |out| + reclen > AsInt(count) {
          break;
        }
        RecordsAppend(entries, old(pos), pos);
        out := out + Record(name, pos);
        pos := pos + 1;
      }
      var fault := mem.MemWrite(buf, out);
      ret := if fault.None? then |out| else -EFAULT;
    }
  }

  lemma RecordsNothing(entries: seq<Name>, i: nat)
    requires i <= |entries|
    ensures Records(entries, i, i) == []
  {
  }

  lemma {:induction false} RecordsAppend(entries: seq<Name>, i: nat, j: nat)
    requires i <= j < |entries|
    ensures Records(entries, i, j + 1) == Records(entries, i, j) + Record(entries[j], j)
    decreases j - i
  {
    if i < j {
      RecordsAppend(entries, i + 1, j);
    } else {
      RecordsNothing(entries, j + 1);
    }
  }

  lemma {:induction false} RecordsJoin(entries: seq<Name>, i: nat, j: nat, k: nat)
    requires i <= j <= k <= |entries|
    ensures Records(entries, i, k) == Records(entries, i, j) + Records(entries, j, k)
    decreases j - i
  {
    if i < j {
      RecordsJoin(entries, i + 1, j, k);
    }
  }

  // ---- reading records -------------------------------------------------------

  /** A directory entry as a reader sees it.  An inode number of 0 would mark an
      entry to be skipped. */
  datatype Dirent = Dirent(ino: U64, off: U64, kind: Byte, name: Name)

  const DT_UNKNOWN: Byte := 0

  /** The bytes up to the first NUL. */
  function UpToNul(b: seq<Byte>): Name {
    if b == [] || b[0] == 0 then [] else [b[0]] + UpToNul(b[1..])
  }

  /** Walks a buffer by d_reclen; none if a record does not fit. */
  function Parse(b: seq<Byte>): Option<seq<Dirent>>
    decreases |b|
  {
    if b == [] then Some([])
    else if |b| < HEADER then None
    else
      var n := LeToNat(b[16..18]);
      if n < HEADER || n > |b| then None
      else
        match Parse(b[n..])
        case None => None
        case Some(rest) => Some([Dirent(LeWord(b[0..8]), LeWord(b[8..16]), b[18], UpToNul(b[HEADER..n]))] + rest)
  }

  /** A name that a record can carry: no NUL inside, and a length that d_reclen
      can count. */
  predicate Carried(name: Name) {
    0 !in name && RecLen(name) < 0x1_0000
  }

  /** Entries i to j can be carried. */
  predicate AllCarried(entries: seq<Name>, i: nat, j: nat)
    requires j <= |entries|
  {
    forall k :: i <= k < j ==> Carried(entries[k])
  }

  /** Entries i to j as a reader sees them, none to be skipped, all of unknown
      type, each with the position after it. */
  function Listing(entries: seq<Name>, i: nat, j: nat): (r: seq<Dirent>)
    requires i <= j <= |entries| < 0x1_0000_0000_0000_0000
    ensures |r| == j - i && forall k :: 0 <= k < j - i ==> r[k] == Dirent(1, i + k + 1, DT_UNKNOWN, entries[i + k])
  {
    seq(j - i, k requires 0 <= k < j - i => Dirent(1, i + k + 1, DT_UNKNOWN, entries[i + k]))
  }

  lemma {:induction false} UpToNulStops(name: Name, rest: seq<Byte>)
    requires 0 !in name && rest != [] && rest[0] == 0
    ensures UpToNul(name + rest) == name
  {
    if name == [] {
      assert name + rest == rest;
    } else {
      assert (name + rest)[1..] == name[1..] + rest && (name + rest)[0] == name[0];
      UpToNulStops(name[1..], rest);
    }
  }

  /** The fields of a record followed by anything. */
  lemma RecordFields(name: Name, pos: nat, tail: seq<Byte>)
    requires Carried(name) && pos + 1 < 0x1_0000_0000_0000_0000
    ensures
      var b, n := Record(name, pos) + tail, RecLen(name);
      && LeToNat(b[0..8]) == 1 && LeToNat(b[8..16]) == pos + 1 && LeToNat(b[16..18]) == n && b[18] == DT_UNKNOWN
      && UpToNul(b[HEADER..n]) == name && b[n..] == tail
  {
    hide NatToLe, LeToNat, UpToNul, Zeros;
    var b, n := Record(name, pos) + tail, RecLen(name);
    var pad := Zeros(n - HEADER - |name|);
    Pow256Widths();
    LeRoundTrip(n % 0x1_0000, 2);
    LeRoundTrip(pos + 1, 8);
    LeRoundTrip(1, 8);
    assert b[0..8] == NatToLe(1, 8);
    assert b[16..18] == NatToLe(n % 0x1_0000, 2);
    assert b[8..16] == NatToLe(pos + 1, 8);
    assert b[HEADER..n] == name + pad;
    UpToNulStops(name, pad);
  }

  /** A record that carries its name is read as its entry, and reading goes on
      behind it. */
  lemma RecordParses(name: Name, pos: nat, tail: seq<Byte>)
    requires Carried(name) && pos + 1 < 0x1_0000_0000_0000_0000
    ensures
      var t := Parse(tail);
      Parse(Record(name, pos) + tail) ==
      if t.None? then None else Some([Dirent(1, pos + 1, DT_UNKNOWN, name)] + t.value)
  {
    hide Record, UpToNul, LeToNat, Carried;
    RecordFields(name, pos, tail);
  }

  lemma {:induction false} UpToNulFree(b: seq<Byte>)
    ensures 0 !in UpToNul(b) && |UpToNul(b)| <= |b|
  {
    if b != [] && b[0] != 0 {
      UpToNulFree(b[1..]);
    }
  }

  /** Of a record that does not carry its name a reader never gets that name: one
      with a NUL is cut there, and one too long for 16 bits has a d_reclen at
      least 65536 too small. */
  lemma NameLost(name: Name, pos: nat, tail: seq<Byte>)
    requires !Carried(name)
    ensures
      var r := Parse(Record(name, pos) + tail);
      r.Some? ==> r.value != [] && r.value[0].name != name
  {
    hide Record, LeToNat, UpToNul;
    var b, n := Record(name, pos) + tail, RecLen(name) % 0x1_0000;
    LengthField(name, pos, tail);
    if HEADER <= n <= |b| {
      UpToNulFree(b[HEADER..n]);
    }
  }

  /** The 16 bits of the record length. */
  lemma LengthField(name: Name, pos: nat, tail: seq<Byte>)
    ensures LeToNat((Record(name, pos) + tail)[16..18]) == RecLen(name) % 0x1_0000
  {
    hide NatToLe, LeToNat, Zeros;
    var b, n := Record(name, pos) + tail, RecLen(name) % 0x1_0000;
    Pow256Widths();
    LeRoundTrip(n, 2);
    assert b[16..18] == NatToLe(n, 2);
  }

  /** The records of any stretch parse back to its entries exactly when each can
      be carried. */
  lemma {:induction false} RecordsParse(entries: seq<Name>, i: nat, j: nat)
    requires i <= j <= |entries| < 0x1_0000_0000_0000_0000
    ensures Parse(Records(entries, i, j)) == Some(Listing(entries, i, j)) <==> AllCarried(entries, i, j)
    decreases j - i
  {
    hide Record, UpToNul, LeToNat, Carried;
    if i < j {
      var name, tail := entries[i], Records(entries, i + 1, j);
      RecordsParse(entries, i + 1, j);
      var rest := Listing(entries, i + 1, j);
      assert Listing(entries, i, j) == [Dirent(1, i + 1, DT_UNKNOWN, name)] + rest;
      if Carried(name) {
        RecordParses(name, i, tail);
        var r := Parse(Record(name, i) + tail);
        ConsSame(r, Parse(tail), Dirent(1, i + 1, DT_UNKNOWN, name), rest);
      } else {
        NameLost(name, i, tail);
      }
    }
  }

  lemma ConsSame(r: Option<seq<Dirent>>, t: Option<seq<Dirent>>, d: Dirent, rest: seq<Dirent>)
    requires r == if t.None? then None else Some([d] + t.value)
    ensures r == Some([d] + rest) <==> t == Some(rest)
  {
    if t.Some? {
      assert ([d] + t.value)[1..] == t.value && ([d] + rest)[1..] == rest;
    }
  }

  // ---- any sequence of calls -------------------------------------------------

  /** Where the cursor ends after calls with these buffer sizes. */
  function PosAfter(entries: seq<Name>, pos: nat, counts: seq<U64>): (end: nat)
    requires pos <= |entries|
    ensures pos <= end <= |entries|
    decreases |counts|
  {
    if counts == [] then pos else PosAfter(entries, pos + Fill(entries, pos, AsInt(counts[0])), counts[1..])
  }

  /** Everything those calls wrote, in order. */
  function OutputOf(entries: seq<Name>, pos: nat, counts: seq<U64>): seq<Byte>
    requires pos <= |entries|
    decreases |counts|
  {
    if counts == [] then []
    else
      var next := pos + Fill(entries, pos, AsInt(counts[0]));
      Records(entries, pos, next) + OutputOf(entries, next, counts[1..])
  }

  lemma {:induction false} OutputIsRecords(entries: seq<Name>, pos: nat, counts: seq<U64>)
    requires pos <= |entries|
    ensures OutputOf(entries, pos, counts) == Records(entries, pos, PosAfter(entries, pos, counts))
    decreases |counts|
  {
    hide Records, Fill, AsInt;
    if counts == [] {
      RecordsNothing(entries, pos);
    } else {
      var next := pos + Fill(entries, pos, AsInt(counts[0]));
      OutputIsRecords(entries, next, counts[1..]);
      RecordsJoin(entries, pos, next, PosAfter(entries, next, counts[1..]));
    }
  }

  /** Whatever buffer sizes the caller uses, the bytes of all calls together parse
      back to exactly the entries passed, in order, none lost or repeated: if and
      only if each of them is a name that a record can carry. */
  lemma CallsParseBack(entries: seq<Name>, counts: seq<U64>)
    requires |entries| < 0x1_0000_0000_0000_0000
    ensures
      var end := PosAfter(entries, 0, counts);
      Parse(OutputOf(entries, 0, counts)) == Some(Listing(entries, 0, end)) <==> AllCarried(entries, 0, end)
  {
    OutputIsRecords(entries, 0, counts);
    RecordsParse(entries, 0, PosAfter(entries, 0, counts));
  }

  /** A call passes as many entries as the buffer can hold, and no more: the next one
      would not fit. */
  lemma {:induction false} FillIsGreatest(entries: seq<Name>, pos: nat, room: int)
    requires pos <= |entries|
    ensures
      var k := Fill(entries, pos, room);
      && (k > 0 ==> |Records(entries, pos, pos + k)| <= room)
      && (pos + k < |entries| ==> |Records(entries, pos, pos + k + 1)| > room)
    decreases |entries| - pos
  {
    hide Record;
    var k := Fill(entries, pos, room);
    if k > 0 {
      FillIsGreatest(entries, pos + 1, room - RecLen(entries[pos]));
    } else if pos < |entries| {
      RecordsNothing(entries, pos + 1);
    }
  }

  /** A call writes nothing exactly when the entries are exhausted or the next
      record does not fit the buffer. */
  lemma ZeroExactlyWhen(entries: seq<Name>, pos: nat, count: U64)
    requires pos <= |entries|
    ensures |Records(entries, pos, pos + Fill(entries, pos, AsInt(count)))| == 0 <==>
            pos == |entries| || RecLen(entries[pos]) > AsInt(count)
  {
    hide Record;
    if Fill(entries, pos, AsInt(count)) > 0 {
      assert |Record(entries[pos], pos)| > 0;
    }
  }

  predicate AllFit(entries: seq<Name>, count: U64) {
    forall n :: n in entries ==> RecLen(n) <= AsInt(count)
  }

  /** With buffers that hold any one record, as many calls as there are entries
      always reach the end. */
  lemma {:induction false} CallsReachEnd(entries: seq<Name>, pos: nat, counts: seq<U64>)
    requires pos <= |entries| && |counts| >= |entries| - pos
    requires forall c :: c in counts ==> AllFit(entries, c)
    ensures PosAfter(entries, pos, counts) == |entries|
    decreases |counts|
  {
    if counts != [] {
      var next := pos + Fill(entries, pos, AsInt(counts[0]));
      if pos < |entries| {
        assert counts[0] in counts && entries[pos] in entries;
        assert next > pos;
      }
      CallsReachEnd(entries, next, counts[1..]);
    }
  }

  /** Then a reader has the whole snapshot. */
  lemma SnapshotReadBack(entries: seq<Name>, counts: seq<U64>)
    requires |entries| < 0x1_0000_0000_0000_0000 && |counts| >= |entries|
    requires forall c :: c in counts ==> AllFit(entries, c)
    ensures Parse(OutputOf(entries, 0, counts)) == Some(Listing(entries, 0, |entries|)) <==>
            AllCarried(entries, 0, |entries|)
  {
    CallsReachEnd(entries, 0, counts);
    CallsParseBack(entries, counts);
  }

  // ---- calls that fault ------------------------------------------------------

  /** What reaches the caller of calls with these results: a call that returns
      EFAULT has moved the cursor and delivered nothing. */
  function Delivered(entries: seq<Name>, pos: nat, counts: seq<U64>, rets: seq<int>): seq<Byte>
    requires pos <= |entries| && |rets| == |counts|
    decreases |counts|
  {
    if counts == [] then []
    else
      var next := pos + Fill(entries, pos, AsInt(counts[0]));
      (if rets[0] == -EFAULT then [] else Records(entries, pos, next)) + Delivered(entries, next, counts[1..], rets[1..])
  }

  /** No call that passed a record faulted. */
  predicate NoneSkipped(entries: seq<Name>, pos: nat, counts: seq<U64>, rets: seq<int>)
    requires pos <= |entries| && |rets| == |counts|
    decreases |counts|
  {
    counts == [] ||
    var next := pos + Fill(entries, pos, AsInt(counts[0]));
    (rets[0] != -EFAULT || next == pos) && NoneSkipped(entries, next, counts[1..], rets[1..])
  }

  lemma {:induction false} RecordsThen(entries: seq<Name>, i: nat, j: nat, tail: seq<Byte>, rest: seq<Dirent>)
    requires i <= j <= |entries| < 0x1_0000_0000_0000_0000 && AllCarried(entries, i, j) && Parse(tail) == Some(rest)
    ensures Parse(Records(entries, i, j) + tail) == Some(Listing(entries, i, j) + rest)
    decreases j - i
  {
    hide Record, Parse, Carried;
    if i == j {
      assert Records(entries, i, j) + tail == tail && Listing(entries, i, j) + rest == rest;
    } else {
      var name, after := entries[i], Records(entries, i + 1, j) + tail;
      RecordsThen(entries, i + 1, j, tail, rest);
      RecordParses(name, i, after);
      assert Records(entries, i, j) + tail == Record(name, i) + after;
      assert Listing(entries, i, j) + rest == [Dirent(1, i + 1, DT_UNKNOWN, name)] + (Listing(entries, i + 1, j) + rest);
    }
  }

  lemma ListingJoin(entries: seq<Name>, i: nat, j: nat, k: nat)
    requires i <= j <= k <= |entries| < 0x1_0000_0000_0000_0000
    ensures Listing(entries, i, k) == Listing(entries, i, j) + Listing(entries, j, k)
  {
  }

  lemma CarriedParts(entries: seq<Name>, i: nat, j: nat, k: nat)
    requires i <= j <= k <= |entries| && AllCarried(entries, i, k)
    ensures AllCarried(entries, i, j) && AllCarried(entries, j, k)
  {
  }

  /** What is delivered parses, to as many entries as were passed only if none was
      skipped, and then to exactly those. */
  lemma {:induction false} DeliveredParses(entries: seq<Name>, pos: nat, counts: seq<U64>, rets: seq<int>)
    returns (got: seq<Dirent>)
    requires pos <= |entries| < 0x1_0000_0000_0000_0000 && |rets| == |counts|
    requires AllCarried(entries, pos, PosAfter(entries, pos, counts))
    ensures Parse(Delivered(entries, pos, counts, rets)) == Some(got)
    ensures
      var end := PosAfter(entries, pos, counts);
      && |got| <= end - pos
      && (NoneSkipped(entries, pos, counts, rets) ==> got == Listing(entries, pos, end))
      && (!NoneSkipped(entries, pos, counts, rets) ==> |got| < end - pos)
    decreases |counts|
  {
    hide AllCarried, Records, Parse, Fill, Listing;
    if counts == [] {
      got := [];
      ParseNothing();
    } else {
      var next := pos + Fill(entries, pos, AsInt(counts[0]));
      var end := PosAfter(entries, next, counts[1..]);
      CarriedParts(entries, pos, next, end);
      got := DeliveredParses(entries, next, counts[1..], rets[1..]);
      var tail := Delivered(entries, next, counts[1..], rets[1..]);
      ListingJoin(entries, pos, next, end);
      if rets[0] != -EFAULT {
        RecordsThen(entries, pos, next, tail, got);
        got := Listing(entries, pos, next) + got;
      } else {
        assert [] + tail == tail;
        assert next == pos ==> Listing(entries, pos, next) + got == got;
      }
    }
  }

  lemma ParseNothing()
    ensures Parse([]) == Some([])
  {
  }

  /** One call, and its reader. */
  method ReadCall(h: DirHandle, mem: Memory, buf: U64, count: U64) returns (ret: int, got: seq<Byte>)
    requires h.Valid() && mem.Valid()
    modifies h, mem, mem.frames
    ensures h.Valid() && mem.Valid() && mem.Written()
    ensures h.pos == old(h.pos) + Fill(h.entries, old(h.pos), AsInt(count))
    ensures got == if ret == -EFAULT then [] else Records(h.entries, old(h.pos), h.pos)
    ensures ret == -EFAULT || ret == |got|
  {
    hide Records, Fill, Store, Load, mem.Valid;
    ghost var before := mem.flat;
    ret := h.Getdents64(mem, buf, count);
    got := [];
    if ret >= 0 {
      ghost var out := Records(h.entries, old(h.pos), h.pos);
      ReadsBack(before, buf, out);
      var r := mem.MemRead(buf, ret);
      got := r.value;
    }
  }

  lemma ReadsBack(mem: Flat, buf: U64, out: seq<Byte>)
    requires |out| <= MAX_SLICE
    ensures var s := Store(mem, buf, out, AnyAccess);
            s.fault.None? ==> Load(s.mem, buf, |out|, AnyAccess) == Ok(out)
  {
    hide Poke, At;
    if Store(mem, buf, out, AnyAccess).fault.None? {
      LoadAfterStore(mem, buf, out, AnyAccess, AnyAccess);
    }
  }

  /** A caller that reads a directory, with any buffers. */
  method ReadDirectory(h: DirHandle, mem: Memory, bufs: seq<U64>, counts: seq<U64>)
    returns (got: seq<Byte>, rets: seq<int>)
    requires h.Valid() && mem.Valid() && |bufs| == |counts|
    modifies h, mem, mem.frames
    ensures h.Valid() && mem.Valid() && mem.Written()
    ensures |rets| == |counts| && h.pos == PosAfter(h.entries, old(h.pos), counts)
    ensures got == Delivered(h.entries, old(h.pos), counts, rets)
    decreases |counts|
  {
    hide Records, Fill, mem.Valid;
    got, rets := [], [];
    if counts != [] {
      var ret, part := ReadCall(h, mem, bufs[0], counts[0]);
      got, rets := ReadDirectory(h, mem, bufs[1..], counts[1..]);
      got, rets := part + got, [ret] + rets;
    }
  }

  /** It gets exactly the entries passed, in order, if and only if no call that
      passed a record faulted. */
  lemma DeliveredExactly(entries: seq<Name>, pos: nat, counts: seq<U64>, rets: seq<int>)
    requires pos <= |entries| < 0x1_0000_0000_0000_0000 && |rets| == |counts|
    requires AllCarried(entries, pos, PosAfter(entries, pos, counts))
    ensures Parse(Delivered(entries, pos, counts, rets)) == Some(Listing(entries, pos, PosAfter(entries, pos, counts)))
       <==> NoneSkipped(entries, pos, counts, rets)
  {
    hide AllCarried, Parse, Delivered, NoneSkipped, PosAfter;
    var got := DeliveredParses(entries, pos, counts, rets);
  }
}
