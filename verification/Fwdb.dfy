/** The firmware database of src/base/fwdb.c: an append-only store in a raw buffer.
    Addresses are offsets from the header, which is 8-byte aligned; words are
    little-endian. */
module Fwdb {
  import opened Machine
  import opened CStrings

  const HEADER_SIZE := 24
  const MAJOR_VERSION: byte := 1
  const MINOR_VERSION: byte := 0
  // "DCFWDB" in ASCII.
  const SIGNATURE: seq<byte> := [68, 67, 70, 87, 68, 66]

  // Offsets of the fields of FwdbHeader.
  const SIGNATURE_AT := 2
  const INDEX_PTR_AT := 8
  const MAX_SIZE_AT := 16
  const HEADER_SIZE_AT := 20

  function Le16(b: seq<byte>, i: nat): uint16
    requires i + 2 <= |b|
  {
    b[i] as int + b[i + 1] as int * 0x100
  }

  function Le32(b: seq<byte>, i: nat): uint32
    requires i + 4 <= |b|
  {
    b[i] as int + b[i + 1] as int * 0x100 + b[i + 2] as int * 0x1_0000 + b[i + 3] as int * 0x100_0000
  }

  /** ALIGN to the size of a uint64_t. */
  function Align8(x: nat): (r: nat)
    ensures x <= r < x + 8 && r % 8 == 0
  {
    (x + 7) / 8 * 8
  }

  // ---------------------------------------------------------------------------
  // Entries
  // ---------------------------------------------------------------------------

  datatype Entry = Entry(name: CString, data: seq<byte>)

  /** Where the data of an entry starts. */
  function DataOffset(name: CString): nat { Align8(4 + |name| + 1) }

  /** The size field: the padding behind the data is not counted. */
  function Size(e: Entry): nat { DataOffset(e.name) + |e.data| }

  predicate HoldsEntry(b: seq<byte>, at: nat, e: Entry) {
    && at + Size(e) <= |b| && Le32(b, at) == Size(e) && HoldsString(b, at + 4, e.name)
    && (forall i | at + 4 + |e.name| <= i < at + DataOffset(e.name) :: b[i] == 0)
    && b[at + DataOffset(e.name)..at + Size(e)] == e.data
  }

  /** Where the entries end, the first being at an offset. */
  function EndOf(at: nat, es: seq<Entry>): (end: nat)
    ensures end >= at
    decreases |es|
  {
    if es == [] then at else EndOf(Align8(at + Size(es[0])), es[1..])
  }

  /** The buffer holds exactly these entries from an offset on, and the zero word. */
  predicate Holds(b: seq<byte>, at: nat, es: seq<Entry>)
    decreases |es|
  {
    if es == [] then at + 4 <= |b| && Le32(b, at) == 0
    else HoldsEntry(b, at, es[0]) && Holds(b, Align8(at + Size(es[0])), es[1..])
  }

  predicate HoldsHeader(b: seq<byte>, max: uint32) {
    && |b| >= HEADER_SIZE + 4
    && b[0] == MAJOR_VERSION && b[SIGNATURE_AT..SIGNATURE_AT + 6] == SIGNATURE
    && Le32(b, MAX_SIZE_AT) == max && Le16(b, HEADER_SIZE_AT) == HEADER_SIZE
  }

  predicate DistinctNames(es: seq<Entry>) {
    forall i, j | 0 <= i < j < |es| :: es[i].name != es[j].name
  }

  /** A database in a buffer: header, entries, terminator, all inside the maximum. */
  predicate IsDb(b: seq<byte>, max: uint32, es: seq<Entry>) {
    && HoldsHeader(b, max) && Holds(b, HEADER_SIZE, es) && DistinctNames(es)
    && EndOf(HEADER_SIZE, es) + 4 <= max <= |b|
  }

  /** Equal below an offset. */
  predicate SameBelow(b: seq<byte>, c: seq<byte>, end: nat) {
    end <= |b| && |b| == |c| && b[..end] == c[..end]
  }

  lemma EntryFrame(b: seq<byte>, c: seq<byte>, at: nat, e: Entry, end: nat)
    requires HoldsEntry(b, at, e) && at + Size(e) <= end && SameBelow(b, c, end)
    ensures HoldsEntry(c, at, e)
  {
    assert forall i | 0 <= i < end :: c[i] == c[..end][i] == b[..end][i] == b[i];
  }

  lemma {:induction false} EndOfAppend(at: nat, es: seq<Entry>, e: Entry)
    ensures EndOf(at, es + [e]) == Align8(EndOf(at, es) + Size(e))
    decreases |es|
  {
    if es != [] {
      assert (es + [e])[1..] == es[1..] + [e];
      EndOfAppend(Align8(at + Size(es[0])), es[1..], e);
    } else {
      assert (es + [e])[1..] == [];
    }
  }

  lemma {:induction false} EndOfAligned(at: nat, es: seq<Entry>)
    requires at % 8 == 0
    ensures EndOf(at, es) % 8 == 0
    decreases |es|
  {
    if es != [] { EndOfAligned(Align8(at + Size(es[0])), es[1..]); }
  }

  /** Writing an entry where the terminator was, and a new terminator where the next
      walk lands, appends the entry. */
  lemma {:induction false} HoldsAppend(b: seq<byte>, c: seq<byte>, at: nat, es: seq<Entry>, e: Entry)
    requires Holds(b, at, es) && SameBelow(b, c, EndOf(at, es)) && HoldsEntry(c, EndOf(at, es), e)
    requires Holds(c, Align8(EndOf(at, es) + Size(e)), [])
    ensures Holds(c, at, es + [e])
    decreases |es|
  {
    hide HoldsEntry, SameBelow, Align8, Le32;
    if es == [] {
      assert [e][1..] == [];
      assert es + [e] == [e];
    } else {
      assert (es + [e])[1..] == es[1..] + [e];
      EntryFrame(b, c, at, es[0], EndOf(at, es));
      HoldsAppend(b, c, Align8(at + Size(es[0])), es[1..], e);
    }
  }

  // ---------------------------------------------------------------------------
  // fwdb_use_db
  // ---------------------------------------------------------------------------

  datatype Verdict = Accept | Reject | OutOfBounds

  /** The walk over the entries, for any buffer: the unpadded sizes are added up. */
  function Walk(b: seq<byte>, max: uint32, at: nat, total: uint32): Verdict
    decreases |b| - at
  {
    if at + 4 > |b| then OutOfBounds
    else
      var size := Le32(b, at);
      var sum := Mod32(total as int + size);
      if sum >= max || size == 0 then (if Mod32(sum as int + 4) > max then Reject else Accept)
      else
        match EntryName(b, at, size)
        case Accept => Walk(b, max, Align8(at + size), sum)
        case r => r
  }

  /** strnlen finds the end of the name inside the entry's size. */
  function EntryName(b: seq<byte>, at: nat, size: nat): Verdict {
    var len := StrLen(b, at + 4);
    if len.Length? && len.chars < size then Accept
    else if len.Unending? && at + 4 + size > |b| then OutOfBounds
    else Reject
  }

  function UseDb(b: seq<byte>): Verdict {
    if |b| < HEADER_SIZE then OutOfBounds
    else if b[SIGNATURE_AT..SIGNATURE_AT + 6] != SIGNATURE || b[0] != MAJOR_VERSION then Reject
    else Walk(b, Le32(b, MAX_SIZE_AT), Le16(b, HEADER_SIZE_AT), Le16(b, HEADER_SIZE_AT))
  }

  /** fwdb_use_db. */
  method CheckDb(b: seq<byte>) returns (verdict: Verdict)
    ensures verdict == UseDb(b)
  {
    hide Le32, Le16, StrLen, EntryName;
    if |b| < HEADER_SIZE { return OutOfBounds; }
    if b[SIGNATURE_AT..SIGNATURE_AT + 6] != SIGNATURE || b[0] != MAJOR_VERSION { return Reject; }
    var max := Le32(b, MAX_SIZE_AT);
    var totalSize: uint32 := Le16(b, HEADER_SIZE_AT);
    var entryAddr: nat := totalSize;
    while true
      invariant Walk(b, max, entryAddr, totalSize) == UseDb(b)
      decreases |b| - entryAddr
    {
      if entryAddr + 4 > |b| { return OutOfBounds; }
      var entrySize := Le32(b, entryAddr);
      ghost var was := totalSize;
      totalSize := Mod32(totalSize as int + entrySize);
      if totalSize >= max || entrySize == 0 { break; }
      var name := EntryName(b, entryAddr, entrySize);
      if name != Accept { return name; }
      entryAddr := Align8(entryAddr + entrySize);
    }
    return if Mod32(totalSize as int + 4) > max then Reject else Accept;
  }

  // ---------------------------------------------------------------------------
  // Which buffers are accepted
  // ---------------------------------------------------------------------------

  /** A name that ends inside the size of its entry, counted from behind the size word. */
  predicate NameFits(b: seq<byte>, at: nat, size: nat) {
    exists i | at + 4 <= i < at + 4 + size && i < |b| :: b[i] == 0
  }

  /** An entry that the walk passes. */
  predicate Passes(b: seq<byte>, max: uint32, at: nat, total: uint32) {
    && at + 4 <= |b| && Le32(b, at) > 0
    && Mod32(total as int + Le32(b, at)) < max && NameFits(b, at, Le32(b, at))
  }

  /** Where the walk stops, and the sum of the sizes there. */
  datatype Stop = Stop(at: nat, total: uint32)

  function StopOf(b: seq<byte>, max: uint32, at: nat, total: uint32): (s: Stop)
    ensures !Passes(b, max, s.at, s.total)
    decreases |b| - at
  {
    if !Passes(b, max, at, total) then Stop(at, total)
    else StopOf(b, max, Align8(at + Le32(b, at)), Mod32(total as int + Le32(b, at)))
  }

  /** The walk ends well at a zero word with room for it, or if the sum is about to wrap. */
  predicate EndsWell(b: seq<byte>, max: uint32, s: Stop) {
    && s.at + 4 <= |b|
    && var size := Le32(b, s.at);
    var sum := Mod32(s.total as int + size);
    || (size == 0 && s.total + 4 <= max)
    || ((size == 0 || sum >= max) && 0 <= sum - 0xFFFF_FFFC <= max)
  }

  /** The walk reads past the buffer: at a size word, or looking for the end of a name. */
  predicate Overreads(b: seq<byte>, max: uint32, s: Stop) {
    || s.at + 4 > |b|
    || (Le32(b, s.at) > 0 && Mod32(s.total as int + Le32(b, s.at)) < max && s.at + 4 + Le32(b, s.at) > |b|)
  }

  lemma {:induction false} NoNul(b: seq<byte>, at: nat)
    requires StrLen(b, at).Unending?
    ensures forall i | at <= i < |b| :: b[i] != 0
    decreases |b| - at
  {
    if at < |b| { NoNul(b, at + 1); }
  }

  lemma NameIs(b: seq<byte>, at: nat, size: nat)
    ensures EntryName(b, at, size) == Accept <==> NameFits(b, at, size)
    ensures EntryName(b, at, size) == OutOfBounds <==> !NameFits(b, at, size) && at + 4 + size > |b|
  {
    var len := StrLen(b, at + 4);
    if len.Length? {
      assert forall i | at + 4 <= i < at + 4 + len.chars :: b[i] == b[at + 4..at + 4 + len.chars][i - at - 4];
    } else {
      NoNul(b, at + 4);
    }
  }

  lemma {:induction false} WalkVerdict(b: seq<byte>, max: uint32, at: nat, total: uint32)
    ensures var s, v := StopOf(b, max, at, total), Walk(b, max, at, total);
            && (v == Accept <==> EndsWell(b, max, s))
            && (v == OutOfBounds <==> Overreads(b, max, s))
    decreases |b| - at
  {
    hide Le32, EntryName, NameFits, Align8;
    if at + 4 <= |b| {
      var size := Le32(b, at);
      NameIs(b, at, size);
      if Passes(b, max, at, total) { WalkVerdict(b, max, Align8(at + size), Mod32(total as int + size)); }
    }
  }

  /** A table is used exactly if the header is known and the walk ends well; everything
      else inside the buffer is rejected. */
  lemma UsedIff(b: seq<byte>)
    requires |b| >= HEADER_SIZE
    ensures var known := b[SIGNATURE_AT..SIGNATURE_AT + 6] == SIGNATURE && b[0] == MAJOR_VERSION;
            var max := Le32(b, MAX_SIZE_AT);
            var s := StopOf(b, max, Le16(b, HEADER_SIZE_AT), Le16(b, HEADER_SIZE_AT));
            && (UseDb(b) == Accept <==> known && EndsWell(b, max, s))
            && (UseDb(b) == Reject <==> !known || !(EndsWell(b, max, s) || Overreads(b, max, s)))
  {
    WalkVerdict(b, Le32(b, MAX_SIZE_AT), Le16(b, HEADER_SIZE_AT), Le16(b, HEADER_SIZE_AT));
    hide Walk, Le16, Le32, StopOf, EndsWell, Overreads;
  }

  lemma WalkEnds(b: seq<byte>, max: uint32, at: nat, total: uint32)
    requires at + 4 <= |b| && Le32(b, at) == 0 && total + 4 <= max
    ensures Walk(b, max, at, total) == Accept
  {
    hide Le32;
  }

  lemma WalkGoesOn(b: seq<byte>, max: uint32, at: nat, total: uint32, size: nat)
    requires at + 4 <= |b| && Le32(b, at) == size > 0 && total + size < max && EntryName(b, at, size) == Accept
    ensures Walk(b, max, at, total) == Walk(b, max, Align8(at + size), total + size)
  {
    hide Le32, EntryName, Align8, Mod32;
    NoWrap(total + size);
  }

  lemma NoWrap(x: int)
    requires 0 <= x < 0x1_0000_0000
    ensures Mod32(x) == x
  {
  }

  lemma EntryPasses(b: seq<byte>, at: nat, e: Entry)
    requires HoldsEntry(b, at, e)
    ensures at + 4 <= |b| && Le32(b, at) == Size(e) > 4 && EntryName(b, at, Size(e)) == Accept
  {
    hide Le32, StrLen;
    HeldText(b, at + 4, e.name);
  }

  /** The sum of the unpadded sizes never passes the address, so a database inside its
      maximum is accepted. */
  lemma {:induction false} WalkAccepts(b: seq<byte>, max: uint32, at: nat, total: uint32, es: seq<Entry>)
    requires Holds(b, at, es) && total <= at && EndOf(at, es) + 4 <= max <= |b|
    ensures Walk(b, max, at, total) == Accept
    decreases |es|
  {
    hide Le32, HoldsEntry, EntryName, Mod32;
    if es == [] {
      WalkEnds(b, max, at, total);
    } else {
      EntryPasses(b, at, es[0]);
      WalkGoesOn(b, max, at, total, Size(es[0]));
      WalkAccepts(b, max, Align8(at + Size(es[0])), total + Size(es[0]), es[1..]);
    }
  }

  lemma UseAccepts(b: seq<byte>, max: uint32, es: seq<Entry>)
    requires IsDb(b, max, es)
    ensures UseDb(b) == Accept
  {
    hide Walk;
    WalkAccepts(b, max, HEADER_SIZE, HEADER_SIZE, es);
  }

  // ---------------------------------------------------------------------------
  // What an access does to the entries
  // ---------------------------------------------------------------------------

  /** The new_entry argument: none, bytes to copy, or a null pointer and a size. */
  datatype NewEntry = NoEntry | Copied(bytes: seq<byte>) | Zeroed(count: nat)

  function NewData(n: NewEntry): seq<byte> {
    match n
    case NoEntry => []
    case Copied(bytes) => bytes
    case Zeroed(count) => seq(count, _ => 0)
  }

  datatype Reply = Error | Done | Found(ptr: nat, size: nat)

  datatype Outcome = Outcome(entries: seq<Entry>, reply: Reply)

  function Find(es: seq<Entry>, name: CString): (i: nat)
    ensures i <= |es| && (i < |es| ==> es[i].name == name) && forall j | 0 <= j < i :: es[j].name != name
  {
    if es == [] || es[0].name == name then 0 else 1 + Find(es[1..], name)
  }

  function DataAt(es: seq<Entry>, i: nat): nat
    requires i < |es|
  {
    EndOf(HEADER_SIZE, es[..i]) + DataOffset(es[i].name)
  }

  /** An insert-only map with room for the buffer's size. */
  function Accessed(es: seq<Entry>, max: uint32, name: CString, wanted: bool, new_entry: NewEntry): Outcome {
    var i := Find(es, name);
    var e := Entry(name, NewData(new_entry));
    if i < |es| then Outcome(es, if wanted then Found(DataAt(es, i), |es[i].data|) else Error)
    else if new_entry.NoEntry? || Align8(EndOf(HEADER_SIZE, es) + Size(e)) + 4 > max then Outcome(es, Error)
    else Outcome(es + [e], if wanted then Found(DataAt(es + [e], |es|), |e.data|) else Done)
  }

  lemma {:induction false} HoldsAt(b: seq<byte>, at: nat, es: seq<Entry>, i: nat)
    requires Holds(b, at, es) && i <= |es|
    ensures Holds(b, EndOf(at, es[..i]), es[i..]) && EndOf(EndOf(at, es[..i]), es[i..]) == EndOf(at, es)
    ensures i < |es| ==> HoldsEntry(b, EndOf(at, es[..i]), es[i])
    ensures i < |es| ==> EndOf(at, es[..i + 1]) == Align8(EndOf(at, es[..i]) + Size(es[i]))
    decreases i
  {
    hide HoldsEntry, Le32, Align8, Size;
    if i > 0 {
      assert es[..i][1..] == es[1..][..i - 1] && es[1..][i - 1..] == es[i..];
      HoldsAt(b, Align8(at + Size(es[0])), es[1..], i - 1);
      if i < |es| { assert es[..i + 1][1..] == es[1..][..i]; }
    } else if es != [] {
      assert es[..1][1..] == [];
    }
  }

  function LeBytes(v: uint32): (s: seq<byte>)
    ensures |s| == 4
  {
    [v % 0x100, v / 0x100 % 0x100, v / 0x100 / 0x100 % 0x100, v / 0x100 / 0x100 / 0x100]
  }

  lemma LeBytesRead(b: seq<byte>, at: nat, v: uint32)
    requires at + 4 <= |b| && b[at..at + 4] == LeBytes(v)
    ensures Le32(b, at) == v
  {
    var q, r, s := v / 0x100, v / 0x100 / 0x100, v / 0x100 / 0x100 / 0x100;
    var w := b[at..at + 4];
    assert b[at] == w[0] && b[at + 1] == w[1] && b[at + 2] == w[2] && b[at + 3] == w[3];
    assert b[at] == v % 0x100 && b[at + 1] == q % 0x100 && b[at + 2] == r % 0x100 && b[at + 3] == s;
  }

  method Store32(mem: array<byte>, at: nat, v: uint32)
    requires at + 4 <= mem.Length
    modifies mem
    ensures Le32(mem[..], at) == v
    ensures forall i | 0 <= i < mem.Length && !(at <= i < at + 4) :: mem[i] == old(mem[i])
  {
    hide LeBytes, Le32;
    forall i | 0 <= i < 4 { mem[at + i] := LeBytes(v)[i]; }
    LeBytesRead(mem[..], at, v);
  }

  /** The size, the name, its padding and the data of a new entry. */
  method WriteEntry(mem: array<byte>, at: nat, e: Entry)
    requires at + Size(e) <= mem.Length && Size(e) < 0x1_0000_0000
    modifies mem
    ensures HoldsEntry(mem[..], at, e)
    ensures forall i | 0 <= i < mem.Length && !(at <= i < at + Size(e)) :: mem[i] == old(mem[i])
  {
    hide Le32;
    var dataOffset := DataOffset(e.name);
    Store32(mem, at, Size(e));
    ghost var b := mem[..];
    forall i | 0 <= i < |e.name| { mem[at + 4 + i] := e.name[i]; }
    forall i | 4 + |e.name| <= i < dataOffset { mem[at + i] := 0; }
    forall i | 0 <= i < |e.data| { mem[at + dataOffset + i] := e.data[i]; }
    Le32Frame(b, mem[..], at);
    SliceIs(mem[..], at + 4, e.name);
    SliceIs(mem[..], at + dataOffset, e.data);
  }

  lemma SliceIs(b: seq<byte>, at: nat, s: seq<byte>)
    requires at + |s| <= |b| && forall i | 0 <= i < |s| :: b[at + i] == s[i]
    ensures b[at..at + |s|] == s
  {
  }

  lemma Le32Frame(b: seq<byte>, c: seq<byte>, at: nat)
    requires at + 4 <= |b| && at + 4 <= |c| && forall i | at <= i < at + 4 :: b[i] == c[i]
    ensures Le32(b, at) == Le32(c, at)
  {
  }

  method WriteHeader(mem: array<byte>, maxSize: uint32)
    requires mem.Length >= HEADER_SIZE + 4
    modifies mem
    ensures HoldsHeader(mem[..], maxSize) && Le32(mem[..], HEADER_SIZE) == 0
  {
    hide Le32;
    mem[0], mem[1] := MAJOR_VERSION, MINOR_VERSION;
    forall i | 0 <= i < 6 { mem[SIGNATURE_AT + i] := SIGNATURE[i]; }
    forall i | INDEX_PTR_AT <= i < MAX_SIZE_AT { mem[i] := 0; }
    mem[HEADER_SIZE_AT], mem[HEADER_SIZE_AT + 1] := HEADER_SIZE, 0;
    mem[HEADER_SIZE_AT + 2], mem[HEADER_SIZE_AT + 3] := 0, 0;
    assert mem[..][SIGNATURE_AT..SIGNATURE_AT + 6] == SIGNATURE;
    Store32(mem, MAX_SIZE_AT, maxSize);
    ghost var b := mem[..];
    assert b[SIGNATURE_AT..SIGNATURE_AT + 6] == SIGNATURE;
    Store32(mem, HEADER_SIZE, 0);
    HeaderFrame(b, mem[..], maxSize, HEADER_SIZE);
  }

  lemma EmptyDb(b: seq<byte>, max: uint32)
    requires HoldsHeader(b, max) && Le32(b, HEADER_SIZE) == 0 && HEADER_SIZE + 4 <= max <= |b|
    ensures IsDb(b, max, [])
  {
  }

  /** What the walk sees at an entry, or at the terminator. */
  lemma WalkSees(b: seq<byte>, at: nat, es: seq<Entry>, name: CString)
    requires Holds(b, at, es)
    ensures at + 4 <= |b| && (Le32(b, at) == 0 <==> es == [])
    ensures es != [] ==> Le32(b, at) == Size(es[0]) && Holds(b, Align8(at + Size(es[0])), es[1..])
    ensures es != [] ==> (TextIs(b, at + 4, name) <==> es[0].name == name)
  {
    hide Le32, StrLen, EntryName;
    if es != [] {
      EntryPasses(b, at, es[0]);
      HeldText(b, at + 4, es[0].name);
    }
  }

  /** The new entry and the terminator behind it, where the terminator was. */
  method AppendEntry(mem: array<byte>, addr: nat, e: Entry)
    requires addr % 8 == 0 && Align8(addr + Size(e)) + 4 <= mem.Length && Size(e) < 0x1_0000_0000
    modifies mem
    ensures HoldsEntry(mem[..], addr, e) && Le32(mem[..], Align8(addr + Size(e))) == 0
    ensures SameBelow(old(mem[..]), mem[..], addr)
    ensures forall i | 0 <= i < mem.Length && !(addr <= i < Align8(addr + Size(e)) + 4) :: mem[i] == old(mem[i])
  {
    hide HoldsEntry, Le32;
    var dataOffset := DataOffset(e.name);
    WriteEntry(mem, addr, e);
    ghost var c := mem[..];
    NextTerminator(addr, dataOffset, |e.data|);
    Store32(mem, Align8(|e.data|) + addr + dataOffset, 0);
    EntryFrame(c, mem[..], addr, e, addr + Size(e));
  }

  lemma SizeAt(b: seq<byte>, max: uint32, es: seq<Entry>, i: nat)
    requires IsDb(b, max, es) && i < |es|
    ensures var at := EndOf(HEADER_SIZE, es[..i]);
            at + 4 <= |b| && Le32(b, at) == DataOffset(es[i].name) + |es[i].data|
  {
    hide Holds, HoldsHeader, Le32, Align8, EndOf;
    HoldsAt(b, HEADER_SIZE, es, i);
  }

  class Database {
    const mem: array<byte>
    /** fwdb_header is set. */
    var attached: bool
    ghost var max: uint32
    ghost var entries: seq<Entry>

    ghost predicate Valid()
      reads this, mem
    {
      attached ==> IsDb(mem[..], max, entries)
    }

    constructor (mem: array<byte>)
      ensures this.mem == mem && !attached && Valid()
    {
      this.mem, attached, max, entries := mem, false, 0, [];
    }

    /** fwdb_create_db. */
    method Create(maxSize: uint32) returns (failed: bool)
      requires Valid() && maxSize <= mem.Length
      modifies this, mem
      ensures failed == (maxSize < HEADER_SIZE + 4)
      ensures failed ==> Valid() && attached == old(attached) && mem[..] == old(mem[..])
      ensures !failed ==> Valid() && attached && max == maxSize && entries == []
    {
      if maxSize < HEADER_SIZE + 4 { return true; }
      hide HoldsHeader, Le32, Le16, UseDb;
      WriteHeader(mem, maxSize);
      EmptyDb(mem[..], maxSize);
      UseAccepts(mem[..], maxSize, []);
      var verdict := CheckDb(mem[..]);
      failed := verdict != Accept;
      attached, max, entries := true, maxSize, [];
    }

    /** The walk of fwdb_access: to the entry of a name, or to the terminator. */
    method Seek(name: CString) returns (found: bool, addr: nat)
      requires Valid() && attached
      ensures found == (Find(entries, name) < |entries|) && addr == EndOf(HEADER_SIZE, entries[..Find(entries, name)])
    {
      hide Le32, HoldsEntry, Align8, Holds, DistinctNames, TextIs;
      addr := Le16(mem[..], HEADER_SIZE_AT);
      found := false;
      ghost var i := 0;
      HoldsAt(mem[..], HEADER_SIZE, entries, 0);
      WalkSees(mem[..], addr, entries[i..], name);
      while Le32(mem[..], addr) != 0
        invariant i <= |entries| && addr == EndOf(HEADER_SIZE, entries[..i]) && addr + 4 <= mem.Length
        invariant !found && forall j | 0 <= j < i :: entries[j].name != name
        invariant Holds(mem[..], addr, entries[i..]) && (Le32(mem[..], addr) == 0 <==> i == |entries|)
        decreases |entries| - i
      {
        WalkSees(mem[..], addr, entries[i..], name);
        if TextIs(mem[..], addr + 4, name) {
          return true, addr;
        }
        HoldsAt(mem[..], HEADER_SIZE, entries, i);
        addr := Align8(addr + Le32(mem[..], addr));
        i := i + 1;
        WalkSees(mem[..], addr, entries[i..], name);
      }
    }

    /** The rest of fwdb_access: a new entry over the terminator, if there is room. */
    method Insert(name: CString, wanted: bool, new_entry: NewEntry, addr: nat) returns (reply: Reply)
      requires Valid() && attached && Find(entries, name) == |entries| && !new_entry.NoEntry?
      requires addr == EndOf(HEADER_SIZE, entries)
      modifies this, mem
      ensures Valid() && attached && max == old(max)
      ensures Outcome(entries, reply) == Accessed(old(entries), max, name, wanted, new_entry)
      ensures Outside(old(mem[..]), mem[..], old(entries), entries)
    {
      hide HoldsEntry, Le32, IsDb, Align8, EndOf, Find;
      DbFacts(mem[..], max, entries);
      var e := Entry(name, NewData(new_entry));
      var endAddr := Align8(addr + Size(e)) + 4;
      if endAddr > Le32(mem[..], MAX_SIZE_AT) { return Error; }
      ghost var b := mem[..];
      AppendEntry(mem, addr, e);
      AppendDb(b, mem[..], max, entries, e);
      EndOfAppend(HEADER_SIZE, entries, e);
      entries := entries + [e];
      assert entries[..|old(entries)|] == old(entries);
      reply := if wanted then Found(addr + DataOffset(name), |e.data|) else Done;
    }

    /** fwdb_access. */
    method Access(name: CString, wanted: bool, new_entry: NewEntry) returns (reply: Reply)
      requires Valid()
      modifies this, mem
      ensures Valid() && attached == old(attached) && max == old(max)
      ensures !attached ==> reply == Error && entries == old(entries)
      ensures attached ==> Outcome(entries, reply) == Accessed(old(entries), max, name, wanted, new_entry)
      ensures Outside(old(mem[..]), mem[..], old(entries), entries)
    {
      if !attached { return Error; }
      hide HoldsEntry, Le32, IsDb, Align8, EndOf, Find, DataOffset;
      var found, addr := Seek(name);
      if found {
        if !wanted { return Error; }
        SizeAt(mem[..], max, entries, Find(entries, name));
        var dataOffset := DataOffset(name);
        return Found(addr + dataOffset, Le32(mem[..], addr) - dataOffset);
      }
      if new_entry.NoEntry? { return Error; }
      assert entries[..|entries|] == entries;
      reply := Insert(name, wanted, new_entry, addr);
    }
  }

  /** Nothing changes outside the new entries and their terminator. */
  predicate Outside(b: seq<byte>, c: seq<byte>, es: seq<Entry>, fs: seq<Entry>) {
    && |b| == |c| && (es == fs ==> b == c)
    && forall i | 0 <= i < |b| && !(EndOf(HEADER_SIZE, es) <= i < EndOf(HEADER_SIZE, fs) + 4) :: b[i] == c[i]
  }

  lemma DbFacts(b: seq<byte>, max: uint32, es: seq<Entry>)
    requires IsDb(b, max, es)
    ensures EndOf(HEADER_SIZE, es) + 4 <= max <= |b| && EndOf(HEADER_SIZE, es) % 8 == 0
    ensures |b| >= HEADER_SIZE && Le32(b, MAX_SIZE_AT) == max
  {
    hide Le32, Le16, Holds;
    EndOfAligned(HEADER_SIZE, es);
  }

  lemma Align8Shift(k: nat, size: nat)
    ensures Align8(8 * k + size) == 8 * k + Align8(size)
  {
    assert (8 * k + size + 7) / 8 == k + (size + 7) / 8;
  }

  lemma NextTerminator(addr: nat, dataOffset: nat, size: nat)
    requires addr % 8 == 0 && dataOffset % 8 == 0
    ensures Align8(size) + addr + dataOffset == Align8(addr + (dataOffset + size))
  {
    hide Align8;
    var k := addr / 8 + dataOffset / 8;
    assert addr + dataOffset == 8 * k;
    Align8Shift(k, size);
  }

  lemma AppendDb(b: seq<byte>, c: seq<byte>, max: uint32, es: seq<Entry>, e: Entry)
    requires IsDb(b, max, es) && Find(es, e.name) == |es|
    requires SameBelow(b, c, EndOf(HEADER_SIZE, es)) && HoldsEntry(c, EndOf(HEADER_SIZE, es), e)
    requires var next := Align8(EndOf(HEADER_SIZE, es) + Size(e)); next + 4 <= max && Le32(c, next) == 0
    ensures IsDb(c, max, es + [e])
  {
    hide Le32, Le16, HoldsEntry, Align8;
    HoldsAppend(b, c, HEADER_SIZE, es, e);
    EndOfAppend(HEADER_SIZE, es, e);
    HeaderFrame(b, c, max, EndOf(HEADER_SIZE, es));
  }

  lemma HeaderFrame(b: seq<byte>, c: seq<byte>, max: uint32, end: nat)
    requires HoldsHeader(b, max) && end >= HEADER_SIZE && SameBelow(b, c, end)
    ensures HoldsHeader(c, max)
  {
    assert forall i | 0 <= i < end :: c[i] == c[..end][i] == b[..end][i] == b[i];
    assert c[SIGNATURE_AT..SIGNATURE_AT + 6] == b[SIGNATURE_AT..SIGNATURE_AT + 6];
  }

  // ---------------------------------------------------------------------------
  // Runs
  // ---------------------------------------------------------------------------

  datatype Call = Call(name: CString, wanted: bool, newEntry: NewEntry)

  function AfterCalls(es: seq<Entry>, max: uint32, calls: seq<Call>): seq<Entry>
    decreases |calls|
  {
    if calls == [] then es
    else AfterCalls(Accessed(es, max, calls[0].name, calls[0].wanted, calls[0].newEntry).entries, max, calls[1..])
  }

  /** Whatever is called later, a name keeps the address and the bytes of its first
      insertion. */
  lemma {:induction false} FirstStoredStays(es: seq<Entry>, max: uint32, calls: seq<Call>, name: CString)
    requires Find(es, name) < |es|
    ensures var fs, i := AfterCalls(es, max, calls), Find(es, name);
            && es <= fs && Find(fs, name) == i && fs[i] == es[i] && DataAt(fs, i) == DataAt(es, i)
    decreases |calls|
  {
    hide DataOffset, EndOf, Align8;
    if calls != [] {
      var c := calls[0];
      var next := Accessed(es, max, c.name, c.wanted, c.newEntry).entries;
      var i := Find(es, name);
      assert forall j | 0 <= j < |es| :: next[j] == es[j];
      assert next[..i] == es[..i] && next[..i + 1] == es[..i + 1];
      assert Find(next, name) == i;
      FirstStoredStays(next, max, calls[1..], name);
    }
  }

  /** The address and size of a lookup delimit the stored bytes, inside the maximum. */
  lemma FoundBytes(b: seq<byte>, max: uint32, es: seq<Entry>, i: nat)
    requires IsDb(b, max, es) && i < |es|
    ensures DataAt(es, i) % 8 == 0 && DataAt(es, i) + |es[i].data| <= max
    ensures b[DataAt(es, i)..DataAt(es, i) + |es[i].data|] == es[i].data
  {
    hide HoldsHeader, Le32, Holds, Align8, EndOf, DistinctNames, HoldsString;
    HoldsAt(b, HEADER_SIZE, es, i);
    HoldsAt(b, HEADER_SIZE, es, i + 1);
    EndOfAligned(HEADER_SIZE, es[..i]);
  }

  /** Entries do not overlap: each ends before the next starts. */
  lemma {:induction false} EntriesApart(b: seq<byte>, max: uint32, es: seq<Entry>, i: nat, j: nat)
    requires IsDb(b, max, es) && i < j < |es|
    ensures EndOf(HEADER_SIZE, es[..i]) + Size(es[i]) <= EndOf(HEADER_SIZE, es[..j])
    decreases j
  {
    hide HoldsEntry, HoldsHeader, Le32, Size;
    HoldsAt(b, HEADER_SIZE, es, j - 1);
    if i < j - 1 { EntriesApart(b, max, es, i, j - 1); }
  }
}
