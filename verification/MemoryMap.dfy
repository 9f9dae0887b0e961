/** The first half of update_memory of src/boot/fit.c: which addresses of the e820 map
    become memory and which become reserved, and the reserve map. */
module MemoryMap {
  import opened Machine
  import opened RangeSet
  import opened Ranges
  import opened FdtTree

  const MIB := 0x10_0000

  datatype E820Range = E820Range(base: uint64, size: uint64, ram: bool)

  function End(r: E820Range): uint64 { Mod64(r.base as int + r.size) }

  /** ALIGN_UP and ALIGN_DOWN to 1 MiB, in 64 bits. */
  function AlignUp(x: uint64): uint64 { Mod64(x as int + MIB - 1) / MIB * MIB }

  function AlignDown(x: uint64): uint64 { x / MIB * MIB }

  // ---------------------------------------------------------------------------
  // What the loop over the ranges does
  // ---------------------------------------------------------------------------

  datatype Sets = Sets(mem: seq<int>, reserved: seq<int>)

  function Added(es: seq<int>, start: uint64, end: uint64): seq<int> {
    if start != end then SetRegion(es, start, end, true) else es
  }

  /** The edges after one more range. */
  function Step(s: Sets, r: E820Range): Sets {
    if r.ram then
      Sets(Added(s.mem, AlignUp(r.base), AlignDown(End(r))),
           Added(Added(s.reserved, r.base, AlignUp(r.base)), AlignDown(End(r)), End(r)))
    else
      Sets(s.mem, Added(s.reserved, r.base, End(r)))
  }

  function Built(e820: seq<E820Range>): Sets {
    if e820 == [] then Sets([], []) else Step(Built(e820[..|e820| - 1]), e820[|e820| - 1])
  }

  method AddSome(ranges: RangeList, start: uint64, end: uint64)
    requires ranges.Valid() && ranges in ranges.repr
    modifies ranges.repr
    ensures ranges.Valid() && ranges in ranges.repr && fresh(ranges.repr - old(ranges.repr))
    ensures ranges.edges == Added(old(ranges.edges), start, end)
  {
    hide SetRegion, Covers, IsRangeSet, ranges.Valid;
    if start != end {
      ranges.Add(start, end);
    }
  }

  /** The loop. A range that is not RAM and has no addresses fails the assertion of
      ranges_set_region_to. */
  method BuildSets(e820: seq<E820Range>) returns (mem: RangeList, reserved: RangeList)
    requires forall i | 0 <= i < |e820| && !e820[i].ram :: e820[i].size != 0
    ensures mem.Valid() && reserved.Valid() && fresh(mem.repr) && fresh(reserved.repr)
    ensures Sets(mem.edges, reserved.edges) == Built(e820)
  {
    hide mem.Valid, Added, AlignUp, AlignDown, End;
    mem := new RangeList();
    reserved := new RangeList();
    var i := 0;
    while i < |e820|
      invariant i <= |e820| && mem.Valid() && reserved.Valid()
      invariant mem in mem.repr && reserved in reserved.repr
      invariant fresh(mem.repr) && fresh(reserved.repr) && mem.repr !! reserved.repr
      invariant Sets(mem.edges, reserved.edges) == Built(e820[..i])
    {
      var range := e820[i];
      var start, end := range.base, End(range);
      assert e820[..i + 1][..i] == e820[..i];
      if range.ram {
        var newStart, newEnd := AlignUp(start), AlignDown(end);
        AddSome(reserved, start, newStart);
        AddSome(mem, newStart, newEnd);
        AddSome(reserved, newEnd, end);
      } else {
        AddSome(reserved, start, end);
      }
      i := i + 1;
    }
    assert e820[..i] == e820;
  }

  // ---------------------------------------------------------------------------
  // What the two sets are
  // ---------------------------------------------------------------------------

  predicate Holds(r: E820Range, x: int) { r.base <= x < r.base + r.size }

  /** The part of a RAM range that is left after trimming both ends. */
  predicate InCore(r: E820Range, x: int) { r.ram && AlignUp(r.base) <= x < AlignDown(End(r)) }

  predicate InTrim(r: E820Range, x: int) { Holds(r, x) && !InCore(r, x) }

  /** What the kernel gets: the MiB block around x lies in the range as a whole. */
  predicate WholeBlock(r: E820Range, x: int) {
    r.ram && r.base <= x / MIB * MIB && x / MIB * MIB + MIB <= r.base + r.size
  }

  /** No wrap-around at the end of the address space, and none of the empty ranges that
      ranges_set_region_to asserts against. */
  predicate Fits(r: E820Range) {
    && r.base + r.size < 0x1_0000_0000_0000_0000
    && (if r.ram then r.base + MIB <= 0x1_0000_0000_0000_0000 else r.size > 0)
  }

  /** The range is not a RAM range inside a single MiB block that it does not fill. */
  predicate Ordered(r: E820Range) { r.ram ==> AlignUp(r.base) <= AlignDown(End(r)) }

  predicate Disjoint(e820: seq<E820Range>) {
    forall i, j | 0 <= i < j < |e820| ::
      e820[i].base + e820[i].size <= e820[j].base || e820[j].base + e820[j].size <= e820[i].base
  }

  lemma Alignment(r: E820Range)
    requires Fits(r)
    ensures End(r) == r.base + r.size
    ensures r.ram ==> r.base <= AlignUp(r.base) < r.base + MIB && AlignUp(r.base) % MIB == 0
    ensures End(r) - MIB < AlignDown(End(r)) <= End(r) && AlignDown(End(r)) % MIB == 0
  {
  }

  lemma CoreIsBlocks(r: E820Range, x: int)
    requires Fits(r)
    ensures InCore(r, x) <==> WholeBlock(r, x)
  {
    Alignment(r);
  }

  lemma AddedCovers(es: seq<int>, start: uint64, end: uint64)
    requires IsRangeSet(es) && start <= end
    ensures IsRangeSet(Added(es, start, end))
    ensures forall x :: Covers(Added(es, start, end), x) <==> start <= x < end || Covers(es, x)
  {
    hide SetRegion, Covers, IsRangeSet;
    if start < end { SetRegionMeaning(es, start, end, true); }
  }

  /** One range adds its core to the one set and the rest of it to the other. */
  lemma StepCovers(s: Sets, r: E820Range)
    requires IsRangeSet(s.mem) && IsRangeSet(s.reserved) && Fits(r) && Ordered(r)
    ensures var t := Step(s, r);
            && IsRangeSet(t.mem) && IsRangeSet(t.reserved)
            && (forall x :: Covers(t.mem, x) <==> Covers(s.mem, x) || InCore(r, x))
            && (forall x :: Covers(t.reserved, x) <==> Covers(s.reserved, x) || InTrim(r, x))
  {
    hide Added, Covers, IsRangeSet, AlignUp, AlignDown, End;
    Alignment(r);
    var up, down := AlignUp(r.base), AlignDown(End(r));
    if r.ram {
      AddedCovers(s.mem, up, down);
      AddedCovers(s.reserved, r.base, up);
      AddedCovers(Added(s.reserved, r.base, up), down, End(r));
    } else {
      AddedCovers(s.reserved, r.base, End(r));
    }
  }

  predicate AllFit(e820: seq<E820Range>) { forall i | 0 <= i < |e820| :: Fits(e820[i]) }

  predicate AllOrdered(e820: seq<E820Range>) { forall i | 0 <= i < |e820| :: Ordered(e820[i]) }

  predicate NoneEmpty(e820: seq<E820Range>) { forall i | 0 <= i < |e820| :: e820[i].size > 0 }

  ghost predicate SomeCore(e820: seq<E820Range>, x: int) {
    exists i | 0 <= i < |e820| :: InCore(e820[i], x)
  }

  ghost predicate SomeTrim(e820: seq<E820Range>, x: int) {
    exists i | 0 <= i < |e820| :: InTrim(e820[i], x)
  }

  lemma {:induction false} BuiltCovers(e820: seq<E820Range>)
    requires AllFit(e820) && AllOrdered(e820)
    ensures IsRangeSet(Built(e820).mem) && IsRangeSet(Built(e820).reserved)
    ensures forall x :: Covers(Built(e820).mem, x) <==> SomeCore(e820, x)
    ensures forall x :: Covers(Built(e820).reserved, x) <==> SomeTrim(e820, x)
  {
    hide Step, InCore, InTrim, Fits, Ordered;
    if e820 != [] {
      var n := |e820| - 1;
      hide Covers, IsRangeSet;
      BuiltCovers(e820[..n]);
      StepCovers(Built(e820[..n]), e820[n]);
      SomeSplit(e820);
    }
  }

  lemma SomeSplit(e820: seq<E820Range>)
    requires e820 != []
    ensures var p, r := e820[..|e820| - 1], e820[|e820| - 1];
            && (forall x :: SomeCore(e820, x) <==> SomeCore(p, x) || InCore(r, x))
            && (forall x :: SomeTrim(e820, x) <==> SomeTrim(p, x) || InTrim(r, x))
  {
    hide InCore, InTrim;
    var p, n := e820[..|e820| - 1], |e820| - 1;
    assert forall i | 0 <= i < n :: p[i] == e820[i];
    forall x
      ensures SomeCore(e820, x) <==> SomeCore(p, x) || InCore(e820[n], x)
      ensures SomeTrim(e820, x) <==> SomeTrim(p, x) || InTrim(e820[n], x)
    {
      if i :| 0 <= i < |e820| && InCore(e820[i], x) && i < n { assert InCore(p[i], x); }
      if i :| 0 <= i < n && InCore(p[i], x) { assert InCore(e820[i], x); }
      if i :| 0 <= i < |e820| && InTrim(e820[i], x) && i < n { assert InTrim(p[i], x); }
      if i :| 0 <= i < n && InTrim(p[i], x) { assert InTrim(e820[i], x); }
    }
  }

  /** Memory and reserved addresses are disjoint, are together exactly what the e820
      map covers, and the memory is exactly the whole MiB blocks of its RAM. */
  lemma MemoryMapMeaning(e820: seq<E820Range>, x: int)
    requires AllFit(e820) && AllOrdered(e820) && Disjoint(e820)
    ensures var s := Built(e820);
            && (Covers(s.mem, x) <==> exists i | 0 <= i < |e820| :: WholeBlock(e820[i], x))
            && (Covers(s.mem, x) || Covers(s.reserved, x) <==> exists i | 0 <= i < |e820| :: Holds(e820[i], x))
            && !(Covers(s.mem, x) && Covers(s.reserved, x))
  {
    hide Covers, IsRangeSet, Built;
    MemoryIsBlocks(e820, x);
    BuiltCovers(e820);
    forall i | 0 <= i < |e820|
      ensures InCore(e820[i], x) <==> WholeBlock(e820[i], x)
      ensures Holds(e820[i], x) <==> InCore(e820[i], x) || InTrim(e820[i], x)
    {
      CoreIsBlocks(e820[i], x);
      Alignment(e820[i]);
    }
    hide InCore, WholeBlock;
  }

  /** The first part does without disjointness. */
  lemma MemoryIsBlocks(e820: seq<E820Range>, x: int)
    requires AllFit(e820) && AllOrdered(e820)
    ensures Covers(Built(e820).mem, x) <==> exists i | 0 <= i < |e820| :: WholeBlock(e820[i], x)
  {
    hide Covers, IsRangeSet, Built;
    BuiltCovers(e820);
    forall i | 0 <= i < |e820| ensures InCore(e820[i], x) <==> WholeBlock(e820[i], x) {
      CoreIsBlocks(e820[i], x);
    }
    hide InCore, WholeBlock;
  }

  /** Every edge of the memory set is 1 MiB aligned. */
  lemma MemoryAligned(e820: seq<E820Range>, k: nat)
    requires AllFit(e820) && AllOrdered(e820) && k < |Built(e820).mem|
    ensures Built(e820).mem[k] % MIB == 0
  {
    hide Built, Covers, WholeBlock, InCore, Fits;
    var es := Built(e820).mem;
    BuiltCovers(e820);
    var x := es[k];
    FirstIs(es, x + 1, k + 1);
    FirstIs(es, x, k);
    CoversParity(es, x);
    CoversParity(es, x - 1);
    assert SomeCore(e820, x) != SomeCore(e820, x - 1);
    if x % MIB != 0 {
      SameBlock(e820, x);
    }
  }

  lemma SameBlock(e820: seq<E820Range>, x: int)
    requires AllFit(e820) && x % MIB != 0
    ensures SomeCore(e820, x) == SomeCore(e820, x - 1)
  {
    assert x / MIB == (x - 1) / MIB;
    forall i | 0 <= i < |e820| ensures InCore(e820[i], x) == InCore(e820[i], x - 1) {
      CoreIsBlocks(e820[i], x);
      CoreIsBlocks(e820[i], x - 1);
    }
    hide InCore;
  }

  /** A range inside one MiB block that it does not fill is added back to front: alone
      it leaves the edges of an interval that ends before it starts. */
  lemma BackToFront(r: E820Range)
    requires Fits(r) && !Ordered(r)
    ensures Built([r]).mem == [AlignUp(r.base) as int, AlignDown(End(r))] && AlignUp(r.base) > AlignDown(End(r))
    ensures !IsRangeSet(Built([r]).mem)
  {
    hide AlignUp, AlignDown, End, First;
    var up, down := AlignUp(r.base), AlignDown(End(r));
    assert [r][..0] == [];
    assert First([], 0, up) == 0 && First([], 0, down + 1) == 0;
    assert SetRegion([], up, down, true) == [up as int, down];
    assert Built([r]) == Step(Built([]), r);
    assert Built([r]).mem[0] > Built([r]).mem[1];
  }

  /** A RAM range leaves the memory a set if it is ordered, or if an earlier range has
      the whole of the MiB block that the range does not fill. */
  ghost predicate Placed(e820: seq<E820Range>, i: nat)
    requires i < |e820|
  {
    Ordered(e820[i]) || SomeCore(e820[..i], AlignUp(e820[i].base) - 1)
  }

  /** The memory set stays one, range after range, if and only if every range is placed:
      for any ranges, whether they overlap or are empty. */
  lemma MemoryStaysSetIff(e820: seq<E820Range>)
    requires AllFit(e820)
    ensures (forall n | 0 <= n <= |e820| :: IsRangeSet(Built(e820[..n]).mem))
            <==> forall i | 0 <= i < |e820| :: Placed(e820, i)
  {
    hide IsRangeSet, Built, Fits, Placed, Covers, SomeCore;
    forall n | 0 <= n <= |e820| && (forall i | 0 <= i < n :: Placed(e820, i)) ensures IsRangeSet(Built(e820[..n]).mem) {
      PlacedIsSet(e820, n);
    }
    forall n | 0 <= n < |e820| && (forall i | 0 <= i <= |e820| :: IsRangeSet(Built(e820[..i]).mem))
      ensures Placed(e820, n)
    {
      SetIsPlaced(e820, n);
    }
  }

  /** The list covers exactly the cores of the ranges. */
  ghost predicate HasCores(es: seq<int>, e820: seq<E820Range>) { forall x :: Covers(es, x) <==> SomeCore(e820, x) }

  /** One range more: what it does to a memory set, and when it leaves it a set. */
  lemma StepPlaced(e820: seq<E820Range>, i: nat)
    requires AllFit(e820) && i < |e820| && IsRangeSet(Built(e820[..i]).mem)
    requires HasCores(Built(e820[..i]).mem, e820[..i])
    ensures IsRangeSet(Built(e820[..i + 1]).mem) <==> Placed(e820, i)
    ensures Placed(e820, i) ==> HasCores(Built(e820[..i + 1]).mem, e820[..i + 1])
  {
    hide IsRangeSet, Covers, SetRegion, SomeCore, InTrim, SomeTrim, AlignUp, AlignDown, End;
    var es, r := Built(e820[..i]).mem, e820[i];
    var up, down := AlignUp(r.base), AlignDown(End(r));
    Alignment(r);
    assert e820[..i + 1][..i] == e820[..i];
    SomeSplit(e820[..i + 1]);
    if r.ram {
      if up <= down { AddedCovers(es, up, down); } else { SetRegionReversed(es, up, down, true); }
    }
  }

  lemma {:induction false} PlacedIsSet(e820: seq<E820Range>, n: nat)
    requires AllFit(e820) && n <= |e820| && forall i | 0 <= i < n :: Placed(e820, i)
    ensures IsRangeSet(Built(e820[..n]).mem)
    ensures HasCores(Built(e820[..n]).mem, e820[..n])
    decreases n
  {
    if n > 0 {
      hide IsRangeSet, Placed, Fits, HasCores;
      PlacedIsSet(e820, n - 1);
      StepPlaced(e820, n - 1);
    }
  }

  lemma {:induction false} SetIsPlaced(e820: seq<E820Range>, n: nat)
    requires AllFit(e820) && n < |e820| && forall i | 0 <= i <= |e820| :: IsRangeSet(Built(e820[..i]).mem)
    ensures Placed(e820, n)
    decreases n
  {
    hide IsRangeSet, Placed, Fits, HasCores, Built;
    forall i | 0 <= i < n ensures Placed(e820, i) { SetIsPlaced(e820, i); }
    PlacedIsSet(e820, n);
    StepPlaced(e820, n);
  }

  /** In a map of disjoint ranges with addresses in them, placed means ordered. */
  lemma PlacedIsOrdered(e820: seq<E820Range>, i: nat)
    requires AllFit(e820) && Disjoint(e820) && NoneEmpty(e820) && i < |e820|
    ensures Placed(e820, i) <==> Ordered(e820[i])
  {
    hide Fits, Ordered, SomeCore, Disjoint;
    if !Ordered(e820[i]) { BlockIsFree(e820, i); }
  }

  /** That is about every step. The final list alone can be a set although a range was
      added back to front: RAM that begins where the MiB block ends takes both edges out. */
  lemma RepairedLater(r: E820Range, q: E820Range)
    requires Fits(r) && !Ordered(r) && Fits(q) && q.ram && AlignUp(q.base) == AlignUp(r.base) < AlignDown(End(q))
    ensures !IsRangeSet(Built([r]).mem)
    ensures Built([r, q]).mem == [AlignUp(q.base) as int, AlignDown(End(q))] && IsRangeSet(Built([r, q]).mem)
  {
    hide AlignUp, AlignDown, End;
    BackToFront(r);
    var up, down, end: int := AlignUp(r.base), AlignDown(End(r)), AlignDown(End(q));
    var es := [up as int, down];
    assert [r, q][..1] == [r];
    assert First(es, 0, up) == 0;
    assert First(es, 1, end + 1) == First(es, 2, end + 1) == 2;
    assert First(es, 0, end + 1) == 2;
    assert SetRegion(es, up, end, true) == [up as int, end];
    assert Built([r, q]) == Step(Built([r]), q);
  }

  lemma SharesBase(q: E820Range, r: E820Range)
    requires Fits(r) && !Ordered(r)
    ensures WholeBlock(q, AlignUp(r.base) - 1) ==> Holds(q, r.base)
  {
    Alignment(r);
  }

  /** No other range has the MiB block of an unordered one. */
  lemma BlockIsFree(e820: seq<E820Range>, i: nat)
    requires AllFit(e820) && Disjoint(e820) && NoneEmpty(e820) && i < |e820| && !Ordered(e820[i])
    ensures !SomeCore(e820[..i], AlignUp(e820[i].base) - 1)
  {
    hide InCore, WholeBlock, Ordered;
    var r := e820[i];
    var x := AlignUp(r.base) - 1;
    forall j | 0 <= j < i ensures !InCore(e820[..i][j], x) {
      CoreIsBlocks(e820[j], x);
      SharesBase(e820[j], r);
    }
  }

  // ---------------------------------------------------------------------------
  // The reserve map
  // ---------------------------------------------------------------------------

  function EntryOf(c: Interval): ReserveEntry { ReserveEntry(Mod64(c.start), Mod64(c.end - c.start)) }

  /** Each call of update_reserve_map puts an entry in front of the others. */
  function Entries(calls: seq<Interval>): seq<ReserveEntry> {
    if calls == [] then [] else Entries(calls[1..]) + [EntryOf(calls[0])]
  }

  lemma {:induction false} EntryAt(calls: seq<Interval>, i: nat)
    requires i < |calls|
    ensures |Entries(calls)| == |calls|
    ensures Entries(calls)[|calls| - 1 - i] == EntryOf(calls[i])
    decreases calls
  {
    if i > 0 { EntryAt(calls[1..], i - 1); } else if |calls| > 1 { EntryAt(calls[1..], 0); }
  }

  /** update_reserve_map, for every call of ranges_for_each. */
  method UpdateReserveMap(reserved: RangeList, old_map: seq<ReserveEntry>) returns (entries: seq<ReserveEntry>)
    requires reserved.Valid()
    ensures entries == Entries(Intervals(reserved.edges)) + old_map
  {
    hide reserved.Valid, Intervals, EntryOf;
    var calls, _ := reserved.ForEach();
    entries := old_map;
    var i := 0;
    while i < |calls|
      invariant i <= |calls| && Entries(calls) + old_map == Entries(calls[i..]) + entries
    {
      assert calls[i..][1..] == calls[i + 1..];
      entries := [EntryOf(calls[i])] + entries;
      i := i + 1;
    }
  }

  predicate InEntry(e: ReserveEntry, x: int) { e.start <= x < e.start + e.size }

  predicate Within64(es: seq<int>) { forall i | 0 <= i < |es| :: 0 <= es[i] < 0x1_0000_0000_0000_0000 }

  lemma IntervalEntry(es: seq<int>, i: nat)
    requires IsRangeSet(es) && Within64(es) && i < |es| / 2
    ensures |Entries(Intervals(es))| == |es| / 2
    ensures var e := Entries(Intervals(es))[|es| / 2 - 1 - i];
            e.start == es[2 * i] && e.size == es[2 * i + 1] - es[2 * i] > 0
  {
    hide Entries, Intervals;
    IntervalAt(es, i);
    EntryAt(Intervals(es), i);
  }

  /** The reserve map denotes exactly the reserved set, and no entry is empty, so none
      ends the list in the flattened tree. */
  lemma ReserveMapMeaning(es: seq<int>)
    requires IsRangeSet(es) && Within64(es)
    ensures var entries := Entries(Intervals(es));
            && (forall i | 0 <= i < |entries| :: entries[i].size != 0)
            && (forall x :: Covers(es, x) <==> exists i | 0 <= i < |entries| :: InEntry(entries[i], x))
  {
    hide Entries, Intervals;
    var entries, n := Entries(Intervals(es)), |es| / 2;
    EntriesLength(Intervals(es));
    IntervalsLength(es);
    forall i | 0 <= i < n ensures entries[i].size != 0 { IntervalEntry(es, n - 1 - i); }
    forall x
      ensures Covers(es, x) <==> exists i | 0 <= i < n :: InEntry(entries[i], x)
    {
      if Covers(es, x) {
        var i :| 0 <= i < n && InPair(es, i, x);
        IntervalEntry(es, i);
        assert InEntry(entries[n - 1 - i], x);
      }
      if i :| 0 <= i < n && InEntry(entries[i], x) {
        IntervalEntry(es, n - 1 - i);
        assert InPair(es, n - 1 - i, x);
      }
    }
  }

  lemma {:induction false} EntriesLength(calls: seq<Interval>)
    ensures |Entries(calls)| == |calls|
  {
    if calls != [] { EntriesLength(calls[1..]); }
  }

  lemma SetRegionWithin64(es: seq<int>, start: uint64, end: uint64, inc: bool)
    requires Within64(es)
    ensures Within64(SetRegion(es, start, end, inc))
  {
    hide First, Odd;
  }

  /** All edges are 64-bit numbers. */
  lemma {:induction false} BuiltWithin64(e820: seq<E820Range>)
    ensures Within64(Built(e820).mem) && Within64(Built(e820).reserved)
  {
    if e820 != [] {
      hide SetRegion, Within64, AlignUp, AlignDown, End;
      var r, s := e820[|e820| - 1], Built(e820[..|e820| - 1]);
      var up, down := AlignUp(r.base), AlignDown(End(r));
      BuiltWithin64(e820[..|e820| - 1]);
      SetRegionWithin64(s.mem, up, down, true);
      SetRegionWithin64(s.reserved, r.base, up, true);
      SetRegionWithin64(Added(s.reserved, r.base, up), down, End(r), true);
      SetRegionWithin64(s.reserved, r.base, End(r), true);
    }
  }
}
