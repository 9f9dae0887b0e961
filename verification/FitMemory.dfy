/** update_memory of src/boot/fit.c as a whole: the device tree the kernel gets. */
module FitMemory {
  import opened Machine
  import opened CStrings
  import opened RangeSet
  import opened Ranges
  import opened FdtTree
  import opened FdtWhole
  import opened MemoryMap
  import opened RegProperty

  // The names in ASCII: "memory", "device_type", "reg", "#address-cells", "#size-cells".
  const MEMORY: CString := [109, 101, 109, 111, 114, 121]
  const DEVICE_TYPE: CString := [100, 101, 118, 105, 99, 101, 95, 116, 121, 112, 101]
  const REG: CString := [114, 101, 103]
  const ADDRESS_CELLS: CString := [35, 97, 100, 100, 114, 101, 115, 115, 45, 99, 101, 108, 108, 115]
  const SIZE_CELLS: CString := [35, 115, 105, 122, 101, 45, 99, 101, 108, 108, 115]

  /** get_e820_mem_ranges. */
  datatype MemRanges = NoRanges | GotRanges(ranges: seq<E820Range>)

  /** A cell property is read as one word. */
  predicate CellsReadable(props: seq<Property>) {
    forall i | 0 <= i < |props| && props[i].name in {ADDRESS_CELLS, SIZE_CELLS} :: |props[i].data| >= 4
  }

  /** The last property of a name decides. */
  function CellProp(props: seq<Property>, name: CString, otherwise: uint32): uint32
    requires name in {ADDRESS_CELLS, SIZE_CELLS} && CellsReadable(props)
  {
    if props == [] then otherwise
    else
      var last := props[|props| - 1];
      if last.name == name then Be32(last.data, 0) else CellProp(props[..|props| - 1], name, otherwise)
  }

  /** It is the big-endian word of the last property with that name, or the default. */
  lemma {:induction false} CellPropIs(props: seq<Property>, name: CString, otherwise: uint32, i: nat)
    requires name in {ADDRESS_CELLS, SIZE_CELLS} && CellsReadable(props)
    requires i <= |props| && forall j | i < j < |props| :: props[j].name != name
    ensures i < |props| && props[i].name == name ==>
              CellProp(props, name, otherwise) == BigEndian(props[i].data[..4])
    ensures i == 0 && (props == [] || props[0].name != name) ==> CellProp(props, name, otherwise) == otherwise
  {
    hide BigEndian;
    if props != [] {
      var n := |props| - 1;
      if props[n].name == name {
        assert props[n].data[0..4] == props[n].data[..4];
      } else if i <= n {
        CellPropIs(props[..n], name, otherwise, i);
      }
    }
  }

  /** dt_read_cell_props, with the values that update_memory starts from. */
  method ReadCellProps(props: seq<Property>) returns (addrCells: uint32, sizeCells: uint32)
    requires CellsReadable(props)
    ensures addrCells == CellProp(props, ADDRESS_CELLS, 1) && sizeCells == CellProp(props, SIZE_CELLS, 1)
  {
    hide Be32;
    addrCells, sizeCells := 1, 1;
    var i := 0;
    while i < |props|
      invariant i <= |props|
      invariant addrCells == CellProp(props[..i], ADDRESS_CELLS, 1)
      invariant sizeCells == CellProp(props[..i], SIZE_CELLS, 1)
    {
      assert props[..i + 1][..i] == props[..i];
      if props[i].name == ADDRESS_CELLS { addrCells := Be32(props[i].data, 0); }
      if props[i].name == SIZE_CELLS { sizeCells := Be32(props[i].data, 0); }
      i := i + 1;
    }
    assert props[..i] == props;
  }

  /** The first device_type property of the node is the string "memory". */
  predicate IsMemory(props: seq<Property>) {
    && props != []
    && if props[0].name == DEVICE_TYPE then MEMORY + [0] <= props[0].data else IsMemory(props[1..])
  }

  function WithoutMemory(nodes: seq<TreeNode>): seq<TreeNode> {
    if nodes == [] then []
    else
      var n := |nodes| - 1;
      WithoutMemory(nodes[..n]) + if IsMemory(nodes[n].props) then [] else [nodes[n]]
  }

  function MemoryNode(reg: seq<byte>): TreeNode {
    TreeNode(MEMORY, [Property(REG, reg), Property(DEVICE_TYPE, MEMORY + [0])], [])
  }

  method RemoveMemoryNodes(nodes: seq<TreeNode>) returns (kept: seq<TreeNode>)
    ensures kept == WithoutMemory(nodes)
  {
    kept := [];
    var i := 0;
    while i < |nodes|
      invariant i <= |nodes| && kept == WithoutMemory(nodes[..i])
    {
      assert nodes[..i + 1][..i] == nodes[..i];
      if !IsMemory(nodes[i].props) { kept := kept + [nodes[i]]; }
      i := i + 1;
    }
    assert nodes[..i] == nodes;
  }

  function AddrCells(t: DeviceTree): nat
    requires CellsReadable(t.root.props)
  {
    CellProp(t.root.props, ADDRESS_CELLS, 1)
  }

  function SizeCells(t: DeviceTree): nat
    requires CellsReadable(t.root.props)
  {
    CellProp(t.root.props, SIZE_CELLS, 1)
  }

  /** What update_memory needs to end without an abort or an overrun: readable cell
      counts for which max_range is defined, no empty range that is not RAM, splitting
      that ends, and no wrap-around in the allocation. */
  predicate Updatable(t: DeviceTree, e820: seq<E820Range>) {
    && CellsReadable(t.root.props) && 1 <= SizeCells(t) <= 2
    && (forall i | 0 <= i < |e820| && !e820[i].ram :: e820[i].size != 0)
    && var rs := Intervals(Built(e820).mem);
    && AllSplit(rs, SizeCells(t)) && Countable(rs, SizeCells(t))
    && |AllPieces(rs, SizeCells(t))| * (AddrCells(t) + SizeCells(t)) < 0x1_0000_0000
  }

  function RegData(t: DeviceTree, e820: seq<E820Range>): seq<byte>
    requires Updatable(t, e820)
  {
    RegBytes(AllPieces(Intervals(Built(e820).mem), SizeCells(t)), 4 * AddrCells(t), 4 * SizeCells(t))
  }

  function UpdatedTree(t: DeviceTree, e820: seq<E820Range>): DeviceTree
    requires Updatable(t, e820)
  {
    t.(reserve := Entries(Intervals(Built(e820).reserved)) + t.reserve,
       root := t.root.(children := [MemoryNode(RegData(t, e820))] + WithoutMemory(t.root.children)))
  }

  /** Counting, allocating and filling. */
  method BuildReg(rs: seq<Interval>, addrCells: uint32, sizeCells: uint32) returns (data: seq<byte>, length: nat)
    requires 1 <= sizeCells <= 2 && AllSplit(rs, sizeCells) && Countable(rs, sizeCells)
    requires |AllPieces(rs, sizeCells)| * (addrCells + sizeCells) < 0x1_0000_0000
    ensures data == RegBytes(AllPieces(rs, sizeCells), 4 * addrCells, 4 * sizeCells) && length == |data|
  {
    hide AllPieces, RegBytes;
    ghost var ps := AllPieces(rs, sizeCells);
    var count := CountEntries(rs, sizeCells);
    length := RegAllocation(count, addrCells + sizeCells);
    AllocationExactIff(|ps|, addrCells + sizeCells);
    RegLength(ps, 4 * addrCells, 4 * sizeCells);
    var buffer := new byte[length];
    var end := FillReg(buffer, rs, 4 * addrCells, sizeCells);
    assert end == length;
    data := buffer[..];
  }

  /** The body of update_memory behind its first test. */
  method Rebuild(t: DeviceTree, e820: seq<E820Range>) returns (u: DeviceTree)
    requires Updatable(t, e820)
    ensures u == UpdatedTree(t, e820)
  {
    hide RegBytes, Built, Intervals, AllPieces, AllSplit, Countable, Entries, WithoutMemory;
    hide CellProp, CellsReadable, RangeList.Valid;
    var addrCells, sizeCells := ReadCellProps(t.root.props);
    var children := RemoveMemoryNodes(t.root.children);
    var mem, reserved := BuildSets(e820);
    var reserve := UpdateReserveMap(reserved, t.reserve);
    var rs, _ := mem.ForEach();
    var data, length := BuildReg(rs, addrCells, sizeCells);
    u := t.(reserve := reserve, root := t.root.(children := [MemoryNode(data)] + children));
  }

  class FitTree {
    var tree: DeviceTree

    /** update_memory. */
    method UpdateMemory(e820: MemRanges) returns (failed: bool)
      requires e820.GotRanges? ==> Updatable(tree, e820.ranges)
      modifies this
      ensures failed == e820.NoRanges?
      ensures tree == if failed then old(tree) else UpdatedTree(old(tree), e820.ranges)
    {
      hide Updatable, UpdatedTree;
      if e820.NoRanges? { return true; }
      tree := Rebuild(tree, e820.ranges);
      return false;
    }
  }

  // ---------------------------------------------------------------------------
  // What the kernel reads
  // ---------------------------------------------------------------------------

  /** Every RAM range ends at or below a limit. */
  predicate RamBelow(e820: seq<E820Range>, limit: int) {
    forall i | 0 <= i < |e820| && e820[i].ram :: e820[i].base + e820[i].size <= limit
  }

  predicate IsBlock(e820: seq<E820Range>, x: int) { exists i | 0 <= i < |e820| :: WholeBlock(e820[i], x) }

  predicate IsHeld(e820: seq<E820Range>, x: int) { exists i | 0 <= i < |e820| :: Holds(e820[i], x) }

  /** The memory set ends where the RAM ends. */
  lemma MemoryBelow(e820: seq<E820Range>, limit: int, i: nat)
    requires AllFit(e820) && AllOrdered(e820) && i < |Intervals(Built(e820).mem)|
    requires RamBelow(e820, limit)
    ensures Intervals(Built(e820).mem)[i].start < Intervals(Built(e820).mem)[i].end <= limit
  {
    hide Built, Covers;
    var es := Built(e820).mem;
    BuiltCovers(e820);
    IntervalsLength(es);
    IntervalAt(es, i);
    var x := es[2 * i + 1] - 1;
    assert Covers(es, x) by { CoveredAt(es, i, x); }
    var k :| 0 <= k < |e820| && InCore(e820[k], x);
    CoreIsBlocks(e820[k], x);
  }

  lemma CoveredAt(es: seq<int>, i: nat, x: int)
    requires i < |es| / 2 && es[2 * i] <= x < es[2 * i + 1]
    ensures Covers(es, x)
  {
    assert InPair(es, i, x);
  }

  lemma InSomeIsCovers(es: seq<int>, x: int)
    requires IsRangeSet(es)
    ensures InSome(Intervals(es), x) <==> Covers(es, x)
  {
    IntervalsMaximal(es);
    hide Covers;
    var rs := Intervals(es);
    assert forall i | 0 <= i < |rs| :: InInterval(rs[i], x) <==> rs[i].start <= x < rs[i].end;
  }

  lemma PiecesFit(t: DeviceTree, e820: seq<E820Range>)
    requires Updatable(t, e820) && AllFit(e820) && AllOrdered(e820) && RamBelow(e820, Pow256(4 * AddrCells(t)))
    ensures var ps := AllPieces(Intervals(Built(e820).mem), SizeCells(t));
            && FitCells(ps, 4 * AddrCells(t), 4 * SizeCells(t))
            && (forall i | 0 <= i < |ps| :: 0 < ps[i].size <= MaxRange(SizeCells(t)))
  {
    hide Built, Intervals, AllPieces, AllFit, AllOrdered, CellProp, CellsReadable, Pow256, RamBelow;
    var a, s := AddrCells(t), SizeCells(t);
    var rs, limit := Intervals(Built(e820).mem), Pow256(4 * a);
    forall i | 0 <= i < |rs| ensures rs[i].end <= limit { MemoryBelow(e820, limit, i); }
    AllPiecesWithin(rs, s, limit);
    assert forall i | 0 <= i < |AllPieces(rs, s)| :: PieceWithin(AllPieces(rs, s)[i], s, limit);
    Pow256Values();
  }

  /** The written property decodes to pieces that a size cell can hold, and that make up
      exactly the whole MiB blocks of the RAM. */
  lemma RegMeaning(t: DeviceTree, e820: seq<E820Range>)
    requires Updatable(t, e820) && AllFit(e820) && AllOrdered(e820)
    requires RamBelow(e820, Pow256(4 * AddrCells(t)))
    ensures var ps := Decode(RegData(t, e820), 4 * AddrCells(t), 4 * SizeCells(t));
            && (forall i | 0 <= i < |ps| :: 0 < ps[i].size <= MaxRange(SizeCells(t)))
            && (forall x :: InPieces(ps, x) <==> IsBlock(e820, x))
  {
    hide Built, Intervals, AllPieces, AllFit, AllOrdered, CellProp, CellsReadable, Pow256, RamBelow;
    hide FitCells, Decode, RegBytes, InPieces, InSome, Covers, MaxRange, IsRangeSet;
    BuiltCovers(e820);
    var a, s := AddrCells(t), SizeCells(t);
    var rs := Intervals(Built(e820).mem);
    var ps := AllPieces(rs, s);
    PiecesFit(t, e820);
    DecodeReg(ps, 4 * a, 4 * s);
    forall x ensures InPieces(ps, x) <==> IsBlock(e820, x) {
      MemoryIsBlocks(e820, x);
      AllPiecesCover(rs, s, x);
      InSomeIsCovers(Built(e820).mem, x);
    }
  }

  /** With one size cell every ordered memory map can be split, and counted as long as
      rounding up a size has room in 64 bits. */
  lemma OneSizeCellSuffices(e820: seq<E820Range>)
    requires AllFit(e820) && AllOrdered(e820) && RamBelow(e820, 0xFFFF_FFFF_8000_0000)
    ensures AllSplit(Intervals(Built(e820).mem), 1) && Countable(Intervals(Built(e820).mem), 1)
  {
    hide Built, Intervals, AllFit, AllOrdered;
    var es := Built(e820).mem;
    var rs := Intervals(es);
    BuiltWithin64(e820);
    IntervalsLength(es);
    forall i | 0 <= i < |rs| ensures 0 <= rs[i].start < rs[i].end <= 0xFFFF_FFFF_8000_0000 {
      MemoryBelow(e820, 0xFFFF_FFFF_8000_0000, i);
      IntervalAt(es, i);
    }
  }

  /** The new reserve entries are exactly the covered addresses outside the memory, and
      none of them is empty. */
  lemma ReserveMeaning(t: DeviceTree, e820: seq<E820Range>)
    requires Updatable(t, e820) && AllFit(e820) && AllOrdered(e820) && Disjoint(e820)
    ensures var es := Entries(Intervals(Built(e820).reserved));
            && UpdatedTree(t, e820).reserve == es + t.reserve
            && (forall i | 0 <= i < |es| :: es[i].size != 0)
            && (forall x :: (exists i | 0 <= i < |es| :: InEntry(es[i], x)) <==> IsHeld(e820, x) && !IsBlock(e820, x))
  {
    hide Built, Intervals, Entries, AllFit, AllOrdered, Disjoint, Updatable;
    hide IsRangeSet, Covers, Holds, WholeBlock, InEntry;
    BuiltWithin64(e820);
    BuiltCovers(e820);
    ReserveMapMeaning(Built(e820).reserved);
    forall x ensures Covers(Built(e820).reserved, x) <==> IsHeld(e820, x) && !IsBlock(e820, x) {
      MemoryMapMeaning(e820, x);
    }
  }

  /** So the kernel reads back the whole reserve map, given that the tree came without
      empty entries: FdtWhole.RoundTrip gives the part before the first empty one. */
  lemma ReserveSurvives(t: DeviceTree, e820: seq<E820Range>)
    requires Updatable(t, e820) && AllFit(e820) && AllOrdered(e820) && Disjoint(e820)
    requires forall i | 0 <= i < |t.reserve| :: t.reserve[i].size != 0
    ensures NonzeroPrefix(UpdatedTree(t, e820).reserve) == UpdatedTree(t, e820).reserve
  {
    hide UpdatedTree, Updatable, Built, Intervals, Entries, AllFit, AllOrdered, Disjoint;
    hide NonzeroPrefix, IsHeld, IsBlock;
    ReserveMeaning(t, e820);
    NonzeroPrefixWhole(UpdatedTree(t, e820).reserve);
  }

  /** What is kept keeps its order. */
  lemma {:induction false} KeptInOrder(a: seq<TreeNode>, b: seq<TreeNode>)
    ensures WithoutMemory(a + b) == WithoutMemory(a) + WithoutMemory(b)
  {
    hide IsMemory;
    if b == [] {
      assert a + b == a;
    } else {
      var n := |b| - 1;
      KeptInOrder(a, b[..n]);
      assert (a + b)[..|a + b| - 1] == a + b[..n];
    }
  }

  /** Exactly the nodes that are no memory nodes are kept. */
  lemma {:induction false} OnlyOthersKept(nodes: seq<TreeNode>)
    ensures forall n :: n in WithoutMemory(nodes) <==> n in nodes && !IsMemory(n.props)
  {
    hide IsMemory;
    if nodes != [] {
      var k := |nodes| - 1;
      OnlyOthersKept(nodes[..k]);
      assert nodes == nodes[..k] + [nodes[k]];
    }
  }

  lemma NewNodeIsMemory(reg: seq<byte>)
    ensures IsMemory(MemoryNode(reg).props)
  {
    var props := MemoryNode(reg).props;
    assert props[0].name[0] != DEVICE_TYPE[0];
    assert props[1..][0] == props[1];
    assert IsMemory(props[1..]);
  }

  lemma NodeIs(reg: seq<byte>)
    ensures var n := MemoryNode(reg);
            && n.name == MEMORY && n.children == [] && |n.props| == 2
            && Property(REG, reg) in n.props && Property(DEVICE_TYPE, MEMORY + [0]) in n.props
  {
  }

  /** Nothing else of the tree changes than the reserve map and the root's children. */
  lemma RestStays(t: DeviceTree, e820: seq<E820Range>)
    requires Updatable(t, e820)
    ensures var u := UpdatedTree(t, e820);
            && u.root.name == t.root.name && u.root.props == t.root.props && u.header == t.header
            && |u.reserve| >= |t.reserve| && u.reserve[|u.reserve| - |t.reserve|..] == t.reserve
  {
    hide Updatable, Entries, RegData;
  }

  /** The updated root has exactly one memory node, the new one in front. */
  lemma OneMemoryNode(t: DeviceTree, e820: seq<E820Range>, i: nat)
    requires Updatable(t, e820) && i < |UpdatedTree(t, e820).root.children|
    ensures IsMemory(UpdatedTree(t, e820).root.children[i].props) <==> i == 0
    ensures var n := UpdatedTree(t, e820).root.children[0];
            && n.name == MEMORY && n.children == [] && |n.props| == 2
            && Property(REG, RegData(t, e820)) in n.props && Property(DEVICE_TYPE, MEMORY + [0]) in n.props
  {
    NodeIs(RegData(t, e820));
    hide IsMemory, MemoryNode, Updatable, WithoutMemory, RegData;
    NewNodeIsMemory(RegData(t, e820));
    OnlyOthersKept(t.root.children);
    var nodes := UpdatedTree(t, e820).root.children;
    assert i > 0 ==> nodes[i] in WithoutMemory(t.root.children);
  }
}
