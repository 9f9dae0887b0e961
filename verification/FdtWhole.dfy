/** dt_flat_size, dt_flatten and fdt_unflatten of src/base/device_tree.c on whole
    trees, and the round trip. */
module FdtWhole {
  import opened Machine
  import opened FdtFormat
  import opened FdtTree
  import opened FdtFrame
  import opened FdtWrite
  import FdtRead

  datatype DeviceTree = DeviceTree(header: seq<byte>, reserve: seq<ReserveEntry>, root: TreeNode)

  function StructureAt(t: DeviceTree): nat { |t.header| + 16 * (|t.reserve| + 1) }

  function StringsAt(t: DeviceTree): nat { StructureAt(t) + NodeSize(t.root) + 4 }

  /** dt_flat_size. */
  function FlatSize(t: DeviceTree): nat { StringsAt(t) + NodeStrings(t.root) }

  /** What dt_flatten asks of a tree: room in the header for the fields it rewrites,
      and a total that an int can count. */
  predicate Flattenable(t: DeviceTree) {
    |t.header| >= HEADER_FIELDS_END && FlatSize(t) < 0x8000_0000
  }

  // ---------------------------------------------------------------------------
  // The reserve map
  // ---------------------------------------------------------------------------

  predicate HoldsReserve(b: seq<byte>, es: seq<ReserveEntry>, at: nat) {
    at + 16 * |es| <= |b|
    && forall i | 0 <= i < |es| :: Be64(b, at + 16 * i) == es[i].start && Be64(b, at + 16 * i + 8) == es[i].size
  }

  datatype ReserveRead = ReserveFault | ReserveGot(entries: seq<ReserveEntry>)

  /** The entries from an offset on, up to the first of size zero. */
  function ReserveAt(b: seq<byte>, off: nat): ReserveRead
    decreases |b| - off
  {
    if off + 16 > |b| then ReserveFault
    else if Be64(b, off + 8) == 0 then ReserveGot([])
    else
      var rest := ReserveAt(b, off + 16);
      if rest.ReserveFault? then rest
      else ReserveGot([ReserveEntry(Be64(b, off), Be64(b, off + 8))] + rest.entries)
  }

  /** What a reader of the map gets to see. */
  function NonzeroPrefix(es: seq<ReserveEntry>): seq<ReserveEntry> {
    if es == [] || es[0].size == 0 then [] else [es[0]] + NonzeroPrefix(es[1..])
  }

  /** All of it, if and only if no entry is empty. */
  lemma {:induction false} NonzeroPrefixWhole(es: seq<ReserveEntry>)
    ensures NonzeroPrefix(es) == es <==> forall e | e in es :: e.size != 0
  {
    if es != [] {
      NonzeroPrefixWhole(es[1..]);
      assert es == [es[0]] + es[1..];
      if es[0].size != 0 {
        assert NonzeroPrefix(es) == es ==> NonzeroPrefix(es)[1..] == es[1..];
        assert NonzeroPrefix(es)[1..] == NonzeroPrefix(es[1..]);
      }
    }
  }

  lemma {:induction false} ReserveReadsBack(b: seq<byte>, es: seq<ReserveEntry>, at: nat)
    requires HoldsReserve(b, es, at) && at + 16 * |es| + 16 <= |b| && Be64(b, at + 16 * |es| + 8) == 0
    ensures ReserveAt(b, at) == ReserveGot(NonzeroPrefix(es))
    decreases |es|
  {
    hide Be64;
    if es != [] {
      assert Be64(b, at + 16 * 0) == es[0].start && Be64(b, at + 16 * 0 + 8) == es[0].size;
      forall i | 0 <= i < |es[1..]|
        ensures Be64(b, at + 16 + 16 * i) == es[1..][i].start && Be64(b, at + 16 + 16 * i + 8) == es[1..][i].size
      {
        assert Be64(b, at + 16 * (i + 1)) == es[i + 1].start && Be64(b, at + 16 * (i + 1) + 8) == es[i + 1].size;
      }
      if es[0].size != 0 { ReserveReadsBack(b, es[1..], at + 16); }
    }
  }

  lemma Be64Frame(b: seq<byte>, c: seq<byte>, lo: nat, hi: nat, i: nat)
    requires Agree(b, c, lo, hi) && lo <= i && i + 8 <= hi && i + 8 <= |b|
    ensures Be64(b, i) == Be64(c, i)
  {
    AgreeSlice(b, c, lo, hi, i, i + 8);
  }

  lemma ReserveFrame(b: seq<byte>, c: seq<byte>, es: seq<ReserveEntry>, at: nat)
    requires HoldsReserve(b, es, at) && Agree(b, c, at, at + 16 * |es|)
    ensures HoldsReserve(c, es, at)
  {
    hide Be64;
    forall i | 0 <= i < |es|
      ensures Be64(c, at + 16 * i) == es[i].start && Be64(c, at + 16 * i + 8) == es[i].size
    {
      Be64Frame(b, c, at, at + 16 * |es|, at + 16 * i);
      Be64Frame(b, c, at, at + 16 * |es|, at + 16 * i + 8);
    }
  }

  /** The loop of dt_flatten over the reserve map, and the empty entry behind it. */
  method FlattenReserve(es: seq<ReserveEntry>, buf: array<byte>, at: nat) returns (end: nat)
    requires at + 16 * (|es| + 1) <= buf.Length
    modifies buf
    ensures end == at + 16 * (|es| + 1)
    ensures SameBut(old(buf[..]), buf[..], at, 16 * (|es| + 1))
    ensures HoldsReserve(buf[..], es, at) && Be64(buf[..], end - 8) == 0
  {
    hide Be64;
    end := at;
    var i := 0;
    while i < |es|
      invariant 0 <= i <= |es| && end == at + 16 * i
      invariant SameBut(old(buf[..]), buf[..], at, 16 * i)
      invariant HoldsReserve(buf[..], es[..i], at)
    {
      ghost var b := buf[..];
      StoreEntry(buf, end, es[i]);
      ReserveFrame(b, buf[..], es[..i], at);
      assert es[..i + 1] == es[..i] + [es[i]];
      end := end + 16;
      i := i + 1;
    }
    assert es[..i] == es;
    ghost var b := buf[..];
    StoreEntry(buf, end, ReserveEntry(0, 0));
    ReserveFrame(b, buf[..], es, at);
    end := end + 16;
  }

  /** dt_flatten_map_entry. */
  method StoreEntry(buf: array<byte>, at: nat, e: ReserveEntry)
    requires at + 16 <= buf.Length
    modifies buf
    ensures SameBut(old(buf[..]), buf[..], at, 16)
    ensures Be64(buf[..], at) == e.start && Be64(buf[..], at + 8) == e.size
  {
    hide Be64;
    Store64(buf, at, e.start);
    ghost var b := buf[..];
    Store64(buf, at + 8, e.size);
    Be64Frame(b, buf[..], 0, at + 8, at);
  }

  // ---------------------------------------------------------------------------
  // The header
  // ---------------------------------------------------------------------------

  /** The bytes of the header that dt_flatten recomputes. */
  predicate Rewritten(i: nat) {
    || TOTALSIZE <= i < TOTALSIZE + 4
    || STRUCTURE_OFFSET <= i < STRINGS_OFFSET + 4
    || STRINGS_SIZE <= i < STRUCTURE_SIZE + 4
  }

  predicate HoldsHeader(b: seq<byte>, t: DeviceTree) {
    && HEADER_FIELDS_END <= |t.header| <= |b|
    && Be32(b, TOTALSIZE) == FlatSize(t)
    && Be32(b, STRUCTURE_OFFSET) == StructureAt(t)
    && Be32(b, STRINGS_OFFSET) == StringsAt(t)
    && Be32(b, STRINGS_SIZE) == NodeStrings(t.root)
    && Be32(b, STRUCTURE_SIZE) == NodeSize(t.root)
    && forall i | 0 <= i < |t.header| && !Rewritten(i) :: b[i] == t.header[i]
  }

  /** A buffer that dt_flatten has filled. */
  predicate Flattened(b: seq<byte>, t: DeviceTree) {
    && HoldsHeader(b, t)
    && HoldsReserve(b, t.reserve, |t.header|)
    && StructureAt(t) <= |b| && Be64(b, StructureAt(t) - 8) == 0
    && HoldsNode(b, t.root, StructureAt(t), StringsAt(t), StringsAt(t))
    && TokenAt(b, StringsAt(t) - 4, TOKEN_END)
  }

  /** The header copy and its fields, written one after the other. */
  method FlattenHeader(t: DeviceTree, structSize: uint32, stringsSize: uint32, buf: array<byte>)
    requires Flattenable(t) && |t.header| <= buf.Length
    requires structSize == NodeSize(t.root) && stringsSize == NodeStrings(t.root)
    modifies buf
    ensures SameBut(old(buf[..]), buf[..], 0, |t.header|)
    ensures HoldsHeader(buf[..], t)
  {
    hide Be32, NodeSize, NodeStrings;
    Store(buf, 0, t.header);
    assert forall i | 0 <= i < |t.header| :: buf[..][i] == t.header[i] by {
      assert buf[..][0..|t.header|] == t.header;
    }
    Store32(buf, STRUCTURE_OFFSET, StructureAt(t));
    ghost var b1 := buf[..];
    Store32(buf, STRUCTURE_SIZE, structSize);
    ghost var b2 := buf[..];
    Be32Frame(b1, b2, 0, STRUCTURE_SIZE, STRUCTURE_OFFSET);
    Store32(buf, STRINGS_OFFSET, StringsAt(t));
    ghost var b3 := buf[..];
    Be32Frame(b2, b3, 0, STRINGS_OFFSET, STRUCTURE_OFFSET);
    Be32Frame(b2, b3, STRINGS_OFFSET + 4, |b2|, STRUCTURE_SIZE);
    Store32(buf, STRINGS_SIZE, stringsSize);
    ghost var b4 := buf[..];
    Be32Frame(b3, b4, 0, STRINGS_SIZE, STRUCTURE_OFFSET);
    Be32Frame(b3, b4, 0, STRINGS_SIZE, STRINGS_OFFSET);
    Be32Frame(b3, b4, STRINGS_SIZE + 4, |b3|, STRUCTURE_SIZE);
    Store32(buf, TOTALSIZE, FlatSize(t));
    ghost var b5 := buf[..];
    Be32Frame(b4, b5, TOTALSIZE + 4, |b4|, STRUCTURE_OFFSET);
    Be32Frame(b4, b5, TOTALSIZE + 4, |b4|, STRINGS_OFFSET);
    Be32Frame(b4, b5, TOTALSIZE + 4, |b4|, STRINGS_SIZE);
    Be32Frame(b4, b5, TOTALSIZE + 4, |b4|, STRUCTURE_SIZE);
  }

  lemma HeaderFrame(b: seq<byte>, c: seq<byte>, t: DeviceTree)
    requires HoldsHeader(b, t) && Agree(b, c, 0, |t.header|)
    ensures HoldsHeader(c, t)
  {
    hide Be32, FlatSize, StructureAt, StringsAt, NodeStrings, NodeSize;
    Be32Frame(b, c, 0, |t.header|, TOTALSIZE);
    Be32Frame(b, c, 0, |t.header|, STRUCTURE_OFFSET);
    Be32Frame(b, c, 0, |t.header|, STRINGS_OFFSET);
    Be32Frame(b, c, 0, |t.header|, STRINGS_SIZE);
    Be32Frame(b, c, 0, |t.header|, STRUCTURE_SIZE);
  }

  // ---------------------------------------------------------------------------
  // Whole trees
  // ---------------------------------------------------------------------------

  /** dt_flat_size: one word, one map entry, one node at a time. */
  method DtFlatSize(t: DeviceTree) returns (size: nat)
    ensures size == FlatSize(t)
  {
    size := |t.header|;
    var i := 0;
    while i < |t.reserve|
      invariant 0 <= i <= |t.reserve| && size == |t.header| + 16 * i
    {
      size, i := size + 16, i + 1;
    }
    var s, n := FlatNodeSize(t.root, 0, 0);
    size := size + 16 + s + 4 + n;
  }

  /** dt_flatten. Exactly the first FlatSize bytes of the buffer can change; the cursors of
      structure and strings, also returned, end at the ends of their blocks. The header
      fields are written first here; in the C code the total comes last. */
  method DtFlatten(t: DeviceTree, buf: array<byte>) returns (ghost structEnd: nat, ghost stringsEnd: nat)
    requires Flattenable(t) && FlatSize(t) <= buf.Length < 0x8000_0000
    modifies buf
    ensures structEnd + 4 == StringsAt(t) && stringsEnd == FlatSize(t)
    ensures Flattened(buf[..], t)
    ensures Agree(old(buf[..]), buf[..], FlatSize(t), buf.Length)
  {
    hide Be32, Be64, HoldsNode, HoldsHeader, HoldsReserve, NodeSize, NodeStrings;
    var structSize, stringsSize := FlatNodeSize(t.root, 0, 0);
    FlattenHeader(t, structSize, stringsSize, buf);
    ghost var b1 := buf[..];
    var dest := FlattenReserve(t.reserve, buf, |t.header|);
    ghost var b2 := buf[..];
    HeaderFrame(b1, b2, t);
    Store32(buf, dest + structSize, TOKEN_END);
    ghost var b3 := buf[..];
    HeaderFrame(b2, b3, t);
    ReserveFrame(b2, b3, t.reserve, |t.header|);
    Be64Frame(b2, b3, 0, dest, dest - 8);
    var strings := dest + structSize + 4;
    var s, e := FlattenNode(t.root, buf, dest, strings, strings);
    ghost var b4 := buf[..];
    HeaderFrame(b3, b4, t);
    ReserveFrame(b3, b4, t.reserve, |t.header|);
    Be64Frame(b3, b4, 0, dest, dest - 8);
    Be32Frame(b3, b4, s, strings, s);
    structEnd, stringsEnd := s, e;
  }

  datatype Unflattened = TreeFault | TreeGot(headerSize: nat, reserve: seq<ReserveEntry>, root: NodeRead)

  function Min(a: nat, b: nat): nat { if a < b then a else b }

  /** fdt_unflatten. */
  function UnflattenTree(b: seq<byte>): Unflattened {
    if |b| < RESERVE_MAP_OFFSET + 4 then TreeFault
    else
      var structure, strings := Be32(b, STRUCTURE_OFFSET), Be32(b, STRINGS_OFFSET);
      var reserve := Be32(b, RESERVE_MAP_OFFSET);
      var reserved := ReserveAt(b, reserve);
      var root := NodeAt(b, strings, structure);
      if reserved.ReserveFault? || root.NodeFault? then TreeFault
      else TreeGot(Min(Min(structure, strings), reserve), reserved.entries, root)
  }

  /** The loop of fdt_unflatten over the reserve map. */
  method ReadReserve(b: seq<byte>, start: nat) returns (r: ReserveRead)
    ensures r == ReserveAt(b, start)
  {
    hide Be64;
    var off, entries := start, [];
    while off + 16 <= |b| && Be64(b, off + 8) != 0
      invariant off >= start
      invariant ReserveAt(b, start) == ReserveFrom(b, off, entries)
      decreases |b| - off
    {
      ghost var rest := ReserveAt(b, off + 16);
      var e := ReserveEntry(Be64(b, off), Be64(b, off + 8));
      assert rest.ReserveGot? ==> entries + ([e] + rest.entries) == entries + [e] + rest.entries;
      entries := entries + [e];
      off := off + 16;
    }
    assert entries + [] == entries;
    return if off + 16 > |b| then ReserveFault else ReserveGot(entries);
  }

  function ReserveFrom(b: seq<byte>, off: nat, seen: seq<ReserveEntry>): ReserveRead {
    var r := ReserveAt(b, off);
    if r.ReserveFault? then r else ReserveGot(seen + r.entries)
  }

  method DtUnflatten(b: seq<byte>) returns (r: Unflattened)
    ensures r == UnflattenTree(b)
  {
    hide Be32, NodeAt, ReserveAt;
    if |b| < RESERVE_MAP_OFFSET + 4 { return TreeFault; }
    var structure, strings, reserve := Be32(b, STRUCTURE_OFFSET), Be32(b, STRINGS_OFFSET), Be32(b, RESERVE_MAP_OFFSET);
    var reserved := ReadReserve(b, reserve);
    if reserved.ReserveFault? { return TreeFault; }
    var root := FdtRead.UnflattenNode(b, strings, structure);
    if root.NodeFault? { return TreeFault; }
    return TreeGot(Min(Min(structure, strings), reserve), reserved.entries, root);
  }

  /** Unflattening what dt_flatten wrote gives the tree back: the root with its names,
      property data, order and children, and the reserve map up to its first empty
      entry. The reserve map has to be the first block in the original header, whose
      field for it is copied, not recomputed. */
  lemma RoundTrip(b: seq<byte>, t: DeviceTree) returns (root: Node)
    requires Flattenable(t) && Flattened(b, t) && |b| < 0x8000_0000
    requires Be32(t.header, RESERVE_MAP_OFFSET) == |t.header|
    ensures UnflattenTree(b) == TreeGot(|t.header|, NonzeroPrefix(t.reserve), NodeGot(NodeSize(t.root), root))
    ensures NodeIs(b, root, t.root)
  {
    hide Be32, Be64, HoldsNode, NodeSize, NodeStrings, NodeIs, HoldsReserve, ReserveAt, NodeAt, NonzeroPrefix;
    assert b[RESERVE_MAP_OFFSET..RESERVE_MAP_OFFSET + 4] == t.header[RESERVE_MAP_OFFSET..RESERVE_MAP_OFFSET + 4];
    SameWord(b, t.header, RESERVE_MAP_OFFSET);
    ReserveReadsBack(b, t.reserve, |t.header|);
    var size, x := NodeReadsBack(b, t.root, StructureAt(t), StringsAt(t), StringsAt(t));
    root := x;
  }

  lemma SameWord(b: seq<byte>, c: seq<byte>, i: nat)
    requires i + 4 <= |b| && i + 4 <= |c| && b[i..i + 4] == c[i..i + 4]
    ensures Be32(b, i) == Be32(c, i)
  {
  }

  /** dt_flatten followed by fdt_unflatten, on a buffer of the size dt_flat_size gives. */
  method FlattenAndBack(t: DeviceTree) returns (buf: array<byte>, back: Unflattened)
    requires Flattenable(t) && Be32(t.header, RESERVE_MAP_OFFSET) == |t.header|
    requires forall e | e in t.reserve :: e.size != 0
    ensures fresh(buf) && buf.Length == FlatSize(t) && Flattened(buf[..], t) && back == UnflattenTree(buf[..])
    ensures back.TreeGot? && back.headerSize == |t.header| && back.reserve == t.reserve
    ensures back.root.NodeGot? && NodeIs(buf[..], back.root.node, t.root)
  {
    hide Be32, NodeIs, NodeAt, Flattened, NodeSize, NodeStrings;
    var size := DtFlatSize(t);
    buf := new byte[size](_ => 0);
    ghost var structEnd, stringsEnd := DtFlatten(t, buf);
    var b := buf[..];
    ghost var root := RoundTrip(b, t);
    NonzeroPrefixWhole(t.reserve);
    back := DtUnflatten(b);
  }
}
