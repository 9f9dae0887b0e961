/** The way of a device tree through the boot loader in src/base/device_tree.c: a blob from
    elsewhere is unflattened, flattened, and read again. */
module FdtAgain {
  import opened Machine
  import opened CStrings
  import opened FdtFormat
  import opened FdtTree
  import opened FdtWhole

  // ---------------------------------------------------------------------------
  // The tree that pointers into a blob stand for
  // ---------------------------------------------------------------------------

  /** The name of a property ends inside the blob, and its size does not wrap when it is
      rounded up to words. */
  predicate PropCounts(b: seq<byte>, p: Prop) { StrLen(b, p.nameAt).Length? && p.size < 0xFFFF_FFFD }

  predicate NodeCounts(b: seq<byte>, x: Node) {
    (forall p | p in x.props :: PropCounts(b, p)) && forall c | c in x.children :: NodeCounts(b, c)
  }

  /** Everything a property points to is inside the blob. */
  predicate PropInside(b: seq<byte>, p: Prop) { StrLen(b, p.nameAt).Length? && p.dataAt + p.size <= |b| }

  predicate NodeInside(b: seq<byte>, x: Node) {
    && StrLen(b, x.nameAt).Length?
    && (forall p | p in x.props :: PropInside(b, p))
    && forall c | c in x.children :: NodeInside(b, c)
  }

  function NameOf(b: seq<byte>, at: nat): CString
    requires StrLen(b, at).Length?
  {
    b[at..at + StrLen(b, at).chars]
  }

  function PropertiesOf(b: seq<byte>, ps: seq<Prop>): (r: seq<Property>)
    requires forall p | p in ps :: PropInside(b, p)
    ensures PropsAre(b, ps, r)
  {
    if ps == [] then []
    else
      var p := ps[0];
      assert p in ps && PropInside(b, p);
      [Property(NameOf(b, p.nameAt), b[p.dataAt..p.dataAt + p.size])] + PropertiesOf(b, ps[1..])
  }

  /** The pointers stand for this tree, and for no other one (NodeIsUnique). */
  function TreeOf(b: seq<byte>, x: Node): (n: TreeNode)
    requires NodeInside(b, x)
    ensures NodeIs(b, x, n)
    decreases x
  {
    TreeNode(NameOf(b, x.nameAt), PropertiesOf(b, x.props), TreesOf(b, x.children))
  }

  function TreesOf(b: seq<byte>, xs: seq<Node>): (ns: seq<TreeNode>)
    requires forall x | x in xs :: NodeInside(b, x)
    ensures NodesAre(b, xs, ns)
    decreases xs
  {
    if xs == [] then [] else [TreeOf(b, xs[0])] + TreesOf(b, xs[1..])
  }

  // ---------------------------------------------------------------------------
  // What was read without a fault is inside
  // ---------------------------------------------------------------------------

  lemma RoundedUp(size: uint32)
    ensures size < 0xFFFF_FFFD ==> Size32(size) * 4 >= size
  {
  }

  /** The data of a property that was read is inside the blob if and only if its size does
      not wrap. */
  lemma {:induction false} DataInside(b: seq<byte>, strings: uint32, off: nat, end: nat, xs: seq<Prop>)
    requires |b| < 0x8000_0000 && PropsAt(b, strings, off) == PropsGot(end, xs)
    ensures forall p | p in xs :: p.dataAt + p.size <= |b| <==> p.size < 0xFFFF_FFFD
    decreases |xs|
  {
    hide Be32, Size32;
    match PropAt(b, strings, off)
    case PropGot(size, p) =>
      RoundedUp(p.size);
      DataInside(b, strings, off + size, end, xs[1..]);
    case _ =>
  }

  lemma {:induction false} ReadInside(b: seq<byte>, strings: uint32, off: nat, size: nat, x: Node)
    requires |b| < 0x8000_0000 && NodeAt(b, strings, off) == NodeGot(size, x)
    ensures NodeInside(b, x) <==> NodeCounts(b, x)
    decreases x, 0
  {
    hide PropAt, Be32, Size32;
    var name := NameAt(b, off);
    assert name.NameGot? && StrLen(b, x.nameAt).Length?;
    var props := PropsAt(b, strings, off + name.size);
    DataInside(b, strings, off + name.size, props.end, props.props);
    var nodes := NodesAt(b, strings, props.end);
    AllInside(b, strings, props.end, nodes.end, nodes.nodes);
  }

  lemma {:induction false} AllInside(b: seq<byte>, strings: uint32, off: nat, end: nat, xs: seq<Node>)
    requires |b| < 0x8000_0000 && NodesAt(b, strings, off) == NodesGot(end, xs)
    ensures forall x | x in xs :: NodeInside(b, x) <==> NodeCounts(b, x)
    decreases xs
  {
    hide NodeInside, NodeCounts;
    match NodeAt(b, strings, off)
    case NodeGot(size, x) =>
      assert x == xs[0];
      ReadInside(b, strings, off, size, xs[0]);
      AllInside(b, strings, off + size, end, xs[1..]);
    case _ =>
  }

  lemma {:induction false} NoEmptyEntryRead(b: seq<byte>, off: nat)
    ensures var r := ReserveAt(b, off); r.ReserveGot? ==> forall e | e in r.entries :: e.size != 0
    decreases |b| - off
  {
    if off + 16 <= |b| { NoEmptyEntryRead(b, off + 16); }
  }

  // ---------------------------------------------------------------------------
  // Once more
  // ---------------------------------------------------------------------------

  /** A blob that is read without a fault and has a root. */
  predicate Readable(b: seq<byte>) {
    var r := UnflattenTree(b);
    |b| < 0x8000_0000 && r.TreeGot? && r.root.NodeGot? && NodeCounts(b, r.root.node)
  }

  lemma ReadableInside(b: seq<byte>)
    requires Readable(b)
    ensures var r := UnflattenTree(b);
            && NodeInside(b, r.root.node) && r.headerSize <= |b|
            && forall e | e in r.reserve :: e.size != 0
  {
    hide Be32, NodeAt, ReserveAt, NodeCounts, NodeInside;
    var r := UnflattenTree(b);
    var structure, strings := Be32(b, STRUCTURE_OFFSET), Be32(b, STRINGS_OFFSET);
    ReadInside(b, strings, structure, r.root.size, r.root.node);
    NoEmptyEntryRead(b, Be32(b, RESERVE_MAP_OFFSET));
    RootInside(b, strings, structure);
  }

  lemma RootInside(b: seq<byte>, strings: uint32, off: nat)
    requires NodeAt(b, strings, off).NodeGot?
    ensures off + 4 <= |b|
  {
  }

  lemma WordInFront(b: seq<byte>, n: nat, i: nat)
    requires i + 4 <= n <= |b|
    ensures Be32(b[..n], i) == Be32(b, i)
  {
    assert b[i..i + 4] == b[..n][i..i + 4];
    SameWord(b, b[..n], i);
  }

  /** The device tree of a blob. */
  function BlobTree(b: seq<byte>): DeviceTree
    requires Readable(b)
  {
    ReadableInside(b);
    var r := UnflattenTree(b);
    DeviceTree(b[..r.headerSize], r.reserve, TreeOf(b, r.root.node))
  }

  /** For every readable blob whose reserve map comes first: unflattening it, flattening
      the tree and unflattening that again gives the same header, reserve map and tree,
      however the blob shared its strings or padded its blocks. */
  method Reflatten(b: seq<byte>) returns (first: Unflattened, buf: array<byte>, again: Unflattened)
    requires Readable(b) && Flattenable(BlobTree(b))
    requires Be32(b, RESERVE_MAP_OFFSET) == UnflattenTree(b).headerSize
    ensures first == UnflattenTree(b) && NodeIs(b, first.root.node, BlobTree(b).root)
    ensures fresh(buf) && buf.Length == FlatSize(BlobTree(b)) && Flattened(buf[..], BlobTree(b))
    ensures again == UnflattenTree(buf[..]) && again.TreeGot? && again.root.NodeGot?
    ensures again.headerSize == first.headerSize && again.reserve == first.reserve
    ensures NodeIs(buf[..], again.root.node, BlobTree(b).root)
  {
    hide Be32, NodeIs, NodeAt, Flattened, NodeSize, NodeStrings, TreeOf;
    first := DtUnflatten(b);
    ReadableInside(b);
    var t := BlobTree(b);
    WordInFront(b, first.headerSize, RESERVE_MAP_OFFSET);
    buf, again := FlattenAndBack(t);
  }
}
