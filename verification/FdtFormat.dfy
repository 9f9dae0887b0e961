/** The flattened device tree of src/base/device_tree.c, read side: what the fdt_
    functions return for any byte buffer. */
module FdtFormat {
  import opened Machine
  import opened CStrings

  const TOKEN_BEGIN_NODE: uint32 := 1
  const TOKEN_END_NODE: uint32 := 2
  const TOKEN_PROPERTY: uint32 := 3
  const TOKEN_END: uint32 := 9

  // Byte offsets of the fields of FdtHeader that are read or rewritten.
  const TOTALSIZE := 4
  const STRUCTURE_OFFSET := 8
  const STRINGS_OFFSET := 12
  const RESERVE_MAP_OFFSET := 16
  const STRINGS_SIZE := 32
  const STRUCTURE_SIZE := 36
  const HEADER_FIELDS_END := 40

  /** size32, with the wrap-around of its addition. */
  function Size32(val: uint32): nat {
    Mod32(val as int + 3) / 4
  }

  // What the parsing functions meet: memory outside the buffer (Fault), no element of
  // their kind, where the C functions return 0 (End), or an element and its size.

  datatype NameRead = NameFault | NameEnd | NameGot(size: nat, at: nat)

  /** An FdtProperty: pointers to name and data, and a size. */
  datatype Prop = Prop(nameAt: nat, dataAt: nat, size: uint32)

  datatype PropRead = PropFault | PropEnd | PropGot(size: nat, prop: Prop)

  datatype PropsRead = PropsFault | PropsGot(end: nat, props: seq<Prop>)

  /** A DeviceTreeNode as fdt_unflatten builds it: it points into the buffer. */
  datatype Node = Node(nameAt: nat, props: seq<Prop>, children: seq<Node>)

  datatype NodeRead = NodeFault | NodeEnd | NodeGot(size: nat, node: Node)

  datatype NodesRead = NodesFault | NodesGot(end: nat, nodes: seq<Node>)

  datatype SkipRead = SkipFault | SkipEnd | Skipped(size: nat)

  datatype SkipsRead = SkipsFault | SkippedTo(end: nat)

  /** fdt_node_name. The name is a pointer into the buffer. */
  function NameAt(b: seq<byte>, off: nat): (r: NameRead)
    ensures r.NameGot? ==> r.size >= 8
  {
    if off + 4 > |b| then NameFault
    else if Be32(b, off) != TOKEN_BEGIN_NODE then NameEnd
    else
      var len := StrLen(b, off + 4);
      if len.Unending? || len.chars >= 0x8000_0000 then NameFault
      else NameGot(Size32(len.chars + 1) * 4 + 4, off + 4)
  }

  /** fdt_next_property. */
  function PropAt(b: seq<byte>, strings: uint32, off: nat): (r: PropRead)
    ensures r.PropGot? ==> r.size >= 12
  {
    if off + 4 > |b| then PropFault
    else if Be32(b, off) != TOKEN_PROPERTY then PropEnd
    else if off + 12 > |b| then PropFault
    else
      var size := Be32(b, off + 4);
      PropGot((3 + Size32(size)) * 4, Prop(Mod32(Be32(b, off + 8) as int + strings), off + 12, size))
  }

  /** The properties from an offset on, up to the first that is none. */
  function PropsAt(b: seq<byte>, strings: uint32, off: nat): (r: PropsRead)
    ensures r.PropsGot? ==> r.end + 4 <= |b| && off <= r.end
    decreases |b| - off
  {
    match PropAt(b, strings, off)
    case PropFault => PropsFault
    case PropEnd => PropsGot(off, [])
    case PropGot(size, p) =>
      match PropsAt(b, strings, off + size)
      case PropsFault => PropsFault
      case PropsGot(end, ps) => PropsGot(end, [p] + ps)
  }

  /** fdt_unflatten_node. The end token is stepped over without being looked at. */
  function NodeAt(b: seq<byte>, strings: uint32, off: nat): (r: NodeRead)
    ensures r.NodeGot? ==> r.size >= 8
    decreases |b| - off, 0
  {
    match NameAt(b, off)
    case NameFault => NodeFault
    case NameEnd => NodeEnd
    case NameGot(size, name) =>
      match PropsAt(b, strings, off + size)
      case PropsFault => NodeFault
      case PropsGot(mid, props) =>
        match NodesAt(b, strings, mid)
        case NodesFault => NodeFault
        case NodesGot(end, children) => NodeGot(end - off + 4, Node(name, props, children))
  }

  function NodesAt(b: seq<byte>, strings: uint32, off: nat): (r: NodesRead)
    ensures r.NodesGot? ==> r.end + 4 <= |b| && off <= r.end
    decreases |b| - off, 1
  {
    match NodeAt(b, strings, off)
    case NodeFault => NodesFault
    case NodeEnd => NodesGot(off, [])
    case NodeGot(size, n) =>
      match NodesAt(b, strings, off + size)
      case NodesFault => NodesFault
      case NodesGot(end, ns) => NodesGot(end, [n] + ns)
  }

  /** fdt_skip_node. */
  function SkipAt(b: seq<byte>, off: nat): (r: SkipRead)
    ensures r.Skipped? ==> r.size >= 8
    decreases |b| - off, 0
  {
    match NameAt(b, off)
    case NameFault => SkipFault
    case NameEnd => SkipEnd
    case NameGot(size, _) =>
      match SkipProps(b, off + size)
      case SkipsFault => SkipFault
      case SkippedTo(mid) =>
        match SkipNodes(b, mid)
        case SkipsFault => SkipFault
        case SkippedTo(end) => Skipped(end - off + 4)
  }

  function SkipProps(b: seq<byte>, off: nat): (r: SkipsRead)
    ensures r.SkippedTo? ==> r.end + 4 <= |b| && off <= r.end
    decreases |b| - off
  {
    match PropAt(b, 0, off)
    case PropFault => SkipsFault
    case PropEnd => SkippedTo(off)
    case PropGot(size, _) => SkipProps(b, off + size)
  }

  function SkipNodes(b: seq<byte>, off: nat): (r: SkipsRead)
    ensures r.SkippedTo? ==> r.end + 4 <= |b| && off <= r.end
    decreases |b| - off, 1
  {
    match SkipAt(b, off)
    case SkipFault => SkipsFault
    case SkipEnd => SkippedTo(off)
    case Skipped(size) => SkipNodes(b, off + size)
  }

  /** Skipping a node consumes exactly what unflattening it consumes, whatever the
      buffer holds, and goes wrong exactly where that goes wrong. */
  lemma {:induction false} SkipMatchesUnflatten(b: seq<byte>, strings: uint32, off: nat)
    ensures SkipAt(b, off).SkipFault? <==> NodeAt(b, strings, off).NodeFault?
    ensures SkipAt(b, off).Skipped? <==> NodeAt(b, strings, off).NodeGot?
    ensures SkipAt(b, off).Skipped? ==> SkipAt(b, off).size == NodeAt(b, strings, off).size
    decreases |b| - off, 0
  {
    match NameAt(b, off)
    case NameGot(size, _) =>
      SkipPropsMatch(b, strings, off + size);
      match SkipProps(b, off + size) {
        case SkipsFault =>
        case SkippedTo(mid) => SkipNodesMatch(b, strings, mid);
      }
    case _ =>
  }

  lemma {:induction false} SkipPropsMatch(b: seq<byte>, strings: uint32, off: nat)
    ensures SkipProps(b, off).SkippedTo? <==> PropsAt(b, strings, off).PropsGot?
    ensures SkipProps(b, off).SkippedTo? ==> SkipProps(b, off).end == PropsAt(b, strings, off).end
    decreases |b| - off
  {
    match PropAt(b, strings, off)
    case PropGot(size, _) => SkipPropsMatch(b, strings, off + size);
    case _ =>
  }

  lemma {:induction false} SkipNodesMatch(b: seq<byte>, strings: uint32, off: nat)
    ensures SkipNodes(b, off).SkippedTo? <==> NodesAt(b, strings, off).NodesGot?
    ensures SkipNodes(b, off).SkippedTo? ==> SkipNodes(b, off).end == NodesAt(b, strings, off).end
    decreases |b| - off, 1
  {
    SkipMatchesUnflatten(b, strings, off);
    match SkipAt(b, off)
    case Skipped(size) => SkipNodesMatch(b, strings, off + size);
    case _ =>
  }
}
