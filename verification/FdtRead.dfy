/** The reading loops of src/base/device_tree.c, against the functions of FdtFormat. */
module FdtRead {
  import opened Machine
  import opened FdtFormat

  /** The property loop of fdt_skip_node. */
  method SkipOverProps(b: seq<byte>, start: nat) returns (r: SkipsRead)
    ensures r == SkipProps(b, start)
  {
    hide Be32;
    var off := start;
    var prop := PropAt(b, 0, off);
    while prop.PropGot?
      invariant prop == PropAt(b, 0, off)
      invariant SkipProps(b, off) == SkipProps(b, start)
      decreases |b| - off
    {
      off := off + prop.size;
      prop := PropAt(b, 0, off);
    }
    return if prop.PropFault? then SkipsFault else SkippedTo(off);
  }

  /** fdt_skip_node. */
  method SkipNode(b: seq<byte>, start: nat) returns (r: SkipRead)
    ensures r == SkipAt(b, start)
    decreases |b| - start
  {
    hide NameAt, PropAt, Be32;
    var name := NameAt(b, start);
    if name.NameFault? { return SkipFault; }
    if name.NameEnd? { return SkipEnd; }
    var mid := SkipOverProps(b, start + name.size);
    if mid.SkipsFault? { return SkipFault; }
    var off := mid.end;
    var child := SkipNode(b, off);
    while child.Skipped?
      invariant off > start
      invariant child == SkipAt(b, off)
      invariant SkipNodes(b, off) == SkipNodes(b, mid.end)
      decreases |b| - off
    {
      off := off + child.size;
      child := SkipNode(b, off);
    }
    if child.SkipFault? { return SkipFault; }
    return Skipped(off - start + 4);
  }

  /** The property loop of fdt_unflatten_node. */
  method ReadProps(b: seq<byte>, strings: uint32, start: nat) returns (r: PropsRead)
    ensures r == PropsAt(b, strings, start)
  {
    hide Be32;
    var off := start;
    var props: seq<Prop> := [];
    var prop := PropAt(b, strings, off);
    NothingSeen(b, strings, off);
    while prop.PropGot?
      invariant prop == PropAt(b, strings, off)
      invariant PropsAt(b, strings, start) == PropsFrom(b, strings, off, props)
      decreases |b| - off
    {
      OnePropMore(b, strings, off, props);
      off := off + prop.size;
      props := props + [prop.prop];
      prop := PropAt(b, strings, off);
    }
    OnePropMore(b, strings, off, props);
    return if prop.PropFault? then PropsFault else PropsGot(off, props);
  }

  /** fdt_unflatten_node: the loops append to the lists of the new node. */
  method UnflattenNode(b: seq<byte>, strings: uint32, start: nat) returns (r: NodeRead)
    ensures r == NodeAt(b, strings, start)
    decreases |b| - start
  {
    hide NameAt, PropAt, Be32;
    var name := NameAt(b, start);
    if name.NameFault? { return NodeFault; }
    if name.NameEnd? { return NodeEnd; }
    var read := ReadProps(b, strings, start + name.size);
    if read.PropsFault? { return NodeFault; }
    var off := read.end;
    var children: seq<Node> := [];
    var child := UnflattenNode(b, strings, off);
    NothingSeen(b, strings, off);
    while child.NodeGot?
      invariant off > start
      invariant child == NodeAt(b, strings, off)
      invariant NodesAt(b, strings, read.end) == NodesFrom(b, strings, off, children)
      decreases |b| - off
    {
      OneNodeMore(b, strings, off, children);
      off := off + child.size;
      children := children + [child.node];
      child := UnflattenNode(b, strings, off);
    }
    OneNodeMore(b, strings, off, children);
    if child.NodeFault? { return NodeFault; }
    return NodeGot(off - start + 4, Node(name.at, read.props, children));
  }

  /** PropsAt with elements already read in front of what is still to come. */
  function PropsFrom(b: seq<byte>, strings: uint32, off: nat, seen: seq<Prop>): PropsRead {
    var r := PropsAt(b, strings, off);
    if r.PropsFault? then r else PropsGot(r.end, seen + r.props)
  }

  function NodesFrom(b: seq<byte>, strings: uint32, off: nat, seen: seq<Node>): NodesRead {
    var r := NodesAt(b, strings, off);
    if r.NodesFault? then r else NodesGot(r.end, seen + r.nodes)
  }

  lemma NothingSeen(b: seq<byte>, strings: uint32, off: nat)
    ensures PropsFrom(b, strings, off, []) == PropsAt(b, strings, off)
    ensures NodesFrom(b, strings, off, []) == NodesAt(b, strings, off)
  {
    var p, n := PropsAt(b, strings, off), NodesAt(b, strings, off);
    assert p.PropsGot? ==> [] + p.props == p.props;
    assert n.NodesGot? ==> [] + n.nodes == n.nodes;
  }

  lemma OnePropMore(b: seq<byte>, strings: uint32, off: nat, seen: seq<Prop>)
    ensures match PropAt(b, strings, off)
            case PropFault => PropsFrom(b, strings, off, seen) == PropsFault
            case PropEnd => PropsFrom(b, strings, off, seen) == PropsGot(off, seen)
            case PropGot(size, x) => PropsFrom(b, strings, off, seen) == PropsFrom(b, strings, off + size, seen + [x])
  {
    match PropAt(b, strings, off)
    case PropFault =>
    case PropEnd => assert seen + [] == seen;
    case PropGot(size, x) =>
      var r := PropsAt(b, strings, off + size);
      assert r.PropsGot? ==> seen + ([x] + r.props) == seen + [x] + r.props;
  }

  lemma OneNodeMore(b: seq<byte>, strings: uint32, off: nat, seen: seq<Node>)
    ensures match NodeAt(b, strings, off)
            case NodeFault => NodesFrom(b, strings, off, seen) == NodesFault
            case NodeEnd => NodesFrom(b, strings, off, seen) == NodesGot(off, seen)
            case NodeGot(size, x) => NodesFrom(b, strings, off, seen) == NodesFrom(b, strings, off + size, seen + [x])
  {
    match NodeAt(b, strings, off)
    case NodeFault =>
    case NodeEnd => assert seen + [] == seen;
    case NodeGot(size, x) =>
      var r := NodesAt(b, strings, off + size);
      assert r.NodesGot? ==> seen + ([x] + r.nodes) == seen + [x] + r.nodes;
  }
}
