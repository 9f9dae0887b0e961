/** Device trees as values, what it means that a buffer holds one, and the proof that
    reading such a buffer gives the tree back. */
module FdtTree {
  import opened Machine
  import opened CStrings
  import opened FdtFormat

  datatype Property = Property(name: CString, data: seq<byte>)

  datatype TreeNode = TreeNode(name: CString, props: seq<Property>, children: seq<TreeNode>)

  datatype ReserveEntry = ReserveEntry(start: uint64, size: uint64)

  // ---------------------------------------------------------------------------
  // Sizes
  // ---------------------------------------------------------------------------

  /** The bytes from one aligned position to the next after n bytes. */
  function Padded(n: nat): nat { (n + 3) / 4 * 4 }

  function PropSize(p: Property): nat { 12 + Padded(|p.data|) }

  function PropsSize(ps: seq<Property>): nat {
    if ps == [] then 0 else PropSize(ps[0]) + PropsSize(ps[1..])
  }

  function NodeSize(n: TreeNode): nat
    decreases n, 0
  {
    4 + Padded(|n.name| + 1) + PropsSize(n.props) + NodesSize(n.children) + 4
  }

  function NodesSize(ns: seq<TreeNode>): nat
    decreases ns
  {
    if ns == [] then 0 else NodeSize(ns[0]) + NodesSize(ns[1..])
  }

  function PropsStrings(ps: seq<Property>): nat {
    if ps == [] then 0 else |ps[0].name| + 1 + PropsStrings(ps[1..])
  }

  function NodeStrings(n: TreeNode): nat
    decreases n, 0
  {
    PropsStrings(n.props) + NodesStrings(n.children)
  }

  function NodesStrings(ns: seq<TreeNode>): nat
    decreases ns
  {
    if ns == [] then 0 else NodeStrings(ns[0]) + NodesStrings(ns[1..])
  }

  // ---------------------------------------------------------------------------
  // Holding: the structure block at s, the strings block at base, and the cursor t
  // into the strings block
  // ---------------------------------------------------------------------------

  predicate HoldsProp(b: seq<byte>, p: Property, s: nat, base: nat, t: nat) {
    && s + PropSize(p) <= |b| && base <= t
    && Be32(b, s) == TOKEN_PROPERTY
    && Be32(b, s + 4) == |p.data|
    && Be32(b, s + 8) == t - base
    && b[s + 12..s + 12 + |p.data|] == p.data
    && HoldsString(b, t, p.name)
  }

  predicate HoldsProps(b: seq<byte>, ps: seq<Property>, s: nat, base: nat, t: nat) {
    ps == [] ||
    (HoldsProp(b, ps[0], s, base, t) && HoldsProps(b, ps[1..], s + PropSize(ps[0]), base, t + |ps[0].name| + 1))
  }

  predicate HoldsNode(b: seq<byte>, n: TreeNode, s: nat, base: nat, t: nat)
    decreases n, 0
  {
    var props := s + 4 + Padded(|n.name| + 1);
    var nodes := props + PropsSize(n.props);
    && s + NodeSize(n) <= |b|
    && Be32(b, s) == TOKEN_BEGIN_NODE
    && HoldsString(b, s + 4, n.name)
    && HoldsProps(b, n.props, props, base, t)
    && HoldsNodes(b, n.children, nodes, base, t + PropsStrings(n.props))
    && Be32(b, nodes + NodesSize(n.children)) == TOKEN_END_NODE
  }

  predicate HoldsNodes(b: seq<byte>, ns: seq<TreeNode>, s: nat, base: nat, t: nat)
    decreases ns
  {
    ns == [] ||
    (HoldsNode(b, ns[0], s, base, t) && HoldsNodes(b, ns[1..], s + NodeSize(ns[0]), base, t + NodeStrings(ns[0])))
  }

  // ---------------------------------------------------------------------------
  // Following the pointers
  // ---------------------------------------------------------------------------

  predicate PropIs(b: seq<byte>, x: Prop, p: Property) {
    TextIs(b, x.nameAt, p.name) && x.dataAt + x.size <= |b| && b[x.dataAt..x.dataAt + x.size] == p.data
  }

  predicate PropsAre(b: seq<byte>, xs: seq<Prop>, ps: seq<Property>) {
    |xs| == |ps| && forall i | 0 <= i < |xs| :: PropIs(b, xs[i], ps[i])
  }

  /** The tree that a node read by fdt_unflatten_node stands for. */
  predicate NodeIs(b: seq<byte>, x: Node, n: TreeNode)
    decreases n, 0
  {
    TextIs(b, x.nameAt, n.name) && PropsAre(b, x.props, n.props) && NodesAre(b, x.children, n.children)
  }

  predicate NodesAre(b: seq<byte>, xs: seq<Node>, ns: seq<TreeNode>)
    decreases ns
  {
    |xs| == |ns| && (ns != [] ==> NodeIs(b, xs[0], ns[0]) && NodesAre(b, xs[1..], ns[1..]))
  }

  /** A pointer tree stands for one tree only. */
  lemma {:induction false} NodeIsUnique(b: seq<byte>, x: Node, m: TreeNode, n: TreeNode)
    requires NodeIs(b, x, m) && NodeIs(b, x, n)
    ensures m == n
    decreases m, 0
  {
    NodesAreUnique(b, x.children, m.children, n.children);
    assert m.props == n.props;
  }

  lemma {:induction false} NodesAreUnique(b: seq<byte>, xs: seq<Node>, ms: seq<TreeNode>, ns: seq<TreeNode>)
    requires NodesAre(b, xs, ms) && NodesAre(b, xs, ns)
    ensures ms == ns
    decreases ms
  {
    if ms != [] {
      NodeIsUnique(b, xs[0], ms[0], ns[0]);
      NodesAreUnique(b, xs[1..], ms[1..], ns[1..]);
      assert ms == [ms[0]] + ms[1..] && ns == [ns[0]] + ns[1..];
    }
  }

  // ---------------------------------------------------------------------------
  // Reading back
  // ---------------------------------------------------------------------------

  lemma Size32Pads(n: nat)
    requires n < 0x8000_0000
    ensures Size32(n) * 4 == Padded(n)
  {
  }

  lemma PropReadsBack(b: seq<byte>, p: Property, s: nat, base: nat, t: nat) returns (size: nat, x: Prop)
    requires |b| < 0x8000_0000 && base < 0x8000_0000 && HoldsProp(b, p, s, base, t)
    ensures PropAt(b, base, s) == PropGot(size, x) && PropIs(b, x, p)
    ensures size == PropSize(p)
  {
    hide TextIs, StrLen;
    HeldText(b, t, p.name);
    Size32Pads(|p.data|);
    assert Mod32(t - base + base) == t;
    var r := PropAt(b, base, s);
    size, x := r.size, r.prop;
  }

  /** What follows a list of properties or nodes in the structure block. */
  predicate TokenAt(b: seq<byte>, at: nat, token: uint32) { at + 4 <= |b| && Be32(b, at) == token }

  lemma PropsStep(b: seq<byte>, strings: uint32, off: nat, size: nat, x: Prop, end: nat, xs: seq<Prop>)
    requires PropAt(b, strings, off) == PropGot(size, x) && PropsAt(b, strings, off + size) == PropsGot(end, xs)
    ensures PropsAt(b, strings, off) == PropsGot(end, [x] + xs)
  {
    hide PropAt;
  }

  lemma NodesStep(b: seq<byte>, strings: uint32, off: nat, size: nat, x: Node, end: nat, xs: seq<Node>)
    requires NodeAt(b, strings, off) == NodeGot(size, x) && NodesAt(b, strings, off + size) == NodesGot(end, xs)
    ensures NodesAt(b, strings, off) == NodesGot(end, [x] + xs)
  {
    hide NodeAt;
  }

  lemma NoMore(b: seq<byte>, strings: uint32, s: nat)
    ensures TokenAt(b, s, TOKEN_BEGIN_NODE) || TokenAt(b, s, TOKEN_END_NODE) ==>
              PropsAt(b, strings, s) == PropsGot(s, [])
    ensures TokenAt(b, s, TOKEN_END_NODE) || TokenAt(b, s, TOKEN_END) ==> NodesAt(b, strings, s) == NodesGot(s, [])
  {
    if TokenAt(b, s, TOKEN_BEGIN_NODE) || TokenAt(b, s, TOKEN_END_NODE) { assert PropAt(b, strings, s) == PropEnd; }
    if TokenAt(b, s, TOKEN_END_NODE) || TokenAt(b, s, TOKEN_END) { assert NodeAt(b, strings, s) == NodeEnd; }
  }

  lemma PropsAreCons(b: seq<byte>, x: Prop, xs: seq<Prop>, ps: seq<Property>)
    requires ps != [] && PropIs(b, x, ps[0]) && PropsAre(b, xs, ps[1..])
    ensures PropsAre(b, [x] + xs, ps)
  {
    hide PropIs;
    forall i | 0 <= i < |ps| ensures PropIs(b, ([x] + xs)[i], ps[i]) {
      if i > 0 { assert PropIs(b, xs[i - 1], ps[1..][i - 1]); }
    }
  }

  lemma {:induction false} PropsReadBack(b: seq<byte>, ps: seq<Property>, s: nat, base: nat, t: nat, e: nat)
      returns (xs: seq<Prop>)
    requires |b| < 0x8000_0000 && base < 0x8000_0000 && HoldsProps(b, ps, s, base, t)
    requires e == s + PropsSize(ps) && (TokenAt(b, e, TOKEN_BEGIN_NODE) || TokenAt(b, e, TOKEN_END_NODE))
    ensures PropsAt(b, base, s) == PropsGot(e, xs) && PropsAre(b, xs, ps)
    decreases |ps|
  {
    hide PropAt, PropsAt, Be32, PropIs, HoldsProp, TokenAt;
    if ps == [] {
      xs := [];
      NoMore(b, base, s);
    } else {
      var size, x := PropReadsBack(b, ps[0], s, base, t);
      var rest := PropsReadBack(b, ps[1..], s + size, base, t + |ps[0].name| + 1, e);
      xs := [x] + rest;
      PropsStep(b, base, s, size, x, e, rest);
      PropsAreCons(b, x, rest, ps);
    }
  }

  lemma NameReadsBack(b: seq<byte>, name: CString, s: nat) returns (size: nat)
    requires |b| < 0x8000_0000 && TokenAt(b, s, TOKEN_BEGIN_NODE) && HoldsString(b, s + 4, name)
    ensures NameAt(b, s) == NameGot(size, s + 4) && size == 4 + Padded(|name| + 1)
  {
    HeldText(b, s + 4, name);
    Size32Pads(|name| + 1);
    size := NameAt(b, s).size;
  }

  /** After the properties comes a child or the end of the node. */
  lemma AfterProps(b: seq<byte>, ns: seq<TreeNode>, s: nat, base: nat, t: nat, end: nat)
    requires HoldsNodes(b, ns, s, base, t) && s + NodesSize(ns) == end && TokenAt(b, end, TOKEN_END_NODE)
    ensures TokenAt(b, s, TOKEN_BEGIN_NODE) || TokenAt(b, s, TOKEN_END_NODE)
  {
    if ns != [] { assert HoldsNode(b, ns[0], s, base, t); }
  }

  lemma NodeFrom(b: seq<byte>, strings: uint32, off: nat, size: nat, mid: nat, end: nat,
                 name: nat, ps: seq<Prop>, ns: seq<Node>) returns (r: nat)
    requires NameAt(b, off) == NameGot(size, name)
    requires PropsAt(b, strings, off + size) == PropsGot(mid, ps) && NodesAt(b, strings, mid) == NodesGot(end, ns)
    ensures NodeAt(b, strings, off) == NodeGot(r, Node(name, ps, ns)) && r == end - off + 4
  {
    hide NameAt, PropsAt, NodesAt;
    r := end - off + 4;
  }

  /** The parts of a node, with their places. */
  lemma Parts(b: seq<byte>, n: TreeNode, s: nat, base: nat, t: nat) returns (props: nat, nodes: nat, end: nat)
    requires HoldsNode(b, n, s, base, t)
    ensures props == s + 4 + Padded(|n.name| + 1) && nodes == props + PropsSize(n.props)
    ensures end == nodes + NodesSize(n.children) && NodeSize(n) == end - s + 4
    ensures TokenAt(b, s, TOKEN_BEGIN_NODE) && HoldsString(b, s + 4, n.name) && TokenAt(b, end, TOKEN_END_NODE)
    ensures HoldsProps(b, n.props, props, base, t)
    ensures HoldsNodes(b, n.children, nodes, base, t + PropsStrings(n.props))
  {
    hide HoldsString, HoldsProps, HoldsNodes, Be32;
    props := s + 4 + Padded(|n.name| + 1);
    nodes := props + PropsSize(n.props);
    end := nodes + NodesSize(n.children);
  }

  /** Reading a node a buffer holds gives the node, and ends behind it. */
  lemma {:induction false} NodeReadsBack(b: seq<byte>, n: TreeNode, s: nat, base: nat, t: nat)
      returns (size: nat, x: Node)
    requires |b| < 0x8000_0000 && base < 0x8000_0000 && HoldsNode(b, n, s, base, t)
    ensures NodeAt(b, base, s) == NodeGot(size, x) && NodeIs(b, x, n)
    ensures size == NodeSize(n)
    decreases n, 0
  {
    hide NameAt, Be32, PropsAt, NodesAt, PropsAre, TextIs, HoldsNode, HoldsString, HoldsProps, HoldsNodes, TokenAt;
    var props, nodes, end := Parts(b, n, s, base, t);
    var nameSize := NameReadsBack(b, n.name, s);
    AfterProps(b, n.children, nodes, base, t + PropsStrings(n.props), end);
    var ps := PropsReadBack(b, n.props, s + nameSize, base, t, nodes);
    var ns := NodesReadBack(b, n.children, nodes, base, t + PropsStrings(n.props), end);
    size := NodeFrom(b, base, s, nameSize, nodes, end, s + 4, ps, ns);
    x := Node(s + 4, ps, ns);
    HeldText(b, s + 4, n.name);
  }

  lemma {:induction false} NodesReadBack(b: seq<byte>, ns: seq<TreeNode>, s: nat, base: nat, t: nat, e: nat)
      returns (xs: seq<Node>)
    requires |b| < 0x8000_0000 && base < 0x8000_0000 && HoldsNodes(b, ns, s, base, t)
    requires e == s + NodesSize(ns) && (TokenAt(b, e, TOKEN_END_NODE) || TokenAt(b, e, TOKEN_END))
    ensures NodesAt(b, base, s) == NodesGot(e, xs) && NodesAre(b, xs, ns)
    decreases ns
  {
    hide NodeAt, NodesAt, Be32, NodeIs, HoldsNode, TokenAt;
    if ns == [] {
      xs := [];
      NoMore(b, base, s);
    } else {
      var size, x := NodeReadsBack(b, ns[0], s, base, t);
      var rest := NodesReadBack(b, ns[1..], s + size, base, t + NodeStrings(ns[0]), e);
      xs := [x] + rest;
      NodesStep(b, base, s, size, x, e, rest);
      assert xs[1..] == rest;
    }
  }
}
