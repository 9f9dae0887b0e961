/** The size and flatten functions of src/base/device_tree.c, writing into a buffer
    through two cursors, and the round trip. */
module FdtWrite {
  import opened Machine
  import opened CStrings
  import opened FdtFormat
  import opened FdtTree
  import opened FdtFrame

  // ---------------------------------------------------------------------------
  // Stores
  // ---------------------------------------------------------------------------

  /** Outside [at, at + n) two buffers are the same. */
  predicate SameBut(b: seq<byte>, c: seq<byte>, at: nat, n: nat) {
    |b| == |c| && Agree(b, c, 0, at) && Agree(b, c, at + n, |b|)
  }

  lemma SameButAgree(b: seq<byte>, c: seq<byte>, at: nat, n: nat, lo: nat, hi: nat)
    requires SameBut(b, c, at, n) && (hi <= at || at + n <= lo)
    ensures Agree(b, c, lo, hi)
  {
  }

  lemma AgreeWithin(b: seq<byte>, c: seq<byte>, lo: nat, hi: nat, x: nat, y: nat)
    requires Agree(b, c, lo, hi) && lo <= x && y <= hi
    ensures Agree(b, c, x, y)
  {
  }

  /** memcpy, and the byte stores of strcpy. */
  method Store(buf: array<byte>, at: nat, s: seq<byte>)
    requires at + |s| <= buf.Length
    modifies buf
    ensures SameBut(old(buf[..]), buf[..], at, |s|)
    ensures buf[..][at..at + |s|] == s
  {
    forall i | at <= i < at + |s| {
      buf[i] := s[i - at];
    }
  }

  /** A big-endian 32-bit store. */
  method Store32(buf: array<byte>, at: nat, v: uint32)
    requires at + 4 <= buf.Length
    modifies buf
    ensures SameBut(old(buf[..]), buf[..], at, 4)
    ensures Be32(buf[..], at) == v
  {
    Store(buf, at, Bytes(v, 4));
    BytesRoundTrip(v, 4);
    Pow256Values();
  }

  method Store64(buf: array<byte>, at: nat, v: uint64)
    requires at + 8 <= buf.Length
    modifies buf
    ensures SameBut(old(buf[..]), buf[..], at, 8)
    ensures Be64(buf[..], at) == v
  {
    Store(buf, at, Bytes(v, 8));
    BytesRoundTrip(v, 8);
    Pow256Values();
  }

  /** strcpy with its terminator. */
  method StoreString(buf: array<byte>, at: nat, s: CString)
    requires at + |s| + 1 <= buf.Length
    modifies buf
    ensures SameBut(old(buf[..]), buf[..], at, |s| + 1)
    ensures HoldsString(buf[..], at, s)
  {
    Store(buf, at, s + [0]);
    assert buf[..][at..at + |s|] == (s + [0])[..|s|];
    assert buf[..][at + |s|] == (s + [0])[|s|];
  }

  // ---------------------------------------------------------------------------
  // Sizes
  // ---------------------------------------------------------------------------

  /** dt_flat_node_size, with its two accumulators. */
  method FlatNodeSize(n: TreeNode, structSize: nat, stringsSize: nat) returns (s: nat, t: nat)
    ensures s == structSize + NodeSize(n) && t == stringsSize + NodeStrings(n)
    decreases n
  {
    s, t := structSize + 4 + Padded(|n.name| + 1), stringsSize;
    ghost var s0 := s;
    var i := 0;
    while i < |n.props|
      invariant 0 <= i <= |n.props|
      invariant s == s0 + PropsSize(n.props[..i]) && t == stringsSize + PropsStrings(n.props[..i])
    {
      s, t := s + PropSize(n.props[i]), t + |n.props[i].name| + 1;
      PropsSnoc(n.props[..i], n.props[i]);
      assert n.props[..i + 1] == n.props[..i] + [n.props[i]];
      i := i + 1;
    }
    assert n.props[..i] == n.props;
    ghost var s1, t1 := s, t;
    i := 0;
    while i < |n.children|
      invariant 0 <= i <= |n.children|
      invariant s == s1 + NodesSize(n.children[..i]) && t == t1 + NodesStrings(n.children[..i])
    {
      s, t := FlatNodeSize(n.children[i], s, t);
      NodesSnoc(n.children[..i], n.children[i]);
      assert n.children[..i + 1] == n.children[..i] + [n.children[i]];
      i := i + 1;
    }
    assert n.children[..i] == n.children;
    s := s + 4;
  }

  // ---------------------------------------------------------------------------
  // Flattening a node
  // ---------------------------------------------------------------------------

  /** What a write between the cursors leaves alone: everything in front of both,
      between them, and behind. */
  predicate OnlyWithin(b: seq<byte>, c: seq<byte>, s: nat, s': nat, t: nat, t': nat) {
    |b| == |c| && Agree(b, c, 0, s) && Agree(b, c, s', t) && Agree(b, c, t', |b|)
  }

  /** The three words in front of the data of a property. */
  method StorePropHead(buf: array<byte>, s: nat, size: uint32, name: uint32)
    requires s + 12 <= buf.Length
    modifies buf
    ensures SameBut(old(buf[..]), buf[..], s, 12)
    ensures Be32(buf[..], s) == TOKEN_PROPERTY && Be32(buf[..], s + 4) == size && Be32(buf[..], s + 8) == name
  {
    hide Be32;
    Store32(buf, s, TOKEN_PROPERTY);
    ghost var b1 := buf[..];
    Store32(buf, s + 4, size);
    ghost var b2 := buf[..];
    Be32Frame(b1, b2, 0, s + 4, s);
    Store32(buf, s + 8, name);
    Be32Frame(b2, buf[..], 0, s + 8, s);
    Be32Frame(b2, buf[..], 0, s + 8, s + 4);
  }

  /** dt_flatten_prop. Padding after the data is left as it was. */
  method FlattenProp(p: Property, buf: array<byte>, s: nat, base: nat, t: nat) returns (s': nat, t': nat)
    requires buf.Length < 0x8000_0000
    requires s + PropSize(p) <= base <= t && t + |p.name| + 1 <= buf.Length
    modifies buf
    ensures s' == s + PropSize(p) && t' == t + |p.name| + 1
    ensures HoldsProp(buf[..], p, s, base, t)
    ensures OnlyWithin(old(buf[..]), buf[..], s, s', t, t')
  {
    hide Be32, HoldsString;
    s', t' := s + PropSize(p), t + |p.name| + 1;
    StorePropHead(buf, s, |p.data|, t - base);
    ghost var b1 := buf[..];
    StoreString(buf, t, p.name);
    ghost var b2 := buf[..];
    HeadFrame(b1, b2, s, t);
    Store(buf, s + 12, p.data);
    HeadFrame(b2, buf[..], s, s + 12);
    SameButAgree(b2, buf[..], s + 12, |p.data|, t, t');
    StringFrame(b2, buf[..], t, t', t, p.name);
  }

  lemma HeadFrame(b: seq<byte>, c: seq<byte>, s: nat, upto: nat)
    requires s + 12 <= upto && s + 12 <= |b| && Agree(b, c, 0, upto)
    ensures Be32(b, s) == Be32(c, s) && Be32(b, s + 4) == Be32(c, s + 4) && Be32(b, s + 8) == Be32(c, s + 8)
  {
    hide Be32;
    Be32Frame(b, c, 0, upto, s);
    Be32Frame(b, c, 0, upto, s + 4);
    Be32Frame(b, c, 0, upto, s + 8);
  }

  /** dt_flatten_node, its property loop. */
  method FlattenProps(ps: seq<Property>, buf: array<byte>, s: nat, base: nat, t: nat) returns (s': nat, t': nat)
    requires buf.Length < 0x8000_0000
    requires s + PropsSize(ps) <= base <= t && t + PropsStrings(ps) <= buf.Length
    modifies buf
    ensures s' == s + PropsSize(ps) && t' == t + PropsStrings(ps)
    ensures HoldsProps(buf[..], ps, s, base, t)
    ensures OnlyWithin(old(buf[..]), buf[..], s, s', t, t')
  {
    hide HoldsProp;
    s', t' := s, t;
    var i := 0;
    while i < |ps|
      invariant 0 <= i <= |ps|
      invariant s' == s + PropsSize(ps[..i]) && t' == t + PropsStrings(ps[..i])
      invariant HoldsProps(buf[..], ps[..i], s, base, t)
      invariant OnlyWithin(old(buf[..]), buf[..], s, s', t, t')
    {
      ghost var b, s0, t0 := buf[..], s', t';
      PropsRoom(ps, i);
      s', t' := FlattenProp(ps[i], buf, s', base, t');
      PropsFrame(b, buf[..], ps[..i], s, base, t);
      HoldsPropsSnoc(buf[..], ps[..i], ps[i], s, base, t);
      assert ps[..i + 1] == ps[..i] + [ps[i]];
      i := i + 1;
    }
    assert ps[..i] == ps;
  }

  /** What is still to be written fits behind what has been written. */
  lemma {:induction false} PropsRoom(ps: seq<Property>, i: nat)
    requires i < |ps|
    ensures PropsSize(ps[..i + 1]) == PropsSize(ps[..i]) + PropSize(ps[i]) <= PropsSize(ps)
    ensures PropsStrings(ps[..i + 1]) == PropsStrings(ps[..i]) + |ps[i].name| + 1 <= PropsStrings(ps)
    decreases |ps| - i
  {
    assert ps[..i + 1] == ps[..i] + [ps[i]];
    PropsSnoc(ps[..i], ps[i]);
    if i + 1 < |ps| { PropsRoom(ps, i + 1); } else { assert ps[..i + 1] == ps; }
  }

  lemma {:induction false} NodesRoom(ns: seq<TreeNode>, i: nat)
    requires i < |ns|
    ensures NodesSize(ns[..i + 1]) == NodesSize(ns[..i]) + NodeSize(ns[i]) <= NodesSize(ns)
    ensures NodesStrings(ns[..i + 1]) == NodesStrings(ns[..i]) + NodeStrings(ns[i]) <= NodesStrings(ns)
    decreases |ns| - i
  {
    assert ns[..i + 1] == ns[..i] + [ns[i]];
    NodesSnoc(ns[..i], ns[i]);
    if i + 1 < |ns| { NodesRoom(ns, i + 1); } else { assert ns[..i + 1] == ns; }
  }

  /** dt_flatten_node, its loop over the children. */
  method FlattenNodes(ns: seq<TreeNode>, buf: array<byte>, s: nat, base: nat, t: nat) returns (s': nat, t': nat)
    requires buf.Length < 0x8000_0000
    requires s + NodesSize(ns) <= base <= t && t + NodesStrings(ns) <= buf.Length
    modifies buf
    ensures s' == s + NodesSize(ns) && t' == t + NodesStrings(ns)
    ensures HoldsNodes(buf[..], ns, s, base, t)
    ensures OnlyWithin(old(buf[..]), buf[..], s, s', t, t')
    decreases ns
  {
    hide HoldsNode, NodeSize, NodeStrings;
    s', t' := s, t;
    var i := 0;
    while i < |ns|
      invariant 0 <= i <= |ns|
      invariant s' == s + NodesSize(ns[..i]) && t' == t + NodesStrings(ns[..i])
      invariant HoldsNodes(buf[..], ns[..i], s, base, t)
      invariant OnlyWithin(old(buf[..]), buf[..], s, s', t, t')
    {
      ghost var b := buf[..];
      NodesRoom(ns, i);
      s', t' := FlattenNode(ns[i], buf, s', base, t');
      NodesFrame(b, buf[..], ns[..i], s, base, t);
      HoldsNodesSnoc(buf[..], ns[..i], ns[i], s, base, t);
      assert ns[..i + 1] == ns[..i] + [ns[i]];
      i := i + 1;
    }
    assert ns[..i] == ns;
  }

  /** The begin token and the name of a node. */
  predicate HoldsHead(b: seq<byte>, name: CString, s: nat) {
    TokenAt(b, s, TOKEN_BEGIN_NODE) && HoldsString(b, s + 4, name)
  }

  method StoreHead(buf: array<byte>, s: nat, name: CString)
    requires s + 4 + |name| + 1 <= buf.Length
    modifies buf
    ensures HoldsHead(buf[..], name, s)
    ensures SameBut(old(buf[..]), buf[..], s, 4 + |name| + 1)
  {
    hide Be32, HoldsString;
    Store32(buf, s, TOKEN_BEGIN_NODE);
    ghost var b := buf[..];
    StoreString(buf, s + 4, name);
    Be32Frame(b, buf[..], 0, s + 4, s);
  }

  lemma HeldHeadFrame(b: seq<byte>, c: seq<byte>, name: CString, s: nat, upto: nat)
    requires HoldsHead(b, name, s) && s + 4 + |name| + 1 <= upto && Agree(b, c, 0, upto)
    ensures HoldsHead(c, name, s)
  {
    hide Be32, HoldsString;
    Be32Frame(b, c, 0, upto, s);
    StringFrame(b, c, 0, upto, s + 4, name);
  }

  lemma NodeFromParts(b: seq<byte>, n: TreeNode, s: nat, base: nat, t: nat, props: nat, nodes: nat, end: nat)
    requires HoldsHead(b, n.name, s) && props == s + 4 + Padded(|n.name| + 1)
    requires HoldsProps(b, n.props, props, base, t) && nodes == props + PropsSize(n.props)
    requires HoldsNodes(b, n.children, nodes, base, t + PropsStrings(n.props)) && end == nodes + NodesSize(n.children)
    requires TokenAt(b, end, TOKEN_END_NODE)
    ensures HoldsNode(b, n, s, base, t)
  {
    hide HoldsString, HoldsProps, HoldsNodes, Be32;
  }

  /** The four writes of dt_flatten_node stay clear of each other. */
  lemma WritesApart(b0: seq<byte>, b1: seq<byte>, b2: seq<byte>, b3: seq<byte>, b4: seq<byte>,
                    s: nat, x: nat, props: nat, nodes: nat, end: nat, t: nat, t1: nat, t2: nat)
    requires SameBut(b0, b1, s, x) && s + x <= props
    requires OnlyWithin(b1, b2, props, nodes, t, t1) && OnlyWithin(b2, b3, nodes, end, t1, t2)
    requires SameBut(b3, b4, end, 4) && props <= nodes <= end && end + 4 <= t <= t1 <= t2
    ensures Agree(b1, b2, 0, props) && Agree(b2, b3, 0, nodes) && Agree(b2, b3, t, t1)
    ensures Agree(b3, b4, 0, end) && Agree(b3, b4, t, t2)
    ensures OnlyWithin(b0, b4, s, end + 4, t, t2)
  {
  }

  /** dt_flatten_node. */
  method FlattenNode(n: TreeNode, buf: array<byte>, s: nat, base: nat, t: nat) returns (s': nat, t': nat)
    requires buf.Length < 0x8000_0000
    requires s + NodeSize(n) <= base <= t && t + NodeStrings(n) <= buf.Length
    modifies buf
    ensures s' == s + NodeSize(n) && t' == t + NodeStrings(n)
    ensures HoldsNode(buf[..], n, s, base, t)
    ensures OnlyWithin(old(buf[..]), buf[..], s, s', t, t')
    decreases n, 0
  {
    hide HoldsHead, HoldsProps, HoldsNodes, Be32, HoldsNode, Agree, SameBut, OnlyWithin;
    ghost var b0 := buf[..];
    var props := s + 4 + Padded(|n.name| + 1);
    StoreHead(buf, s, n.name);
    ghost var b1 := buf[..];
    var nodes, t1 := FlattenProps(n.props, buf, props, base, t);
    ghost var b2 := buf[..];
    var end, t2 := FlattenNodes(n.children, buf, nodes, base, t1);
    ghost var b3 := buf[..];
    Store32(buf, end, TOKEN_END_NODE);
    ghost var b4 := buf[..];
    WritesApart(b0, b1, b2, b3, b4, s, 4 + |n.name| + 1, props, nodes, end, t, t1, t2);
    HeldHeadFrame(b1, b2, n.name, s, props);
    HeldHeadFrame(b2, b3, n.name, s, nodes);
    HeldHeadFrame(b3, b4, n.name, s, end);
    AgreeWithin(b2, b3, 0, nodes, props, nodes);
    PropsFrame(b2, b3, n.props, props, base, t);
    AgreeWithin(b3, b4, 0, end, props, nodes);
    AgreeWithin(b3, b4, 0, end, nodes, end);
    AgreeWithin(b3, b4, t, t2, t, t1);
    AgreeWithin(b3, b4, t, t2, t1, t2);
    PropsFrame(b3, b4, n.props, props, base, t);
    NodesFrame(b3, b4, n.children, nodes, base, t1);
    NodeFromParts(b4, n, s, base, t, props, nodes, end);
    s', t' := end + 4, t2;
  }
}
