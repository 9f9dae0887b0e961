/** Which bytes a held tree depends on, and how lists of properties and nodes grow. */
module FdtFrame {
  import opened Machine
  import opened CStrings
  import opened FdtTree

  /** Two buffers agree on a range. */
  predicate Agree(b: seq<byte>, c: seq<byte>, lo: nat, hi: nat) {
    |b| == |c| && forall i | lo <= i < hi && i < |b| :: b[i] == c[i]
  }

  lemma AgreeSlice(b: seq<byte>, c: seq<byte>, lo: nat, hi: nat, x: nat, y: nat)
    requires Agree(b, c, lo, hi) && lo <= x <= y <= hi && y <= |b|
    ensures b[x..y] == c[x..y]
  {
  }

  lemma Be32Frame(b: seq<byte>, c: seq<byte>, lo: nat, hi: nat, i: nat)
    requires Agree(b, c, lo, hi) && lo <= i && i + 4 <= hi && i + 4 <= |b|
    ensures Be32(b, i) == Be32(c, i)
  {
    AgreeSlice(b, c, lo, hi, i, i + 4);
  }

  lemma StringFrame(b: seq<byte>, c: seq<byte>, lo: nat, hi: nat, at: nat, s: seq<byte>)
    requires Agree(b, c, lo, hi) && lo <= at && at + |s| + 1 <= hi && HoldsString(b, at, s)
    ensures HoldsString(c, at, s)
  {
    AgreeSlice(b, c, lo, hi, at, at + |s|);
  }

  lemma PropFrame(b: seq<byte>, c: seq<byte>, p: Property, s: nat, base: nat, t: nat)
    requires HoldsProp(b, p, s, base, t)
    requires Agree(b, c, s, s + PropSize(p)) && Agree(b, c, t, t + |p.name| + 1)
    ensures HoldsProp(c, p, s, base, t)
  {
    hide Be32, HoldsString;
    var e := s + PropSize(p);
    Be32Frame(b, c, s, e, s);
    Be32Frame(b, c, s, e, s + 4);
    Be32Frame(b, c, s, e, s + 8);
    AgreeSlice(b, c, s, e, s + 12, s + 12 + |p.data|);
    StringFrame(b, c, t, t + |p.name| + 1, t, p.name);
  }

  lemma {:induction false} PropsFrame(b: seq<byte>, c: seq<byte>, ps: seq<Property>, s: nat, base: nat, t: nat)
    requires HoldsProps(b, ps, s, base, t)
    requires Agree(b, c, s, s + PropsSize(ps)) && Agree(b, c, t, t + PropsStrings(ps))
    ensures HoldsProps(c, ps, s, base, t)
    decreases |ps|
  {
    hide HoldsProp;
    if ps != [] {
      PropFrame(b, c, ps[0], s, base, t);
      PropsFrame(b, c, ps[1..], s + PropSize(ps[0]), base, t + |ps[0].name| + 1);
    }
  }

  lemma {:induction false} NodeFrame(b: seq<byte>, c: seq<byte>, n: TreeNode, s: nat, base: nat, t: nat)
    requires HoldsNode(b, n, s, base, t)
    requires Agree(b, c, s, s + NodeSize(n)) && Agree(b, c, t, t + NodeStrings(n))
    ensures HoldsNode(c, n, s, base, t)
    decreases n, 0
  {
    hide HoldsString, HoldsProps, HoldsNodes, Be32;
    var props, nodes, end := Parts(b, n, s, base, t);
    Be32Frame(b, c, s, s + NodeSize(n), s);
    Be32Frame(b, c, s, s + NodeSize(n), end);
    StringFrame(b, c, s, s + NodeSize(n), s + 4, n.name);
    PropsFrame(b, c, n.props, props, base, t);
    NodesFrame(b, c, n.children, nodes, base, t + PropsStrings(n.props));
  }

  lemma {:induction false} NodesFrame(b: seq<byte>, c: seq<byte>, ns: seq<TreeNode>, s: nat, base: nat, t: nat)
    requires HoldsNodes(b, ns, s, base, t)
    requires Agree(b, c, s, s + NodesSize(ns)) && Agree(b, c, t, t + NodesStrings(ns))
    ensures HoldsNodes(c, ns, s, base, t)
    decreases ns
  {
    hide HoldsNode;
    if ns != [] {
      NodeFrame(b, c, ns[0], s, base, t);
      NodesFrame(b, c, ns[1..], s + NodeSize(ns[0]), base, t + NodeStrings(ns[0]));
    }
  }

  // ---------------------------------------------------------------------------
  // One more at the end
  // ---------------------------------------------------------------------------

  lemma {:induction false} PropsSnoc(ps: seq<Property>, p: Property)
    ensures PropsSize(ps + [p]) == PropsSize(ps) + PropSize(p)
    ensures PropsStrings(ps + [p]) == PropsStrings(ps) + |p.name| + 1
  {
    if ps != [] {
      assert (ps + [p])[1..] == ps[1..] + [p];
      PropsSnoc(ps[1..], p);
    } else {
      assert (ps + [p])[1..] == [];
    }
  }

  lemma {:induction false} NodesSnoc(ns: seq<TreeNode>, n: TreeNode)
    ensures NodesSize(ns + [n]) == NodesSize(ns) + NodeSize(n)
    ensures NodesStrings(ns + [n]) == NodesStrings(ns) + NodeStrings(n)
  {
    if ns != [] {
      assert (ns + [n])[1..] == ns[1..] + [n];
      NodesSnoc(ns[1..], n);
    } else {
      assert (ns + [n])[1..] == [];
    }
  }

  lemma {:induction false} HoldsPropsSnoc(b: seq<byte>, ps: seq<Property>, p: Property, s: nat, base: nat, t: nat)
    requires HoldsProps(b, ps, s, base, t)
    requires HoldsProp(b, p, s + PropsSize(ps), base, t + PropsStrings(ps))
    ensures HoldsProps(b, ps + [p], s, base, t)
    decreases |ps|
  {
    hide HoldsProp;
    if ps != [] {
      assert (ps + [p])[1..] == ps[1..] + [p];
      HoldsPropsSnoc(b, ps[1..], p, s + PropSize(ps[0]), base, t + |ps[0].name| + 1);
    } else {
      assert (ps + [p])[1..] == [];
    }
  }

  lemma {:induction false} HoldsNodesSnoc(b: seq<byte>, ns: seq<TreeNode>, n: TreeNode, s: nat, base: nat, t: nat)
    requires HoldsNodes(b, ns, s, base, t)
    requires HoldsNode(b, n, s + NodesSize(ns), base, t + NodesStrings(ns))
    ensures HoldsNodes(b, ns + [n], s, base, t)
    decreases |ns|
  {
    hide HoldsNode;
    if ns != [] {
      assert (ns + [n])[1..] == ns[1..] + [n];
      HoldsNodesSnoc(b, ns[1..], n, s + NodeSize(ns[0]), base, t + NodeStrings(ns[0]));
    } else {
      assert (ns + [n])[1..] == [];
    }
  }
}
