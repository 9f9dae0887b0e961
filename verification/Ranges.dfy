/** src/base/ranges.c: a set of addresses as a linked list of edges, changed in place. */
module Ranges {
  import opened Machine
  import opened RangeSet

  class RangesEdge {
    var next: RangesEdge?
    var pos: uint64

    constructor (next: RangesEdge?, pos: uint64)
      ensures this.next == next && this.pos == pos
    {
      this.next, this.pos := next, pos;
    }
  }

  ghost predicate Distinct(ns: seq<RangesEdge>) {
    forall i, j | 0 <= i < j < |ns| :: ns[i] != ns[j]
  }

  ghost function After(ns: seq<RangesEdge>, i: nat): RangesEdge?
    requires i < |ns|
  {
    if i + 1 < |ns| then ns[i + 1] else null
  }

  ghost function Insert(ns: seq<RangesEdge>, i: nat, n: RangesEdge): (r: seq<RangesEdge>)
    requires i < |ns|
    ensures |r| == |ns| + 1 && r[i + 1] == n
    ensures forall j | 0 <= j <= i :: r[j] == ns[j]
    ensures forall j | i + 1 < j < |r| :: r[j] == ns[j - 1]
  {
    ns[..i + 1] + [n] + ns[i + 1..]
  }

  ghost function Delete(ns: seq<RangesEdge>, i: nat): (r: seq<RangesEdge>)
    requires i + 1 < |ns|
    ensures |r| == |ns| - 1
    ensures forall j | 0 <= j <= i :: r[j] == ns[j]
    ensures forall j | i < j < |r| :: r[j] == ns[j + 1]
  {
    ns[..i + 1] + ns[i + 2..]
  }

  ghost function InsertPos(es: seq<int>, i: nat, pos: int): (r: seq<int>)
    requires i <= |es|
    ensures |r| == |es| + 1 && r[i] == pos
    ensures forall j | 0 <= j < i :: r[j] == es[j]
    ensures forall j | i < j < |r| :: r[j] == es[j - 1]
  {
    es[..i] + [pos] + es[i..]
  }

  ghost function DeletePos(es: seq<int>, i: nat): (r: seq<int>)
    requires i < |es|
    ensures |r| == |es| - 1
    ensures forall j | 0 <= j < i :: r[j] == es[j]
    ensures forall j | i <= j < |r| :: r[j] == es[j + 1]
  {
    es[..i] + es[i + 1..]
  }

  /** Only the node in front and the new one get another successor. */
  lemma Linking(ns: seq<RangesEdge>, i: nat, n: RangesEdge)
    requires Distinct(ns) && i < |ns| && n !in ns
    ensures var r := Insert(ns, i, n);
            && Distinct(r) && After(r, i) == n && After(r, i + 1) == After(ns, i)
            && (forall j | 0 <= j < |r| && j != i :: r[j] != ns[i])
            && (forall j | 0 <= j < i :: After(r, j) == After(ns, j))
            && (forall j | i + 1 < j < |r| :: After(r, j) == After(ns, j - 1))
  {
    hide Insert;
  }

  ghost predicate Within(ns: seq<RangesEdge>, repr: set<object>) {
    forall i | 0 <= i < |ns| :: ns[i] in repr
  }

  ghost predicate Linked(ns: seq<RangesEdge>)
    reads ns
  {
    forall i | 0 <= i < |ns| :: ns[i].next == After(ns, i)
  }

  ghost predicate Positions(ns: seq<RangesEdge>, es: seq<int>)
    reads ns
    requires |ns| == |es| + 1
  {
    forall i | 0 <= i < |es| :: es[i] == ns[i + 1].pos
  }

  /** All but the node in front still linked as before. */
  ghost predicate LinkedBut(ns: seq<RangesEdge>, i: nat)
    reads ns
  {
    forall j | 0 <= j < |ns| && j != i :: ns[j].next == After(ns, j)
  }

  lemma InsertLinked(ns: seq<RangesEdge>, i: nat, n: RangesEdge)
    requires Distinct(ns) && i < |ns| && n !in ns && LinkedBut(ns, i)
    requires n.next == After(ns, i) && ns[i].next == n
    ensures Linked(Insert(ns, i, n)) && Distinct(Insert(ns, i, n))
  {
    hide Insert, Distinct;
    Linking(ns, i, n);
  }

  lemma InsertWithin(ns: seq<RangesEdge>, i: nat, n: RangesEdge, repr: set<object>)
    requires i < |ns| && Within(ns, repr)
    ensures Within(Insert(ns, i, n), repr + {n})
  {
    hide Insert;
    assert forall j | 0 <= j <= |ns| ::
             Insert(ns, i, n)[j] == if j <= i then ns[j] else if j == i + 1 then n else ns[j - 1];
  }

  lemma InsertPositions(ns: seq<RangesEdge>, es: seq<int>, i: nat, n: RangesEdge)
    requires |ns| == |es| + 1 && i < |ns| && Positions(ns, es)
    ensures Positions(Insert(ns, i, n), InsertPos(es, i, n.pos))
  {
    hide Insert, InsertPos;
  }

  /** The two links that change. */
  method Link(before: RangesEdge, after: RangesEdge?, pos: uint64,
              ghost ns: seq<RangesEdge>, ghost es: seq<int>, ghost i: nat) returns (newEdge: RangesEdge)
    requires |ns| == |es| + 1 && i < |ns| && before == ns[i] && after == After(ns, i)
    requires Distinct(ns) && Linked(ns) && Positions(ns, es)
    modifies before
    ensures fresh(newEdge) && Distinct(Insert(ns, i, newEdge))
    ensures Linked(Insert(ns, i, newEdge)) && Positions(Insert(ns, i, newEdge), InsertPos(es, i, pos))
  {
    assert forall j | 0 <= j < |ns| && j != i :: ns[j] != before;
    hide Insert, InsertPos, Distinct;
    newEdge := new RangesEdge(after, pos);
    before.next := newEdge;
    InsertLinked(ns, i, newEdge);
    InsertPositions(ns, es, i, newEdge);
  }

  /** Only the node in front of a deleted one gets another successor. */
  lemma DeleteLinked(ns: seq<RangesEdge>, i: nat)
    requires Distinct(ns) && i + 1 < |ns| && LinkedBut(ns, i)
    requires ns[i].next == After(ns, i + 1)
    ensures Linked(Delete(ns, i)) && Distinct(Delete(ns, i)) && After(Delete(ns, i), i) == After(ns, i + 1)
  {
    hide Delete;
    var r := Delete(ns, i);
    forall j | 0 <= j < |r| ensures r[j].next == After(r, j) {
      if j < i { assert r[j] == ns[j]; }
      if j > i { assert r[j] == ns[j + 1]; }
    }
  }

  lemma DeleteWithin(ns: seq<RangesEdge>, i: nat, repr: set<object>)
    requires i + 1 < |ns| && Within(ns, repr)
    ensures Within(Delete(ns, i), repr)
  {
    hide Delete;
  }

  lemma DeletePositions(ns: seq<RangesEdge>, es: seq<int>, i: nat)
    requires |ns| == |es| + 1 && i < |es| && Positions(ns, es)
    ensures Positions(Delete(ns, i), DeletePos(es, i))
  {
    hide Delete, DeletePos;
  }

  /** The link that changes. */
  method Unlink(before: RangesEdge, cur: RangesEdge, ghost ns: seq<RangesEdge>, ghost es: seq<int>, ghost i: nat)
      returns (next: RangesEdge?)
    requires |ns| == |es| + 1 && i < |es| && before == ns[i] && cur == ns[i + 1]
    requires Distinct(ns) && Linked(ns) && Positions(ns, es)
    modifies before
    ensures Distinct(Delete(ns, i)) && Linked(Delete(ns, i)) && next == After(Delete(ns, i), i)
    ensures Positions(Delete(ns, i), DeletePos(es, i))
  {
    assert forall j | 0 <= j < |ns| && j != i :: ns[j] != before;
    hide Delete, DeletePos, Distinct;
    next := cur.next;
    before.next := next;
    DeleteLinked(ns, i);
    DeletePositions(ns, es, i);
  }

  class RangeList {
    const head: RangesEdge
    /** The nodes of the list, the head first, and the positions behind the head. */
    ghost var nodes: seq<RangesEdge>
    ghost var edges: seq<int>
    /** What the operations may change. */
    ghost var repr: set<object>

    ghost predicate Valid()
      reads this, repr
    {
      && this in repr && Within(nodes, repr)
      && |nodes| == |edges| + 1 && nodes[0] == head
      && Distinct(nodes)
      && Linked(nodes) && Positions(nodes, edges)
    }

    lemma NodeAt(i: nat)
      requires Valid() && i <= |edges|
      ensures |nodes| == |edges| + 1 && nodes[0] == head && nodes[i].next == After(nodes, i)
      ensures this in repr && nodes[i] in repr
      ensures i + 1 < |nodes| ==> edges[i] == nodes[i + 1].pos
    {
    }

    /** ranges_init. */
    constructor ()
      ensures Valid() && this in repr && fresh(repr) && edges == []
    {
      head := new RangesEdge(null, 0);
      new;
      nodes, edges, repr := [head], [], {this, head};
    }

    /** ranges_insert_between. */
    method InsertBetween(before: RangesEdge, after: RangesEdge?, pos: uint64, ghost i: nat)
      requires Valid() && i < |nodes| && before == nodes[i] && after == After(nodes, i)
      modifies this, before
      ensures Valid() && edges == InsertPos(old(edges), i, pos)
      ensures |nodes| == old(|nodes|) + 1 && fresh(nodes[i + 1])
      ensures nodes == Insert(old(nodes), i, nodes[i + 1]) && repr == old(repr) + {nodes[i + 1]}
    {
      assert before != after;
      hide Insert, InsertPos, Distinct, Within, Linked, Positions;
      ghost var ns, es := nodes, edges;
      var newEdge := Link(before, after, pos, ns, es, i);
      InsertWithin(ns, i, newEdge, repr);
      nodes := Insert(ns, i, newEdge);
      edges := InsertPos(es, i, pos);
      repr := repr + {newEdge};
    }

    /** The body of the deleting loop: the edge behind prev is unlinked and freed. */
    method DeleteBehind(prev: RangesEdge, cur: RangesEdge, ghost i: nat) returns (next: RangesEdge?)
      requires Valid() && i + 1 < |nodes| && prev == nodes[i] && cur == nodes[i + 1]
      modifies this, prev
      ensures Valid() && edges == DeletePos(old(edges), i)
      ensures nodes == Delete(old(nodes), i) && repr == old(repr) && next == After(nodes, i)
    {
      hide Delete, DeletePos, Distinct, Within, Linked, Positions;
      ghost var ns, es := nodes, edges;
      assert prev in repr by { NodeAt(i); }
      next := Unlink(prev, cur, ns, es, i);
      DeleteWithin(ns, i, repr);
      nodes := Delete(ns, i);
      edges := DeletePos(es, i);
    }

    /** The first loop of ranges_set_region_to. */
    method FindStart(start: uint64)
        returns (prev: RangesEdge, cur: RangesEdge?, included: bool, ghost k: nat)
      requires Valid()
      ensures k == First(edges, 0, start) && included == Odd(k)
      ensures k < |nodes| && prev == nodes[k] && cur == After(nodes, k) && this in repr && prev in repr
    {
      hide Valid;
      NodeAt(0);
      included := false;
      prev := head;
      cur := prev.next;
      k := 0;
      while cur != null && cur.pos < start
        invariant this in repr && prev in repr
        invariant k < |nodes| == |edges| + 1 && prev == nodes[k] && cur == After(nodes, k)
        invariant k < |edges| ==> cur != null && cur.pos == edges[k]
        invariant included == Odd(k) && First(edges, k, start) == First(edges, 0, start)
        decreases |edges| - k
      {
        prev := cur;
        cur := cur.next;
        included := !included;
        k := k + 1;
        NodeAt(k);
      }
    }

    /** Its second loop: the edges of es from k on that are not above end go, where p is
        what is in front of them. */
    method DeleteThrough(prev: RangesEdge, first: RangesEdge?, end: uint64, wasIncluded: bool,
                         ghost p: seq<int>, ghost es: seq<int>, ghost k: nat)
        returns (cur: RangesEdge?, included: bool, ghost m: nat)
      requires Valid() && k <= |es| && edges == p + es[k..]
      requires |p| < |nodes| && prev == nodes[|p|] && first == After(nodes, |p|) && wasIncluded == Odd(k)
      modifies repr
      ensures Valid() && k <= m <= |es| && edges == p + es[m..]
      ensures m == First(es, k, end + 1) && included == Odd(m)
      ensures |p| < |nodes| && prev == nodes[|p|] && cur == After(nodes, |p|)
      ensures repr == old(repr) && this in repr && prev in repr
    {
      hide Valid, Delete, DeletePos;
      cur, included, m := first, wasIncluded, k;
      NodeAt(|p|);
      while cur != null && cur.pos <= end
        invariant Valid() && k <= m <= |es| && edges == p + es[m..]
        invariant |p| < |nodes| == |edges| + 1 && prev == nodes[|p|] && cur == After(nodes, |p|)
        invariant m < |es| ==> cur != null && cur.pos == es[m]
        invariant repr == old(repr) && this in repr && prev in repr
        invariant included == Odd(m) && First(es, m, end + 1) == First(es, k, end + 1)
        decreases |es| - m
      {
        cur := DeleteBehind(prev, cur, |p|);
        CutOne(p, es, m);
        included := !included;
        m := m + 1;
        NodeAt(|p|);
        assert m < |es| ==> edges[|p|] == es[m];
      }
    }

    /** ranges_set_region_to. */
    method SetRegionTo(start: uint64, end: uint64, newIncluded: bool)
      requires Valid() && start != end
      modifies repr
      ensures Valid() && edges == SetRegion(old(edges), start, end, newIncluded)
      ensures this in repr && fresh(repr - old(repr))
    {
      hide SetRegion, Valid, Insert, InsertPos, First, Odd;
      ghost var es := edges;
      var prev, cur, included, k := FindStart(start);
      ghost var p := es[..k];
      assert edges == p + es[k..];
      if newIncluded != included {
        InsertBetween(prev, cur, start, k);
        NodeAt(k);
        prev := prev.next;
        p := p + [start];
        InsertBehind(es, k, start);
      }
      ghost var m;
      cur, included, m := DeleteThrough(prev, cur, end, included, p, es, k);
      if included != newIncluded {
        InsertBetween(prev, cur, end, |p|);
      }
      Assembled(es, start, end, newIncluded, k, p, m);
    }

    /** ranges_add. */
    method Add(start: uint64, end: uint64)
      requires Valid() && start != end
      modifies repr
      ensures Valid() && edges == SetRegion(old(edges), start, end, true)
      ensures this in repr && fresh(repr - old(repr))
      ensures old(IsRangeSet(edges)) && start < end ==>
                IsRangeSet(edges)
                && forall x :: Covers(edges, x) <==> start <= x < end || Covers(old(edges), x)
    {
      hide SetRegion, Covers, IsRangeSet;
      SetRegionTo(start, end, true);
      if old(IsRangeSet(edges)) && start < end { SetRegionMeaning(old(edges), start, end, true); }
    }

    /** ranges_sub. */
    method Sub(start: uint64, end: uint64)
      requires Valid() && start != end
      modifies repr
      ensures Valid() && edges == SetRegion(old(edges), start, end, false)
      ensures this in repr && fresh(repr - old(repr))
      ensures old(IsRangeSet(edges)) && start < end ==>
                IsRangeSet(edges)
                && forall x :: Covers(edges, x) <==> Covers(old(edges), x) && !(start <= x < end)
    {
      hide SetRegion, Covers, IsRangeSet;
      SetRegionTo(start, end, false);
      if old(IsRangeSet(edges)) && start < end { SetRegionMeaning(old(edges), start, end, false); }
    }

    /** ranges_for_each: the calls it makes, in order, and whether it complains about an
        edge without a partner. */
    method ForEach() returns (calls: seq<Interval>, odd: bool)
      requires Valid()
      ensures calls == Intervals(edges) && odd == Odd(|edges|)
    {
      hide Valid, Intervals;
      calls, odd := [], false;
      NodeAt(0);
      var cur := head.next;
      ghost var i := 0;
      while cur != null
        invariant i <= |edges| && |nodes| == |edges| + 1 && cur == After(nodes, i) && i % 2 == 0
        invariant Intervals(edges) == calls + Intervals(edges[i..])
        decreases |edges| - i
      {
        NodeAt(i);
        NodeAt(i + 1);
        IntervalsFrom(edges, i);
        if cur.next == null {
          odd := true;
          return;
        }
        NodeAt(i + 2);
        calls := calls + [Interval(cur.pos, cur.next.pos)];
        cur := cur.next.next;
        i := i + 2;
      }
      IntervalsFrom(edges, i);
    }

    /** ranges_teardown: every edge is freed exactly once. */
    method Teardown() returns (freed: seq<RangesEdge>)
      requires Valid()
      modifies this, head
      ensures Valid() && edges == [] && freed == old(nodes)[1..]
    {
      freed := [];
      var edge := head.next;
      while edge != null
        invariant |freed| < |nodes| && edge == After(nodes, |freed|) && freed == nodes[1..|freed| + 1]
        decreases |nodes| - |freed|
      {
        var next := edge.next;
        freed := freed + [edge];
        edge := next;
      }
      head.next := null;
      nodes, edges := [head], [];
    }
  }

  lemma CutOne(p: seq<int>, es: seq<int>, m: nat)
    requires m < |es|
    ensures DeletePos(p + es[m..], |p|) == p + es[m + 1..]
  {
  }

  lemma InsertBehind(es: seq<int>, k: nat, pos: int)
    requires k <= |es|
    ensures InsertPos(es, k, pos) == es[..k] + [pos] + es[k..]
  {
  }

  /** What the two loops and the two insertions leave is SetRegion. */
  lemma Assembled(es: seq<int>, start: int, end: int, inc: bool, k: nat, p: seq<int>, m: nat)
    requires k == First(es, 0, start) && m == First(es, k, end + 1)
    requires p == if inc != Odd(k) then es[..k] + [start] else es[..k]
    ensures SetRegion(es, start, end, inc) == if Odd(m) != inc then InsertPos(p + es[m..], |p|, end) else p + es[m..]
  {
    hide First, Odd;
    InsertedBehind(p, es[m..], end);
    hide InsertPos;
    var q := if inc != Odd(m) then [end] else [];
    assert SetRegion(es, start, end, inc) == p + q + es[m..];
    assert p + [] == p;
  }

  lemma InsertedBehind(p: seq<int>, t: seq<int>, end: int)
    ensures InsertPos(p + t, |p|, end) == p + [end] + t
  {
    var c := p + t;
    assert c[..|p|] == p && c[|p|..] == t;
  }
}
