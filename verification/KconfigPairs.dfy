/** expr_eliminate_eq, expr_extract_eq and their callers in util/kconfig/expr.c, in
    place: two trees that share no node, written through a pair of slots. */
module KconfigPairs {
  import opened KconfigExpr
  import opened KconfigJoin
  import opened KconfigSlots

  /** Writing both children of a slot, one after the other, is writing the slot. */
  lemma ThroughChildren(e: Expr, p: Path, l: Expr, r: Expr)
    requires Slot(e, p) && At(e, p).Bin?
    ensures Slot(e, p + [L]) && At(e, p + [L]) == At(e, p).left
    ensures var m := Put(e, p + [L], l);
            && Slot(m, p + [R]) && At(m, p + [R]) == At(e, p).right
            && Put(m, p + [R], r) == Put(e, p, Bin(At(e, p).op, l, r))
  {
    ChildSlot(e, p, L, l);
    ChildSlot(Put(e, p + [L], l), p, R, r);
  }

  lemma FirstSpineFirst(op: Op, e1: Expr, e2: Expr)
    requires Is(op, e1)
    ensures var r := EliminateEqLeaves(op, e1.left, e2);
            var s := EliminateEqLeaves(op, e1.right, r.1);
            EliminateEqLeaves(op, e1, e2) == (Bin(op, r.0, s.0), s.1)
  {
  }

  lemma SecondSpineNext(op: Op, e1: Expr, e2: Expr)
    requires !Is(op, e1) && Is(op, e2)
    ensures var r := EliminateEqLeaves(op, e1, e2.left);
            var s := EliminateEqLeaves(op, r.0, e2.right);
            EliminateEqLeaves(op, e1, e2) == (s.0, Bin(op, r.1, s.1))
  {
  }

  lemma ExtractFirst(op: Op, acc: Option<Expr>, e1: Expr, e2: Expr)
    requires Is(op, e1)
    ensures var r := ExtractEq(op, acc, e1.left, e2);
            var s := ExtractEq(op, r.0, e1.right, r.2);
            ExtractEq(op, acc, e1, e2) == (s.0, Bin(op, r.1, s.1), s.2)
  {
  }

  lemma ExtractNext(op: Op, acc: Option<Expr>, e1: Expr, e2: Expr)
    requires !Is(op, e1) && Is(op, e2)
    ensures var r := ExtractEq(op, acc, e1, e2.left);
            var s := ExtractEq(op, r.0, r.1, e2.right);
            ExtractEq(op, acc, e1, e2) == (s.0, s.1, Bin(op, r.2, s.2))
  {
  }

  class ExprPair {
    var first: Expr
    var second: Expr
    /** What expr_extract_eq has moved out. */
    var common: Option<Expr>
    var transCount: nat

    constructor (first: Expr, second: Expr)
      ensures this.first == first && this.second == second && common.None? && transCount == 0
    {
      this.first, this.second, common, transCount := first, second, None, 0;
    }

    /** __expr_eliminate_eq: exactly the function EliminateEqLeaves. */
    method EliminateEqLeavesAt(op: Op, ep1: Path, ep2: Path)
      requires Slot(first, ep1) && Slot(second, ep2)
      modifies this
      ensures var r := EliminateEqLeaves(op, At(old(first), ep1), At(old(second), ep2));
              first == Put(old(first), ep1, r.0) && second == Put(old(second), ep2, r.1)
      ensures transCount >= old(transCount)
      ensures transCount == old(transCount) ==> first == old(first) && second == old(second)
      decreases Size(At(first, ep1)) + Size(At(second, ep2)), 1
    {
      if Is(op, At(first, ep1)) {
        FirstSpine(op, ep1, ep2);
      } else if Is(op, At(second, ep2)) {
        SecondSpine(op, ep1, ep2);
      } else {
        LeafPair(op, ep1, ep2);
      }
    }

    method FirstSpine(op: Op, ep1: Path, ep2: Path)
      requires Slot(first, ep1) && Slot(second, ep2) && Is(op, At(first, ep1))
      modifies this
      ensures var r := EliminateEqLeaves(op, At(old(first), ep1), At(old(second), ep2));
              first == Put(old(first), ep1, r.0) && second == Put(old(second), ep2, r.1)
      ensures transCount >= old(transCount)
      ensures transCount == old(transCount) ==> first == old(first) && second == old(second)
      decreases Size(At(first, ep1)) + Size(At(second, ep2)), 0
    {
      hide At, Put, Slot, EliminateEqLeaves;
      ghost var a, b, e1, e2 := first, second, At(first, ep1), At(second, ep2);
      FirstSpineFirst(op, e1, e2);
      ghost var r := EliminateEqLeaves(op, e1.left, e2);
      ghost var s := EliminateEqLeaves(op, e1.right, r.1);
      ThroughChildren(a, ep1, r.0, s.0);
      AtPut(b, ep2, r.1);
      EliminateEqLeavesAt(op, ep1 + [L], ep2);
      EliminateEqLeavesAt(op, ep1 + [R], ep2);
    }

    method SecondSpine(op: Op, ep1: Path, ep2: Path)
      requires Slot(first, ep1) && Slot(second, ep2) && !Is(op, At(first, ep1)) && Is(op, At(second, ep2))
      modifies this
      ensures var r := EliminateEqLeaves(op, At(old(first), ep1), At(old(second), ep2));
              first == Put(old(first), ep1, r.0) && second == Put(old(second), ep2, r.1)
      ensures transCount >= old(transCount)
      ensures transCount == old(transCount) ==> first == old(first) && second == old(second)
      decreases Size(At(first, ep1)) + Size(At(second, ep2)), 0
    {
      hide At, Put, Slot, EliminateEqLeaves;
      ghost var a, b, e1, e2 := first, second, At(first, ep1), At(second, ep2);
      SecondSpineNext(op, e1, e2);
      ghost var r := EliminateEqLeaves(op, e1, e2.left);
      ghost var s := EliminateEqLeaves(op, r.0, e2.right);
      ThroughChildren(b, ep2, r.1, s.1);
      AtPut(a, ep1, r.0);
      EliminateEqLeavesAt(op, ep1, ep2 + [L]);
      EliminateEqLeavesAt(op, ep1, ep2 + [R]);
    }

    /** The test at two leaves, and their replacement. */
    method LeafPair(op: Op, ep1: Path, ep2: Path)
      requires Slot(first, ep1) && Slot(second, ep2) && !Is(op, At(first, ep1)) && !Is(op, At(second, ep2))
      modifies this
      ensures var r := EliminateEqLeaves(op, At(old(first), ep1), At(old(second), ep2));
              first == Put(old(first), ep1, r.0) && second == Put(old(second), ep2, r.1)
      ensures transCount >= old(transCount)
      ensures transCount == old(transCount) ==> first == old(first) && second == old(second)
      decreases Size(At(first, ep1)) + Size(At(second, ep2)), 0
    {
      var e1, e2 := At(first, ep1), At(second, ep2);
      AtPut(first, ep1, e1);
      AtPut(second, ep2, e2);
      if IsYn(e1) && e1 == e2 { return; }
      if !ExprEq(e1, e2) { return; }
      transCount := transCount + 1;
      first := Put(first, ep1, Leaf(op.Neutral()));
      second := Put(second, ep2, Leaf(op.Neutral()));
    }

    /** expr_eliminate_eq: exactly the function EliminateEq. */
    method EliminateEqAt()
      modifies this
      ensures (first, second) == EliminateEq(old(first), old(second))
    {
      hide EliminateEqLeaves, EliminateYn;
      AtPut(first, [], first);
      AtPut(second, [], second);
      if first.Bin? { EliminateEqLeavesAt(first.op, [], []); }
      AtPut(first, [], first);
      AtPut(second, [], second);
      if !SameType(first, second) && second.Bin? { EliminateEqLeavesAt(second.op, [], []); }
      first, second := EliminateYn(first), EliminateYn(second);
    }

    /** expr_extract_eq: exactly the function ExtractEq. */
    method ExtractEqAt(op: Op, ep1: Path, ep2: Path)
      requires Slot(first, ep1) && Slot(second, ep2)
      modifies this
      ensures var r := ExtractEq(op, old(common), At(old(first), ep1), At(old(second), ep2));
              common == r.0 && first == Put(old(first), ep1, r.1) && second == Put(old(second), ep2, r.2)
      decreases Size(At(first, ep1)) + Size(At(second, ep2)), 1
    {
      if Is(op, At(first, ep1)) {
        ExtractSpine1(op, ep1, ep2);
      } else if Is(op, At(second, ep2)) {
        ExtractSpine2(op, ep1, ep2);
      } else {
        var e1, e2 := At(first, ep1), At(second, ep2);
        AtPut(first, ep1, e1);
        AtPut(second, ep2, e2);
        if ExprEq(e1, e2) {
          common := Some(if common.Some? then Bin(op, common.value, e1) else e1);
          first := Put(first, ep1, Leaf(op.Neutral()));
          second := Put(second, ep2, Leaf(op.Neutral()));
        }
      }
    }

    method ExtractSpine1(op: Op, ep1: Path, ep2: Path)
      requires Slot(first, ep1) && Slot(second, ep2) && Is(op, At(first, ep1))
      modifies this
      ensures var r := ExtractEq(op, old(common), At(old(first), ep1), At(old(second), ep2));
              common == r.0 && first == Put(old(first), ep1, r.1) && second == Put(old(second), ep2, r.2)
      decreases Size(At(first, ep1)) + Size(At(second, ep2)), 0
    {
      hide At, Put, Slot, ExtractEq;
      ghost var a, b, e1, e2 := first, second, At(first, ep1), At(second, ep2);
      ExtractFirst(op, common, e1, e2);
      ghost var r := ExtractEq(op, common, e1.left, e2);
      ghost var s := ExtractEq(op, r.0, e1.right, r.2);
      ThroughChildren(a, ep1, r.1, s.1);
      AtPut(b, ep2, r.2);
      ExtractEqAt(op, ep1 + [L], ep2);
      ExtractEqAt(op, ep1 + [R], ep2);
    }

    method ExtractSpine2(op: Op, ep1: Path, ep2: Path)
      requires Slot(first, ep1) && Slot(second, ep2) && !Is(op, At(first, ep1)) && Is(op, At(second, ep2))
      modifies this
      ensures var r := ExtractEq(op, old(common), At(old(first), ep1), At(old(second), ep2));
              common == r.0 && first == Put(old(first), ep1, r.1) && second == Put(old(second), ep2, r.2)
      decreases Size(At(first, ep1)) + Size(At(second, ep2)), 0
    {
      hide At, Put, Slot, ExtractEq;
      ghost var a, b, e1, e2 := first, second, At(first, ep1), At(second, ep2);
      ExtractNext(op, common, e1, e2);
      ghost var r := ExtractEq(op, common, e1, e2.left);
      ghost var s := ExtractEq(op, r.0, r.1, e2.right);
      ThroughChildren(b, ep2, r.2, s.2);
      AtPut(a, ep1, r.1);
      ExtractEqAt(op, ep1, ep2 + [L]);
      ExtractEqAt(op, ep1, ep2 + [R]);
    }

    /** expr_extract_eq_and and expr_extract_eq_or: exactly the function ExtractCommon. */
    method ExtractCommonAt(op: Op)
      modifies this
      ensures (common, first, second) == ExtractCommon(op, old(first), old(second))
    {
      hide ExtractEq, EliminateYn;
      common := None;
      AtPut(first, [], first);
      AtPut(second, [], second);
      ExtractEqAt(op, [], []);
      if common.Some? {
        first, second := EliminateYn(first), EliminateYn(second);
      }
    }
  }
}
