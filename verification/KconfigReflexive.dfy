/** expr_eq of util/kconfig/expr.c recognises every expression as equal to itself, so
    that no spine is left with the same leaf twice. */
module KconfigReflexive {
  import opened KconfigExpr
  import opened KconfigJoin
  import opened KconfigSlots
  import opened KconfigDups

  /** What is left of a spine that is compared with itself: its constants y and n. */
  function Cleared(op: Op, e: Expr): Expr {
    if Is(op, e) then Bin(op, Cleared(op, e.left), Cleared(op, e.right))
    else if IsYn(e) then e
    else Leaf(op.Neutral())
  }

  /** All leaves of the spine are constants. */
  predicate AllYn(op: Op, e: Expr) {
    if Is(op, e) then AllYn(op, e.left) && AllYn(op, e.right) else IsYn(e)
  }

  /** Everything to the left of a slot has been cleared. */
  predicate ClearedBefore(op: Op, t: Expr, p: Path)
    requires OnSpine(op, t, p)
  {
    p != [] ==> ClearedBefore(op, Child(t, p[0]), p[1..]) && (p[0].R? ==> AllYn(op, t.left))
  }

  lemma {:induction false} ClearedIsYn(op: Op, e: Expr)
    ensures AllYn(op, Cleared(op, e)) && IsYn(EliminateYn(Cleared(op, e)))
  {
    if Is(op, e) {
      ClearedIsYn(op, e.left);
      ClearedIsYn(op, e.right);
    }
  }

  /** A constant passes a spine without effect. */
  lemma {:induction false} ConstantPasses(op: Op, c: Expr, t: Expr)
    requires IsYn(c)
    ensures EliminateEqLeaves(op, c, t) == (c, t)
  {
    if Is(op, t) {
      ConstantPasses(op, c, t.left);
      ConstantPasses(op, c, t.right);
    }
  }

  /** A leaf passes what has been cleared without effect. */
  lemma {:induction false} LeafPasses(op: Op, e: Expr, t: Expr)
    requires !Is(op, e) && AllYn(op, t)
    ensures EliminateEqLeaves(op, e, t) == (e, t)
  {
    if Is(op, t) {
      LeafPasses(op, e, t.left);
      LeafPasses(op, e, t.right);
    }
  }

  /** A leaf finds itself: it and its counterpart are cleared. */
  lemma {:induction false} LeafMeetsItself(op: Op, e: Expr, t: Expr, p: Path)
    requires SpineLeaf(op, t, p) && At(t, p) == e && ClearedBefore(op, t, p) && ExprEq(e, e)
    ensures EliminateEqLeaves(op, e, t) == (Cleared(op, e), Put(t, p, Cleared(op, e)))
    decreases p
  {
    if p != [] {
      LeafMeetsItself(op, e, Child(t, p[0]), p[1..]);
      if p[0].L? {
        ConstantPasses(op, Cleared(op, e), t.right);
      } else {
        LeafPasses(op, e, t.left);
      }
    }
  }

  lemma {:induction false} BeforeChildren(op: Op, t: Expr, p: Path, l: Expr)
    requires OnSpine(op, t, p) && ClearedBefore(op, t, p) && Is(op, At(t, p)) && AllYn(op, l)
    ensures OnSpine(op, t, p + [L]) && ClearedBefore(op, t, p + [L])
    ensures var u := Put(t, p + [L], l); OnSpine(op, u, p + [R]) && ClearedBefore(op, u, p + [R])
    decreases p
  {
    if p == [] {
      assert [] + [L] == [L] && [] + [R] == [R] && [L][1..] == [] && [R][1..] == [];
    } else {
      assert (p + [L])[1..] == p[1..] + [L] && (p + [R])[1..] == p[1..] + [R];
      BeforeChildren(op, Child(t, p[0]), p[1..], l);
    }
  }

  /** A spine below a slot meets itself there, leaf after leaf. */
  lemma {:induction false} SpineMeetsItself(op: Op, e: Expr, t: Expr, p: Path)
    requires OnSpine(op, t, p) && At(t, p) == e && ClearedBefore(op, t, p)
    ensures EliminateEqLeaves(op, e, t) == (Cleared(op, e), Put(t, p, Cleared(op, e)))
    decreases Size(e), if Is(op, e) then 0 else 2
  {
    if Is(op, e) {
      var l, r := Cleared(op, e.left), Cleared(op, e.right);
      ClearedIsYn(op, e.left);
      SpineAppend(op, t, p, L);
      BeforeChildren(op, t, p, l);
      ChildSlot(t, p, L, l);
      SpineMeetsItself(op, e.left, t, p + [L]);
      var u := Put(t, p + [L], l);
      ChildSlot(u, p, R, r);
      SpineMeetsItself(op, e.right, u, p + [R]);
    } else {
      ExprEqReflexive(e);
      LeafMeetsItself(op, e, t, p);
    }
  }

  lemma {:induction false} ExprEqReflexive(e: Expr)
    ensures ExprEq(e, e)
    decreases Size(e), 1
  {
    match e
    case Not(x) => ExprEqReflexive(x);
    case Bin(op, _, _) =>
      SpineMeetsItself(op, e, e, []);
      ClearedIsYn(op, e);
    case _ =>
  }

  /** Equal operands are joined to one of them. */
  lemma SameIsJoined(op: Op, e: Expr)
    ensures Join(op, e, e) == Some(e)
  {
    ExprEqReflexive(e);
  }

  /** So a tree without joinable leaves has no leaf of its spine twice. */
  lemma NoLeafTwice(t: Expr, i: Path, j: Path)
    requires t.Bin? && DupFree(t) && SpineLeaf(t.op, t, i) && SpineLeaf(t.op, t, j) && i != j
    ensures At(t, i) != At(t, j)
  {
    SameIsJoined(t.op, At(t, i));
  }

  /** Nor two leaves that one of the rules is for. */
  lemma NoRuleLeft(t: Expr, i: Path, j: Path, s: Symbol)
    requires t.Bin? && DupFree(t) && SpineLeaf(t.op, t, i) && SpineLeaf(t.op, t, j) && i != j
    ensures !Matches(t.op, s, At(t, i), At(t, j))
  {
    hide Matches, Join;
    assert [] <= i && [] <= j;
    JoinIff(t.op, At(t, i), At(t, j));
  }
}
