/** What expr_eq of util/kconfig/expr.c recognises: trees without y or n under an
    operator are equal to it exactly if they differ in the order and the grouping of
    their operands only. */
module KconfigSpines {
  import opened KconfigExpr
  import opened KconfigTransform
  import opened KconfigJoin
  import opened KconfigSlots
  import opened KconfigDups

  /** A tree up to the order and the grouping of operands: a spine is the multiset of
      its leaves. */
  datatype Canon =
    | Atom(e: Expr)
    | Neg(c: Canon)
    | Spine(op: Op, leaves: multiset<Canon>)

  function CanonOf(e: Expr): Canon
    decreases e, 1
  {
    match e
    case Not(x) => Neg(CanonOf(x))
    case Bin(op, _, _) => Spine(op, LeavesOf(op, e))
    case _ => Atom(e)
  }

  function LeavesOf(op: Op, e: Expr): multiset<Canon>
    decreases e, if Is(op, e) then 0 else 2
  {
    if Is(op, e) then LeavesOf(op, e.left) + LeavesOf(op, e.right) else multiset{CanonOf(e)}
  }

  /** No y or n directly under AND or OR, below a NOT neither. */
  predicate ConstantFree(e: Expr) {
    match e
    case Not(x) => ConstantFree(x)
    case Bin(_, l, r) => ConstantFree(l) && ConstantFree(r) && !IsYn(l) && !IsYn(r)
    case _ => true
  }

  lemma {:induction false} ConstantFreeNormal(e: Expr)
    requires ConstantFree(e)
    ensures Normal(e)
  {
    if e.Bin? {
      ConstantFreeNormal(e.left);
      ConstantFreeNormal(e.right);
    }
  }

  /** What expr_transform and expr_eliminate_yn leave is such a tree. */
  lemma {:induction false} NnfConstantFree(e: Expr)
    requires Nnf(e) && Normal(e)
    ensures ConstantFree(e)
  {
    if e.Bin? {
      NnfConstantFree(e.left);
      NnfConstantFree(e.right);
    }
  }

  // ---------------------------------------------------------------------------
  // A spine while it is being cancelled
  // ---------------------------------------------------------------------------

  /** A spine of such trees, some of which have been cancelled already. */
  predicate Cancelling(op: Op, e: Expr) {
    if Is(op, e) then Cancelling(op, e.left) && Cancelling(op, e.right)
    else e == Leaf(op.Neutral()) || (ConstantFree(e) && !IsYn(e))
  }

  /** The leaves that have not been cancelled. */
  function Rest(op: Op, e: Expr): multiset<Canon> {
    if Is(op, e) then Rest(op, e.left) + Rest(op, e.right)
    else if e == Leaf(op.Neutral()) then multiset{}
    else multiset{CanonOf(e)}
  }

  lemma {:induction false} NothingCancelled(op: Op, e: Expr)
    requires ConstantFree(e) && !IsYn(e)
    ensures Cancelling(op, e) && Rest(op, e) == LeavesOf(op, e)
  {
    if Is(op, e) {
      NothingCancelled(op, e.left);
      NothingCancelled(op, e.right);
    }
  }

  /** Constant elimination leaves the neutral constant if and only if everything has been
      cancelled, and a symbol only if that is all that is left. */
  lemma {:induction false} YnOfRest(op: Op, e: Expr)
    requires Cancelling(op, e)
    ensures Rest(op, e) == multiset{} <==> EliminateYn(e) == Leaf(op.Neutral())
    ensures EliminateYn(e) != Leaf(op.Absorbing())
    ensures EliminateYn(e).Leaf? && EliminateYn(e) != Leaf(op.Neutral()) ==>
              Rest(op, e) == multiset{Atom(EliminateYn(e))}
  {
    if Is(op, e) {
      YnOfRest(op, e.left);
      YnOfRest(op, e.right);
      EmptySum(Rest(op, e.left), Rest(op, e.right));
    } else if e != Leaf(op.Neutral()) {
      ConstantFreeNormal(e);
      EliminateYnNormalises(e);
    }
  }

  lemma EmptySum(a: multiset<Canon>, b: multiset<Canon>)
    ensures a + b == multiset{} <==> a == multiset{} && b == multiset{}
  {
    if a != multiset{} {
      var x :| x in a;
      assert x in a + b;
    }
    if b != multiset{} {
      var x :| x in b;
      assert x in a + b;
    }
  }

  /** Cancelling a + b against c, one after the other. */
  lemma CancelSum(a: multiset<Canon>, b: multiset<Canon>, c: multiset<Canon>)
    ensures (a - c) + (b - (c - a)) == (a + b) - c
    ensures (c - a) - b == c - (a + b)
  {
  }

  /** expr_eq is equality of canonical forms. */
  lemma {:induction false} ExprEqExactly(e1: Expr, e2: Expr)
    requires ConstantFree(e1) && ConstantFree(e2)
    ensures ExprEq(e1, e2) <==> CanonOf(e1) == CanonOf(e2)
    decreases Size(e1) + Size(e2), 2
  {
    if SameType(e1, e2) {
      if e1.Not? {
        ExprEqExactly(e1.operand, e2.operand);
      } else if e1.Bin? {
        SpinesEqual(e1.op, e1, e2);
      }
    }
  }

  /** expr_eq on two spines asks what is left of them. */
  lemma ExprEqOfRest(op: Op, e1: Expr, e2: Expr)
    requires Is(op, e1) && Is(op, e2)
    ensures var (a, b) := EliminateEqLeaves(op, e1, e2);
            Is(op, a) && Is(op, b) ==>
              (ExprEq(e1, e2) <==> EliminateYn(a).Leaf? && EliminateYn(a) == EliminateYn(b))
  {
    var (a, b) := EliminateEqLeaves(op, e1, e2);
    if Is(op, a) && Is(op, b) {
      assert EliminateEq(e1, e2) == (EliminateYn(a), EliminateYn(b));
    }
  }

  lemma {:induction false} SpinesEqual(op: Op, e1: Expr, e2: Expr)
    requires ConstantFree(e1) && ConstantFree(e2) && Is(op, e1) && Is(op, e2)
    ensures ExprEq(e1, e2) <==> LeavesOf(op, e1) == LeavesOf(op, e2)
    decreases Size(e1) + Size(e2), 1
  {
    var (a, b) := EliminateEqLeaves(op, e1, e2);
    var m, n := LeavesOf(op, e1), LeavesOf(op, e2);
    NothingCancelled(op, e1);
    NothingCancelled(op, e2);
    LeavesCancelExactly(op, e1, e2);
    ExprEqOfRest(op, e1, e2);
    YnOfRest(op, a);
    YnOfRest(op, b);
    NoCommonRest(m, n);
    hide ExprEq, EliminateYn, EliminateEqLeaves, LeavesOf, Cancelling, Rest;
    var x := Atom(EliminateYn(a));
    assert !(m - n == multiset{x} && n - m == multiset{x}) by {
      if m - n == multiset{x} { assert x in m - n; }
    }
  }

  lemma NoCommonRest(m: multiset<Canon>, n: multiset<Canon>)
    ensures forall x :: x in m - n ==> x !in n - m
    ensures m == n <==> m - n == multiset{} && n - m == multiset{}
  {
    if m - n == multiset{} && n - m == multiset{} {
      forall x ensures m[x] == n[x] {
        assert (m - n)[x] == 0 && (n - m)[x] == 0;
      }
    }
  }

  /** From e1 and e2 to a and b exactly what the spines have in common was taken out. */
  predicate Cancelled(op: Op, e1: Expr, e2: Expr, a: Expr, b: Expr) {
    && Cancelling(op, a) && Cancelling(op, b)
    && Rest(op, a) == Rest(op, e1) - Rest(op, e2)
    && Rest(op, b) == Rest(op, e2) - Rest(op, e1)
    && Is(op, a) == Is(op, e1) && Is(op, b) == Is(op, e2)
  }

  lemma RestOfBin(op: Op, l: Expr, r: Expr)
    ensures Rest(op, Bin(op, l, r)) == Rest(op, l) + Rest(op, r)
    ensures Cancelling(op, Bin(op, l, r)) <==> Cancelling(op, l) && Cancelling(op, r)
  {
  }

  lemma CancelledFirst(op: Op, l: Expr, r: Expr, e: Expr, l': Expr, x: Expr, r': Expr, y: Expr)
    requires Cancelled(op, l, e, l', x) && Cancelled(op, r, x, r', y)
    ensures Cancelled(op, Bin(op, l, r), e, Bin(op, l', r'), y)
  {
    RestOfBin(op, l, r);
    RestOfBin(op, l', r');
    hide Rest, Cancelling;
    CancelSum(Rest(op, l), Rest(op, r), Rest(op, e));
  }

  lemma CancelledSecond(op: Op, l: Expr, r: Expr, e: Expr, l': Expr, x: Expr, r': Expr, y: Expr)
    requires Cancelled(op, e, l, x, l') && Cancelled(op, x, r, y, r')
    ensures Cancelled(op, e, Bin(op, l, r), y, Bin(op, l', r'))
  {
    RestOfBin(op, l, r);
    RestOfBin(op, l', r');
    hide Rest, Cancelling;
    CancelSum(Rest(op, l), Rest(op, r), Rest(op, e));
  }

  /** __expr_eliminate_eq takes out of both spines exactly what they have in common. */
  lemma {:induction false} LeavesCancelExactly(op: Op, e1: Expr, e2: Expr)
    requires Cancelling(op, e1) && Cancelling(op, e2)
    ensures var (a, b) := EliminateEqLeaves(op, e1, e2); Cancelled(op, e1, e2, a, b)
    decreases Size(e1) + Size(e2), if Is(op, e1) || Is(op, e2) then 0 else 4
  {
    if Is(op, e1) {
      var (l, x) := EliminateEqLeaves(op, e1.left, e2);
      LeavesCancelExactly(op, e1.left, e2);
      assert Cancelling(op, x);
      LeavesCancelExactly(op, e1.right, x);
      var (r, y) := EliminateEqLeaves(op, e1.right, x);
      hide Cancelled;
      CancelledFirst(op, e1.left, e1.right, e2, l, x, r, y);
    } else if Is(op, e2) {
      var (x, l) := EliminateEqLeaves(op, e1, e2.left);
      LeavesCancelExactly(op, e1, e2.left);
      assert Cancelling(op, x);
      LeavesCancelExactly(op, x, e2.right);
      var (y, r) := EliminateEqLeaves(op, x, e2.right);
      hide Cancelled;
      CancelledSecond(op, e2.left, e2.right, e1, l, x, r, y);
    } else {
      LeafCancelled(op, e1, e2);
    }
  }

  lemma {:induction false} LeafCancelled(op: Op, e1: Expr, e2: Expr)
    requires Cancelling(op, e1) && Cancelling(op, e2) && !Is(op, e1) && !Is(op, e2)
    ensures var (a, b) := EliminateEqLeaves(op, e1, e2); Cancelled(op, e1, e2, a, b)
    decreases Size(e1) + Size(e2), 3
  {
    if IsYn(e1) || IsYn(e2) {
      if ExprEq(e1, e2) { NeutralEq(e1, e2); }
      hide Cancelled;
      NeutralMeets(op, e1, e2);
    } else {
      ExprEqExactly(e1, e2);
      hide Cancelled, CanonOf;
      LeafMeets(op, e1, e2, ExprEq(e1, e2));
    }
  }

  lemma NeutralEq(e1: Expr, e2: Expr)
    requires (IsYn(e1) || IsYn(e2)) && ExprEq(e1, e2)
    ensures e1 == e2
  {
  }

  lemma NeutralMeets(op: Op, e1: Expr, e2: Expr)
    requires Cancelling(op, e1) && Cancelling(op, e2) && !Is(op, e1) && !Is(op, e2)
    requires IsYn(e1) || IsYn(e2)
    ensures Cancelled(op, e1, e2, e1, e2)
  {
    hide CanonOf;
    assert Rest(op, e1) == multiset{} || Rest(op, e2) == multiset{};
  }

  lemma LeafMeets(op: Op, e1: Expr, e2: Expr, equal: bool)
    requires Cancelling(op, e1) && Cancelling(op, e2) && !Is(op, e1) && !Is(op, e2)
    requires !IsYn(e1) && !IsYn(e2) && (equal <==> CanonOf(e1) == CanonOf(e2))
    ensures var n := Leaf(op.Neutral());
            Cancelled(op, e1, e2, if equal then n else e1, if equal then n else e2)
  {
    hide CanonOf;
    Singles(CanonOf(e1), CanonOf(e2));
  }

  lemma Singles(x: Canon, y: Canon)
    ensures x == y ==> multiset{x} - multiset{y} == multiset{}
    ensures x != y ==> multiset{x} - multiset{y} == multiset{x} && multiset{y} - multiset{x} == multiset{y}
  {
  }

  // ---------------------------------------------------------------------------
  // When only y is left of the second tree
  // ---------------------------------------------------------------------------

  /** Whatever it meets, a spine keeps its leaves or has them replaced by the neutral
      constant. */
  lemma {:induction false} StillCancelling(op: Op, e: Expr, t: Expr)
    requires Cancelling(op, t)
    ensures var u := EliminateEqLeaves(op, e, t).1; Cancelling(op, u) && Is(op, u) == Is(op, t)
    decreases Size(e) + Size(t)
  {
    if Is(op, e) {
      StillCancelling(op, e.left, t);
      StillCancelling(op, e.right, EliminateEqLeaves(op, e.left, t).1);
    } else if Is(op, t) {
      StillCancelling(op, e, t.left);
      StillCancelling(op, EliminateEqLeaves(op, e, t.left).0, t.right);
    }
  }

  /** A leaf takes out at most one leaf of a spine. */
  lemma {:induction false} OneGone(op: Op, e: Expr, t: Expr)
    requires Cancelling(op, t) && !Is(op, e)
    ensures var (x, u) := EliminateEqLeaves(op, e, t);
            && (x == e || x == Leaf(op.Neutral())) && |Rest(op, u)| + (if x == e then 0 else 1) >= |Rest(op, t)|
    decreases t
  {
    if Is(op, t) {
      OneGone(op, e, t.left);
      OneGone(op, EliminateEqLeaves(op, e, t.left).0, t.right);
    } else if ExprEq(e, t) && !(IsYn(e) && e == t) {
      if e == Leaf(op.Neutral()) { NeutralEq(e, t); }
      hide CanonOf;
      assert |Rest(op, t)| <= 1;
    }
  }

  lemma {:induction false} NoConstantLeaf(op: Op, e: Expr, c: Symbol)
    requires ConstantFree(e) && !IsYn(e) && (c == SymYes || c == SymNo)
    ensures Atom(Leaf(c)) !in LeavesOf(op, e)
    decreases e
  {
    if Is(op, e) {
      NoConstantLeaf(op, e.left, c);
      NoConstantLeaf(op, e.right, c);
    }
  }

  /** expr_eliminate_eq leaves y of the second tree exactly if that was y, or if the first is
      a conjunction with all the conjuncts of the second. */
  lemma EliminateEqYesIff(d: Expr, b: Expr)
    requires ConstantFree(d) && ConstantFree(b)
    ensures EliminateEq(d, b).1 == Leaf(SymYes)
            <==> b == Leaf(SymYes) || (Is(And, d) && LeavesOf(And, b) <= LeavesOf(And, d))
  {
    if Is(And, d) {
      ConjunctsTaken(d, b);
    } else {
      NoConjunction(d, b);
    }
  }

  /** A constant meets a spine without effect. */
  lemma {:induction false} ConstantMeets(op: Op, d: Expr, c: Symbol)
    requires ConstantFree(d) && !IsYn(d) && (c == SymYes || c == SymNo)
    ensures EliminateEqLeaves(op, d, Leaf(c)) == (d, Leaf(c))
  {
    if Is(op, d) {
      ConstantMeets(op, d.left, c);
      ConstantMeets(op, d.right, c);
    } else if ExprEq(d, Leaf(c)) {
      NeutralEq(d, Leaf(c));
    }
  }

  lemma ConjunctsTaken(d: Expr, b: Expr)
    requires ConstantFree(d) && ConstantFree(b) && Is(And, d)
    ensures EliminateEq(d, b).1 == Leaf(SymYes) <==> b == Leaf(SymYes) || LeavesOf(And, b) <= LeavesOf(And, d)
  {
    if IsYn(b) {
      ConstantMeets(And, d, b.sym);
      NoConstantLeaf(And, d, b.sym);
      hide EliminateEqLeaves;
      assert Atom(b) in LeavesOf(And, b);
    } else {
      ConjunctsCancelled(d, b);
    }
  }

  lemma ConjunctsCancelled(d: Expr, b: Expr)
    requires ConstantFree(d) && ConstantFree(b) && Is(And, d) && !IsYn(b)
    ensures EliminateEq(d, b).1 == Leaf(SymYes) <==> LeavesOf(And, b) <= LeavesOf(And, d)
  {
    hide EliminateEqLeaves, LeavesOf, EliminateYn, Rest;
    var (a1, b1) := EliminateEqLeaves(And, d, b);
    NothingCancelled(And, d);
    NothingCancelled(And, b);
    LeavesCancelExactly(And, d, b);
    Contained(LeavesOf(And, b), LeavesOf(And, d));
    YnOfRest(And, b1);
    if Is(Or, b1) {
      DisjunctionStays(a1, b1);
      OneLeafRests(b1);
    }
  }

  lemma OneLeafRests(b: Expr)
    requires Is(Or, b)
    ensures Rest(And, b) != multiset{}
  {
    assert CanonOf(b) in Rest(And, b);
  }

  /** Of a disjunction y is never left. */
  lemma DisjunctionStays(a: Expr, b: Expr)
    requires ConstantFree(b) && Is(Or, b)
    ensures EliminateYn(EliminateEqLeaves(Or, a, b).1) != Leaf(SymYes)
  {
    NothingCancelled(Or, b);
    StillCancelling(Or, a, b);
    YnOfRest(Or, EliminateEqLeaves(Or, a, b).1);
  }

  /** Nor is it of a conjunction that meets a single leaf. */
  lemma ConjunctionStays(a: Expr, b: Expr)
    requires ConstantFree(b) && Is(And, b) && !Is(And, a)
    ensures EliminateYn(EliminateEqLeaves(And, a, b).1) != Leaf(SymYes)
  {
    NothingCancelled(And, b);
    StillCancelling(And, a, b);
    OneGone(And, a, b);
    SomeLeaf(And, b.left);
    SomeLeaf(And, b.right);
    var u := EliminateEqLeaves(And, a, b).1;
    YnOfRest(And, u);
    assert |Rest(And, b)| == |LeavesOf(And, b.left)| + |LeavesOf(And, b.right)|;
    hide EliminateEqLeaves, EliminateYn, Rest, Cancelling;
    assert Rest(And, u) != multiset{};
  }

  lemma {:induction false} SomeLeaf(op: Op, e: Expr)
    ensures LeavesOf(op, e) != multiset{} && |LeavesOf(op, e)| >= 1
  {
    if Is(op, e) {
      SomeLeaf(op, e.left);
      EmptySum(LeavesOf(op, e.left), LeavesOf(op, e.right));
    } else {
      assert CanonOf(e) in LeavesOf(op, e);
    }
  }

  lemma NoConjunction(d: Expr, b: Expr)
    requires ConstantFree(d) && ConstantFree(b) && !Is(And, d)
    ensures EliminateEq(d, b).1 == Leaf(SymYes) <==> b == Leaf(SymYes)
  {
    if Is(Or, d) {
      DisjunctionMeets(d, b);
    } else if Is(And, b) {
      ConjunctionStays(d, b);
    } else if Is(Or, b) {
      DisjunctionStays(d, b);
    }
  }

  lemma DisjunctionMeets(d: Expr, b: Expr)
    requires ConstantFree(d) && ConstantFree(b) && Is(Or, d)
    ensures EliminateEq(d, b).1 == Leaf(SymYes) <==> b == Leaf(SymYes)
  {
    var (a1, b1) := EliminateEqLeaves(Or, d, b);
    assert Is(Or, a1);
    if IsYn(b) {
      ConstantMeets(Or, d, b.sym);
    } else {
      NothingCancelled(Or, b);
      StillCancelling(Or, d, b);
      YnOfRest(Or, b1);
      hide EliminateEqLeaves;
      if Is(And, b1) { ConjunctionStays(a1, b1); }
    }
  }

  lemma Contained(m: multiset<Canon>, n: multiset<Canon>)
    ensures m <= n <==> m - n == multiset{}
  {
    if m - n == multiset{} {
      forall x ensures m[x] <= n[x] { assert (m - n)[x] == 0; }
    }
  }

  // ---------------------------------------------------------------------------
  // What follows
  // ---------------------------------------------------------------------------

  /** So it is an equivalence on such trees. */
  lemma ExprEqIsEquivalence(a: Expr, b: Expr, c: Expr)
    requires ConstantFree(a) && ConstantFree(b) && ConstantFree(c)
    ensures ExprEq(a, a)
    ensures ExprEq(a, b) ==> ExprEq(b, a)
    ensures ExprEq(a, b) && ExprEq(b, c) ==> ExprEq(a, c)
  {
    ExprEqExactly(a, a);
    ExprEqExactly(a, b);
    ExprEqExactly(b, a);
    ExprEqExactly(b, c);
    ExprEqExactly(a, c);
  }

  /** Operands may be swapped and regrouped anywhere. */
  lemma ExprEqReorders(op: Op, a: Expr, b: Expr, c: Expr)
    requires ConstantFree(a) && ConstantFree(b) && ConstantFree(c)
    requires !IsYn(a) && !IsYn(b) && !IsYn(c)
    ensures ExprEq(Bin(op, a, b), Bin(op, b, a))
    ensures ExprEq(Bin(op, Bin(op, a, b), c), Bin(op, a, Bin(op, b, c)))
  {
    hide ExprEq, CanonOf;
    CanonReorders(op, a, b, c);
    ExprEqExactly(Bin(op, a, b), Bin(op, b, a));
    ExprEqExactly(Bin(op, Bin(op, a, b), c), Bin(op, a, Bin(op, b, c)));
  }

  lemma CanonReorders(op: Op, a: Expr, b: Expr, c: Expr)
    ensures CanonOf(Bin(op, a, b)) == CanonOf(Bin(op, b, a))
    ensures CanonOf(Bin(op, Bin(op, a, b), c)) == CanonOf(Bin(op, a, Bin(op, b, c)))
  {
    hide CanonOf, LeavesOf;
    CanonOfBin(op, a, b);
    CanonOfBin(op, b, a);
    CanonOfBin(op, b, c);
    CanonOfBin(op, Bin(op, a, b), c);
    CanonOfBin(op, a, Bin(op, b, c));
  }

  lemma CanonOfBin(op: Op, l: Expr, r: Expr)
    ensures LeavesOf(op, Bin(op, l, r)) == LeavesOf(op, l) + LeavesOf(op, r)
    ensures CanonOf(Bin(op, l, r)) == Spine(op, LeavesOf(op, l) + LeavesOf(op, r))
  {
  }

  lemma OrNo(b: Symbol)
    requires b.SymVar?
    ensures EliminateYn(Bin(Or, Leaf(SymNo), Leaf(b))) == Leaf(b)
  {
    assert EliminateYn(Leaf(SymNo)) == Leaf(SymNo) && EliminateYn(Leaf(b)) == Leaf(b);
  }

  /** A leaf meets a spine of two. */
  lemma Meets(op: Op, e: Expr, l: Expr, r: Expr)
    requires !Is(op, e) && !Is(op, l) && !Is(op, r)
    ensures !ExprEq(e, l) && !ExprEq(e, r) ==> EliminateEqLeaves(op, e, Bin(op, l, r)) == (e, Bin(op, l, r))
    ensures !ExprEq(e, l) && ExprEq(e, r) && !IsYn(e) ==>
              EliminateEqLeaves(op, e, Bin(op, l, r)) == (Leaf(op.Neutral()), Bin(op, l, Leaf(op.Neutral())))
    ensures ExprEq(e, l) && !IsYn(e) && !ExprEq(Leaf(op.Neutral()), r) ==>
              EliminateEqLeaves(op, e, Bin(op, l, r)) == (Leaf(op.Neutral()), Bin(op, Leaf(op.Neutral()), r))
  {
    var n := Leaf(op.Neutral());
    assert EliminateEqLeaves(op, e, l) == if ExprEq(e, l) && !(IsYn(e) && e == l) then (n, n) else (e, l);
    assert EliminateEqLeaves(op, e, r) == if ExprEq(e, r) && !(IsYn(e) && e == r) then (n, n) else (e, r);
    assert EliminateEqLeaves(op, n, r) == if ExprEq(n, r) && !(IsYn(n) && n == r) then (n, n) else (n, r);
  }

  lemma OrNosDiffer(b: Symbol, c: Symbol)
    requires b.SymVar? && c.SymVar? && b != c
    ensures !ExprEq(Bin(Or, Leaf(SymNo), Leaf(b)), Bin(Or, Leaf(SymNo), Leaf(c)))
  {
    var n, lb, lc := Leaf(SymNo), Leaf(b), Leaf(c);
    var ob, oc := Bin(Or, n, lb), Bin(Or, n, lc);
    assert EliminateEqLeaves(Or, n, n) == (n, n) && EliminateEqLeaves(Or, n, lc) == (n, lc);
    assert EliminateEqLeaves(Or, n, oc) == (n, oc);
    Meets(Or, lb, n, lc);
    OrNo(b);
    OrNo(c);
    ExprEqOfRest(Or, ob, oc);
  }

  /** With constants inside it is not even transitive. */
  lemma ConstantsMatter(b: Symbol, c: Symbol)
    requires b.SymVar? && c.SymVar? && b != c
    ensures var x := Bin(And, Bin(Or, Leaf(SymNo), Leaf(b)), Leaf(c));
            var y := Bin(And, Leaf(b), Leaf(c));
            var z := Bin(And, Leaf(b), Bin(Or, Leaf(SymNo), Leaf(c)));
            ExprEq(x, y) && ExprEq(y, z) && !ExprEq(x, z)
  {
    var k, lb, lc := Leaf(SymYes), Leaf(b), Leaf(c);
    var ob, oc := Bin(Or, Leaf(SymNo), lb), Bin(Or, Leaf(SymNo), lc);
    var x, y, z := Bin(And, ob, lc), Bin(And, lb, lc), Bin(And, lb, oc);
    OrNo(b);
    OrNo(c);
    OrNosDiffer(b, c);
    assert EliminateYn(lb) == lb && EliminateYn(lc) == lc && EliminateYn(k) == k;
    assert ExprEq(x, y) by {
      Meets(And, ob, lb, lc);
      Meets(And, lc, lb, lc);
      assert EliminateEqLeaves(And, x, y) == (Bin(And, ob, k), Bin(And, lb, k));
      ExprEqOfRest(And, x, y);
    }
    assert ExprEq(y, z) by {
      Meets(And, lb, lb, oc);
      Meets(And, lc, k, oc);
      assert EliminateEqLeaves(And, y, z) == (Bin(And, k, lc), Bin(And, k, oc));
      ExprEqOfRest(And, y, z);
    }
    assert !ExprEq(x, z) by {
      Meets(And, ob, lb, oc);
      Meets(And, lc, lb, oc);
      assert EliminateEqLeaves(And, x, z) == (x, z);
      ExprEqOfRest(And, x, z);
    }
  }

  /** In what expr_eliminate_dups leaves, no spine has two leaves that differ in order
      and grouping only. */
  lemma LeavesDiffer(t: Expr, i: Path, j: Path)
    requires t.Bin? && DupFree(t) && ConstantFree(t)
    requires SpineLeaf(t.op, t, i) && SpineLeaf(t.op, t, j) && i != j
    ensures CanonOf(At(t, i)) != CanonOf(At(t, j))
  {
    LeafConstantFree(t.op, t, i);
    LeafConstantFree(t.op, t, j);
    ExprEqExactly(At(t, i), At(t, j));
    assert [] <= i && [] <= j;
    assert Join(t.op, At(t, i), At(t, j)).None?;
  }

  lemma {:induction false} LeafConstantFree(op: Op, e: Expr, p: Path)
    requires OnSpine(op, e, p) && ConstantFree(e)
    ensures ConstantFree(At(e, p))
  {
    if p != [] { LeafConstantFree(op, Child(e, p[0]), p[1..]); }
  }
}
