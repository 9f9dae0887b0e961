/** When the test of expr_eliminate_dups2 in util/kconfig/expr.c fires: on a tree and its
    transformed negation always, under AND and under OR, and without constants exactly when
    the leaves of the negation are among the leaves of the other side. */
module KconfigOpposites {
  import opened KconfigExpr
  import opened KconfigTransform
  import opened KconfigJoin
  import opened KconfigSlots
  import opened KconfigDups
  import opened KconfigReflexive
  import opened KconfigSpines

  // ---------------------------------------------------------------------------
  // A spine and itself
  // ---------------------------------------------------------------------------

  predicate AllNeutral(op: Op, e: Expr) {
    if Is(op, e) then AllNeutral(op, e.left) && AllNeutral(op, e.right) else e == Leaf(op.Neutral())
  }

  function Emptied(op: Op, e: Expr): (r: Expr)
    ensures AllNeutral(op, r)
  {
    if Is(op, e) then Bin(op, Emptied(op, e.left), Emptied(op, e.right)) else Leaf(op.Neutral())
  }

  /** Everything to the left of a slot has been taken out. */
  predicate EmptiedBefore(op: Op, t: Expr, p: Path)
    requires OnSpine(op, t, p)
  {
    p != [] ==> EmptiedBefore(op, Child(t, p[0]), p[1..]) && (p[0].R? ==> AllNeutral(op, t.left))
  }

  lemma {:induction false} NeutralVanishes(op: Op, e: Expr)
    requires AllNeutral(op, e)
    ensures EliminateYn(e) == Leaf(op.Neutral())
  {
    if Is(op, e) {
      NeutralVanishes(op, e.left);
      NeutralVanishes(op, e.right);
    }
  }

  /** What expr_extract_eq leaves of a leaf and a tree: e' and t', and an accumulator that is
      not lost. */
  predicate Extracts(op: Op, acc: Option<Expr>, e: Expr, t: Expr, e': Expr, t': Expr) {
    var (a, x, y) := ExtractEq(op, acc, e, t);
    x == e' && y == t' && (acc.Some? ==> a.Some?)
  }

  /** The neutral constant passes any spine, and any leaf passes an emptied one. */
  lemma {:induction false} PassesSpine(op: Op, acc: Option<Expr>, e: Expr, t: Expr)
    requires !Is(op, e) && (e == Leaf(op.Neutral()) || AllNeutral(op, t))
    ensures Extracts(op, acc, e, t, e, t)
    decreases t
  {
    if Is(op, t) {
      PassesSpine(op, acc, e, t.left);
      PassesSpine(op, ExtractEq(op, acc, e, t.left).0, e, t.right);
    } else if ExprEq(e, t) {
      assert e == t == Leaf(op.Neutral());
    }
  }

  /** A leaf finds itself. */
  lemma {:induction false} LeafFindsItself(op: Op, acc: Option<Expr>, e: Expr, t: Expr, p: Path)
    requires SpineLeaf(op, t, p) && At(t, p) == e && EmptiedBefore(op, t, p) && ExprEq(e, e)
    ensures Extracts(op, acc, e, t, Leaf(op.Neutral()), Put(t, p, Leaf(op.Neutral())))
    ensures ExtractEq(op, acc, e, t).0.Some?
    decreases p
  {
    if p != [] {
      if p[0].L? {
        LeafFindsItself(op, acc, e, t.left, p[1..]);
        PassesSpine(op, ExtractEq(op, acc, e, t.left).0, Leaf(op.Neutral()), t.right);
      } else {
        PassesSpine(op, acc, e, t.left);
        LeafFindsItself(op, ExtractEq(op, acc, e, t.left).0, e, t.right, p[1..]);
      }
    }
  }

  lemma {:induction false} EmptiedChildren(op: Op, t: Expr, p: Path, l: Expr)
    requires OnSpine(op, t, p) && EmptiedBefore(op, t, p) && Is(op, At(t, p)) && AllNeutral(op, l)
    ensures OnSpine(op, t, p + [L]) && EmptiedBefore(op, t, p + [L])
    ensures var u := Put(t, p + [L], l); OnSpine(op, u, p + [R]) && EmptiedBefore(op, u, p + [R])
    decreases p
  {
    if p == [] {
      assert [] + [L] == [L] && [] + [R] == [R] && [L][1..] == [] && [R][1..] == [];
    } else {
      assert (p + [L])[1..] == p[1..] + [L] && (p + [R])[1..] == p[1..] + [R];
      EmptiedChildren(op, Child(t, p[0]), p[1..], l);
    }
  }

  /** A spine below a slot meets itself there, leaf after leaf. */
  lemma {:induction false} SpineFindsItself(op: Op, acc: Option<Expr>, e: Expr, t: Expr, p: Path)
    requires OnSpine(op, t, p) && At(t, p) == e && EmptiedBefore(op, t, p)
    ensures Extracts(op, acc, e, t, Emptied(op, e), Put(t, p, Emptied(op, e)))
    ensures ExtractEq(op, acc, e, t).0.Some?
    decreases e
  {
    if Is(op, e) {
      var l, r := Emptied(op, e.left), Emptied(op, e.right);
      SpineAppend(op, t, p, L);
      EmptiedChildren(op, t, p, l);
      ChildSlot(t, p, L, l);
      SpineFindsItself(op, acc, e.left, t, p + [L]);
      var u := Put(t, p + [L], l);
      ChildSlot(u, p, R, r);
      SpineFindsItself(op, ExtractEq(op, acc, e.left, t).0, e.right, u, p + [R]);
    } else {
      ExprEqReflexive(e);
      LeafFindsItself(op, acc, e, t, p);
    }
  }

  /** For every tree and both operators: a tree contradicts its transformed negation. */
  lemma OppositesContradict(op: Op, e: Expr)
    ensures Contradicts(op, e, Transform(Not(e)))
  {
    var t := Transform(Not(e));
    SpineFindsItself(op, None, t, t, []);
    NeutralVanishes(op, Emptied(op, t));
  }

  /** So no leaf of a spine that is left stands beside its own negation, which under AND
      would be n and under OR y. */
  lemma NoOppositesLeft(t: Expr, i: Path, j: Path)
    requires t.Bin? && Clean(t) && SpineLeaf(t.op, t, i) && OnSpine(t.op, t, j) && i != j && At(t, i).Bin?
    ensures At(t, j) != Transform(Not(At(t, i)))
  {
    assert NoContradiction(t.op, t, [], []);
    assert [] <= i && [] <= j;
    assert PairFree(t.op, t, i, j);
    OppositesContradict(t.op, At(t, i));
  }

  // ---------------------------------------------------------------------------
  // Without constants
  // ---------------------------------------------------------------------------

  lemma {:induction false} NothingExtracted(op: Op, e1: Expr, e2: Expr)
    ensures var (a, x, y) := ExtractEq(op, None, e1, e2); a.None? ==> x == e1 && y == e2
    decreases Size(e1) + Size(e2)
  {
    if Is(op, e1) {
      var (a, l, x) := ExtractEq(op, None, e1.left, e2);
      SomeStays(op, a, e1.right, x);
      NothingExtracted(op, e1.left, e2);
      NothingExtracted(op, e1.right, x);
    } else if Is(op, e2) {
      var (a, x, l) := ExtractEq(op, None, e1, e2.left);
      SomeStays(op, a, x, e2.right);
      NothingExtracted(op, e1, e2.left);
      NothingExtracted(op, x, e2.right);
    }
  }

  lemma {:induction false} SomeStays(op: Op, acc: Option<Expr>, e1: Expr, e2: Expr)
    ensures acc.Some? ==> ExtractEq(op, acc, e1, e2).0.Some?
    decreases Size(e1) + Size(e2)
  {
    if Is(op, e1) {
      var (a, l, x) := ExtractEq(op, acc, e1.left, e2);
      SomeStays(op, acc, e1.left, e2);
      SomeStays(op, a, e1.right, x);
    } else if Is(op, e2) {
      var (a, x, l) := ExtractEq(op, acc, e1, e2.left);
      SomeStays(op, acc, e1, e2.left);
      SomeStays(op, a, x, e2.right);
    }
  }

  /** expr_extract_eq, too, takes out of both spines exactly what they have in common. */
  lemma {:induction false} ExtractsExactly(op: Op, acc: Option<Expr>, e1: Expr, e2: Expr)
    requires Cancelling(op, e1) && Cancelling(op, e2)
    ensures var (a, x, y) := ExtractEq(op, acc, e1, e2); Cancelled(op, e1, e2, x, y)
    decreases Size(e1) + Size(e2)
  {
    if Is(op, e1) {
      var (a, l, x) := ExtractEq(op, acc, e1.left, e2);
      ExtractsExactly(op, acc, e1.left, e2);
      assert Cancelling(op, x);
      ExtractsExactly(op, a, e1.right, x);
      var (b, r, y) := ExtractEq(op, a, e1.right, x);
      hide Cancelled;
      CancelledFirst(op, e1.left, e1.right, e2, l, x, r, y);
    } else if Is(op, e2) {
      var (a, x, l) := ExtractEq(op, acc, e1, e2.left);
      ExtractsExactly(op, acc, e1, e2.left);
      assert Cancelling(op, x);
      ExtractsExactly(op, a, x, e2.right);
      var (b, y, r) := ExtractEq(op, a, x, e2.right);
      hide Cancelled;
      CancelledSecond(op, e2.left, e2.right, e1, l, x, r, y);
    } else {
      LeafExtracted(op, acc, e1, e2);
    }
  }

  lemma LeafExtracted(op: Op, acc: Option<Expr>, e1: Expr, e2: Expr)
    requires Cancelling(op, e1) && Cancelling(op, e2) && !Is(op, e1) && !Is(op, e2)
    ensures var (a, x, y) := ExtractEq(op, acc, e1, e2); Cancelled(op, e1, e2, x, y)
  {
    if IsYn(e1) || IsYn(e2) {
      if ExprEq(e1, e2) { NeutralEq(e1, e2); }
      hide Cancelled;
      NeutralMeets(op, e1, e2);
    } else {
      ExprEqExactly(e1, e2);
      hide Cancelled, CanonOf;
      LeafMeets(op, e1, e2, ExprEq(e1, e2));
    }
  }

  /** Without constants the test fires if and only if the leaves of the negation are among
      the leaves of the other side, as often as they occur. */
  lemma ContradictsIff(op: Op, e1: Expr, e2: Expr)
    requires Is(op.Dual(), e1) && ConstantFree(Transform(Not(e1))) && ConstantFree(e2) && !IsYn(e2)
    ensures Contradicts(op, e1, e2) <==> LeavesOf(op, Transform(Not(e1))) <= LeavesOf(op, e2)
  {
    NegationIsSpine(op, e1);
    CommonIff(op, Transform(Not(e1)), e2);
  }

  lemma CommonIff(op: Op, t: Expr, e: Expr)
    requires Is(op, t) && ConstantFree(t) && ConstantFree(e) && !IsYn(e)
    ensures ExtractCommon(op, t, e).1 == Leaf(op.Neutral()) <==> LeavesOf(op, t) <= LeavesOf(op, e)
  {
    hide ExtractEq, EliminateYn, Cancelling, LeavesOf, Rest, ConstantFree;
    var (a, x, y) := ExtractEq(op, None, t, e);
    NothingCancelled(op, t);
    NothingCancelled(op, e);
    ExtractsExactly(op, None, t, e);
    NothingExtracted(op, t, e);
    YnOfRest(op, x);
    Contained(LeavesOf(op, t), LeavesOf(op, e));
    SomeLeaf(op, t);
  }

  /** The negation of a spine of one operator is a spine of the other. */
  lemma NegationIsSpine(op: Op, e: Expr)
    requires Is(op.Dual(), e)
    ensures Is(op, Transform(Not(e)))
  {
    assert Is(op.Dual(), Transform(e));
    assert Transform(Not(e)) == Transform(Bin(op, Not(Transform(e).left), Not(Transform(e).right)));
  }

  // ---------------------------------------------------------------------------
  // Both operators do sharpen
  // ---------------------------------------------------------------------------

  /** (s || t) && !s && !t, and (s && t) || !s || !t. */
  function Opposed(op: Op, s: Symbol, t: Symbol): Expr {
    Bin(op, Bin(op.Dual(), Leaf(s), Leaf(t)), Bin(op, Not(Leaf(s)), Not(Leaf(t))))
  }

  lemma NegatedPair(op: Op, s: Symbol, t: Symbol)
    requires s.IsLogical() && t.IsLogical()
    ensures Transform(Not(Bin(op.Dual(), Leaf(s), Leaf(t)))) == Bin(op, Not(Leaf(s)), Not(Leaf(t)))
  {
    var e1, e2 := Bin(op.Dual(), Leaf(s), Leaf(t)), Bin(op, Not(Leaf(s)), Not(Leaf(t)));
    NnfIsFixed(e1);
    NnfIsFixed(e2);
    assert Transform(e1) == Bin(op.Dual(), Leaf(s), Leaf(t));
    assert op.Dual().Dual() == op;
    assert Transform(Not(e1)) == Transform(Bin(op.Dual().Dual(), Not(Leaf(s)), Not(Leaf(t))));
  }

  lemma LeafOfBin(op: Op, e: Expr, p: Path)
    requires SpineLeaf(op, e, p)
    ensures Is(op, e) ==> p != [] && SpineLeaf(op, Child(e, p[0]), p[1..]) && p == [p[0]] + p[1..]
    ensures !Is(op, e) ==> p == []
  {
  }

  lemma TwoLeavesAt(op: Op, a: Expr, b: Expr, p: Path)
    requires SpineLeaf(op, Bin(op, a, b), p) && !Is(op, a) && !Is(op, b)
    ensures p == [L] || p == [R]
    ensures At(Bin(op, a, b), p) == if p == [L] then a else b
  {
    LeafOfBin(op, Bin(op, a, b), p);
    LeafOfBin(op, Child(Bin(op, a, b), p[0]), p[1..]);
  }

  lemma OpposedLeaves(op: Op, s: Symbol, t: Symbol, p: Path)
    requires SpineLeaf(op, Opposed(op, s, t), p)
    ensures p == [L] || p == [R, L] || p == [R, R]
    ensures At(Opposed(op, s, t), p) ==
              if p == [L] then Bin(op.Dual(), Leaf(s), Leaf(t)) else Not(Leaf(if p == [R, L] then s else t))
  {
    LeafOfBin(op, Opposed(op, s, t), p);
    if p[0].R? {
      TwoLeavesAt(op, Not(Leaf(s)), Not(Leaf(t)), p[1..]);
    } else {
      LeafOfBin(op, Bin(op.Dual(), Leaf(s), Leaf(t)), p[1..]);
    }
  }

  lemma OpposedPair(op: Op, s: Symbol, t: Symbol, a: Expr, b: Expr)
    requires s != t && a != b
    requires a in {Bin(op.Dual(), Leaf(s), Leaf(t)), Not(Leaf(s)), Not(Leaf(t))}
    requires b in {Bin(op.Dual(), Leaf(s), Leaf(t)), Not(Leaf(s)), Not(Leaf(t))}
    ensures Join(op, a, b).None?
  {
    if a.Bin? {
      assert FirstSymbol(a).None? && !ExprEq(a, b);
    } else if b.Bin? {
      assert SecondSymbol(b).None? && !ExprEq(a, b);
    } else {
      assert !ExprEq(a.operand, b.operand);
      assert FirstSymbol(a) == Some(a.operand.sym) && SecondSymbol(b) == Some(b.operand.sym);
    }
  }

  lemma PairJoinFree(op: Op, s: Symbol, t: Symbol)
    requires s != t
    ensures DupFree(Bin(op, Leaf(s), Leaf(t)))
  {
    var e := Bin(op, Leaf(s), Leaf(t));
    forall i, j | SpineLeaf(op, e, i) && SpineLeaf(op, e, j) && i != j
      ensures Join(op, At(e, i), At(e, j)).None? && DupFree(At(e, i))
    {
      TwoLeavesAt(op, Leaf(s), Leaf(t), i);
      TwoLeavesAt(op, Leaf(s), Leaf(t), j);
    }
  }

  lemma OpposedJoinFree(op: Op, s: Symbol, t: Symbol)
    requires s != t
    ensures DupFree(Opposed(op, s, t))
  {
    var e := Opposed(op, s, t);
    PairJoinFree(op.Dual(), s, t);
    forall i, j | SpineLeaf(op, e, i) && SpineLeaf(op, e, j) && i != j
      ensures Join(op, At(e, i), At(e, j)).None? && DupFree(At(e, i))
    {
      OpposedLeaves(op, s, t, i);
      OpposedLeaves(op, s, t, j);
      OpposedPair(op, s, t, At(e, i), At(e, j));
    }
  }

  lemma FirstTwo(op: Op, a: Expr, b: Expr)
    requires !Is(op, a)
    ensures SpineLeaf(op, Bin(op, a, b), [L]) && At(Bin(op, a, b), [L]) == a
    ensures OnSpine(op, Bin(op, a, b), [R]) && At(Bin(op, a, b), [R]) == b
  {
    assert [L][1..] == [] && [R][1..] == [];
    assert OnSpine(op, a, []) && OnSpine(op, b, []);
  }

  lemma PairHasNone(op: Op, s: Symbol, t: Symbol)
    ensures ContradictionFree(Bin(op, Leaf(s), Leaf(t)))
  {
    var e := Bin(op, Leaf(s), Leaf(t));
    forall i, j | SpineLeaf(op, e, i) && OnSpine(op, e, j) ensures PairFree(op, e, i, j) {
      TwoLeavesAt(op, Leaf(s), Leaf(t), i);
    }
  }

  /** Such a tree has a contradiction and nothing else to do. */
  lemma OpposedCollapses(op: Op, s: Symbol, t: Symbol)
    requires s.IsLogical() && t.IsLogical() && s != t
    ensures Collapses(Opposed(op, s, t))
  {
    var e1, e2 := Bin(op.Dual(), Leaf(s), Leaf(t)), Bin(op, Not(Leaf(s)), Not(Leaf(t)));
    var e := Opposed(op, s, t);
    OpposedJoinFree(op, s, t);
    OppositesContradict(op, e1);
    NegatedPair(op, s, t);
    PairHasNone(op.Dual(), s, t);
    hide Contradicts, Join, Transform;
    FirstTwo(op, e1, e2);
    assert InnerFree(op, e1) && InnerFree(op, e2) && InnerFree(op, e);
    assert op.Dual().Dual() == op;
    assert !PairFree(op, e, [L], [R]);
    assert [] <= [L] && [] <= [R] && !NoContradiction(op, e, [], []);
  }

  /** Every tristate is m. */
  function AllMod(): (v: Valuation)
    ensures WellFormed(v) && forall s: Symbol | s.Type().Tristate? :: v(s).tri == MOD
  {
    var b := BaseValuation();
    (s: Symbol) => if s.Type().Tristate? then Value(MOD, "m") else b(s)
  }

  /** The sharpening is real under both operators: such a tree is m when its symbols are,
      and has nothing but the contradiction, so it becomes the absorbing constant. */
  lemma SharpeningHappens(op: Op, s: Symbol, t: Symbol)
    requires s.Type().Tristate? && t.Type().Tristate? && s != t
    ensures Collapses(Opposed(op, s, t))
    ensures exists v: Valuation :: WellFormed(v) && Eval(Opposed(op, s, t), v) == MOD
  {
    OpposedCollapses(op, s, t);
    hide Collapses;
    var v := AllMod();
    assert v(s).tri == MOD && v(t).tri == MOD;
    assert Eval(Bin(op.Dual(), Leaf(s), Leaf(t)), v) == MOD;
    assert Eval(Not(Leaf(s)), v) == MOD && Eval(Not(Leaf(t)), v) == MOD;
    assert Eval(Bin(op, Not(Leaf(s)), Not(Leaf(t))), v) == MOD;
    assert Eval(Opposed(op, s, t), v) == MOD;
  }

  /** What the pass makes of it: n under AND, y under OR. */
  method Sharpen(op: Op, s: Symbol, t: Symbol) returns (e: Expr)
    requires s.Type().Tristate? && t.Type().Tristate? && s != t
    ensures op.And? ==> e == Leaf(SymNo)
    ensures op.Or? ==> e == Leaf(SymYes)
    ensures exists v: Valuation :: WellFormed(v) && Eval(Opposed(op, s, t), v) == MOD
  {
    SharpeningHappens(op, s, t);
    var x := new ExprTree(Opposed(op, s, t));
    x.EliminateDups();
    e := x.tree;
  }
}
