/** What menu_finalize in util/kconfig/menu.c does with conditions: the condition of a
    prompt, and the decision which entries become a submenu of the one before them. */
module KconfigMenu {
  import opened KconfigExpr
  import opened KconfigTransform
  import opened KconfigJoin
  import opened KconfigSlots
  import opened KconfigDups
  import opened KconfigPairs
  import opened KconfigSpines
  import opened KconfigOpposites

  /** A null pointer stands for y. */
  function ValueOf(e: Option<Expr>, v: Valuation): Tristate {
    if e.None? then YES else Eval(e.value, v)
  }

  /** The stored condition is n where the wanted value is n, not n where that is y, and y
      where it is y for a tristate. A boolean's is n where wanted only if clear says so. */
  predicate Stores(wanted: Tristate, got: Tristate, tristate: bool, clear: bool) {
    && (wanted == NO && (tristate || clear) ==> got == NO)
    && (wanted == YES ==> got != NO && (tristate ==> got == YES))
  }

  /** menu_finalize on one condition: transformed, joined with the condition of the menu,
      cleared of duplicates, and reduced to a boolean question when there is a symbol that
      is not tristate. The condition of the menu may be anything: for a boolean it must not
      have a test against n below a NOT, as nothing that was transformed has. */
  method FinalizeDep(basedep: Option<Expr>, visible: Option<Expr>, tristate: bool) returns (dep: Option<Expr>)
    ensures dep.None? <==> basedep.None? && visible.None?
    ensures forall v: Valuation | WellFormed(v) ::
              Stores(And.Apply(ValueOf(basedep, v), ValueOf(visible, v)), ValueOf(dep, v), tristate,
                     basedep.None? || NotsUntouched(basedep.value))
    ensures dep.Some? && (basedep.Some? ==> Nnf(basedep.value)) ==> Nnf(dep.value)
    ensures dep.Some? && tristate ==> Clean(dep.value)
    ensures dep.Some? && !tristate ==> NoTristateTest(dep.value)
    ensures dep.Some? ==> exists e | Clean(e) :: dep.value == if tristate then e else TransBool(e)
  {
    var joined := basedep;
    if visible.Some? {
      var t := new ExprTree(visible.value);
      t.TransformAt([]);
      assert t.tree == Transform(visible.value);
      TransformNnf(visible.value);
      NnfUntouched(t.tree);
      forall v: Valuation | WellFormed(v) ensures Eval(t.tree, v) == Eval(visible.value, v) {
        TransformExact(visible.value, v);
      }
      joined := Some(if basedep.None? then t.tree else Bin(And, basedep.value, t.tree));
    }
    if joined.None? { return None; }
    hide Sharpens, Clean, Nnf, NotsUntouched, WellFormed;
    var all := new ExprTree(joined.value);
    all.EliminateDups();
    ghost var e := all.tree;
    if !tristate {
      all.TransBoolAt([]);
    }
    dep := Some(all.tree);
    Stored(joined.value, e, tristate);
    TransBoolRewritesAll(e);
    hide NoTristateTest, TransBool;
  }

  lemma Stored(a: Expr, b: Expr, tristate: bool)
    requires Sharpens(a, b) && KeepsForm(a, b)
    ensures var e := if tristate then b else TransBool(b);
            && (Nnf(a) ==> Nnf(e))
            && forall v: Valuation | WellFormed(v) :: Stores(Eval(a, v), Eval(e, v), tristate, NotsUntouched(a))
  {
    if Nnf(a) { TransBoolNnf(b); }
    forall v: Valuation | WellFormed(v)
      ensures Stores(Eval(a, v), Eval(if tristate then b else TransBool(b), v), tristate, NotsUntouched(a))
    {
      TransBoolBlurs(b, v);
      if NotsUntouched(a) { TransBoolKeepsNotN(b, v); }
    }
  }

  // ---------------------------------------------------------------------------
  // Submenus
  // ---------------------------------------------------------------------------

  /** expr_contains_symbol. */
  predicate Contains(e: Expr, s: Symbol) {
    match e
    case Leaf(x) => x == s
    case Not(x) => Contains(x, s)
    case Comp(_, l, r) => l == s || r == s
    case Bin(_, l, r) => Contains(l, s) || Contains(r, s)
  }

  /** expr_depends_symbol. */
  predicate Depends(e: Expr, s: Symbol) {
    match e
    case Leaf(x) => x == s
    case Comp(rel, l, r) => l == s && if rel.Equal? then r in {SymYes, SymMod} else r == SymNo
    case Bin(op, l, r) => op.And? && (Depends(l, s) || Depends(r, s))
    case Not(_) => false
  }

  function Symbols(e: Expr): set<Symbol> {
    match e
    case Leaf(x) => {x}
    case Not(x) => Symbols(x)
    case Comp(_, l, r) => {l, r}
    case Bin(_, l, r) => Symbols(l) + Symbols(r)
  }

  lemma {:induction false} ContainsExactly(e: Expr, s: Symbol)
    ensures Contains(e, s) <==> s in Symbols(e)
  {
    match e
    case Not(x) => ContainsExactly(x, s);
    case Bin(_, l, r) =>
      ContainsExactly(l, s);
      ContainsExactly(r, s);
    case _ =>
  }

  /** The conjuncts that make an expression depend on a symbol. */
  predicate Demands(e: Expr, s: Symbol) {
    e in {Leaf(s), Comp(Equal, s, SymYes), Comp(Equal, s, SymMod), Comp(Unequal, s, SymNo)}
  }

  /** It depends on a symbol exactly if one of its conjuncts demands it. */
  lemma DependsExactly(e: Expr, s: Symbol)
    ensures Depends(e, s) <==> exists p :: SpineLeaf(And, e, p) && Demands(At(e, p), s)
  {
    hide Demands, At;
    if Depends(e, s) { var p := DemandedAt(e, s); }
    if p :| SpineLeaf(And, e, p) && Demands(At(e, p), s) { DemandCounts(e, s, p); }
  }

  lemma {:induction false} DemandedAt(e: Expr, s: Symbol) returns (p: Path)
    requires Depends(e, s)
    ensures SpineLeaf(And, e, p) && Demands(At(e, p), s)
  {
    if Is(And, e) {
      var d := if Depends(e.left, s) then L else R;
      p := DemandedAt(Child(e, d), s);
      UnderFirst(e, d, p);
      p := [d] + p;
    } else {
      p := [];
    }
  }

  lemma {:induction false} DemandCounts(e: Expr, s: Symbol, p: Path)
    requires SpineLeaf(And, e, p) && Demands(At(e, p), s)
    ensures Depends(e, s)
    decreases p
  {
    if p != [] { DemandCounts(Child(e, p[0]), s, p[1..]); }
  }

  lemma UnderFirst(e: Expr, d: Dir, p: Path)
    requires Is(And, e) && SpineLeaf(And, Child(e, d), p)
    ensures SpineLeaf(And, e, [d] + p) && At(e, [d] + p) == At(Child(e, d), p)
  {
    assert ([d] + p)[1..] == p;
  }

  /** What does not contain a symbol does not change with it. */
  lemma {:induction false} ContainsSound(e: Expr, s: Symbol, v: Valuation, w: Valuation)
    requires !Contains(e, s) && forall x | x != s :: v(x) == w(x)
    ensures Eval(e, v) == Eval(e, w)
  {
    match e
    case Not(x) => ContainsSound(x, s, v, w);
    case Bin(_, l, r) =>
      ContainsSound(l, s, v, w);
      ContainsSound(r, s, v, w);
    case _ =>
  }

  /** What depends on a logical symbol is n when the symbol is n. */
  lemma {:induction false} DependsSound(e: Expr, s: Symbol, v: Valuation)
    requires WellFormed(v) && s.IsLogical() && Depends(e, s)
    ensures v(s).tri == NO ==> Eval(e, v) == NO
  {
    assert v(s).text == TriText(v(s).tri);
    match e
    case Bin(_, l, r) =>
      if Depends(l, s) { DependsSound(l, s, v); } else { DependsSound(r, s, v); }
    case _ =>
  }

  /** If only y is left of the second tree, the first is never above the second. */
  lemma EliminateEqImplies(e1: Expr, e2: Expr, v: Valuation)
    requires WellFormed(v) && EliminateEq(e1, e2).1 == Leaf(SymYes)
    ensures Eval(e1, v) <= Eval(e2, v)
  {
    hide EliminateEqLeaves, EliminateYn, WellFormed;
    var (a1, a2) := if e1.Bin? then EliminateEqLeaves(e1.op, e1, e2) else (e1, e2);
    var (b1, b2) := if !SameType(a1, a2) && a2.Bin? then EliminateEqLeaves(a2.op, a1, a2) else (a1, a2);
    EliminateYnSound(b2, v);
    assert Eval(b2, v) == YES by { YesIsYes(v); }
    if !SameType(a1, a2) && a2.Bin? {
      var d := LeavesCancelOneValue(a2.op, a1, a2, v);
    }
    if e1.Bin? {
      var c := LeavesCancelOneValue(e1.op, e1, e2, v);
      Monotone(e1.op, c, Eval(a1, v), Eval(a2, v));
    }
  }

  lemma YesIsYes(v: Valuation)
    requires WellFormed(v)
    ensures Eval(Leaf(SymYes), v) == YES
  {
  }

  lemma Monotone(op: Op, c: Tristate, a: Tristate, b: Tristate)
    requires a <= b
    ensures op.Apply(c, a) <= op.Apply(c, b)
  {
  }

  /** The comparison of a condition with n, transformed. */
  function NotNForm(e: Option<Expr>): Expr {
    Transform(if e.None? then Not(Leaf(SymNo)) else TransCompare(e.value, Unequal, SymNo))
  }

  /** The same cleared of duplicates. It is exact, since a comparison never is m, and in a
      form that expr_eliminate_eq can compare. */
  method NotN(e: Option<Expr>) returns (r: Expr)
    ensures forall v: Valuation | WellFormed(v) :: Eval(r, v) == VisibleValue(e, v)
    ensures Nnf(r) && Clean(r)
    ensures Clean(NotNForm(e)) ==> r == NotNForm(e)
    ensures Collapses(NotNForm(e)) ==> r == Leaf(NotNForm(e).op.Absorbing())
    ensures Normal(NotNForm(e)) ==> ConstantFree(r)
  {
    var compared := if e.None? then Not(Leaf(SymNo)) else TransCompare(e.value, Unequal, SymNo);
    var t := new ExprTree(compared);
    t.TransformAt([]);
    assert t.tree == Transform(compared);
    TransformNnf(compared);
    t.EliminateDups();
    r := t.tree;
    if Normal(r) { NnfConstantFree(r); }
    forall v: Valuation | WellFormed(v) ensures Eval(r, v) == VisibleValue(e, v) {
      TransformExact(compared, v);
      if e.Some? { TransCompareMeaning(e.value, Unequal, SymNo, v); }
    }
  }

  /** Visible or not, with everything but n read as y; a null pointer is always visible. */
  function VisibleValue(e: Option<Expr>, v: Valuation): Tristate {
    if e.None? then YES
    else if Eval(e.value, Rounded(v, SymNo)) != NO then YES else NO
  }

  /** Where the texts tell and no NOT is applied to an m, that is visibility itself. */
  lemma VisibleValueExact(e: Expr, v: Valuation)
    requires WellFormed(v) && TextsTell(e, SymNo, v) && NotsDecided(e, v)
    ensures VisibleValue(Some(e), v) != NO <==> Eval(e, v) != NO
  {
    RoundingIsHarmless(e, SymNo, v);
  }

  /** The tests on one later entry of the menu: whether it goes below the entry of sym.
      Also returned are the two simplified conditions that were compared. Without constants
      in them it goes below exactly if all conjuncts of the earlier condition are among its
      own. */
  method GoesBelow(sym: Symbol, visible: Option<Expr>, dep: Option<Expr>)
      returns (below: bool, ghost dep1: Expr, ghost base: Expr)
    ensures dep.None? || !Contains(dep.value, sym) ==> !below
    ensures dep.Some? && Contains(dep.value, sym) && Depends(dep.value, sym) ==> below
    ensures Compares(sym, dep) ==>
              && Nnf(dep1) && Clean(dep1) && Nnf(base) && Clean(base)
              && (below <==> EliminateEq(dep1, base).1 == Leaf(SymYes))
              && (ConstantFree(dep1) && ConstantFree(base) ==> (below <==> HasConjuncts(dep1, base)))
              && forall v: Valuation | WellFormed(v) ::
                   Eval(dep1, v) == VisibleValue(dep, v) && Eval(base, v) == VisibleValue(visible, v)
    ensures Compares(sym, dep) ==>
              && (Clean(NotNForm(dep)) ==> dep1 == NotNForm(dep))
              && (Clean(NotNForm(visible)) ==> base == NotNForm(visible))
              && (Collapses(NotNForm(dep)) ==> dep1 == Leaf(NotNForm(dep).op.Absorbing()))
              && (Normal(NotNForm(dep)) ==> ConstantFree(dep1)) && (Normal(NotNForm(visible)) ==> ConstantFree(base))
    ensures below && !Depends(dep.value, sym) ==>
              forall v: Valuation | WellFormed(v) && VisibleValue(dep, v) != NO :: VisibleValue(visible, v) != NO
    ensures below && Depends(dep.value, sym) && sym.IsLogical() ==>
              forall v: Valuation | WellFormed(v) && Eval(dep.value, v) != NO :: v(sym).tri != NO
  {
    hide Clean, Nnf, Collapses, ConstantFree, LeavesOf, NotNForm, Normal;
    below, dep1, base := false, Leaf(SymNo), Leaf(SymNo);
    if dep.None? || !Contains(dep.value, sym) { return; }
    if Depends(dep.value, sym) {
      forall v: Valuation | WellFormed(v) && sym.IsLogical() && Eval(dep.value, v) != NO ensures v(sym).tri != NO {
        DependsSound(dep.value, sym, v);
      }
      below := true;
      return;
    }
    var b := NotN(visible);
    var d := NotN(dep);
    dep1, base := d, b;
    var pair := new ExprPair(d, b);
    pair.EliminateEqAt();
    below := pair.second == Leaf(SymYes);
    if ConstantFree(d) && ConstantFree(b) { EliminateEqYesIff(d, b); }
    if below {
      forall v: Valuation | WellFormed(v) && VisibleValue(dep, v) != NO ensures VisibleValue(visible, v) != NO {
        EliminateEqImplies(d, b, v);
      }
    }
  }

  /** The conditions are compared: the later one mentions the symbol and does not depend on
      it outright. */
  predicate Compares(sym: Symbol, dep: Option<Expr>) {
    dep.Some? && Contains(dep.value, sym) && !Depends(dep.value, sym)
  }

  /** The earlier condition is always met, or all its conjuncts are among the later ones. */
  predicate HasConjuncts(dep: Expr, base: Expr) {
    base == Leaf(SymYes) || (Is(And, dep) && LeavesOf(And, base) <= LeavesOf(And, dep))
  }

  // ---------------------------------------------------------------------------
  // What a user sees
  // ---------------------------------------------------------------------------

  /** What is clean as a conjunction is clean in its first operand. */
  lemma FirstIsClean(op: Op, l: Expr, r: Expr)
    requires Clean(Bin(op, l, r))
    ensures Clean(l)
  {
    if Is(op, l) { FirstSpineIsClean(op, l, r); } else { FirstLeafIsClean(op, l, r); }
  }

  lemma FirstSpineIsClean(op: Op, l: Expr, r: Expr)
    requires Clean(Bin(op, l, r)) && Is(op, l)
    ensures Clean(l)
  {
    hide Join;
    var t := Bin(op, l, r);
    assert NoJoin(op, t, [], []) && NoContradiction(op, t, [], []);
    assert NoJoin(op, l, [], []) by {
      forall i, j | SpineLeaf(op, l, i) && SpineLeaf(op, l, j) && i != j
        ensures Join(op, At(l, i), At(l, j)).None? && DupFree(At(l, i))
      {
        BelowLeft(op, l, r, i);
        BelowLeft(op, l, r, j);
        assert [] <= [L] + i && [] <= [L] + j;
      }
    }
    assert NoContradiction(op, l, [], []) by {
      forall i, j | SpineLeaf(op, l, i) && OnSpine(op, l, j) ensures PairFree(op, l, i, j) {
        BelowLeft(op, l, r, i);
        BelowLeft(op, l, r, j);
        assert [] <= [L] + i && [] <= [L] + j;
        assert PairFree(op, t, [L] + i, [L] + j);
      }
    }
  }

  lemma FirstLeafIsClean(op: Op, l: Expr, r: Expr)
    requires Clean(Bin(op, l, r)) && !Is(op, l)
    ensures Clean(l)
  {
    hide Join;
    var t := Bin(op, l, r);
    assert NoJoin(op, t, [], []) && NoContradiction(op, t, [], []);
    FirstTwo(op, l, r);
    var k := SomeSpineLeaf(op, r);
    BelowRight(op, l, r, k);
    assert [] <= [L] && [] <= [R] && [] <= [R] + k;
    assert PairFree(op, t, [L], [R]);
    if !l.Bin? { assert DupFree(l) && ContradictionFree(l); }
  }

  lemma BelowLeft(op: Op, l: Expr, r: Expr, p: Path)
    requires OnSpine(op, l, p)
    ensures OnSpine(op, Bin(op, l, r), [L] + p) && At(Bin(op, l, r), [L] + p) == At(l, p)
  {
    assert ([L] + p)[1..] == p;
  }

  lemma BelowRight(op: Op, l: Expr, r: Expr, p: Path)
    requires OnSpine(op, r, p)
    ensures OnSpine(op, Bin(op, l, r), [R] + p) && At(Bin(op, l, r), [R] + p) == At(r, p)
  {
    assert ([R] + p)[1..] == p;
  }

  lemma {:induction false} SomeSpineLeaf(op: Op, e: Expr) returns (p: Path)
    ensures SpineLeaf(op, e, p)
  {
    if Is(op, e) {
      p := SomeSpineLeaf(op, e.left);
      BelowLeft(op, e.left, e.right, p);
      p := [L] + p;
    } else {
      p := [];
    }
  }

  /** An entry whose condition is that of the earlier entry and something that mentions its
      symbol goes below it, if there is nothing to simplify in the comparison. */
  method NarrowerGoesBelow(sym: Symbol, visible: Expr, more: Expr) returns (below: bool)
    requires Contains(Bin(And, visible, more), sym)
    requires Clean(NotNForm(Some(Bin(And, visible, more)))) && Normal(NotNForm(Some(Bin(And, visible, more))))
    ensures below
  {
    var dep := Bin(And, visible, more);
    ghost var l, r := NotNForm(Some(visible)), NotNForm(Some(more));
    ComparedApart(And, visible, more);
    assert NotNForm(Some(dep)) == Bin(And, l, r);
    FirstIsClean(And, l, r);
    CanonOfBin(And, l, r);
    hide NotNForm, Clean, ConstantFree, LeavesOf;
    ghost var dep1, base;
    below, dep1, base := GoesBelow(sym, Some(visible), Some(dep));
  }

  /** Simplification can get in the way: a condition that contradicts the earlier one is
      reduced to n, in which none of its conjuncts is found. */
  method CollapsedStays(a: Symbol, b: Symbol) returns (below: bool)
    requires a.Type().Boolean? && b.Type().Boolean? && a != b
    ensures !below
  {
    var visible := Bin(Or, Leaf(a), Leaf(b));
    var dep := Bin(And, visible, Bin(And, Not(Leaf(a)), Not(Leaf(b))));
    OpposedForm(a, b);
    OpposedCollapses(And, a, b);
    assert dep == Opposed(And, a, b);
    Mentioned(a, b);
    hide Collapses, NotNForm, Clean, LeavesOf, Compares, Contains, Depends;
    ghost var dep1, base;
    below, dep1, base := GoesBelow(a, Some(visible), Some(dep));
  }

  lemma Mentioned(a: Symbol, b: Symbol)
    ensures Compares(a, Some(Opposed(And, a, b)))
  {
    var visible, more := Bin(Or, Leaf(a), Leaf(b)), Bin(And, Not(Leaf(a)), Not(Leaf(b)));
    assert Contains(visible, a) by { assert Contains(visible.left, a); }
    assert !Depends(visible, a);
    assert !Depends(more, a) by { assert !Depends(more.left, a) && !Depends(more.right, a); }
  }

  lemma OpposedForm(a: Symbol, b: Symbol)
    requires a.Type().Boolean? && b.Type().Boolean? && a != b
    ensures NotNForm(Some(Opposed(And, a, b))) == Opposed(And, a, b)
    ensures var e := Bin(Or, Leaf(a), Leaf(b)); NotNForm(Some(e)) == e && Clean(e) && Normal(e)
    ensures Normal(Opposed(And, a, b))
  {
    var la, lb := Leaf(a), Leaf(b);
    assert NotNForm(Some(la)) == la && NotNForm(Some(lb)) == lb;
    assert TransCompare(Not(la), Unequal, SymNo) == Comp(Equal, a, SymNo);
    assert TransCompare(Not(lb), Unequal, SymNo) == Comp(Equal, b, SymNo);
    assert NotNForm(Some(Not(la))) == Not(la) && NotNForm(Some(Not(lb))) == Not(lb);
    ComparedApart(Or, la, lb);
    ComparedApart(And, Not(la), Not(lb));
    ComparedApart(And, Bin(Or, la, lb), Bin(And, Not(la), Not(lb)));
    PairJoinFree(Or, a, b);
    PairHasNone(Or, a, b);
    assert Normal(la) && Normal(lb) && Normal(Not(la)) && Normal(Not(lb));
    assert Normal(Bin(Or, la, lb)) && Normal(Bin(And, Not(la), Not(lb)));
    assert Normal(Opposed(And, a, b));
    hide Transform, TransCompare, DupFree, ContradictionFree;
    assert NotNForm(Some(Bin(Or, la, lb))) == Bin(Or, la, lb);
    assert NotNForm(Some(Bin(And, Not(la), Not(lb)))) == Bin(And, Not(la), Not(lb));
  }
}
