/** The pairwise rules of expr_eliminate_dups: expr_join_or, expr_join_and and
    expr_extract_eq, with the measure by which every rewrite makes progress. */
module KconfigJoin {
  import opened KconfigExpr
  import opened KconfigTransform

  datatype Option<+T> = None | Some(value: T)

  // ---------------------------------------------------------------------------
  // expr_join_or and expr_join_and
  // ---------------------------------------------------------------------------

  /** sym1 of the C code: the symbol an atom is about; None where it gives up. */
  function FirstSymbol(e: Expr): Option<Symbol> {
    match e
    case Leaf(s) => Some(s)
    case Comp(_, l, _) => Some(l)
    case Not(Leaf(s)) => Some(s)
    case Not(Comp(_, l, _)) => Some(l)
    case _ => None
  }

  /** sym2: as FirstSymbol, but a NOT has to be directly over a symbol. */
  function SecondSymbol(e: Expr): Option<Symbol> {
    match e
    case Not(x) => if x.Leaf? then Some(x.sym) else None
    case _ => FirstSymbol(e)
  }

  /** The one symbol both sides are about, when it is boolean or tristate. */
  function CommonSymbol(e1: Expr, e2: Expr): Option<Symbol> {
    var s1, s2 := FirstSymbol(e1), SecondSymbol(e2);
    if s1.Some? && s1 == s2 && s1.value.IsLogical() then s1 else None
  }

  /** One of the two compares with a by rel, the other with b. */
  predicate Compares(e1: Expr, e2: Expr, rel: Rel, a: Symbol, b: Symbol) {
    e1.Comp? && e2.Comp? && e1.rel == rel && e2.rel == rel
    && ((e1.rsym == a && e2.rsym == b) || (e1.rsym == b && e2.rsym == a))
  }

  /** One of the two is a bare symbol, the other compares with a by rel. */
  predicate SymbolWith(e1: Expr, e2: Expr, rel: Rel, a: Symbol) {
    (e1.Leaf? && e2.Comp? && e2.rel == rel && e2.rsym == a)
    || (e2.Leaf? && e1.Comp? && e1.rel == rel && e1.rsym == a)
  }

  function JoinOr(e1: Expr, e2: Expr): Option<Expr> {
    if ExprEq(e1, e2) then Some(e1)
    else
      var s := CommonSymbol(e1, e2);
      if s.None? then None
      else if s.value.Type().Tristate? && Compares(e1, e2, Equal, SymYes, SymMod) then
        Some(Comp(Unequal, s.value, SymNo))
      else if s.value.Type().Tristate? && Compares(e1, e2, Equal, SymYes, SymNo) then
        Some(Comp(Unequal, s.value, SymMod))
      else if s.value.Type().Tristate? && Compares(e1, e2, Equal, SymMod, SymNo) then
        Some(Comp(Unequal, s.value, SymYes))
      else if s.value.Type().Boolean?
              && ((e1.Not? && e1.operand.Leaf? && e2.Leaf?) || (e2.Not? && e2.operand.Leaf? && e1.Leaf?)) then
        Some(Leaf(SymYes))
      else None
  }

  /** (a='b') && (a!='c') for constants b and c. */
  function JoinOpposite(s: Symbol, equal: Symbol, unequal: Symbol): Expr {
    if equal != unequal then Comp(Equal, s, equal) else Leaf(SymNo)
  }

  function JoinAnd(e1: Expr, e2: Expr): Option<Expr> {
    if ExprEq(e1, e2) then Some(e1)
    else
      var s := CommonSymbol(e1, e2);
      if s.None? then None
      else if SymbolWith(e1, e2, Equal, SymYes) then Some(Comp(Equal, s.value, SymYes))
      else if SymbolWith(e1, e2, Unequal, SymNo) then Some(Leaf(s.value))
      else if SymbolWith(e1, e2, Unequal, SymMod) then Some(Comp(Equal, s.value, SymYes))
      else if !s.value.Type().Tristate? then None
      else if e1.Comp? && e2.Comp? && e1.rel == Equal && e2.rel == Unequal
              && e1.rsym.IsConst() && e2.rsym.IsConst() then
        Some(JoinOpposite(s.value, e1.rsym, e2.rsym))
      else if e1.Comp? && e2.Comp? && e1.rel == Unequal && e2.rel == Equal
              && e1.rsym.IsConst() && e2.rsym.IsConst() then
        Some(JoinOpposite(s.value, e2.rsym, e1.rsym))
      else if Compares(e1, e2, Unequal, SymYes, SymNo) then Some(Comp(Equal, s.value, SymMod))
      else if Compares(e1, e2, Unequal, SymYes, SymMod) then Some(Comp(Equal, s.value, SymNo))
      else if Compares(e1, e2, Unequal, SymMod, SymNo) then Some(Comp(Equal, s.value, SymYes))
      else None
  }

  function Join(op: Op, e1: Expr, e2: Expr): Option<Expr> {
    if op.And? then JoinAnd(e1, e2) else JoinOr(e1, e2)
  }

  /** A join means exactly what the two operands meant together. */
  lemma JoinExact(op: Op, e1: Expr, e2: Expr, v: Valuation)
    requires WellFormed(v) && Join(op, e1, e2).Some?
    ensures Eval(Join(op, e1, e2).value, v) == op.Apply(Eval(e1, v), Eval(e2, v))
  {
    if ExprEq(e1, e2) {
      ExprEqSound(e1, e2, v);
    } else if op.And? {
      JoinAndExact(e1, e2, v);
    } else {
      JoinOrExact(e1, e2, v);
    }
  }

  lemma JoinOrExact(e1: Expr, e2: Expr, v: Valuation)
    requires WellFormed(v) && JoinOr(e1, e2).Some? && !ExprEq(e1, e2)
    ensures Eval(JoinOr(e1, e2).value, v) == Or.Apply(Eval(e1, v), Eval(e2, v))
  {
    hide ExprEq;
    var s := CommonSymbol(e1, e2).value;
    assert v(s).text == TriText(v(s).tri);
    if e1.Comp? && e2.Comp? {
      var text := v(s).text;
      assert text in {"n", "m", "y"};
      assert s == e1.lsym == e2.lsym && e1.rel == e2.rel == Equal;
    } else {
      assert s.Type().Boolean? && JoinOr(e1, e2) == Some(Leaf(SymYes));
    }
  }

  lemma JoinAndExact(e1: Expr, e2: Expr, v: Valuation)
    requires WellFormed(v) && JoinAnd(e1, e2).Some? && !ExprEq(e1, e2)
    ensures Eval(JoinAnd(e1, e2).value, v) == And.Apply(Eval(e1, v), Eval(e2, v))
  {
    if e1.Comp? && e2.Comp? {
      JoinAndComps(e1, e2, v);
    } else {
      var s := CommonSymbol(e1, e2).value;
      assert v(s).text == TriText(v(s).tri);
    }
  }

  lemma JoinAndComps(e1: Expr, e2: Expr, v: Valuation)
    requires WellFormed(v) && JoinAnd(e1, e2).Some? && !ExprEq(e1, e2) && e1.Comp? && e2.Comp?
    ensures Eval(JoinAnd(e1, e2).value, v) == And.Apply(Eval(e1, v), Eval(e2, v))
  {
    var s := CommonSymbol(e1, e2).value;
    var text := v(s).text;
    assert text in {"n", "m", "y"} by { assert text == TriText(v(s).tri); }
    if e1.rel != e2.rel {
      assert e1.rsym != e2.rsym ==> v(e1.rsym).text != v(e2.rsym).text;
    } else {
      assert Compares(e1, e2, Unequal, SymYes, SymNo) || Compares(e1, e2, Unequal, SymYes, SymMod)
          || Compares(e1, e2, Unequal, SymMod, SymNo);
    }
  }

  predicate IsBuiltIn(c: Symbol) { c in {SymYes, SymMod, SymNo} }

  /** The pairs that the rules are for. Under OR: a tristate compared with two built-in
      constants, a boolean and its negation. Under AND: a symbol and one of three
      comparisons of it, a tristate that is one constant and is not another, and one
      that is neither of two built-in constants. */
  predicate Matches(op: Op, s: Symbol, a: Expr, b: Expr) {
    if op.Or? then
      || (s.Type().Tristate? && a.Comp? && b.Comp? && a.rel == b.rel == Equal && a.lsym == b.lsym == s
          && IsBuiltIn(a.rsym) && IsBuiltIn(b.rsym) && a.rsym != b.rsym)
      || (s.Type().Boolean? && a == Leaf(s) && b == Not(Leaf(s)))
    else
      || (s.IsLogical() && a == Leaf(s)
          && b in {Comp(Equal, s, SymYes), Comp(Unequal, s, SymNo), Comp(Unequal, s, SymMod)})
      || (s.Type().Tristate? && a.Comp? && b.Comp? && a.lsym == b.lsym == s
          && ((a.rel.Equal? && b.rel.Unequal? && a.rsym.IsConst() && b.rsym.IsConst())
              || (a.rel.Unequal? && b.rel.Unequal?
                  && IsBuiltIn(a.rsym) && IsBuiltIn(b.rsym) && a.rsym != b.rsym)))
  }

  /** Two operands are joined exactly if they are equal or such a pair, in either order. */
  lemma JoinIff(op: Op, e1: Expr, e2: Expr)
    ensures Join(op, e1, e2).Some? <==>
              ExprEq(e1, e2) || exists s :: Matches(op, s, e1, e2) || Matches(op, s, e2, e1)
  {
    if !ExprEq(e1, e2) && Join(op, e1, e2).Some? {
      var s := CommonSymbol(e1, e2).value;
      if op.Or? { OrMatches(s, e1, e2); } else { AndMatches(s, e1, e2); }
    }
    if s :| Matches(op, s, e1, e2) || Matches(op, s, e2, e1) {
      if op.Or? { MatchesOr(s, e1, e2); } else { MatchesAnd(s, e1, e2); }
    }
  }

  lemma OrMatches(s: Symbol, e1: Expr, e2: Expr)
    requires !ExprEq(e1, e2) && JoinOr(e1, e2).Some? && CommonSymbol(e1, e2) == Some(s)
    ensures Matches(Or, s, e1, e2) || Matches(Or, s, e2, e1)
  {
  }

  lemma AndMatches(s: Symbol, e1: Expr, e2: Expr)
    requires !ExprEq(e1, e2) && JoinAnd(e1, e2).Some? && CommonSymbol(e1, e2) == Some(s)
    ensures Matches(And, s, e1, e2) || Matches(And, s, e2, e1)
  {
  }

  lemma MatchesOr(s: Symbol, e1: Expr, e2: Expr)
    requires Matches(Or, s, e1, e2) || Matches(Or, s, e2, e1)
    ensures JoinOr(e1, e2).Some?
  {
    assert CommonSymbol(e1, e2) == Some(s);
  }

  lemma MatchesAnd(s: Symbol, e1: Expr, e2: Expr)
    requires Matches(And, s, e1, e2) || Matches(And, s, e2, e1)
    ensures JoinAnd(e1, e2).Some?
  {
    assert CommonSymbol(e1, e2) == Some(s);
  }

  /** What they are joined to: the comparison with the third constant, */
  lemma JoinThird(s: Symbol, a: Symbol, b: Symbol, c: Symbol)
    requires s.Type().Tristate? && {a, b, c} == {SymYes, SymMod, SymNo} && a != b && b != c && c != a
    ensures Join(Or, Comp(Equal, s, a), Comp(Equal, s, b)) == Some(Comp(Unequal, s, c))
    ensures Join(And, Comp(Unequal, s, a), Comp(Unequal, s, b)) == Some(Comp(Equal, s, c))
  {
    assert a in {a, b, c} && b in {a, b, c} && c in {a, b, c};
  }

  /** the equality, unless it is denied, */
  lemma JoinDenied(s: Symbol, a: Symbol, b: Symbol)
    requires s.Type().Tristate? && a.IsConst() && b.IsConst()
    ensures var r := if a == b then Leaf(SymNo) else Comp(Equal, s, a);
            Join(And, Comp(Equal, s, a), Comp(Unequal, s, b)) == Some(r)
            == Join(And, Comp(Unequal, s, b), Comp(Equal, s, a))
  {
  }

  /** what is left of a symbol that is compared, and y for a boolean or its negation. */
  lemma JoinSymbol(s: Symbol)
    requires s.IsLogical()
    ensures Join(And, Leaf(s), Comp(Equal, s, SymYes)) == Some(Comp(Equal, s, SymYes))
            == Join(And, Comp(Equal, s, SymYes), Leaf(s))
    ensures Join(And, Leaf(s), Comp(Unequal, s, SymNo)) == Some(Leaf(s)) == Join(And, Comp(Unequal, s, SymNo), Leaf(s))
    ensures Join(And, Leaf(s), Comp(Unequal, s, SymMod)) == Some(Comp(Equal, s, SymYes))
            == Join(And, Comp(Unequal, s, SymMod), Leaf(s))
    ensures s.Type().Boolean? ==>
              Join(Or, Leaf(s), Not(Leaf(s))) == Some(Leaf(SymYes)) == Join(Or, Not(Leaf(s)), Leaf(s))
  {
  }

  // ---------------------------------------------------------------------------
  // expr_extract_eq
  // ---------------------------------------------------------------------------

  /** expr_extract_eq: leaves found on both sides move out to an accumulator. */
  function ExtractEq(op: Op, acc: Option<Expr>, e1: Expr, e2: Expr): (r: (Option<Expr>, Expr, Expr))
    ensures Size(r.1) <= Size(e1) && Size(r.2) <= Size(e2)
    decreases Size(e1) + Size(e2)
  {
    if Is(op, e1) then
      var (a, l, x) := ExtractEq(op, acc, e1.left, e2);
      var (b, r, y) := ExtractEq(op, a, e1.right, x);
      (b, Bin(op, l, r), y)
    else if Is(op, e2) then
      var (a, x, l) := ExtractEq(op, acc, e1, e2.left);
      var (b, y, r) := ExtractEq(op, a, x, e2.right);
      (b, y, Bin(op, l, r))
    else if ExprEq(e1, e2) then
      (Some(if acc.Some? then Bin(op, acc.value, e1) else e1), Leaf(op.Neutral()), Leaf(op.Neutral()))
    else (acc, e1, e2)
  }

  /** expr_extract_eq_and and expr_extract_eq_or. */
  function ExtractCommon(op: Op, e1: Expr, e2: Expr): (Option<Expr>, Expr, Expr) {
    var (a, x, y) := ExtractEq(op, None, e1, e2);
    if a.Some? then (a, EliminateYn(x), EliminateYn(y)) else (a, x, y)
  }

  function AccValue(op: Op, acc: Option<Expr>, v: Valuation): Tristate {
    if acc.Some? then Eval(acc.value, v) else v(op.Neutral()).tri
  }

  /** What was moved out is one common factor c, and the accumulator has gathered it. */
  predicate MovedOut(op: Op, acc: Option<Expr>, e1: Expr, e2: Expr, a: Option<Expr>, x: Expr, y: Expr,
                     v: Valuation, c: Tristate) {
    && Eval(e1, v) == op.Apply(c, Eval(x, v))
    && Eval(e2, v) == op.Apply(c, Eval(y, v))
    && AccValue(op, a, v) == op.Apply(AccValue(op, acc, v), c)
  }

  lemma MovedOutFirst(op: Op, acc: Option<Expr>, l: Expr, r: Expr, e: Expr, a: Option<Expr>, l': Expr, x: Expr,
                      b: Option<Expr>, r': Expr, y: Expr, v: Valuation, c1: Tristate, c2: Tristate)
    requires MovedOut(op, acc, l, e, a, l', x, v, c1) && MovedOut(op, a, r, x, b, r', y, v, c2)
    ensures MovedOut(op, acc, Bin(op, l, r), e, b, Bin(op, l', r'), y, v, op.Apply(c1, c2))
  {
    hide Op.Apply, AccValue;
    Regroup(op, c1, c2, Eval(l', v), Eval(r', v));
    Regroup(op, c1, c2, Eval(y, v), NO);
    Regroup(op, AccValue(op, acc, v), c1, c2, NO);
  }

  lemma MovedOutSecond(op: Op, acc: Option<Expr>, l: Expr, r: Expr, e: Expr, a: Option<Expr>, l': Expr, x: Expr,
                       b: Option<Expr>, r': Expr, y: Expr, v: Valuation, c1: Tristate, c2: Tristate)
    requires MovedOut(op, acc, e, l, a, x, l', v, c1) && MovedOut(op, a, x, r, b, y, r', v, c2)
    ensures MovedOut(op, acc, e, Bin(op, l, r), b, y, Bin(op, l', r'), v, op.Apply(c1, c2))
  {
    hide Op.Apply, AccValue;
    Regroup(op, c1, c2, Eval(l', v), Eval(r', v));
    Regroup(op, c1, c2, Eval(y, v), NO);
    Regroup(op, AccValue(op, acc, v), c1, c2, NO);
  }

  lemma {:induction false} ExtractEqFactor(op: Op, acc: Option<Expr>, e1: Expr, e2: Expr, v: Valuation)
      returns (c: Tristate)
    requires WellFormed(v)
    ensures var (a, x, y) := ExtractEq(op, acc, e1, e2); MovedOut(op, acc, e1, e2, a, x, y, v, c)
    decreases Size(e1) + Size(e2)
  {
    hide MovedOut, Op.Apply, ExprEq, WellFormed;
    if Is(op, e1) {
      var (a, l, x) := ExtractEq(op, acc, e1.left, e2);
      var (b, r, y) := ExtractEq(op, a, e1.right, x);
      var c1 := ExtractEqFactor(op, acc, e1.left, e2, v);
      var c2 := ExtractEqFactor(op, a, e1.right, x, v);
      c := op.Apply(c1, c2);
      MovedOutFirst(op, acc, e1.left, e1.right, e2, a, l, x, b, r, y, v, c1, c2);
    } else if Is(op, e2) {
      var (a, x, l) := ExtractEq(op, acc, e1, e2.left);
      var (b, y, r) := ExtractEq(op, a, x, e2.right);
      var c1 := ExtractEqFactor(op, acc, e1, e2.left, v);
      var c2 := ExtractEqFactor(op, a, x, e2.right, v);
      c := op.Apply(c1, c2);
      MovedOutSecond(op, acc, e2.left, e2.right, e1, a, l, x, b, r, y, v, c1, c2);
    } else {
      c := LeavesMovedOut(op, acc, e1, e2, v);
    }
  }

  lemma LeavesMovedOut(op: Op, acc: Option<Expr>, e1: Expr, e2: Expr, v: Valuation) returns (c: Tristate)
    requires WellFormed(v) && !Is(op, e1) && !Is(op, e2)
    ensures var (a, x, y) := ExtractEq(op, acc, e1, e2); MovedOut(op, acc, e1, e2, a, x, y, v, c)
  {
    if ExprEq(e1, e2) {
      ExprEqSound(e1, e2, v);
      c := Eval(e1, v);
    } else {
      c := v(op.Neutral()).tri;
    }
  }

  /** Both originals are the extracted part joined with their remainder. */
  lemma ExtractCommonSound(op: Op, e1: Expr, e2: Expr, v: Valuation)
    requires WellFormed(v)
    ensures var (a, x, y) := ExtractCommon(op, e1, e2);
            var c := AccValue(op, a, v);
            Eval(e1, v) == op.Apply(c, Eval(x, v)) && Eval(e2, v) == op.Apply(c, Eval(y, v))
  {
    var (a, x, y) := ExtractEq(op, None, e1, e2);
    var c := ExtractEqFactor(op, None, e1, e2, v);
    EliminateYnSound(x, v);
    EliminateYnSound(y, v);
  }

  /** The test of expr_eliminate_dups2: nothing is left of !e1 once the part it
      shares with e2 is taken out. */
  predicate Contradicts(op: Op, e1: Expr, e2: Expr) {
    ExtractCommon(op, Transform(Not(e1)), e2).1 == Leaf(op.Neutral())
  }

  /** Then e1 and e2 together are absorbing, or m. */
  lemma ContradictionValue(op: Op, e1: Expr, e2: Expr, v: Valuation)
    requires WellFormed(v) && Contradicts(op, e1, e2)
    ensures op.Apply(Eval(e1, v), Eval(e2, v)) in {v(op.Absorbing()).tri, MOD}
  {
    TransformExact(Not(e1), v);
    ExtractCommonSound(op, Transform(Not(e1)), e2, v);
  }
}
