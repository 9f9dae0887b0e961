/** expr_transform, expr_trans_bool and expr_trans_compare of util/kconfig/expr.c. */
module KconfigTransform {
  import opened KconfigExpr

  // ---------------------------------------------------------------------------
  // expr_transform
  // ---------------------------------------------------------------------------

  /** NOT doubles its operand, so that pushing a NOT inwards makes a tree lighter. */
  function Weight(e: Expr): (w: nat)
    ensures w >= 1
  {
    match e
    case Leaf(_) => 1
    case Not(x) => 2 * Weight(x)
    case Comp(_, _, _) => 2
    case Bin(_, l, r) => 1 + Weight(l) + Weight(r)
  }

  predicate Reducible(l: Symbol, r: Symbol) {
    l.Type().Boolean? && r in {SymYes, SymMod, SymNo}
  }

  /** The rules for a comparison of a boolean with y, m or n. */
  function TransformComp(rel: Rel, l: Symbol, r: Symbol): (t: Expr)
    ensures Weight(t) <= 2
  {
    if !l.Type().Boolean? then Comp(rel, l, r)
    else match r
      case SymNo => if rel.Equal? then Not(Leaf(l)) else Leaf(l)
      case SymMod => Leaf(if rel.Equal? then SymNo else SymYes)
      case SymYes => if rel.Equal? then Leaf(l) else Not(Leaf(l))
      case _ => Comp(rel, l, r)
  }

  function Transform(e: Expr): (t: Expr)
    ensures Weight(t) <= Weight(e)
    decreases Weight(e), Size(e)
  {
    match e
    case Leaf(_) => e
    case Comp(rel, l, r) => TransformComp(rel, l, r)
    case Bin(op, l, r) => Bin(op, Transform(l), Transform(r))
    case Not(x) =>
      match Transform(x)
      case Not(y) => Transform(y)
      case Comp(rel, l, r) => Comp(rel.Flip(), l, r)
      case Bin(op, l, r) =>
        assert Weight(Not(l)) + Weight(Not(r)) + 1 == Weight(Bin(op.Dual(), Not(l), Not(r)));
        Transform(Bin(op.Dual(), Not(l), Not(r)))
      case Leaf(s) =>
        match s
        case SymYes => Leaf(SymNo)
        case SymMod => Leaf(SymMod)
        case SymNo => Leaf(SymYes)
        case _ => Not(Leaf(s))
  }

  lemma NotOverBin(op: Op, l: Expr, r: Expr)
    ensures Weight(Bin(op.Dual(), Not(l), Not(r))) < 2 * Weight(Bin(op, l, r))
  {
    assert Weight(Not(l)) + Weight(Not(r)) + 1 == Weight(Bin(op.Dual(), Not(l), Not(r)));
  }

  /** Negation normal form with no boolean compared to a built-in constant. */
  predicate Nnf(e: Expr) {
    match e
    case Leaf(_) => true
    case Not(x) => x.Leaf? && x.sym !in {SymYes, SymMod, SymNo}
    case Comp(_, l, r) => !Reducible(l, r)
    case Bin(_, l, r) => Nnf(l) && Nnf(r)
  }

  /** The value is kept under every well-formed valuation. */
  lemma {:induction false} TransformExact(e: Expr, v: Valuation)
    requires WellFormed(v)
    ensures Eval(Transform(e), v) == Eval(e, v)
    decreases Weight(e), Size(e)
  {
    match e
    case Leaf(_) =>
    case Comp(rel, l, r) =>
    case Bin(op, l, r) =>
      TransformExact(l, v);
      TransformExact(r, v);
    case Not(x) =>
      TransformExact(x, v);
      match Transform(x)
      case Not(y) => TransformExact(y, v);
      case Bin(op, l, r) =>
        NotOverBin(op, l, r);
        TransformExact(Bin(op.Dual(), Not(l), Not(r)), v);
      case _ =>
  }

  lemma {:induction false} TransformNnf(e: Expr)
    ensures Nnf(Transform(e))
    decreases Weight(e), Size(e)
  {
    match e
    case Leaf(_) =>
    case Comp(rel, l, r) =>
    case Bin(op, l, r) =>
      TransformNnf(l);
      TransformNnf(r);
    case Not(x) =>
      TransformNnf(x);
      match Transform(x)
      case Not(y) => TransformNnf(y);
      case Bin(op, l, r) =>
        NotOverBin(op, l, r);
        TransformNnf(Bin(op.Dual(), Not(l), Not(r)));
      case _ =>
  }

  lemma {:induction false} NnfIsFixed(e: Expr)
    requires Nnf(e)
    ensures Transform(e) == e
  {
    if e.Bin? {
      NnfIsFixed(e.left);
      NnfIsFixed(e.right);
    }
  }

  /** The trees expr_transform leaves alone are exactly the normal forms, and its
      results are among them: it is idempotent. */
  lemma TransformIdempotent(e: Expr)
    ensures Transform(Transform(e)) == Transform(e)
    ensures Transform(e) == e <==> Nnf(e)
  {
    TransformNnf(e);
    NnfIsFixed(Transform(e));
    if Nnf(e) { NnfIsFixed(e); }
  }

  /** The negation of a normal form, one node at a time. */
  lemma NegationOf(e: Expr)
    requires Nnf(e)
    ensures Nnf(Transform(Not(e)))
    ensures match e
            case Bin(op, l, r) => Transform(Not(e)) == Bin(op.Dual(), Transform(Not(l)), Transform(Not(r)))
            case Comp(rel, l, r) => Transform(Not(e)) == Comp(rel.Flip(), l, r)
            case Not(x) => Transform(Not(e)) == x
            case Leaf(s) => Transform(Not(e)) == if s == SymYes then Leaf(SymNo) else if s == SymNo then Leaf(SymYes)
                                                 else if s == SymMod then e else Not(e)
  {
    NnfIsFixed(e);
    TransformNnf(Not(e));
    if e.Bin? {
      NnfIsFixed(e.left);
      NnfIsFixed(e.right);
      assert Transform(Not(e)) == Transform(Bin(e.op.Dual(), Not(e.left), Not(e.right)));
    }
  }

  lemma {:induction false} NegatedTwice(e: Expr)
    requires Nnf(e)
    ensures Transform(Not(Transform(Not(e)))) == e
    decreases e
  {
    NegationOf(e);
    NegationOf(Transform(Not(e)));
    hide Transform;
    if e.Bin? {
      NegatedTwice(e.left);
      NegatedTwice(e.right);
    }
  }

  /** A NOT can be taken over what has been transformed, and two of them cancel. */
  lemma DoubleNegation(e: Expr)
    ensures Transform(Not(Transform(e))) == Transform(Not(e))
    ensures Transform(Not(Not(e))) == Transform(e)
  {
    TransformIdempotent(e);
    TransformNnf(e);
    NegatedTwice(Transform(e));
    OverTransformed(e);
    OverTransformed(Not(e));
  }

  lemma OverTransformed(e: Expr)
    ensures Transform(Not(Transform(e))) == Transform(Not(e))
  {
    TransformIdempotent(e);
  }

  /** The same in one pass down the tree, with the sign of what stands above. */
  function Signed(e: Expr, negated: bool): Expr {
    match e
    case Not(x) => Signed(x, !negated)
    case Bin(op, l, r) => Bin(if negated then op.Dual() else op, Signed(l, negated), Signed(r, negated))
    case Comp(rel, l, r) => TransformComp(if negated then rel.Flip() else rel, l, r)
    case Leaf(s) =>
      if !negated || s == SymMod then e
      else if s == SymYes then Leaf(SymNo) else if s == SymNo then Leaf(SymYes) else Not(e)
  }

  /** expr_transform pushes every NOT down to the leaves and changes nothing else. */
  lemma {:induction false} TransformIsSigned(e: Expr)
    ensures Transform(e) == Signed(e, false) && Transform(Not(e)) == Signed(e, true)
    decreases e
  {
    TransformNnf(e);
    OverTransformed(e);
    NegationOf(Transform(e));
    match e
    case Not(x) =>
      TransformIsSigned(x);
      DoubleNegation(x);
    case Bin(op, l, r) =>
      TransformIsSigned(l);
      TransformIsSigned(r);
      OverTransformed(l);
      OverTransformed(r);
    case _ =>
  }

  // ---------------------------------------------------------------------------
  // expr_trans_bool
  // ---------------------------------------------------------------------------

  function TransBool(e: Expr): Expr {
    match e
    case Bin(op, l, r) => Bin(op, TransBool(l), TransBool(r))
    case Not(x) => Not(TransBool(x))
    case Comp(rel, l, r) => if rel.Unequal? && l.Type().Tristate? && r == SymNo then Leaf(l) else e
    case Leaf(_) => e
  }

  /** Nothing that expr_trans_bool rewrites stands below a NOT. */
  predicate NotsUntouched(e: Expr) {
    match e
    case Bin(_, l, r) => NotsUntouched(l) && NotsUntouched(r)
    case Not(x) => TransBool(x) == x
    case _ => true
  }

  /** Values only fall, and they never fall to n. */
  lemma {:induction false} TransBoolKeepsNotN(e: Expr, v: Valuation)
    requires WellFormed(v) && NotsUntouched(e)
    ensures Eval(TransBool(e), v) <= Eval(e, v)
    ensures Eval(TransBool(e), v) == NO <==> Eval(e, v) == NO
  {
    if e.Bin? {
      TransBoolKeepsNotN(e.left, v);
      TransBoolKeepsNotN(e.right, v);
    }
  }

  /** A test of a tristate against n: what expr_trans_bool rewrites. */
  predicate IsTest(e: Expr) { e.Comp? && e.rel.Unequal? && e.lsym.Type().Tristate? && e.rsym == SymNo }

  predicate NoTristateTest(e: Expr) {
    match e
    case Leaf(_) => true
    case Not(x) => NoTristateTest(x)
    case Comp(_, _, _) => !IsTest(e)
    case Bin(_, l, r) => NoTristateTest(l) && NoTristateTest(r)
  }

  /** All such tests are rewritten, and a tree without one is left alone. */
  lemma {:induction false} TransBoolRewritesAll(e: Expr)
    ensures NoTristateTest(TransBool(e))
    ensures TransBool(e) == e <==> NoTristateTest(e)
  {
    match e
    case Not(x) => TransBoolRewritesAll(x);
    case Bin(_, l, r) =>
      TransBoolRewritesAll(l);
      TransBoolRewritesAll(r);
    case _ =>
  }

  /** Every normal form qualifies, as in menu_finalize, which transforms first. */
  lemma {:induction false} TransBoolAfterTransform(e: Expr, v: Valuation)
    requires WellFormed(v)
    ensures Eval(TransBool(Transform(e)), v) == NO <==> Eval(e, v) == NO
  {
    TransformNnf(e);
    NnfUntouched(Transform(e));
    TransformExact(e, v);
    TransBoolKeepsNotN(Transform(e), v);
  }

  lemma {:induction false} TransBoolNnf(e: Expr)
    requires Nnf(e)
    ensures Nnf(TransBool(e))
  {
    if e.Bin? {
      TransBoolNnf(e.left);
      TransBoolNnf(e.right);
    }
  }

  lemma {:induction false} NnfUntouched(e: Expr)
    requires Nnf(e)
    ensures NotsUntouched(e)
  {
    if e.Bin? {
      NnfUntouched(e.left);
      NnfUntouched(e.right);
    }
  }

  /** One symbol at one value, all else as in BaseValuation. */
  function OneSymbol(s: Symbol, t: Tristate): (v: Valuation)
    requires s.Type().Tristate?
    ensures WellFormed(v) && v(s) == Value(t, TriText(t))
  {
    var b := BaseValuation();
    (x: Symbol) => if x == s then Value(t, TriText(t)) else b(x)
  }

  /** Without the transform first it goes wrong, and on a tristate at m it does
      not tell m from y. */
  lemma TransBoolLimits(s: Symbol)
    requires s.Type().Tristate?
    ensures var v := OneSymbol(s, MOD);
            var bad := Not(Comp(Unequal, s, SymNo));
            Eval(bad, v) == NO && Eval(TransBool(bad), v) != NO
    ensures var v := OneSymbol(s, MOD);
            Eval(Comp(Unequal, s, SymNo), v) == YES && Eval(TransBool(Comp(Unequal, s, SymNo)), v) == MOD
  {
    var v := OneSymbol(s, MOD);
    SingleTests(s, v);
    assert v(SymNo).text == "n";
  }

  /** One test: it is exact, and its negation keeps n, if and only if the symbol is not m. */
  lemma SingleTests(s: Symbol, v: Valuation)
    requires WellFormed(v) && s.Type().Tristate?
    ensures var t := Comp(Unequal, s, SymNo);
            && (Eval(TransBool(t), v) == Eval(t, v) <==> v(s).tri != MOD)
            && ((Eval(TransBool(Not(t)), v) == NO <==> Eval(Not(t), v) == NO) <==> v(s).tri != MOD)
  {
    assert v(s).text == TriText(v(s).tri) && v(SymNo).text == "n";
  }

  /** No tristate that is tested against n is m. */
  predicate TestsDecided(e: Expr, v: Valuation) {
    match e
    case Leaf(_) => true
    case Not(x) => TestsDecided(x, v)
    case Comp(_, l, _) => IsTest(e) ==> v(l).tri != MOD
    case Bin(_, l, r) => TestsDecided(l, v) && TestsDecided(r, v)
  }

  /** The value rests on a test of a symbol that is m. A test does by itself; under NOT
      nothing changes; under AND and OR it does unless the value is m anyway, or an
      operand that rests on no such test already decides it. */
  predicate RestsOnM(e: Expr, v: Valuation) {
    match e
    case Leaf(_) => false
    case Not(x) => RestsOnM(x, v)
    case Comp(_, l, _) => IsTest(e) && v(l).tri == MOD
    case Bin(op, l, r) =>
      && (RestsOnM(l, v) || RestsOnM(r, v)) && Eval(e, v) != MOD
      && (Decides(op, l, v) ==> RestsOnM(l, v)) && (Decides(op, r, v) ==> RestsOnM(r, v))
  }

  /** The operand is n under AND, or y under OR. */
  predicate Decides(op: Op, x: Expr, v: Valuation) { Eval(x, v) == if op.And? then NO else YES }

  /** For every tree and valuation: the value is kept or becomes m, and it becomes m, when
      it was not, if and only if it rests on a test of a symbol that is m. */
  lemma {:induction false} TransBoolBlurs(e: Expr, v: Valuation)
    requires WellFormed(v)
    ensures Eval(TransBool(e), v) == if RestsOnM(e, v) then MOD else Eval(e, v)
    ensures RestsOnM(e, v) ==> Eval(e, v) != MOD
  {
    match e
    case Leaf(_) =>
    case Not(x) => TransBoolBlurs(x, v);
    case Comp(_, l, _) =>
      if IsTest(e) { assert v(l).text == TriText(v(l).tri) && v(SymNo).text == "n"; }
    case Bin(_, l, r) =>
      TransBoolBlurs(l, v);
      TransBoolBlurs(r, v);
  }

  /** So it is exact, and it keeps whether the value is n, each if and only if its
      condition holds. */
  lemma TransBoolExactIff(e: Expr, v: Valuation)
    requires WellFormed(v)
    ensures Eval(TransBool(e), v) == Eval(e, v) <==> !RestsOnM(e, v)
    ensures (Eval(TransBool(e), v) == NO <==> Eval(e, v) == NO) <==> !(Eval(e, v) == NO && RestsOnM(e, v))
  {
    TransBoolBlurs(e, v);
  }

  /** In particular it is exact where every tested tristate is y or n. */
  lemma {:induction false} TransBoolExactWhenDecided(e: Expr, v: Valuation)
    requires WellFormed(v) && TestsDecided(e, v)
    ensures Eval(TransBool(e), v) == Eval(e, v)
    ensures !RestsOnM(e, v)
  {
    match e
    case Not(x) => TransBoolExactWhenDecided(x, v);
    case Bin(_, l, r) =>
      TransBoolExactWhenDecided(l, v);
      TransBoolExactWhenDecided(r, v);
    case Comp(_, l, _) => TransBoolBlurs(e, v);
    case Leaf(_) =>
  }

  // ---------------------------------------------------------------------------
  // expr_trans_compare
  // ---------------------------------------------------------------------------

  /** Negates the result when the relation asked for is UNEQUAL. */
  function Negate(rel: Rel, e: Expr): Expr { if rel.Unequal? then Not(e) else e }

  function TransCompare(e: Expr, rel: Rel, s: Symbol): Expr
    requires s in {SymYes, SymMod, SymNo}
  {
    match e
    case Bin(op, l, r) =>
      var l', r' := TransCompare(l, Equal, s), TransCompare(r, Equal, s);
      var joined := if s == SymYes then Bin(op, l', r') else if s == SymNo then Bin(op.Dual(), l', r') else e;
      Negate(rel, joined)
    case Not(x) => TransCompare(x, rel.Flip(), s)
    case Comp(_, _, _) =>
      if s == SymYes then Negate(rel, e)
      else if s == SymNo then Negate(rel.Flip(), e)
      else Leaf(if rel.Equal? then SymNo else SymYes)
    case Leaf(x) => Comp(rel, x, s)
  }

  /** The comparison that expr_trans_compare is to express: e against y or n. */
  function CompareWith(t: Tristate, rel: Rel, s: Symbol): Tristate
    requires s in {SymYes, SymNo}
  {
    if (t == (if s == SymYes then YES else NO)) == rel.Equal? then YES else NO
  }

  /** The comparison reads texts: asking for y, every other text is n; asking for n, every
      other text is y. */
  function Rounded(v: Valuation, s: Symbol): Valuation
    requires s in {SymYes, SymNo}
  {
    (x: Symbol) => Value(if (v(x).text == v(s).text) == (s == SymYes) then YES else NO, v(x).text)
  }

  /** What the rewritten comparison means, for every tree and valuation: it compares
      the value the tree would have if every symbol in it had been decided first. */
  lemma {:induction false} TransCompareMeaning(e: Expr, rel: Rel, s: Symbol, v: Valuation)
    requires WellFormed(v) && s in {SymYes, SymNo}
    ensures Eval(TransCompare(e, rel, s), v) == CompareWith(Eval(e, Rounded(v, s)), rel, s)
    ensures Eval(e, Rounded(v, s)) != MOD
  {
    match e
    case Bin(op, l, r) =>
      TransCompareMeaning(l, Equal, s, v);
      TransCompareMeaning(r, Equal, s, v);
    case Not(x) =>
      TransCompareMeaning(x, rel.Flip(), s, v);
    case _ =>
  }

  /** Asking for the opposite gives the negation, once it is transformed. */
  lemma {:induction false} FlippedComparison(e: Expr, rel: Rel)
    ensures Transform(Not(TransCompare(e, rel, SymNo))) == Transform(TransCompare(e, rel.Flip(), SymNo))
  {
    match e
    case Bin(_, _, _) =>
      DoubleNegation(TransCompare(e, Equal, SymNo));
    case Not(x) => FlippedComparison(x, rel.Flip());
    case Comp(_, _, _) => DoubleNegation(e);
    case Leaf(_) =>
  }

  /** So the comparison of a conjunction is the conjunction of the comparisons, and likewise
      of a disjunction. */
  lemma ComparedApart(op: Op, l: Expr, r: Expr)
    ensures Transform(TransCompare(Bin(op, l, r), Unequal, SymNo)) ==
              Bin(op, Transform(TransCompare(l, Unequal, SymNo)), Transform(TransCompare(r, Unequal, SymNo)))
  {
    var l', r' := TransCompare(l, Equal, SymNo), TransCompare(r, Equal, SymNo);
    FlippedComparison(l, Equal);
    FlippedComparison(r, Equal);
    var joined := Bin(op.Dual(), l', r');
    assert TransCompare(Bin(op, l, r), Unequal, SymNo) == Not(joined) && op.Dual().Dual() == op;
    DoubleNegation(joined);
    DoubleNegation(l');
    DoubleNegation(r');
    TransformNnf(joined);
    NegationOf(Transform(joined));
  }

  /** The text of every symbol that stands for a value by itself tells whether it has the
      value that is asked for. */
  predicate TextsTell(e: Expr, s: Symbol, v: Valuation) {
    match e
    case Leaf(x) => v(x).text == v(s).text <==> v(x).tri == v(s).tri
    case Not(x) => TextsTell(x, s, v)
    case Bin(_, l, r) => TextsTell(l, s, v) && TextsTell(r, s, v)
    case Comp(_, _, _) => true
  }

  /** Every symbol that stands for a value by itself is logical or built in. */
  predicate LogicalLeaves(e: Expr) {
    match e
    case Leaf(s) => s.IsLogical() || s in {SymYes, SymMod, SymNo}
    case Not(x) => LogicalLeaves(x)
    case Bin(_, l, r) => LogicalLeaves(l) && LogicalLeaves(r)
    case Comp(_, _, _) => true
  }

  /** So do the texts of logical symbols. */
  lemma {:induction false} LogicalTextsTell(e: Expr, s: Symbol, v: Valuation)
    requires WellFormed(v) && s in {SymYes, SymNo} && LogicalLeaves(e)
    ensures TextsTell(e, s, v)
  {
    match e
    case Bin(_, l, r) =>
      LogicalTextsTell(l, s, v);
      LogicalTextsTell(r, s, v);
    case Not(x) => LogicalTextsTell(x, s, v);
    case Leaf(x) => assert x.IsLogical() ==> v(x).text == TriText(v(x).tri);
    case _ =>
  }

  /** How an m is read: as n when asking for y, as y when asking for n. */
  function ReadModAs(s: Symbol): Tristate { if s == SymYes then NO else YES }

  /** No operand of a NOT has the value m. */
  predicate NotsDecided(e: Expr, v: Valuation) {
    match e
    case Not(x) => Eval(x, v) != MOD && NotsDecided(x, v)
    case Bin(_, l, r) => NotsDecided(l, v) && NotsDecided(r, v)
    case _ => true
  }

  lemma {:induction false} RoundingIsHarmless(e: Expr, s: Symbol, v: Valuation)
    requires WellFormed(v) && s in {SymYes, SymNo} && TextsTell(e, s, v) && NotsDecided(e, v)
    ensures Eval(e, Rounded(v, s)) == if Eval(e, v) == MOD then ReadModAs(s) else Eval(e, v)
  {
    match e
    case Bin(op, l, r) =>
      RoundingIsHarmless(l, s, v);
      RoundingIsHarmless(r, s, v);
    case Not(x) =>
      RoundingIsHarmless(x, s, v);
    case _ =>
  }

  /** The rewrite is exact as long as the texts tell and no NOT is applied to an m. For one
      symbol it is exact if and only if its text tells; for a NOT over an operand on which it
      is exact, if and only if the operand is not m. */
  lemma TransCompareExact(e: Expr, rel: Rel, s: Symbol, v: Valuation)
    requires WellFormed(v) && s in {SymYes, SymNo} && NotsDecided(e, v)
    ensures TextsTell(e, s, v) ==> Eval(TransCompare(e, rel, s), v) == CompareWith(Eval(e, v), rel, s)
    ensures e.Leaf? ==> (Eval(TransCompare(e, rel, s), v) == CompareWith(Eval(e, v), rel, s) <==> TextsTell(e, s, v))
    ensures TextsTell(e, s, v) ==>
              (Eval(TransCompare(Not(e), rel, s), v) == CompareWith(Eval(Not(e), v), rel, s) <==> Eval(e, v) != MOD)
  {
    if TextsTell(e, s, v) {
      TransCompareMeaning(e, rel, s, v);
      RoundingIsHarmless(e, s, v);
      TransCompareMeaning(e, rel.Flip(), s, v);
    }
  }

  /** The text of a string or a number need not tell: such a symbol is n, whatever it says,
      and the comparison with n finds it different. */
  lemma StringsDoNotTell(s: Symbol)
    requires s.SymVar? && !s.IsLogical()
    ensures exists v: Valuation :: WellFormed(v) && Eval(Leaf(s), v) == NO
              && Eval(TransCompare(Leaf(s), Unequal, SymNo), v) == YES
  {
    var b := BaseValuation();
    var v: Valuation := (x: Symbol) => if x == s then Value(NO, "x") else b(x);
    assert WellFormed(v);
    assert Eval(Leaf(s), v) == NO && Eval(TransCompare(Leaf(s), Unequal, SymNo), v) == YES;
  }
}
