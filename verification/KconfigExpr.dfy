/** The value level of util/kconfig/expr.c: symbols, expression trees, their
    three-valued meaning, and the functions of that file that only read or build
    (equality, constant elimination, the join rules). */
module KconfigExpr {

  // ---------------------------------------------------------------------------
  // Tristates and symbols
  // ---------------------------------------------------------------------------

  /** no < mod < yes, with the numbers the C enum gives them. */
  type Tristate = x: int | 0 <= x <= 2

  const NO: Tristate := 0
  const MOD: Tristate := 1
  const YES: Tristate := 2

  datatype SymbolType = Unknown | Boolean | Tristate | Int | Hex | Str | Other

  /** The three built-in constants, any further constant symbol, and a declared
      symbol with its type. Equality stands for pointer identity: symbols are
      interned by sym_lookup. */
  datatype Symbol =
    | SymYes
    | SymMod
    | SymNo
    | SymConst(id: nat)
    | SymVar(id: nat, typ: SymbolType)
  {
    predicate IsConst() { !SymVar? }

    function Type(): SymbolType { if SymVar? then typ else Unknown }

    predicate IsLogical() { Type().Boolean? || Type().Tristate? }
  }

  /** What sym_calc_value leaves in a symbol: curr.tri, and the text that
      sym_get_string_value hands to a comparison. */
  datatype Value = Value(tri: Tristate, text: string)

  type Valuation = Symbol -> Value

  function TriText(t: Tristate): string {
    if t == NO then "n" else if t == MOD then "m" else "y"
  }

  /** What symbol calculation guarantees: a boolean is never m, the text of a
      logical symbol names its tristate, different constants have different texts. */
  ghost predicate WellFormed(v: Valuation) {
    && v(SymYes) == Value(YES, "y")
    && v(SymMod) == Value(MOD, "m")
    && v(SymNo) == Value(NO, "n")
    && (forall s: Symbol :: s.Type().Boolean? ==> v(s).tri != MOD)
    && (forall s: Symbol :: s.IsLogical() ==> v(s).text == TriText(v(s).tri))
    && (forall s: Symbol, t: Symbol :: s.IsConst() && t.IsConst() && s != t ==> v(s).text != v(t).text)
  }

  function BaseText(n: nat): string { seq(n + 2, i => 'x') }

  /** A well-formed valuation in which no symbol is m, save the constant itself. */
  function BaseValuation(): (v: Valuation)
    ensures WellFormed(v)
  {
    var v := (s: Symbol) =>
      match s
      case SymYes => Value(YES, "y")
      case SymMod => Value(MOD, "m")
      case SymNo => Value(NO, "n")
      case SymConst(id) => Value(NO, BaseText(id))
      case SymVar(_, _) => Value(NO, "n");
    assert forall s: Symbol :: s.SymConst? ==> |v(s).text| == s.id + 2;
    v
  }

  // ---------------------------------------------------------------------------
  // Expressions
  // ---------------------------------------------------------------------------

  datatype Op = And | Or
  {
    function Dual(): Op { if And? then Or else And }

    /** The symbol that disappears under the operator, and the one that wins. */
    function Neutral(): Symbol { if And? then SymYes else SymNo }
    function Absorbing(): Symbol { if And? then SymNo else SymYes }

    /** EXPR_AND and EXPR_OR of expr.h: minimum and maximum. */
    function Apply(a: Tristate, b: Tristate): Tristate {
      if And? then (if a < b then a else b) else (if a > b then a else b)
    }
  }

  datatype Rel = Equal | Unequal
  {
    function Flip(): Rel { if Equal? then Unequal else Equal }
  }

  datatype Expr =
    | Leaf(sym: Symbol)
    | Not(operand: Expr)
    | Comp(rel: Rel, lsym: Symbol, rsym: Symbol)
    | Bin(op: Op, left: Expr, right: Expr)

  predicate Is(op: Op, e: Expr) { e.Bin? && e.op == op }

  predicate SameType(a: Expr, b: Expr) {
    match a
    case Leaf(_) => b.Leaf?
    case Not(_) => b.Not?
    case Comp(r, _, _) => b.Comp? && b.rel == r
    case Bin(o, _, _) => Is(o, b)
  }

  /** expr_calc_value. */
  function Eval(e: Expr, v: Valuation): Tristate {
    match e
    case Leaf(s) => v(s).tri
    case Not(x) => 2 - Eval(x, v)
    case Comp(rel, l, r) => if (v(l).text == v(r).text) == rel.Equal? then YES else NO
    case Bin(op, l, r) => op.Apply(Eval(l, v), Eval(r, v))
  }

  function Size(e: Expr): nat {
    match e
    case Leaf(_) => 1
    case Not(x) => 1 + Size(x)
    case Comp(_, _, _) => 1
    case Bin(_, l, r) => 1 + Size(l) + Size(r)
  }

  ghost predicate Equivalent(a: Expr, b: Expr) {
    forall v: Valuation | WellFormed(v) :: Eval(a, v) == Eval(b, v)
  }

  // ---------------------------------------------------------------------------
  // expr_eliminate_yn
  // ---------------------------------------------------------------------------

  function EliminateYn(e: Expr): Expr {
    match e
    case Bin(op, l, r) =>
      var l', r' := EliminateYn(l), EliminateYn(r);
      if l' == Leaf(op.Absorbing()) then l'
      else if l' == Leaf(op.Neutral()) then r'
      else if r' == Leaf(op.Absorbing()) then r'
      else if r' == Leaf(op.Neutral()) then l'
      else Bin(op, l', r')
    case _ => e
  }

  predicate IsYn(e: Expr) { e == Leaf(SymYes) || e == Leaf(SymNo) }

  /** No y or n directly under an operator. */
  predicate Normal(e: Expr) {
    e.Bin? ==> Normal(e.left) && Normal(e.right) && !IsYn(e.left) && !IsYn(e.right)
  }

  lemma {:induction false} EliminateYnSound(e: Expr, v: Valuation)
    requires WellFormed(v)
    ensures Eval(EliminateYn(e), v) == Eval(e, v)
  {
    if e.Bin? {
      EliminateYnSound(e.left, v);
      EliminateYnSound(e.right, v);
    }
  }

  /** The result is normal, normal trees are left alone, and nothing grows. */
  lemma {:induction false} EliminateYnNormalises(e: Expr)
    ensures Normal(EliminateYn(e))
    ensures Size(EliminateYn(e)) <= Size(e)
    ensures Normal(e) <==> EliminateYn(e) == e
  {
    if e.Bin? {
      EliminateYnNormalises(e.left);
      EliminateYnNormalises(e.right);
    }
  }

  // ---------------------------------------------------------------------------
  // expr_eq and expr_eliminate_eq
  // ---------------------------------------------------------------------------

  /** expr_eq. It works on copies, so it only reads its arguments. */
  function ExprEq(e1: Expr, e2: Expr): bool
    decreases Size(e1) + Size(e2), 2
  {
    if !SameType(e1, e2) then false
    else match e1
      case Comp(_, l, r) => l == e2.lsym && r == e2.rsym
      case Leaf(s) => s == e2.sym
      case Not(x) => ExprEq(x, e2.operand)
      case Bin(_, _, _) =>
        var (a, b) := EliminateEq(e1, e2);
        a.Leaf? && b.Leaf? && a.sym == b.sym
  }

  /** expr_eliminate_eq, for two trees that share no node. */
  function EliminateEq(e1: Expr, e2: Expr): (Expr, Expr)
    decreases Size(e1) + Size(e2), 1
  {
    var (a1, a2) := if e1.Bin? then EliminateEqLeaves(e1.op, e1, e2) else (e1, e2);
    var (b1, b2) := if !SameType(a1, a2) && a2.Bin? then EliminateEqLeaves(a2.op, a1, a2) else (a1, a2);
    (EliminateYn(b1), EliminateYn(b2))
  }

  /** __expr_eliminate_eq: every leaf of one op-spine against every leaf of the other. */
  function EliminateEqLeaves(op: Op, e1: Expr, e2: Expr): (r: (Expr, Expr))
    ensures Size(r.0) <= Size(e1) && Size(r.1) <= Size(e2)
    decreases Size(e1) + Size(e2), if Is(op, e1) || Is(op, e2) then 0 else 3
  {
    if Is(op, e1) then
      var (l, x) := EliminateEqLeaves(op, e1.left, e2);
      var (r, y) := EliminateEqLeaves(op, e1.right, x);
      (Bin(op, l, r), y)
    else if Is(op, e2) then
      var (x, l) := EliminateEqLeaves(op, e1, e2.left);
      var (y, r) := EliminateEqLeaves(op, x, e2.right);
      (y, Bin(op, l, r))
    else if IsYn(e1) && e1 == e2 then (e1, e2)
    else if !ExprEq(e1, e2) then (e1, e2)
    else (Leaf(op.Neutral()), Leaf(op.Neutral()))
  }

  lemma Regroup(op: Op, c1: Tristate, c2: Tristate, l: Tristate, r: Tristate)
    ensures op.Apply(op.Apply(c1, l), op.Apply(c2, r)) == op.Apply(op.Apply(c1, c2), op.Apply(l, r))
    ensures op.Apply(c1, op.Apply(c2, l)) == op.Apply(op.Apply(c1, c2), l)
  {
  }

  /** Nonzero means equal, under every valuation. */
  lemma {:induction false} ExprEqSound(e1: Expr, e2: Expr, v: Valuation)
    requires WellFormed(v) && ExprEq(e1, e2)
    ensures Eval(e1, v) == Eval(e2, v)
    decreases Size(e1) + Size(e2), 2
  {
    match e1 {
      case Leaf(_) =>
      case Comp(_, _, _) =>
      case Not(x) => ExprEqSound(x, e2.operand, v);
      case Bin(op, _, _) =>
        var (a, b) := EliminateEqLeaves(op, e1, e2);
        var c := LeavesCancelOneValue(op, e1, e2, v);
        EliminateYnSound(a, v);
        EliminateYnSound(b, v);
    }
  }

  /** Cancellation takes one and the same value c out of both sides. */
  lemma {:induction false} LeavesCancelOneValue(op: Op, e1: Expr, e2: Expr, v: Valuation) returns (c: Tristate)
    requires WellFormed(v)
    ensures var (a, b) := EliminateEqLeaves(op, e1, e2);
            Eval(e1, v) == op.Apply(c, Eval(a, v)) && Eval(e2, v) == op.Apply(c, Eval(b, v))
    ensures Is(op, e1) ==> Is(op, EliminateEqLeaves(op, e1, e2).0)
    ensures Is(op, e2) ==> Is(op, EliminateEqLeaves(op, e1, e2).1)
    decreases Size(e1) + Size(e2), if Is(op, e1) || Is(op, e2) then 0 else 3
  {
    if Is(op, e1) {
      var (l, x) := EliminateEqLeaves(op, e1.left, e2);
      var (r, y) := EliminateEqLeaves(op, e1.right, x);
      var c1 := LeavesCancelOneValue(op, e1.left, e2, v);
      var c2 := LeavesCancelOneValue(op, e1.right, x, v);
      c := op.Apply(c1, c2);
      Regroup(op, c1, c2, Eval(l, v), Eval(r, v));
      Regroup(op, c1, c2, Eval(y, v), NO);
    } else if Is(op, e2) {
      var (x, l) := EliminateEqLeaves(op, e1, e2.left);
      var (y, r) := EliminateEqLeaves(op, x, e2.right);
      var c1 := LeavesCancelOneValue(op, e1, e2.left, v);
      var c2 := LeavesCancelOneValue(op, x, e2.right, v);
      c := op.Apply(c1, c2);
      Regroup(op, c1, c2, Eval(l, v), Eval(r, v));
      Regroup(op, c1, c2, Eval(y, v), NO);
    } else if ExprEq(e1, e2) && !(IsYn(e1) && e1 == e2) {
      ExprEqSound(e1, e2, v);
      c := Eval(e1, v);
    } else {
      c := v(op.Neutral()).tri;
    }
  }

  /** For trees of any shape: equal remainders mean equal originals. When both
      trees have the same operator, the originals are the remainders joined with
      one common value. */
  lemma {:induction false} EliminateEqSound(e1: Expr, e2: Expr, v: Valuation)
    requires WellFormed(v)
    ensures var (a, b) := EliminateEq(e1, e2); Eval(a, v) == Eval(b, v) ==> Eval(e1, v) == Eval(e2, v)
    ensures e1.Bin? && SameType(e1, e2) ==>
              var (a, b) := EliminateEq(e1, e2);
              exists c: Tristate ::
                Eval(e1, v) == e1.op.Apply(c, Eval(a, v)) && Eval(e2, v) == e1.op.Apply(c, Eval(b, v))
  {
    var (a1, a2) := if e1.Bin? then EliminateEqLeaves(e1.op, e1, e2) else (e1, e2);
    var (b1, b2) := if !SameType(a1, a2) && a2.Bin? then EliminateEqLeaves(a2.op, a1, a2) else (a1, a2);
    EliminateYnSound(b1, v);
    EliminateYnSound(b2, v);
    if e1.Bin? {
      var c := LeavesCancelOneValue(e1.op, e1, e2, v);
    }
    if !SameType(a1, a2) && a2.Bin? {
      var d := LeavesCancelOneValue(a2.op, a1, a2, v);
    }
  }
}
