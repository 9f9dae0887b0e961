/** The measure behind the termination of expr_eliminate_dups: how many atoms a tree
    keeps once y and n are cancelled. */
module KconfigProgress {
  import opened KconfigExpr
  import opened KconfigJoin
  import opened KconfigSlots

  /** What is left of a tree after constant elimination: a constant, or atoms. */
  datatype Content = AllYes | AllNo | Atoms(count: nat)

  function Neutral(op: Op): Content { if op.And? then AllYes else AllNo }

  function Absorbing(op: Op): Content { if op.And? then AllNo else AllYes }

  function Combine(op: Op, a: Content, b: Content): Content {
    if a == Absorbing(op) || b == Absorbing(op) then Absorbing(op)
    else if a == Neutral(op) then b
    else if b == Neutral(op) then a
    else Atoms(a.count + b.count)
  }

  function ContentOf(e: Expr): (c: Content)
    ensures c.Atoms? ==> c.count >= 1
  {
    match e
    case Leaf(s) => if s == SymYes then AllYes else if s == SymNo then AllNo else Atoms(1)
    case Bin(op, l, r) => Combine(op, ContentOf(l), ContentOf(r))
    case _ => Atoms(1)
  }

  /** The symbol that a tree without atoms comes down to. */
  function ConstOf(c: Content): Symbol
    requires !c.Atoms?
  {
    if c.AllYes? then SymYes else SymNo
  }

  function Measure(e: Expr): nat {
    var c := ContentOf(e);
    if c.Atoms? then c.count else 0
  }

  /** No more than before: constants stay, atoms do not become more. */
  predicate AtMost(a: Content, b: Content) {
    if b.Atoms? then a.Atoms? ==> a.count <= b.count else a == b
  }

  lemma {:induction false} EliminateYnKeepsContent(e: Expr)
    ensures ContentOf(EliminateYn(e)) == ContentOf(e)
    ensures !ContentOf(e).Atoms? ==> EliminateYn(e) == Leaf(ConstOf(ContentOf(e)))
  {
    if e.Bin? {
      EliminateYnKeepsContent(e.left);
      EliminateYnKeepsContent(e.right);
    }
  }

  lemma {:induction false} ConstContentMeans(e: Expr, v: Valuation)
    requires WellFormed(v) && !ContentOf(e).Atoms?
    ensures Eval(e, v) == v(ConstOf(ContentOf(e))).tri
  {
    EliminateYnKeepsContent(e);
    EliminateYnSound(e, v);
  }

  lemma {:induction false} NormalHasAtoms(e: Expr)
    requires Normal(e) && !IsYn(e)
    ensures ContentOf(e).Atoms?
  {
    if e.Bin? {
      NormalHasAtoms(e.left);
      NormalHasAtoms(e.right);
    }
  }

  // ---------------------------------------------------------------------------
  // Trees that expr_eq calls equal have equal content
  // ---------------------------------------------------------------------------

  lemma CombineAssoc(op: Op, a: Content, b: Content, c: Content)
    ensures Combine(op, a, Combine(op, b, c)) == Combine(op, Combine(op, a, b), c)
    ensures Combine(op, a, b) == Combine(op, b, a)
  {
  }

  lemma CombineRegroup(op: Op, c1: Content, c2: Content, l: Content, r: Content)
    ensures Combine(op, Combine(op, c1, l), Combine(op, c2, r)) == Combine(op, Combine(op, c1, c2), Combine(op, l, r))
    ensures Combine(op, c1, Combine(op, c2, l)) == Combine(op, Combine(op, c1, c2), l)
    ensures Combine(op, Combine(op, c1, c2), l) == Combine(op, Combine(op, c1, l), c2)
  {
    calc {
      Combine(op, Combine(op, c1, l), Combine(op, c2, r));
      { CombineAssoc(op, Combine(op, c1, l), c2, r); }
      Combine(op, Combine(op, Combine(op, c1, l), c2), r);
      { CombineAssoc(op, c1, l, c2); CombineAssoc(op, l, c2, r); CombineAssoc(op, c1, c2, l); }
      Combine(op, Combine(op, Combine(op, c1, c2), l), r);
      { CombineAssoc(op, Combine(op, c1, c2), l, r); }
      Combine(op, Combine(op, c1, c2), Combine(op, l, r));
    }
    CombineAssoc(op, c1, c2, l);
    CombineAssoc(op, c1, l, c2);
    CombineAssoc(op, c2, l, l);
  }

  lemma {:induction false} ExprEqSameContent(e1: Expr, e2: Expr)
    requires ExprEq(e1, e2)
    ensures ContentOf(e1) == ContentOf(e2)
    decreases Size(e1) + Size(e2), 2
  {
    match e1
    case Bin(op, _, _) =>
      var (a, b) := EliminateEqLeaves(op, e1, e2);
      var c := LeavesCancelOneContent(op, e1, e2);
      EliminateYnKeepsContent(a);
      EliminateYnKeepsContent(b);
    case _ =>
  }

  /** One and the same content c has been taken out of both trees. */
  predicate LessContent(op: Op, e1: Expr, e2: Expr, a: Expr, b: Expr, c: Content) {
    ContentOf(e1) == Combine(op, c, ContentOf(a)) && ContentOf(e2) == Combine(op, c, ContentOf(b))
  }

  lemma LessContentBoth(op: Op, l: Expr, r: Expr, e: Expr, l': Expr, x: Expr, r': Expr, y: Expr,
                        c1: Content, c2: Content)
    ensures LessContent(op, l, e, l', x, c1) && LessContent(op, r, x, r', y, c2) ==>
              LessContent(op, Bin(op, l, r), e, Bin(op, l', r'), y, Combine(op, c1, c2))
    ensures LessContent(op, e, l, x, l', c1) && LessContent(op, x, r, y, r', c2) ==>
              LessContent(op, e, Bin(op, l, r), y, Bin(op, l', r'), Combine(op, c1, c2))
  {
    hide Combine;
    CombineRegroup(op, c1, c2, ContentOf(l'), ContentOf(r'));
    CombineRegroup(op, c1, c2, ContentOf(y), c1);
  }

  lemma {:induction false} LeavesCancelOneContent(op: Op, e1: Expr, e2: Expr) returns (c: Content)
    ensures var (a, b) := EliminateEqLeaves(op, e1, e2); LessContent(op, e1, e2, a, b, c)
    ensures Is(op, e1) ==> Is(op, EliminateEqLeaves(op, e1, e2).0)
    ensures Is(op, e2) ==> Is(op, EliminateEqLeaves(op, e1, e2).1)
    decreases Size(e1) + Size(e2), if Is(op, e1) || Is(op, e2) then 0 else 3
  {
    hide LessContent, Combine;
    if Is(op, e1) {
      var (l, x) := EliminateEqLeaves(op, e1.left, e2);
      var (r, y) := EliminateEqLeaves(op, e1.right, x);
      var c1 := LeavesCancelOneContent(op, e1.left, e2);
      var c2 := LeavesCancelOneContent(op, e1.right, x);
      c := Combine(op, c1, c2);
      LessContentBoth(op, e1.left, e1.right, e2, l, x, r, y, c1, c2);
    } else if Is(op, e2) {
      var (x, l) := EliminateEqLeaves(op, e1, e2.left);
      var (y, r) := EliminateEqLeaves(op, x, e2.right);
      var c1 := LeavesCancelOneContent(op, e1, e2.left);
      var c2 := LeavesCancelOneContent(op, x, e2.right);
      c := Combine(op, c1, c2);
      LessContentBoth(op, e2.left, e2.right, e1, l, x, r, y, c1, c2);
    } else {
      if ExprEq(e1, e2) { ExprEqSameContent(e1, e2); }
      c := LeavesLessContent(op, e1, e2);
    }
  }

  lemma LeavesLessContent(op: Op, e1: Expr, e2: Expr) returns (c: Content)
    requires !Is(op, e1) && !Is(op, e2) && (ExprEq(e1, e2) ==> ContentOf(e1) == ContentOf(e2))
    ensures var (a, b) := EliminateEqLeaves(op, e1, e2); LessContent(op, e1, e2, a, b, c)
  {
    c := if ExprEq(e1, e2) && !(IsYn(e1) && e1 == e2) then ContentOf(e1) else Neutral(op);
  }

  lemma JoinOperands(op: Op, a: Expr, b: Expr)
    requires Join(op, a, b).Some? && !ExprEq(a, b)
    ensures CommonSymbol(a, b).Some? && ContentOf(a) == ContentOf(b) == Atoms(1)
  {
    assert CommonSymbol(a, b).Some?;
    assert !a.Bin? && !b.Bin?;
    assert !IsYn(a) && !IsYn(b);
  }

  lemma JoinIsAtomic(op: Op, a: Expr, b: Expr)
    requires Join(op, a, b).Some? && !ExprEq(a, b)
    ensures !Join(op, a, b).value.Bin?
  {
    if op.And? { assert !JoinAnd(a, b).value.Bin?; } else { assert !JoinOr(a, b).value.Bin?; }
  }

  /** A join is no more than its operands, and less than two operands with atoms. */
  lemma JoinShrinks(op: Op, a: Expr, b: Expr)
    requires Join(op, a, b).Some?
    ensures var x := Join(op, a, b).value;
            && AtMost(ContentOf(x), Combine(op, ContentOf(a), ContentOf(b)))
            && (ContentOf(a).Atoms? && ContentOf(b).Atoms? ==> Measure(x) < Measure(a) + Measure(b))
  {
    var x := Join(op, a, b).value;
    if ExprEq(a, b) {
      ExprEqSameContent(a, b);
      assert x == a;
      hide Join, ExprEq;
      OneOfTwo(op, a, b);
    } else {
      JoinOperands(op, a, b);
      JoinIsAtomic(op, a, b);
      hide Join, ExprEq;
      OneForTwo(op, a, b, x);
    }
  }

  lemma OneOfTwo(op: Op, a: Expr, b: Expr)
    requires ContentOf(a) == ContentOf(b)
    ensures AtMost(ContentOf(a), Combine(op, ContentOf(a), ContentOf(b)))
    ensures ContentOf(a).Atoms? ==> Measure(a) < Measure(a) + Measure(b)
  {
  }

  lemma OneForTwo(op: Op, a: Expr, b: Expr, x: Expr)
    requires !x.Bin? && ContentOf(a) == ContentOf(b) == Atoms(1)
    ensures AtMost(ContentOf(x), Combine(op, ContentOf(a), ContentOf(b)))
    ensures Measure(x) < Measure(a) + Measure(b)
  {
  }

  // ---------------------------------------------------------------------------
  // Progress of one rewriting step
  // ---------------------------------------------------------------------------

  /** From a to b: no growth; nothing at all happened unless it was counted; and what
      was counted shrank a normal tree. */
  predicate Progress(a: Expr, b: Expr, counted: bool) {
    && AtMost(ContentOf(b), ContentOf(a))
    && (!counted ==> b == a)
    && (counted && Normal(a) ==> Measure(b) < Measure(a))
  }

  lemma CombineMonotone(op: Op, a: Content, b: Content, s: Content)
    requires AtMost(a, b)
    ensures AtMost(Combine(op, a, s), Combine(op, b, s))
    ensures Combine(op, a, s) == Combine(op, s, a)
    ensures a.Atoms? && b.Atoms? && s.Atoms? && a.count < b.count ==> Combine(op, a, s).count < Combine(op, b, s).count
  {
  }

  lemma ProgressUnder(op: Op, d: Dir, x: Expr, y: Expr, sibling: Expr, counted: bool)
    requires Progress(x, y, counted)
    ensures d.L? ==> Progress(Bin(op, x, sibling), Bin(op, y, sibling), counted)
    ensures d.R? ==> Progress(Bin(op, sibling, x), Bin(op, sibling, y), counted)
  {
    var cx, cy, cs := ContentOf(x), ContentOf(y), ContentOf(sibling);
    CombineMonotone(op, cy, cx, cs);
    CombineMonotone(op, cx, cx, cs);
    assert ContentOf(Bin(op, sibling, x)) == ContentOf(Bin(op, x, sibling)) == Combine(op, cx, cs);
    assert ContentOf(Bin(op, sibling, y)) == ContentOf(Bin(op, y, sibling)) == Combine(op, cy, cs);
    if counted && Normal(x) && !IsYn(x) && Normal(sibling) && !IsYn(sibling) {
      NormalHasAtoms(x);
      NormalHasAtoms(sibling);
      assert Measure(Bin(op, y, sibling)) < Measure(Bin(op, x, sibling));
    }
  }

  lemma {:induction false} ProgressInContext(op: Op, e: Expr, p: Path, x: Expr, counted: bool)
    requires OnSpine(op, e, p) && Progress(At(e, p), x, counted)
    ensures Progress(e, Put(e, p, x), counted)
  {
    if p != [] {
      var c := Child(e, p[0]);
      ProgressInContext(op, c, p[1..], x, counted);
      ProgressUnder(op, p[0], c, Put(c, p[1..], x), if p[0].L? then e.right else e.left, counted);
    }
  }

  lemma {:induction false} ContentFactor(op: Op, e: Expr, p: Path, x: Expr)
    requires OnSpine(op, e, p)
    ensures ContentOf(Put(e, p, x)) == Combine(op, ContentOf(Put(e, p, Leaf(op.Neutral()))), ContentOf(x))
  {
    if p != [] {
      ContentFactor(op, Child(e, p[0]), p[1..], x);
      var rest := ContentOf(Put(Child(e, p[0]), p[1..], Leaf(op.Neutral())));
      CombineRegroup(op, ContentOf(if p[0].L? then e.right else e.left), rest, ContentOf(x), rest);
      CombineRegroup(op, rest, ContentOf(x), ContentOf(if p[0].L? then e.right else e.left), rest);
    }
  }

  lemma {:induction false} NormalAt(op: Op, e: Expr, p: Path)
    requires OnSpine(op, e, p) && Normal(e) && (p == [] ==> !IsYn(e))
    ensures Normal(At(e, p)) && !IsYn(At(e, p))
  {
    if p != [] { NormalAt(op, Child(e, p[0]), p[1..]); }
  }

  /** The content of a spine is what the two leaves hold and what is left without them. */
  lemma PairContent(op: Op, e: Expr, p: Path, q: Path, x: Expr)
    requires SpineLeaf(op, e, p) && SpineLeaf(op, e, q) && p != q
    ensures var n := Leaf(op.Neutral());
            && Slot(Put(e, p, n), q)
            && var c := ContentOf(Put(Put(e, p, n), q, n));
               && ContentOf(e) == Combine(op, c, Combine(op, ContentOf(At(e, p)), ContentOf(At(e, q))))
               && ContentOf(Put(Put(e, p, n), q, x)) == Combine(op, c, ContentOf(x))
  {
    var n := Leaf(op.Neutral());
    var a, b := At(e, p), At(e, q);
    TwoLeaves(op, e, p, q);
    var c := ContentOf(Put(Put(e, p, n), q, n));
    ContentFactor(op, Put(e, p, n), q, x);
    ContentFactor(op, Put(e, q, n), p, a);
    ContentFactor(op, e, q, b);
    CombineRegroup(op, c, ContentOf(a), ContentOf(b), c);
  }

  lemma PairJoinProgress(op: Op, e: Expr, p: Path, q: Path, x: Expr)
    requires SpineLeaf(op, e, p) && SpineLeaf(op, e, q) && p != q
    requires Join(op, At(e, p), At(e, q)) == Some(x)
    ensures Slot(Put(e, p, Leaf(op.Neutral())), q)
    ensures Progress(e, Put(Put(e, p, Leaf(op.Neutral())), q, x), true)
  {
    var n := Leaf(op.Neutral());
    PairContent(op, e, p, q, x);
    JoinShrinks(op, At(e, p), At(e, q));
    hide Join;
    var c := ContentOf(Put(Put(e, p, n), q, n));
    var both := Combine(op, ContentOf(At(e, p)), ContentOf(At(e, q)));
    CombineMonotone(op, ContentOf(x), both, c);
    CombineMonotone(op, both, both, c);
    if Normal(e) {
      assert p != [];
      NormalAt(op, e, p);
      NormalAt(op, e, q);
      NormalHasAtoms(At(e, p));
      NormalHasAtoms(At(e, q));
      NormalHasAtoms(e);
    }
  }

  // ---------------------------------------------------------------------------
  // Nesting of the two operators, for the recursion into leaves of the other type
  // ---------------------------------------------------------------------------

  function Max(a: nat, b: nat): nat { if a < b then b else a }

  /** How often the operator changes on the way down, counted from an op-spine. */
  function Nesting(op: Op, e: Expr): nat
    decreases e, if Is(op, e) then 0 else 1
  {
    if Is(op, e) then Max(Nesting(op, e.left), Nesting(op, e.right))
    else if e.Bin? then 1 + Nesting(e.op, e)
    else 0
  }

  lemma {:induction false} NestingAt(op: Op, e: Expr, p: Path)
    requires OnSpine(op, e, p)
    ensures Nesting(op, At(e, p)) <= Nesting(op, e)
  {
    if p != [] { NestingAt(op, Child(e, p[0]), p[1..]); }
  }

  lemma {:induction false} NestingPut(op: Op, e: Expr, p: Path, x: Expr)
    requires OnSpine(op, e, p)
    ensures Nesting(op, Put(e, p, x)) <= Max(Nesting(op, e), Nesting(op, x))
  {
    if p != [] { NestingPut(op, Child(e, p[0]), p[1..], x); }
  }
}
