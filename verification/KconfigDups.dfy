/** expr_eliminate_dups of util/kconfig/expr.c, on a tree that is rewritten in place
    through slots that may overlap. */
module KconfigDups {
  import opened KconfigExpr
  import opened KconfigTransform
  import opened KconfigJoin
  import opened KconfigSlots
  import opened KconfigProgress

  // ---------------------------------------------------------------------------
  // What a rewrite keeps, and what a pass that rewrote nothing has found out
  // ---------------------------------------------------------------------------

  /** Negation normal form stays, and so does a form that expr_trans_bool can deal with. */
  predicate KeepsForm(a: Expr, b: Expr) {
    (Nnf(a) ==> Nnf(b)) && (NotsUntouched(a) ==> NotsUntouched(b))
  }

  /** A rewrite of an op-spine: the spine stays, it is progress if it was counted,
      and the form stays. */
  ghost predicate Kept(op: Op, a: Expr, b: Expr, counted: bool) {
    SameSpine(op, a, b) && Progress(a, b, counted) && KeepsForm(a, b)
  }

  lemma KeptTrans(op: Op, a: Expr, b: Expr, c: Expr, m: bool, n: bool)
    requires Kept(op, a, b, m) && Kept(op, b, c, n)
    ensures Kept(op, a, c, m || n)
  {
    SameSpineTrans(op, a, b, c);
  }

  lemma KeptRefl(op: Op, a: Expr)
    ensures Kept(op, a, a, false)
  {
    SameSpineRefl(op, a);
  }

  lemma {:induction false} PutKeepsForm(op: Op, e: Expr, p: Path, x: Expr)
    requires OnSpine(op, e, p)
    ensures KeepsForm(e, At(e, p))
    ensures Nnf(e) && Nnf(x) ==> Nnf(Put(e, p, x))
    ensures NotsUntouched(e) && NotsUntouched(x) ==> NotsUntouched(Put(e, p, x))
  {
    if p != [] { PutKeepsForm(op, Child(e, p[0]), p[1..], x); }
  }

  /** A rewrite of a leaf, seen from the spine it hangs on. */
  lemma KeptInContext(op: Op, e: Expr, p: Path, x: Expr, counted: bool)
    requires SpineLeaf(op, e, p) && Kept(op.Dual(), At(e, p), x, counted) && Is(op.Dual(), At(e, p))
    ensures Kept(op, e, Put(e, p, x), counted)
  {
    PutLeaf(op, e, p, x);
    ProgressInContext(op, e, p, x, counted);
    PutKeepsForm(op, e, p, x);
  }

  /** No two leaves of the spine, the first at or below p and the second at or below
      q, can be joined; nor can any two inside the first. */
  ghost predicate NoJoin(op: Op, t: Expr, p: Path, q: Path)
    decreases Size(t), 0
  {
    forall i, j | SpineLeaf(op, t, i) && SpineLeaf(op, t, j) && p <= i && q <= j && i != j ::
      Join(op, At(t, i), At(t, j)).None? && DupFree(At(t, i))
  }

  ghost predicate DupFree(t: Expr)
    decreases Size(t), 1
  {
    t.Bin? ==> NoJoin(t.op, t, [], [])
  }

  /** No leaf at or below p is contradicted by anything on the spine at or below q. */
  ghost predicate NoContradiction(op: Op, t: Expr, p: Path, q: Path)
    decreases Size(t), 0, 1
  {
    forall i, j | SpineLeaf(op, t, i) && OnSpine(op, t, j) && p <= i && q <= j :: PairFree(op, t, i, j)
  }

  /** What the part of expr_eliminate_dups2 behind the recursion looks for: a leaf and a
      node of its spine. */
  ghost predicate PairFree(op: Op, t: Expr, i: Path, j: Path)
    requires SpineLeaf(op, t, i) && OnSpine(op, t, j)
    decreases Size(t), 0, 0
  {
    i != j && At(t, i).Bin? ==>
      !Contradicts(At(t, i).op.Dual(), At(t, i), At(t, j)) && ContradictionFree(At(t, i))
  }

  ghost predicate ContradictionFree(t: Expr)
    decreases Size(t), 1
  {
    t.Bin? ==> NoContradiction(t.op, t, [], [])
  }

  /** Neither pass finds anything to do. */
  ghost predicate Clean(t: Expr) { DupFree(t) && ContradictionFree(t) }

  // ---------------------------------------------------------------------------
  // The tree behind a struct expr *
  // ---------------------------------------------------------------------------

  /** Both children of a spine node that is not a leaf are on the spine, and a leaf
      below the node is below one of them. */
  lemma Descend(op: Op, t: Expr, p: Path)
    requires OnSpine(op, t, p) && Is(op, At(t, p))
    ensures OnSpine(op, t, p + [L]) && At(t, p + [L]) == At(t, p).left
    ensures OnSpine(op, t, p + [R]) && At(t, p + [R]) == At(t, p).right
    ensures forall i | SpineLeaf(op, t, i) && p <= i :: p + [L] <= i || p + [R] <= i
    ensures forall i | OnSpine(op, t, i) && (p + [L] <= i || p + [R] <= i) :: p <= i
  {
    SpineAppend(op, t, p, L);
    SpineAppend(op, t, p, R);
    forall i: Path | SpineLeaf(op, t, i) && p <= i ensures p + [L] <= i || p + [R] <= i {
      assert i != p;
      assert i[|p|].L? || i[|p|].R?;
    }
  }

  /** A write at s + p is a write at p inside the tree at s. */
  lemma Lift(tree: Expr, s: Path, p: Path, x: Expr)
    requires Slot(tree, s) && Slot(At(tree, s), p)
    ensures Slot(tree, s + p) && At(tree, s + p) == At(At(tree, s), p)
    ensures Put(tree, s + p, x) == Put(tree, s, Put(At(tree, s), p, x))
    ensures Slot(Put(tree, s + p, x), s) && At(Put(tree, s + p, x), s) == Put(At(tree, s), p, x)
  {
    SlotAppend(tree, s, p);
    AtPut(tree, s, Put(At(tree, s), p, x));
  }

  lemma NoJoinOfFirst(op: Op, t: Expr, p: Path, q: Path)
    requires OnSpine(op, t, p) && OnSpine(op, t, q) && Is(op, At(t, p))
    ensures NoJoin(op, t, p, q) <==> NoJoin(op, t, p + [L], q) && NoJoin(op, t, p + [R], q)
  {
    Descend(op, t, p);
    hide Join, DupFree;
  }

  lemma NoJoinOfSecond(op: Op, t: Expr, p: Path, q: Path)
    requires OnSpine(op, t, p) && OnSpine(op, t, q) && Is(op, At(t, q))
    ensures NoJoin(op, t, p, q) <==> NoJoin(op, t, p, q + [L]) && NoJoin(op, t, p, q + [R])
  {
    Descend(op, t, q);
    hide Join, DupFree;
  }

  lemma NoJoinOfLeaves(op: Op, t: Expr, p: Path, q: Path)
    requires SpineLeaf(op, t, p) && SpineLeaf(op, t, q)
    ensures NoJoin(op, t, p, q) <==> (p != q ==> Join(op, At(t, p), At(t, q)).None? && DupFree(At(t, p)))
  {
    forall i | SpineLeaf(op, t, i)
      ensures p <= i ==> i == p
      ensures q <= i ==> i == q
    {
      if p <= i { LeavesDoNotNest(op, t, p, i); }
      if q <= i { LeavesDoNotNest(op, t, q, i); }
    }
  }

  /** One join of expr_eliminate_dups1, seen from the spine. */
  lemma JoinStep(op: Op, t: Expr, p: Path, q: Path, x: Expr, h: nat)
    requires SpineLeaf(op, t, p) && SpineLeaf(op, t, q) && p != q
    requires Join(op, At(t, p), At(t, q)) == Some(x)
    requires Nesting(op, t) <= h
    ensures var u := Put(t, p, Leaf(op.Neutral()));
            && Slot(u, q)
            && Equivalent(t, Put(u, q, x))
            && Kept(op, t, Put(u, q, x), true)
            && Nesting(op, Put(u, q, x)) <= h
  {
    var n := Leaf(op.Neutral());
    var u := Put(t, p, n);
    TwoLeaves(op, t, p, q);
    PairJoinExact(op, t, p, q, x);
    PairJoinProgress(op, t, p, q, x);
    NestingAt(op, t, p);
    NestingPut(op, t, p, n);
    NestingPut(op, u, q, x);
    if !ExprEq(At(t, p), At(t, q)) { JoinIsAtomic(op, At(t, p), At(t, q)); }
    PutLeaf(op, t, p, n);
    PutLeaf(op, u, q, x);
    SameSpineTrans(op, t, u, Put(u, q, x));
    JoinForm(op, t, p, q, x);
  }

  lemma JoinKeepsForm(op: Op, a: Expr, b: Expr)
    requires Join(op, a, b).Some?
    ensures Nnf(a) && Nnf(b) ==> Nnf(Join(op, a, b).value)
    ensures NotsUntouched(a) && NotsUntouched(b) ==> NotsUntouched(Join(op, a, b).value)
  {
  }

  lemma JoinForm(op: Op, t: Expr, p: Path, q: Path, x: Expr)
    requires SpineLeaf(op, t, p) && SpineLeaf(op, t, q) && p != q
    requires Join(op, At(t, p), At(t, q)) == Some(x)
    ensures var u := Put(t, p, Leaf(op.Neutral())); Slot(u, q) && KeepsForm(t, Put(u, q, x))
  {
    var n := Leaf(op.Neutral());
    var u := Put(t, p, n);
    TwoLeaves(op, t, p, q);
    PutLeaf(op, t, p, n);
    JoinKeepsForm(op, At(t, p), At(t, q));
    hide Join;
    PutKeepsForm(op, t, p, n);
    PutKeepsForm(op, t, q, n);
    PutKeepsForm(op, u, q, x);
  }

  lemma NoContradictionOfChildren(op: Op, t: Expr, p: Path, q: Path)
    requires OnSpine(op, t, p) && OnSpine(op, t, q) && Is(op, At(t, p))
    ensures NoContradiction(op, t, p, q) <==> NoContradiction(op, t, p + [L], q) && NoContradiction(op, t, p + [R], q)
  {
    hide PairFree;
    Descend(op, t, p);
  }

  /** What the recursion on ep2 has covered. */
  ghost predicate BelowFree(op: Op, t: Expr, p: Path, q: Path)
    requires Slot(t, q)
  {
    Is(op, At(t, q)) ==> NoContradiction(op, t, p, q + [L]) && NoContradiction(op, t, p, q + [R])
  }

  /** The loop over ep2 in expr_eliminate_dups2 tries every node of the spine, not
      only its leaves: the recursion on an inner node does not return. */
  lemma NoContradictionOfNode(op: Op, t: Expr, p: Path, q: Path)
    requires SpineLeaf(op, t, p) && OnSpine(op, t, q)
    ensures NoContradiction(op, t, p, q) <==> BelowFree(op, t, p, q) && PairFree(op, t, p, q)
  {
    forall i | SpineLeaf(op, t, i) && p <= i ensures i == p { LeavesDoNotNest(op, t, p, i); }
    forall j: Path | OnSpine(op, t, j) && q <= j && j != q
      ensures Is(op, At(t, q)) && (q + [L] <= j || q + [R] <= j)
    {
      if !Is(op, At(t, q)) { LeavesDoNotNest(op, t, q, j); }
      assert j[|q|].L? || j[|q|].R?;
    }
    if Is(op, At(t, q)) { Descend(op, t, q); }
    hide Contradicts, ContradictionFree;
  }

  // ---------------------------------------------------------------------------
  // What the second pass does to a spine whose leaves are in order
  // ---------------------------------------------------------------------------

  /** Nothing inside a leaf of the spine is contradicted. */
  ghost predicate InnerFree(op: Op, e: Expr) {
    if Is(op, e) then InnerFree(op, e.left) && InnerFree(op, e.right) else ContradictionFree(e)
  }

  /** There is a contradiction, and nothing else to do. */
  ghost predicate Collapses(e: Expr) { e.Bin? && DupFree(e) && InnerFree(e.op, e) && !ContradictionFree(e) }

  /** Every leaf of the spine is kept or has become the absorbing constant. */
  predicate Dropped(op: Op, a: Expr, b: Expr) {
    if Is(op, a) then Is(op, b) && Dropped(op, a.left, b.left) && Dropped(op, a.right, b.right)
    else b == a || b == Leaf(op.Absorbing())
  }

  predicate HasAbsorbing(op: Op, e: Expr) {
    if Is(op, e) then HasAbsorbing(op, e.left) || HasAbsorbing(op, e.right) else e == Leaf(op.Absorbing())
  }

  /** A counted rewrite of such a spine leaves the absorbing constant on it. */
  ghost predicate Sweeps(op: Op, a: Expr, b: Expr, counted: bool) {
    InnerFree(op, a) ==> Dropped(op, a, b) && (counted ==> HasAbsorbing(op, b))
  }

  lemma {:induction false} DroppedRefl(op: Op, a: Expr)
    ensures Dropped(op, a, a)
  {
    if Is(op, a) {
      DroppedRefl(op, a.left);
      DroppedRefl(op, a.right);
    }
  }

  lemma {:induction false} DroppedAgain(op: Op, a: Expr, b: Expr, c: Expr)
    requires Dropped(op, a, b) && Dropped(op, b, c)
    ensures Dropped(op, a, c)
    ensures HasAbsorbing(op, b) ==> HasAbsorbing(op, c)
  {
    if Is(op, a) {
      DroppedAgain(op, a.left, b.left, c.left);
      DroppedAgain(op, a.right, b.right, c.right);
    }
  }

  lemma {:induction false} DroppedInner(op: Op, a: Expr, b: Expr)
    requires Dropped(op, a, b) && InnerFree(op, a)
    ensures InnerFree(op, b)
  {
    if Is(op, a) {
      DroppedInner(op, a.left, b.left);
      DroppedInner(op, a.right, b.right);
    }
  }

  lemma SweepsTrans(op: Op, a: Expr, b: Expr, c: Expr, m: bool, n: bool)
    requires Sweeps(op, a, b, m) && Sweeps(op, b, c, n)
    ensures Sweeps(op, a, c, m || n)
  {
    if InnerFree(op, a) {
      DroppedInner(op, a, b);
      DroppedAgain(op, a, b, c);
    }
  }

  lemma {:induction false} DropLeaf(op: Op, t: Expr, p: Path)
    requires SpineLeaf(op, t, p)
    ensures Dropped(op, t, Put(t, p, Leaf(op.Absorbing()))) && HasAbsorbing(op, Put(t, p, Leaf(op.Absorbing())))
    ensures InnerFree(op, t) ==> ContradictionFree(At(t, p))
    decreases p
  {
    if p != [] {
      DropLeaf(op, Child(t, p[0]), p[1..]);
      DroppedRefl(op, if p[0].L? then t.right else t.left);
    }
  }

  lemma {:induction false} AbsorbingWins(op: Op, e: Expr)
    requires HasAbsorbing(op, e)
    ensures EliminateYn(e) == Leaf(op.Absorbing())
  {
    if Is(op, e) {
      if HasAbsorbing(op, e.left) { AbsorbingWins(op, e.left); } else { AbsorbingWins(op, e.right); }
    }
  }

  // ---------------------------------------------------------------------------
  // Contracts of the two passes
  // ---------------------------------------------------------------------------

  /** The slots s + p and s + q lie on the op-spine whose root is at s. */
  ghost predicate Ready(op: Op, tree: Expr, s: Path, p: Path, q: Path, h: nat) {
    && Slot(tree, s)
    && OnSpine(op, At(tree, s), p)
    && OnSpine(op, At(tree, s), q)
    && Nesting(op, At(tree, s)) <= h
  }

  /** From a to b nothing changed outside the tree at s; inside, the value was kept,
      exactly or up to sharpening an m. */
  ghost predicate Moved(exact: bool, op: Op, a: Expr, b: Expr, s: Path, counted: bool, h: nat) {
    && Slot(a, s) && Slot(b, s)
    && b == Put(a, s, At(b, s))
    && (if exact then Equivalent(At(a, s), At(b, s)) else Sharpens(At(a, s), At(b, s)))
    && Kept(op, At(a, s), At(b, s), counted)
    && Nesting(op, At(b, s)) <= h
  }

  /** A pass of expr_eliminate_dups1 counts something exactly if there is something to
      join. */
  ghost predicate Done1(op: Op, a: Expr, b: Expr, s: Path, p: Path, q: Path, counted: bool, h: nat) {
    Moved(true, op, a, b, s, counted, h) && (counted <==> !NoJoin(op, At(a, s), p, q))
  }

  /** A rewrite by expr_eliminate_dups2: only an m is sharpened, and where the leaves are
      in order it is the absorbing constant that comes in. */
  ghost predicate Swept(op: Op, a: Expr, b: Expr, s: Path, counted: bool, h: nat) {
    Moved(false, op, a, b, s, counted, h) && Sweeps(op, At(a, s), At(b, s), counted)
  }

  /** A pass of expr_eliminate_dups2 counts something exactly if there is a contradiction. */
  ghost predicate Done2(op: Op, a: Expr, b: Expr, s: Path, p: Path, q: Path, counted: bool, h: nat) {
    Swept(op, a, b, s, counted, h) && (counted <==> !NoContradiction(op, At(a, s), p, q))
  }

  function Work(op: Op, tree: Expr, s: Path, p: Path): nat {
    if Slot(tree, s) && OnSpine(op, At(tree, s), p) then SpineSize(op, At(At(tree, s), p)) else 0
  }

  lemma NotMoved(exact: bool, op: Op, a: Expr, s: Path, h: nat)
    requires Slot(a, s) && Nesting(op, At(a, s)) <= h
    ensures Moved(exact, op, a, a, s, false, h)
  {
    KeptRefl(op, At(a, s));
    AtPut(a, s, At(a, s));
  }

  lemma Unmoved(exact: bool, op: Op, a: Expr, b: Expr, s: Path, h: nat)
    requires Moved(exact, op, a, b, s, false, h)
    ensures b == a
  {
    AtPut(a, s, At(a, s));
  }

  lemma MovedTrans(exact: bool, op: Op, a: Expr, b: Expr, c: Expr, s: Path, m: bool, n: bool, h: nat)
    requires Moved(exact, op, a, b, s, m, h) && Moved(exact, op, b, c, s, n, h)
    ensures Moved(exact, op, a, c, s, m || n, h)
  {
    AtPut(a, s, At(b, s));
    KeptTrans(op, At(a, s), At(b, s), At(c, s), m, n);
  }

  lemma NotSwept(op: Op, a: Expr, s: Path, h: nat)
    requires Slot(a, s) && Nesting(op, At(a, s)) <= h
    ensures Swept(op, a, a, s, false, h)
  {
    NotMoved(false, op, a, s, h);
    DroppedRefl(op, At(a, s));
  }

  lemma SweptTrans(op: Op, a: Expr, b: Expr, c: Expr, s: Path, m: bool, n: bool, h: nat)
    requires Swept(op, a, b, s, m, h) && Swept(op, b, c, s, n, h)
    ensures Swept(op, a, c, s, m || n, h)
    ensures !m ==> b == a
  {
    hide Sweeps, Kept, Nesting, Sharpens;
    MovedTrans(false, op, a, b, c, s, m, n, h);
    SweepsTrans(op, At(a, s), At(b, s), At(c, s), m, n);
    if !m { Unmoved(false, op, a, b, s, h); }
  }

  // ---------------------------------------------------------------------------
  // Steps of the recursion
  // ---------------------------------------------------------------------------

  /** Going down from one of the slots. */
  lemma FirstCall(op: Op, a: Expr, s: Path, p: Path, q: Path, h: nat)
    requires Ready(op, a, s, p, q, h)
    ensures Slot(a, s + p) && Slot(a, s + q)
    ensures At(a, s + p) == At(At(a, s), p) && At(a, s + q) == At(At(a, s), q)
    ensures Is(op, At(a, s + p)) ==>
              Ready(op, a, s, p + [L], q, h) && Work(op, a, s, p + [L]) < Work(op, a, s, p)
    ensures Is(op, At(a, s + q)) ==>
              Ready(op, a, s, p, q + [L], h) && Work(op, a, s, q + [L]) < Work(op, a, s, q)
  {
    var t := At(a, s);
    Lift(a, s, p, t);
    Lift(a, s, q, t);
    if Is(op, At(t, p)) { Descend(op, t, p); }
    if Is(op, At(t, q)) { Descend(op, t, q); }
  }

  /** After the first of the two calls the second can be made. */
  lemma SecondCall(exact: bool, op: Op, a: Expr, b: Expr, s: Path, p: Path, q: Path, m: bool, h: nat)
    requires Ready(op, a, s, p, q, h) && Moved(exact, op, a, b, s, m, h)
    ensures Ready(op, b, s, p, q, h)
    ensures Work(op, b, s, p) == Work(op, a, s, p) && Work(op, b, s, q) == Work(op, a, s, q)
    ensures Is(op, At(At(a, s), p)) ==>
              Ready(op, b, s, p + [R], q, h) && Work(op, b, s, p + [R]) < Work(op, a, s, p)
    ensures Is(op, At(At(a, s), q)) ==>
              Ready(op, b, s, p, q + [R], h) && Work(op, b, s, q + [R]) < Work(op, a, s, q)
    ensures SpineLeaf(op, At(a, s), p) ==> SpineLeaf(op, At(b, s), p)
    ensures SpineLeaf(op, At(a, s), q) ==> SpineLeaf(op, At(b, s), q)
  {
    SameSpineAt(op, At(a, s), At(b, s), p);
    SameSpineAt(op, At(a, s), At(b, s), q);
    if Is(op, At(At(a, s), p)) { Descend(op, At(b, s), p); }
    if Is(op, At(At(a, s), q)) { Descend(op, At(b, s), q); }
  }

  lemma BothOfFirst(op: Op, a: Expr, b: Expr, c: Expr, s: Path, p: Path, q: Path, m: bool, n: bool, h: nat)
    requires Ready(op, a, s, p, q, h) && Is(op, At(At(a, s), p))
    requires Done1(op, a, b, s, p + [L], q, m, h) && Done1(op, b, c, s, p + [R], q, n, h)
    ensures Done1(op, a, c, s, p, q, m || n, h)
  {
    hide Moved, NoJoin;
    MovedTrans(true, op, a, b, c, s, m, n, h);
    NoJoinOfFirst(op, At(a, s), p, q);
    if !m { Unmoved(true, op, a, b, s, h); }
  }

  lemma BothOfSecond(op: Op, a: Expr, b: Expr, c: Expr, s: Path, p: Path, q: Path, m: bool, n: bool, h: nat)
    requires Ready(op, a, s, p, q, h) && Is(op, At(At(a, s), q))
    requires Done1(op, a, b, s, p, q + [L], m, h) && Done1(op, b, c, s, p, q + [R], n, h)
    ensures Done1(op, a, c, s, p, q, m || n, h)
  {
    hide Moved, NoJoin;
    MovedTrans(true, op, a, b, c, s, m, n, h);
    NoJoinOfSecond(op, At(a, s), p, q);
    if !m { Unmoved(true, op, a, b, s, h); }
  }

  lemma BothCalls2(op: Op, a: Expr, b: Expr, c: Expr, s: Path, p: Path, q: Path, m: bool, n: bool, h: nat)
    requires Ready(op, a, s, p, q, h) && Is(op, At(At(a, s), p))
    requires Done2(op, a, b, s, p + [L], q, m, h) && Done2(op, b, c, s, p + [R], q, n, h)
    ensures Done2(op, a, c, s, p, q, m || n, h)
  {
    hide Swept, NoContradiction;
    SweptTrans(op, a, b, c, s, m, n, h);
    NoContradictionOfChildren(op, At(a, s), p, q);
  }

  lemma SameSlot(op: Op, a: Expr, s: Path, p: Path, q: Path, h: nat)
    requires Ready(op, a, s, p, q, h) && SpineLeaf(op, At(a, s), p) && s + p == s + q
    ensures p == q && Done1(op, a, a, s, p, q, false, h)
  {
    assert p == (s + p)[|s|..] && q == (s + q)[|s|..];
    NotMoved(true, op, a, s, h);
    NoJoinOfLeaves(op, At(a, s), p, p);
  }

  /** The nested call is about a spine of the other type, one level further in. */
  lemma NestedReady(op: Op, a: Expr, s: Path, p: Path, q: Path, h: nat)
    requires Ready(op, a, s, p, q, h) && SpineLeaf(op, At(a, s), p) && At(At(a, s), p).Bin?
    ensures Slot(a, s + p) && h >= 1
    ensures Ready(op.Dual(), a, s + p, [], [], h - 1)
    ensures s + p + [] == s + p
  {
    Lift(a, s, p, a);
    NestingAt(op, At(a, s), p);
  }

  /** What a pass over one leaf of the other type does to the spine it hangs on. */
  lemma NestedDone(exact: bool, op: Op, a: Expr, b: Expr, s: Path, p: Path, counted: bool, h: nat)
    requires Slot(a, s) && SpineLeaf(op, At(a, s), p) && At(At(a, s), p).Bin?
    requires Nesting(op, At(a, s)) <= h && h >= 1
    requires Moved(exact, op.Dual(), a, b, s + p, counted, h - 1)
    ensures Moved(exact, op, a, b, s, counted, h)
    ensures Slot(At(b, s), p) && At(b, s + p) == At(At(b, s), p) && Is(op.Dual(), At(b, s + p))
  {
    var t, x := At(a, s), At(b, s + p);
    Lift(a, s, p, x);
    AtPut(t, p, x);
    KeptInContext(op, t, p, x, counted);
    SharpensInContext(op, t, p, x);
    NestingPut(op, t, p, x);
  }

  /** Where expr_eliminate_dups1 has got when it calls expr_join_or or expr_join_and. */
  ghost predicate Nested1(op: Op, a: Expr, b: Expr, s: Path, p: Path, q: Path, counted: bool, h: nat) {
    && Moved(true, op, a, b, s, counted, h) && p != q
    && SpineLeaf(op, At(a, s), p) && SpineLeaf(op, At(a, s), q)
    && SpineLeaf(op, At(b, s), p) && SpineLeaf(op, At(b, s), q)
    && (counted <==> !DupFree(At(At(a, s), p)))
  }

  lemma NestedOne(op: Op, a: Expr, b: Expr, s: Path, p: Path, q: Path, counted: bool, h: nat)
    requires Ready(op, a, s, p, q, h) && p != q && SpineLeaf(op, At(a, s), p) && SpineLeaf(op, At(a, s), q)
    requires if At(At(a, s), p).Bin? then h >= 1 && Done1(op.Dual(), a, b, s + p, [], [], counted, h - 1)
             else b == a && !counted
    ensures Nested1(op, a, b, s, p, q, counted, h)
    ensures Slot(b, s + p) && Slot(b, s + q)
    ensures At(b, s + p) == At(At(b, s), p) && At(b, s + q) == At(At(b, s), q)
  {
    hide Kept, Nesting, NoJoin, Equivalent;
    if At(At(a, s), p).Bin? {
      Lift(a, s, p, a);
      NestedDone(true, op, a, b, s, p, counted, h);
    } else {
      NotMoved(true, op, a, s, h);
    }
    SecondCall(true, op, a, b, s, p, q, counted, h);
    FirstCall(op, b, s, p, q, h);
  }

  lemma NothingToJoin(op: Op, a: Expr, b: Expr, s: Path, p: Path, q: Path, counted: bool, h: nat)
    requires Nested1(op, a, b, s, p, q, counted, h)
    requires Join(op, At(At(b, s), p), At(At(b, s), q)).None?
    ensures Done1(op, a, b, s, p, q, counted, h)
  {
    if !counted { Unmoved(true, op, a, b, s, h); }
    hide Moved, NoJoin, DupFree, Join;
    NoJoinOfLeaves(op, At(a, s), p, q);
  }

  lemma Joined(op: Op, a: Expr, b: Expr, s: Path, p: Path, q: Path, counted: bool, h: nat)
    requires Nested1(op, a, b, s, p, q, counted, h)
    requires Join(op, At(At(b, s), p), At(At(b, s), q)).Some?
    ensures var x := Join(op, At(At(b, s), p), At(At(b, s), q)).value;
            && Slot(b, s + p)
            && Slot(Put(b, s + p, Leaf(op.Neutral())), s + q)
            && Done1(op, a, Put(Put(b, s + p, Leaf(op.Neutral())), s + q, x), s, p, q, true, h)
  {
    var t, n := At(b, s), Leaf(op.Neutral());
    var x := Join(op, At(t, p), At(t, q)).value;
    hide Join, NoJoin, DupFree, Equivalent;
    JoinStep(op, t, p, q, x, h);
    Lift(b, s, p, n);
    Lift(Put(b, s + p, n), s, q, x);
    AtPut(b, s, Put(t, p, n));
    MovedTrans(true, op, a, b, Put(Put(b, s + p, n), s + q, x), s, counted, true, h);
    if !counted { Unmoved(true, op, a, b, s, h); }
    NoJoinOfLeaves(op, At(a, s), p, q);
  }

  /** A contradicted spine has the absorbing value, or is m. */
  lemma ContradictedValue(op: Op, t: Expr, p: Path, q: Path, v: Valuation)
    requires SpineLeaf(op, t, p) && OnSpine(op, t, q) && Contradicts(op, At(t, p), At(t, q)) && WellFormed(v)
    ensures Eval(t, v) in {v(op.Absorbing()).tri, MOD}
    ensures Eval(Put(t, p, Leaf(op.Absorbing())), v) == v(op.Absorbing()).tri
  {
    PutFactor(op, t, p, Leaf(op.Absorbing()), v);
    SpineAbsorbs(op, t, p, v);
    SpineAbsorbs(op, t, q, v);
    ContradictionValue(op, At(t, p), At(t, q), v);
    Regroup(op, Eval(t, v), Eval(At(t, p), v), Eval(At(t, q), v), NO);
  }

  /** So it is not the neutral constant. */
  lemma ContradictedContent(op: Op, t: Expr, p: Path, q: Path)
    requires SpineLeaf(op, t, p) && OnSpine(op, t, q) && Contradicts(op, At(t, p), At(t, q))
    ensures ContentOf(t).Atoms? || ContentOf(t) == Absorbing(op)
  {
    if !ContentOf(t).Atoms? {
      var b := BaseValuation();
      ContradictedValue(op, t, p, q, b);
      ConstContentMeans(t, b);
    }
  }

  lemma ContradictionProgress(op: Op, t: Expr, p: Path, q: Path)
    requires SpineLeaf(op, t, p) && OnSpine(op, t, q) && At(t, p).Bin? && Contradicts(op, At(t, p), At(t, q))
    ensures Progress(t, Put(t, p, Leaf(op.Absorbing())), true)
  {
    ContradictedContent(op, t, p, q);
    ContentFactor(op, t, p, Leaf(op.Absorbing()));
    assert ContentOf(Put(t, p, Leaf(op.Absorbing()))) == Absorbing(op);
    assert t.Bin?;
    if Normal(t) { NormalHasAtoms(t); }
  }

  /** The replacement that expr_eliminate_dups2 makes, seen from the spine. */
  lemma ContradictionStep(op: Op, t: Expr, p: Path, q: Path, h: nat)
    requires SpineLeaf(op, t, p) && OnSpine(op, t, q) && At(t, p).Bin? && Contradicts(op, At(t, p), At(t, q))
    requires Nesting(op, t) <= h
    ensures var u := Put(t, p, Leaf(op.Absorbing()));
            Sharpens(t, u) && Kept(op, t, u, true) && Nesting(op, u) <= h
  {
    var n := Leaf(op.Absorbing());
    forall v: Valuation | WellFormed(v)
      ensures Eval(t, v) == MOD || Eval(Put(t, p, n), v) == Eval(t, v)
    {
      ContradictedValue(op, t, p, q, v);
    }
    ContradictionProgress(op, t, p, q);
    NestingPut(op, t, p, n);
    PutLeaf(op, t, p, n);
    PutKeepsForm(op, t, p, n);
  }

  /** Where expr_eliminate_dups2 has got when it tests for a contradiction. */
  ghost predicate Nested2(op: Op, a: Expr, b: Expr, s: Path, p: Path, q: Path, counted: bool, h: nat) {
    && Moved(false, op, a, b, s, counted, h) && p != q
    && SpineLeaf(op, At(a, s), p) && OnSpine(op, At(a, s), q) && At(At(a, s), p).Bin?
    && SpineLeaf(op, At(b, s), p) && OnSpine(op, At(b, s), q) && Is(op.Dual(), At(At(b, s), p))
    && Slot(b, s + p) && Slot(b, s + q)
    && At(b, s + p) == At(At(b, s), p) && At(b, s + q) == At(At(b, s), q)
    && (counted <==> !ContradictionFree(At(At(a, s), p)))
  }

  lemma NestedTwo(op: Op, a: Expr, b: Expr, s: Path, p: Path, q: Path, counted: bool, h: nat)
    requires Ready(op, a, s, p, q, h) && SpineLeaf(op, At(a, s), p) && At(At(a, s), p).Bin? && p != q && h >= 1
    requires Slot(a, s + p) && At(a, s + p) == At(At(a, s), p)
    requires Done2(op.Dual(), a, b, s + p, [], [], counted, h - 1)
    ensures Nested2(op, a, b, s, p, q, counted, h)
  {
    hide Kept, Nesting, NoContradiction, Sweeps, Sharpens, Equivalent;
    NestedDone(false, op, a, b, s, p, counted, h);
    SecondCall(false, op, a, b, s, p, q, counted, h);
    FirstCall(op, b, s, p, q, h);
  }

  /** Nothing of the sweep is lost by the nested pass: it counts nothing where the leaves
      are in order. */
  lemma NestedSwept(op: Op, a: Expr, b: Expr, s: Path, p: Path, q: Path, counted: bool, h: nat)
    requires Nested2(op, a, b, s, p, q, counted, h)
    ensures Swept(op, a, b, s, counted, h)
    ensures !counted ==> b == a
  {
    hide ContradictionFree;
    DropLeaf(op, At(a, s), p);
    if !counted {
      Unmoved(false, op, a, b, s, h);
      DroppedRefl(op, At(a, s));
    }
  }

  lemma NotContradicted(op: Op, a: Expr, b: Expr, s: Path, p: Path, q: Path, counted: bool, h: nat)
    requires Nested2(op, a, b, s, p, q, counted, h)
    requires !Contradicts(op, At(At(b, s), p), At(At(b, s), q))
    ensures Swept(op, a, b, s, counted, h) && (counted <==> !PairFree(op, At(a, s), p, q))
  {
    hide ContradictionFree, Moved, Sweeps, Contradicts;
    NestedSwept(op, a, b, s, p, q, counted, h);
  }

  lemma Contradicted(op: Op, a: Expr, b: Expr, s: Path, p: Path, q: Path, counted: bool, h: nat)
    requires Nested2(op, a, b, s, p, q, counted, h)
    requires Contradicts(op, At(At(b, s), p), At(At(b, s), q))
    ensures Swept(op, a, Put(b, s + p, Leaf(op.Absorbing())), s, true, h) && !PairFree(op, At(a, s), p, q)
  {
    var t, n := At(b, s), Leaf(op.Absorbing());
    hide ContradictionFree, Contradicts, Sharpens;
    ContradictionStep(op, t, p, q, h);
    Lift(b, s, p, n);
    DropLeaf(op, t, p);
    assert Swept(op, b, Put(b, s + p, n), s, true, h);
    hide Moved, Sweeps;
    NestedSwept(op, a, b, s, p, q, counted, h);
    SweptTrans(op, a, b, Put(b, s + p, n), s, counted, true, h);
  }

  // ---------------------------------------------------------------------------
  // The tree behind a struct expr *
  // ---------------------------------------------------------------------------

  class ExprTree {
    var tree: Expr
    var transCount: nat

    constructor (e: Expr)
      ensures tree == e && transCount == 0
    {
      tree, transCount := e, 0;
    }

    /** expr_eliminate_dups1(type, ep1, ep2): joins leaves of one op-spine, exactly. */
    method EliminateDups1(op: Op, ep1: Path, ep2: Path, ghost s: Path, ghost p: Path, ghost q: Path, ghost h: nat)
      requires ep1 == s + p && ep2 == s + q && Ready(op, tree, s, p, q, h)
      modifies this
      ensures transCount >= old(transCount)
      ensures Done1(op, old(tree), tree, s, p, q, transCount != old(transCount), h)
      decreases h, Work(op, tree, s, p) + Work(op, tree, s, q), 2
    {
      FirstCall(op, tree, s, p, q, h);
      if Is(op, At(tree, ep1)) {
        FirstOverSpine1(op, ep1, ep2, s, p, q, h);
      } else if Is(op, At(tree, ep2)) {
        SecondOverSpine1(op, ep1, ep2, s, p, q, h);
      } else if ep1 == ep2 {
        SameSlot(op, tree, s, p, q, h);
      } else {
        JoinLeaves(op, ep1, ep2, s, p, q, h);
      }
    }

    /** Its recursion on ep1. */
    method FirstOverSpine1(op: Op, ep1: Path, ep2: Path, ghost s: Path, ghost p: Path, ghost q: Path, ghost h: nat)
      requires ep1 == s + p && ep2 == s + q && Ready(op, tree, s, p, q, h)
      requires Is(op, At(At(tree, s), p))
      modifies this
      ensures transCount >= old(transCount)
      ensures Done1(op, old(tree), tree, s, p, q, transCount != old(transCount), h)
      decreases h, Work(op, tree, s, p) + Work(op, tree, s, q), 1
    {
      hide Moved, NoJoin, SpineSize;
      ghost var a, c := tree, transCount;
      FirstCall(op, a, s, p, q, h);
      EliminateDups1(op, ep1 + [L], ep2, s, p + [L], q, h);
      ghost var b, d := tree, transCount;
      SecondCall(true, op, a, b, s, p, q, c != d, h);
      EliminateDups1(op, ep1 + [R], ep2, s, p + [R], q, h);
      BothOfFirst(op, a, b, tree, s, p, q, c != d, transCount != d, h);
    }

    /** Its recursion on ep2. */
    method SecondOverSpine1(op: Op, ep1: Path, ep2: Path, ghost s: Path, ghost p: Path, ghost q: Path, ghost h: nat)
      requires ep1 == s + p && ep2 == s + q && Ready(op, tree, s, p, q, h)
      requires Is(op, At(At(tree, s), q))
      modifies this
      ensures transCount >= old(transCount)
      ensures Done1(op, old(tree), tree, s, p, q, transCount != old(transCount), h)
      decreases h, Work(op, tree, s, p) + Work(op, tree, s, q), 1
    {
      hide Moved, NoJoin, SpineSize;
      ghost var a, c := tree, transCount;
      FirstCall(op, a, s, p, q, h);
      EliminateDups1(op, ep1, ep2 + [L], s, p, q + [L], h);
      ghost var b, d := tree, transCount;
      SecondCall(true, op, a, b, s, p, q, c != d, h);
      EliminateDups1(op, ep1, ep2 + [R], s, p, q + [R], h);
      BothOfSecond(op, a, b, tree, s, p, q, c != d, transCount != d, h);
    }

    /** The rest of expr_eliminate_dups1: two different leaves of the spine. */
    method JoinLeaves(op: Op, ep1: Path, ep2: Path, ghost s: Path, ghost p: Path, ghost q: Path, ghost h: nat)
      requires ep1 == s + p && ep2 == s + q && Ready(op, tree, s, p, q, h)
      requires p != q && SpineLeaf(op, At(tree, s), p) && SpineLeaf(op, At(tree, s), q)
      modifies this
      ensures transCount >= old(transCount)
      ensures Done1(op, old(tree), tree, s, p, q, transCount != old(transCount), h)
      decreases h, 0, 0
    {
      hide Done1, Moved, Nested1, Join, NoJoin, DupFree, Work;
      ghost var a, c := tree, transCount;
      FirstCall(op, a, s, p, q, h);
      if At(tree, ep1).Bin? {
        NestedReady(op, a, s, p, q, h);
        EliminateDups1(At(tree, ep1).op, ep1, ep1, ep1, [], [], h - 1);
      }
      ghost var b, d := tree, transCount;
      NestedOne(op, a, b, s, p, q, d != c, h);
      match Join(op, At(tree, ep1), At(tree, ep2))
      case None =>
        NothingToJoin(op, a, b, s, p, q, d != c, h);
      case Some(tmp) =>
        Joined(op, a, b, s, p, q, d != c, h);
        tree := Put(tree, ep1, Leaf(op.Neutral()));
        tree := Put(tree, ep2, tmp);
        transCount := transCount + 1;
    }

    /** expr_eliminate_dups2(type, ep1, ep2): drops leaves that the rest of their own
        spine contradicts. Only an m can be sharpened by it. */
    method EliminateDups2(op: Op, ep1: Path, ep2: Path, ghost s: Path, ghost p: Path, ghost q: Path, ghost h: nat)
      requires ep1 == s + p && ep2 == s + q && Ready(op, tree, s, p, q, h)
      modifies this
      ensures transCount >= old(transCount)
      ensures Done2(op, old(tree), tree, s, p, q, transCount != old(transCount), h)
      decreases h, Work(op, tree, s, p) + Work(op, tree, s, q), 2
    {
      ghost var a, c := tree, transCount;
      FirstCall(op, a, s, p, q, h);
      if Is(op, At(tree, ep1)) {
        FirstOverSpine2(op, ep1, ep2, s, p, q, h);
        return;
      }
      if Is(op, At(tree, ep2)) {
        SecondOverSpine2(op, ep1, ep2, s, p, q, h);
      } else {
        NotSwept(op, a, s, h);
      }
      ghost var b, d := tree, transCount;
      SecondCall(false, op, a, b, s, p, q, d != c, h);
      ContradictLeaf(op, ep1, ep2, s, p, q, h);
      SweptTrans(op, a, b, tree, s, d != c, transCount != d, h);
      NoContradictionOfNode(op, At(a, s), p, q);
    }

    method FirstOverSpine2(op: Op, ep1: Path, ep2: Path, ghost s: Path, ghost p: Path, ghost q: Path, ghost h: nat)
      requires ep1 == s + p && ep2 == s + q && Ready(op, tree, s, p, q, h)
      requires Is(op, At(At(tree, s), p))
      modifies this
      ensures transCount >= old(transCount)
      ensures Done2(op, old(tree), tree, s, p, q, transCount != old(transCount), h)
      decreases h, Work(op, tree, s, p) + Work(op, tree, s, q), 1
    {
      hide Moved, Sweeps, NoContradiction, SpineSize;
      ghost var a, c := tree, transCount;
      FirstCall(op, a, s, p, q, h);
      EliminateDups2(op, ep1 + [L], ep2, s, p + [L], q, h);
      ghost var b, d := tree, transCount;
      SecondCall(false, op, a, b, s, p, q, c != d, h);
      EliminateDups2(op, ep1 + [R], ep2, s, p + [R], q, h);
      BothCalls2(op, a, b, tree, s, p, q, c != d, transCount != d, h);
    }

    /** Here the C code has no return: the node itself is still to come. */
    method SecondOverSpine2(op: Op, ep1: Path, ep2: Path, ghost s: Path, ghost p: Path, ghost q: Path, ghost h: nat)
      requires ep1 == s + p && ep2 == s + q && Ready(op, tree, s, p, q, h)
      requires Is(op, At(At(tree, s), q))
      modifies this
      ensures transCount >= old(transCount)
      ensures Swept(op, old(tree), tree, s, transCount != old(transCount), h)
      ensures transCount == old(transCount) <==> BelowFree(op, At(old(tree), s), p, q)
      decreases h, Work(op, tree, s, p) + Work(op, tree, s, q), 1
    {
      hide Moved, Sweeps, NoContradiction, SpineSize;
      ghost var a, c := tree, transCount;
      FirstCall(op, a, s, p, q, h);
      EliminateDups2(op, ep1, ep2 + [L], s, p, q + [L], h);
      ghost var b, d := tree, transCount;
      SecondCall(false, op, a, b, s, p, q, c != d, h);
      EliminateDups2(op, ep1, ep2 + [R], s, p, q + [R], h);
      SweptTrans(op, a, b, tree, s, c != d, transCount != d, h);
    }

    /** The rest of expr_eliminate_dups2: a leaf against a node of its spine. */
    method ContradictLeaf(op: Op, ep1: Path, ep2: Path, ghost s: Path, ghost p: Path, ghost q: Path, ghost h: nat)
      requires ep1 == s + p && ep2 == s + q && Ready(op, tree, s, p, q, h)
      requires SpineLeaf(op, At(tree, s), p)
      modifies this
      ensures transCount >= old(transCount)
      ensures Swept(op, old(tree), tree, s, transCount != old(transCount), h)
      ensures transCount == old(transCount) <==> PairFree(op, At(old(tree), s), p, q)
      decreases h, 0, 0
    {
      ghost var a, c := tree, transCount;
      NotSwept(op, a, s, h);
      FirstCall(op, a, s, p, q, h);
      if ep1 == ep2 {
        SameSlot(op, a, s, p, q, h);
        return;
      }
      if !At(tree, ep1).Bin? { return; }
      hide Swept, Moved, Sweeps, PairFree, NoContradiction, ContradictionFree, Work;
      var inner := At(tree, ep1).op;
      NestedReady(op, a, s, p, q, h);
      EliminateDups2(inner, ep1, ep1, ep1, [], [], h - 1);
      ghost var b, d := tree, transCount;
      NestedTwo(op, a, b, s, p, q, d != c, h);
      var tmp1 := Transform(Not(At(tree, ep1)));
      var (tmp, rest, _) := ExtractCommon(inner.Dual(), tmp1, At(tree, ep2));
      if rest == Leaf(inner.Dual().Neutral()) {
        Contradicted(op, a, b, s, p, q, d != c, h);
        tree := Put(tree, ep1, Leaf(inner.Dual().Absorbing()));
        transCount := transCount + 1;
      } else {
        NotContradicted(op, a, b, s, p, q, d != c, h);
      }
    }

    /** expr_eliminate_yn, in place: exactly the function of that name. */
    method EliminateYnAt(ep: Path)
      requires Slot(tree, ep)
      modifies this`tree
      ensures tree == Put(old(tree), ep, EliminateYn(At(old(tree), ep)))
      decreases Size(At(tree, ep))
    {
      ghost var a, e := tree, At(tree, ep);
      AtPut(a, ep, e);
      if At(tree, ep).Bin? {
        ChildSlot(a, ep, L, EliminateYn(e.left));
        EliminateYnAt(ep + [L]);
        ChildSlot(tree, ep, R, EliminateYn(e.right));
        EliminateYnAt(ep + [R]);
        EliminateYnTop(ep, e);
      }
    }

    /** The rules for a node whose operands have been dealt with. */
    method EliminateYnTop(ep: Path, ghost e: Expr)
      requires Slot(tree, ep) && e.Bin? && At(tree, ep) == Bin(e.op, EliminateYn(e.left), EliminateYn(e.right))
      modifies this`tree
      ensures tree == Put(old(tree), ep, EliminateYn(e))
    {
      AtPut(tree, ep, At(tree, ep));
      var op, left, right := At(tree, ep).op, At(tree, ep).left, At(tree, ep).right;
      if left.Leaf? {
        if left.sym == op.Absorbing() {
          tree := Put(tree, ep, Leaf(op.Absorbing()));
          return;
        } else if left.sym == op.Neutral() {
          tree := Put(tree, ep, right);
          return;
        }
      }
      if right.Leaf? {
        if right.sym == op.Absorbing() {
          tree := Put(tree, ep, Leaf(op.Absorbing()));
        } else if right.sym == op.Neutral() {
          tree := Put(tree, ep, left);
        }
      }
    }

    /** expr_transform, in place. */
    method TransformAt(ep: Path)
      requires Slot(tree, ep)
      modifies this`tree
      ensures tree == Put(old(tree), ep, Transform(At(old(tree), ep)))
      decreases Weight(At(tree, ep)), Size(At(tree, ep))
    {
      ghost var a := tree;
      var e := At(tree, ep);
      AtPut(a, ep, e);
      if e.Not? {
        ChildSlot(a, ep, L, Transform(e.operand));
        TransformAt(ep + [L]);
        TransformNot(ep, e);
      } else if e.Bin? {
        ChildSlot(a, ep, L, Transform(e.left));
        TransformAt(ep + [L]);
        ChildSlot(tree, ep, R, Transform(e.right));
        TransformAt(ep + [R]);
      } else if e.Comp? {
        tree := Put(tree, ep, TransformComp(e.rel, e.lsym, e.rsym));
      }
    }

    /** The rules for a NOT whose operand x has been transformed already. */
    method TransformNot(ep: Path, ghost e: Expr)
      requires Slot(tree, ep) && e.Not? && At(tree, ep) == Not(Transform(e.operand))
      modifies this`tree
      ensures tree == Put(old(tree), ep, Transform(e))
      decreases Weight(e), 0
    {
      var x := At(tree, ep).operand;
      AtPut(tree, ep, x);
      match x
      case Not(y) =>
        tree := Put(tree, ep, y);
        AtPut(old(tree), ep, y);
        TransformAt(ep);
      case Comp(rel, l, r) =>
        tree := Put(tree, ep, Comp(rel.Flip(), l, r));
      case Bin(op, l, r) =>
        NotOverBin(op, l, r);
        tree := Put(tree, ep, Bin(op.Dual(), Not(l), Not(r)));
        AtPut(old(tree), ep, Bin(op.Dual(), Not(l), Not(r)));
        TransformAt(ep);
      case Leaf(sym) =>
        if sym == SymYes {
          tree := Put(tree, ep, Leaf(SymNo));
        } else if sym == SymMod {
          tree := Put(tree, ep, Leaf(SymMod));
        } else if sym == SymNo {
          tree := Put(tree, ep, Leaf(SymYes));
        }
    }

    /** expr_trans_bool, in place. */
    method TransBoolAt(ep: Path)
      requires Slot(tree, ep)
      modifies this`tree
      ensures tree == Put(old(tree), ep, TransBool(At(old(tree), ep)))
      decreases Size(At(tree, ep))
    {
      ghost var a, e := tree, At(tree, ep);
      AtPut(a, ep, e);
      match At(tree, ep)
      case Not(x) =>
        ChildSlot(a, ep, L, TransBool(x));
        TransBoolAt(ep + [L]);
      case Bin(_, l, r) =>
        ChildSlot(a, ep, L, TransBool(l));
        TransBoolAt(ep + [L]);
        ChildSlot(tree, ep, R, TransBool(r));
        TransBoolAt(ep + [R]);
      case Comp(rel, l, r) =>
        if rel.Unequal? && l.Type().Tristate? && r == SymNo {
          tree := Put(tree, ep, Leaf(l));
        }
      case Leaf(_) =>
    }

    /** expr_eliminate_dups. A value n or y is kept, only m can be sharpened; in the
        result nothing can be joined and nothing is contradicted, and a tree is left alone
        exactly if it was like that already. It terminates because every counted rewrite
        shrinks a tree without constants. */
    method EliminateDups()
      modifies this
      ensures transCount == old(transCount)
      ensures Sharpens(old(tree), tree)
      ensures Clean(tree)
      ensures tree == old(tree) <==> Clean(old(tree))
      ensures Collapses(old(tree)) ==> tree == Leaf(old(tree).op.Absorbing())
      ensures AtMost(ContentOf(tree), ContentOf(old(tree)))
      ensures tree == old(tree) || (Normal(tree) && (Normal(old(tree)) ==> Measure(tree) < Measure(old(tree))))
      ensures KeepsForm(old(tree), tree)
    {
      var oldcount := transCount;
      while true
        invariant Sharpens(old(tree), tree)
        invariant AtMost(ContentOf(tree), ContentOf(old(tree)))
        invariant tree == old(tree) || (Normal(tree) && (Normal(old(tree)) ==> Measure(tree) < Measure(old(tree))))
        invariant KeepsForm(old(tree), tree)
        invariant tree == old(tree) || !Clean(old(tree))
        invariant Collapses(old(tree)) ==> tree == old(tree) || tree == Leaf(old(tree).op.Absorbing())
        decreases if Normal(tree) then 0 else 1, Measure(tree)
      {
        hide DupFree, ContradictionFree, InnerFree;
        ghost var a := tree;
        transCount := 0;
        if tree.Bin? {
          OnePass();
        }
        if transCount == 0 {
          break;
        }
        YnAfterPass(a, tree);
        EliminateYnAt([]);
      }
      transCount := oldcount;
    }

    /** The body of the loop: both passes over the whole tree. */
    method OnePass()
      requires tree.Bin? && transCount == 0
      modifies this
      ensures Sharpens(old(tree), tree)
      ensures Progress(old(tree), tree, transCount != 0)
      ensures KeepsForm(old(tree), tree)
      ensures transCount == 0 <==> Clean(old(tree))
      ensures transCount == 0 ==> tree == old(tree)
      ensures Collapses(old(tree)) ==> HasAbsorbing(old(tree).op, tree)
    {
      hide Nesting, NoJoin, NoContradiction, InnerFree;
      var op := tree.op;
      ghost var h := Nesting(op, tree);
      ghost var a := tree;
      EliminateDups1(op, [], [], [], [], [], h);
      ghost var b, c := tree, transCount;
      assert At(a, []) == a && At(b, []) == b;
      EliminateDups2(op, [], [], [], [], [], h);
      assert At(tree, []) == tree;
      KeptTrans(op, a, b, tree, c != 0, transCount != c);
    }
  }

  /** Constant elimination behind a counted pass keeps what the pass has established. */
  lemma YnAfterPass(a: Expr, b: Expr)
    requires a.Bin? && Sharpens(a, b) && Progress(a, b, true)
    ensures var e := EliminateYn(b);
            && Sharpens(a, e) && AtMost(ContentOf(e), ContentOf(a)) && Normal(e)
            && (Normal(a) ==> Measure(e) < Measure(a))
            && KeepsForm(b, e)
            && (HasAbsorbing(a.op, b) ==> e == Leaf(a.op.Absorbing()))
  {
    EliminateYnNormalises(b);
    EliminateYnKeepsContent(b);
    EliminateYnKeepsForm(b);
    if HasAbsorbing(a.op, b) { AbsorbingWins(a.op, b); }
    forall v: Valuation | WellFormed(v) ensures Eval(EliminateYn(b), v) == Eval(b, v) {
      EliminateYnSound(b, v);
    }
  }

  lemma {:induction false} EliminateYnKeepsForm(e: Expr)
    ensures KeepsForm(e, EliminateYn(e))
  {
    if e.Bin? {
      EliminateYnKeepsForm(e.left);
      EliminateYnKeepsForm(e.right);
    }
  }

  // ---------------------------------------------------------------------------
  // What the contracts say to a reader
  // ---------------------------------------------------------------------------

  /** No symbol that stands for a value by itself is m. */
  predicate NoMod(e: Expr, v: Valuation) {
    match e
    case Leaf(s) => v(s).tri != MOD
    case Not(x) => NoMod(x, v)
    case Bin(_, l, r) => NoMod(l, v) && NoMod(r, v)
    case Comp(_, _, _) => true
  }

  /** Where no symbol is m, sharpening is exact. */
  lemma {:induction false} SharpenedExactly(a: Expr, b: Expr, v: Valuation)
    requires WellFormed(v) && Sharpens(a, b) && NoMod(a, v)
    ensures Eval(b, v) == Eval(a, v)
  {
    NoModValue(a, v);
  }

  lemma {:induction false} NoModValue(e: Expr, v: Valuation)
    requires NoMod(e, v)
    ensures Eval(e, v) != MOD
  {
    match e
    case Not(x) => NoModValue(x, v);
    case Bin(_, l, r) =>
      NoModValue(l, v);
      NoModValue(r, v);
    case _ =>
  }
}
