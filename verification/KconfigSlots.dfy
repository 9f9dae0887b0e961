/** Slots: a struct expr ** into a tree is modelled as the path from the root to the
    child pointer it designates. Two slots may lie one below the other, which is how
    expr_eliminate_dups uses them. Also here: the measure behind its termination. */
module KconfigSlots {
  import opened KconfigExpr
  import opened KconfigJoin

  datatype Dir = L | R
  type Path = seq<Dir>

  predicate HasChild(e: Expr, d: Dir) { e.Bin? || (e.Not? && d.L?) }

  function Child(e: Expr, d: Dir): (c: Expr)
    requires HasChild(e, d)
    ensures Size(c) < Size(e)
  {
    if e.Not? then e.operand else if d.L? then e.left else e.right
  }

  function WithChild(e: Expr, d: Dir, c: Expr): Expr
    requires HasChild(e, d)
  {
    if e.Not? then Not(c) else if d.L? then Bin(e.op, c, e.right) else Bin(e.op, e.left, c)
  }

  predicate Slot(e: Expr, p: Path) {
    p == [] || (HasChild(e, p[0]) && Slot(Child(e, p[0]), p[1..]))
  }

  /** What the pointer designates. */
  function At(e: Expr, p: Path): (x: Expr)
    requires Slot(e, p)
    ensures Size(x) <= Size(e) && (p != [] ==> Size(x) < Size(e))
  {
    if p == [] then e else At(Child(e, p[0]), p[1..])
  }

  /** Assignment through the pointer. */
  function Put(e: Expr, p: Path, x: Expr): (r: Expr)
    requires Slot(e, p)
    ensures p != [] ==> SameType(e, r)
  {
    if p == [] then x else WithChild(e, p[0], Put(Child(e, p[0]), p[1..], x))
  }

  lemma {:induction false} AtPut(e: Expr, p: Path, x: Expr)
    requires Slot(e, p)
    ensures Slot(Put(e, p, x), p) && At(Put(e, p, x), p) == x
    ensures Put(e, p, At(e, p)) == e
    ensures forall y :: Put(Put(e, p, x), p, y) == Put(e, p, y)
  {
    if p != [] { AtPut(Child(e, p[0]), p[1..], x); }
  }

  lemma {:induction false} SlotAppend(e: Expr, p: Path, q: Path)
    requires Slot(e, p)
    ensures Slot(e, p + q) <==> Slot(At(e, p), q)
    ensures Slot(At(e, p), q) ==> At(e, p + q) == At(At(e, p), q)
    ensures Slot(At(e, p), q) ==> forall x :: Put(e, p + q, x) == Put(e, p, Put(At(e, p), q, x))
  {
    if p == [] {
      assert p + q == q;
    } else {
      SlotAppend(Child(e, p[0]), p[1..], q);
      assert (p + q)[1..] == p[1..] + q;
    }
  }

  /** Writing at a child of a slot is writing a new child at the slot. */
  lemma ChildSlot(t: Expr, p: Path, d: Dir, x: Expr)
    requires Slot(t, p) && HasChild(At(t, p), d)
    ensures Slot(t, p + [d]) && At(t, p + [d]) == Child(At(t, p), d)
    ensures Put(t, p + [d], x) == Put(t, p, WithChild(At(t, p), d, x))
    ensures var u := Put(t, p + [d], x);
            Slot(u, p) && At(u, p) == WithChild(At(t, p), d, x) && forall y :: Put(u, p, y) == Put(t, p, y)
  {
    SlotAppend(t, p, [d]);
    assert [d][1..] == [];
    assert Put(At(t, p), [d], x) == WithChild(At(t, p), d, x);
    AtPut(t, p, WithChild(At(t, p), d, x));
  }

  // ---------------------------------------------------------------------------
  // Spines
  // ---------------------------------------------------------------------------

  /** Every node passed on the way to p has type op. */
  predicate OnSpine(op: Op, e: Expr, p: Path)
    ensures OnSpine(op, e, p) ==> Slot(e, p)
  {
    p == [] || (Is(op, e) && OnSpine(op, Child(e, p[0]), p[1..]))
  }

  /** A slot where the op-spine of e ends. */
  predicate SpineLeaf(op: Op, e: Expr, p: Path) {
    OnSpine(op, e, p) && !Is(op, At(e, p))
  }

  function SpineSize(op: Op, e: Expr): nat {
    if Is(op, e) then 1 + SpineSize(op, e.left) + SpineSize(op, e.right) else 0
  }

  predicate SameSpine(op: Op, a: Expr, b: Expr) {
    Is(op, a) == Is(op, b)
    && (Is(op, a) ==> SameSpine(op, a.left, b.left) && SameSpine(op, a.right, b.right))
  }

  lemma {:induction false} SameSpineRefl(op: Op, a: Expr)
    ensures SameSpine(op, a, a)
  {
    if Is(op, a) {
      SameSpineRefl(op, a.left);
      SameSpineRefl(op, a.right);
    }
  }

  lemma {:induction false} SameSpineTrans(op: Op, a: Expr, b: Expr, c: Expr)
    requires SameSpine(op, a, b) && SameSpine(op, b, c)
    ensures SameSpine(op, a, c)
  {
    if Is(op, a) {
      SameSpineTrans(op, a.left, b.left, c.left);
      SameSpineTrans(op, a.right, b.right, c.right);
    }
  }

  /** Equal spines have the same slots, with equal spines below them. */
  lemma {:induction false} SameSpineAt(op: Op, a: Expr, b: Expr, p: Path)
    requires SameSpine(op, a, b) && OnSpine(op, a, p)
    ensures OnSpine(op, b, p) && SameSpine(op, At(a, p), At(b, p))
    ensures SpineSize(op, At(a, p)) == SpineSize(op, At(b, p))
  {
    if p == [] {
      SameSpineSize(op, a, b);
    } else {
      SameSpineAt(op, Child(a, p[0]), Child(b, p[0]), p[1..]);
    }
  }

  lemma {:induction false} SameSpineSize(op: Op, a: Expr, b: Expr)
    requires SameSpine(op, a, b)
    ensures SpineSize(op, a) == SpineSize(op, b)
  {
    if Is(op, a) {
      SameSpineSize(op, a.left, b.left);
      SameSpineSize(op, a.right, b.right);
    }
  }

  lemma {:induction false} SpineAppend(op: Op, e: Expr, p: Path, d: Dir)
    requires OnSpine(op, e, p) && Is(op, At(e, p))
    ensures OnSpine(op, e, p + [d]) && At(e, p + [d]) == Child(At(e, p), d)
  {
    if p == [] {
      assert p + [d] == [d];
      assert [d][1..] == [];
    } else {
      SpineAppend(op, Child(e, p[0]), p[1..], d);
      assert (p + [d])[1..] == p[1..] + [d];
    }
  }

  /** Overwriting a spine leaf by something that is not of type op keeps the spine,
      and whatever stands at the other slots that are not above it. */
  lemma {:induction false} PutLeaf(op: Op, e: Expr, p: Path, x: Expr)
    requires SpineLeaf(op, e, p) && !Is(op, x)
    ensures SameSpine(op, e, Put(e, p, x))
    ensures forall q | OnSpine(op, e, q) && !(q <= p) :: OnSpine(op, Put(e, p, x), q) && At(Put(e, p, x), q) == At(e, q)
  {
    if p != [] {
      PutLeaf(op, Child(e, p[0]), p[1..], x);
      SameSpineRefl(op, e.left);
      SameSpineRefl(op, e.right);
      forall q | OnSpine(op, e, q) && !(q <= p)
        ensures OnSpine(op, Put(e, p, x), q) && At(Put(e, p, x), q) == At(e, q)
      {
      }
    } else {
      forall q | OnSpine(op, e, q) && !(q <= p) ensures false { }
    }
  }

  /** A spine leaf has nothing of the spine below it. */
  lemma {:induction false} LeavesDoNotNest(op: Op, e: Expr, p: Path, q: Path)
    requires SpineLeaf(op, e, p) && OnSpine(op, e, q) && p <= q
    ensures p == q
  {
    if p != [] {
      LeavesDoNotNest(op, Child(e, p[0]), p[1..], q[1..]);
      assert p == [p[0]] + p[1..] && q == [q[0]] + q[1..];
    }
  }

  /** Assignments to two different leaves commute. */
  lemma {:induction false} PutsCommute(op: Op, e: Expr, p: Path, q: Path, x: Expr, y: Expr)
    requires SpineLeaf(op, e, p) && SpineLeaf(op, e, q) && p != q
    ensures Slot(Put(e, p, x), q) && Slot(Put(e, q, y), p)
    ensures Put(Put(e, p, x), q, y) == Put(Put(e, q, y), p, x)
  {
    assert p != [] && q != [];
    if p[0] == q[0] {
      assert p == [p[0]] + p[1..] && q == [q[0]] + q[1..];
      PutsCommute(op, Child(e, p[0]), p[1..], q[1..], x, y);
    }
  }

  // ---------------------------------------------------------------------------
  // What a spine means
  // ---------------------------------------------------------------------------

  /** What surrounds a spine slot contributes one value, whatever stands there. */
  lemma {:induction false} PutFactor(op: Op, e: Expr, p: Path, x: Expr, v: Valuation)
    requires WellFormed(v) && OnSpine(op, e, p)
    ensures Eval(Put(e, p, x), v) == op.Apply(Eval(Put(e, p, Leaf(op.Neutral())), v), Eval(x, v))
  {
    if p != [] {
      PutFactor(op, Child(e, p[0]), p[1..], x, v);
    }
  }

  /** Joining a tree with something on its own spine changes nothing. */
  lemma {:induction false} SpineAbsorbs(op: Op, e: Expr, p: Path, v: Valuation)
    requires WellFormed(v) && OnSpine(op, e, p)
    ensures op.Apply(Eval(e, v), Eval(At(e, p), v)) == Eval(e, v)
  {
    if p != [] {
      SpineAbsorbs(op, Child(e, p[0]), p[1..], v);
    }
  }

  /** Kleene's information order: only m may become something else. */
  ghost predicate Sharpens(a: Expr, b: Expr) {
    forall v: Valuation | WellFormed(v) :: Eval(a, v) == MOD || Eval(b, v) == Eval(a, v)
  }

  lemma SharpensInContext(op: Op, e: Expr, p: Path, x: Expr)
    requires OnSpine(op, e, p)
    ensures Sharpens(At(e, p), x) ==> Sharpens(e, Put(e, p, x))
    ensures Equivalent(At(e, p), x) ==> Equivalent(e, Put(e, p, x))
  {
    AtPut(e, p, x);
    forall v: Valuation | WellFormed(v)
      ensures Eval(At(e, p), v) == Eval(x, v) ==> Eval(e, v) == Eval(Put(e, p, x), v)
      ensures Eval(At(e, p), v) == MOD ==> Eval(e, v) == MOD || Eval(Put(e, p, x), v) == Eval(e, v)
    {
      PutFactor(op, e, p, x, v);
      PutFactor(op, e, p, At(e, p), v);
    }
  }

  /** Two leaves replaced by the neutral symbol and their join. */
  lemma PairJoinExact(op: Op, e: Expr, p: Path, q: Path, x: Expr)
    requires SpineLeaf(op, e, p) && SpineLeaf(op, e, q) && p != q
    requires Join(op, At(e, p), At(e, q)) == Some(x)
    ensures Slot(Put(e, p, Leaf(op.Neutral())), q)
    ensures Equivalent(e, Put(Put(e, p, Leaf(op.Neutral())), q, x))
  {
    var n := Leaf(op.Neutral());
    var a, b := At(e, p), At(e, q);
    TwoLeaves(op, e, p, q);
    var base := Put(Put(e, p, n), q, n);
    forall v: Valuation | WellFormed(v) ensures Eval(e, v) == Eval(Put(Put(e, p, n), q, x), v) {
      PutFactor(op, Put(e, p, n), q, x, v);
      PutFactor(op, Put(e, q, n), p, a, v);
      PutFactor(op, e, q, b, v);
      JoinExact(op, a, b, v);
      Regroup(op, Eval(base, v), Eval(a, v), Eval(b, v), NO);
    }
  }

  /** Both leaves can be taken out and put back one at a time. */
  lemma TwoLeaves(op: Op, e: Expr, p: Path, q: Path)
    requires SpineLeaf(op, e, p) && SpineLeaf(op, e, q) && p != q
    ensures var n := Leaf(op.Neutral());
            && SpineLeaf(op, Put(e, p, n), q) && SpineLeaf(op, Put(e, q, n), p)
            && Put(Put(e, p, n), q, n) == Put(Put(e, q, n), p, n)
            && Put(Put(e, q, n), p, At(e, p)) == Put(e, q, n)
            && Put(e, q, At(e, q)) == e
  {
    var n := Leaf(op.Neutral());
    if q <= p { LeavesDoNotNest(op, e, q, p); }
    if p <= q { LeavesDoNotNest(op, e, p, q); }
    PutLeaf(op, e, p, n);
    PutLeaf(op, e, q, n);
    PutsCommute(op, e, p, q, n, n);
    AtPut(e, q, n);
    AtPut(Put(e, q, n), p, n);
  }
}
