/** The walk over all menus of conf_write and conf_write_defconfig in
    util/kconfig/confdata.c: three pointers for each menu, and no stack. */
module MenuWalk {

  class Menu {
    var list: Menu?
    var next: Menu?
    var parent: Menu?
  }

  /** The tree that the pointers stand for. */
  datatype Tree = Tree(menu: Menu, children: seq<Tree>)

  ghost function FirstOf(f: seq<Tree>): Menu? { if f == [] then null else f[0].menu }

  /** The trees are the menus below one parent: chained by next, with list pointing to
      the first child and parent pointing up. */
  ghost predicate Linked(f: seq<Tree>, parent: Menu?, menus: set<Menu>)
    reads menus
    decreases f
  {
    f == [] ||
    (var m := f[0].menu;
     && m in menus && m.parent == parent && m.next == FirstOf(f[1..]) && m.list == FirstOf(f[0].children)
     && Linked(f[0].children, m, menus) && Linked(f[1..], parent, menus))
  }

  /** The recursive order: a menu, what is below it, what follows it. */
  ghost function Preorder(f: seq<Tree>): seq<Menu>
    decreases f
  {
    if f == [] then [] else [f[0].menu] + Preorder(f[0].children) + Preorder(f[1..])
  }

  /** What is still to come above the current menus: the later siblings of the parent,
      of its parent, and so on up to the root. */
  datatype Above = Top | Level(siblings: seq<Tree>, above: Above)

  ghost predicate Climb(a: Above, menu: Menu, root: Menu, menus: set<Menu>)
    reads menus
    decreases a
  {
    match a
    case Top => menu == root
    case Level(siblings, above) =>
      && menu in menus && menu.next == FirstOf(siblings) && menu.parent != null
      && Linked(siblings, menu.parent, menus) && Climb(above, menu.parent, root, menus)
  }

  ghost function After(a: Above): seq<Menu> {
    match a
    case Top => []
    case Level(siblings, above) => Preorder(siblings) + After(above)
  }

  /** The inner loop: up until there is a next sibling. */
  method NextAbove(start: Menu, root: Menu, ghost menus: set<Menu>, ghost startAbove: Above)
      returns (menu: Menu?, ghost cur: seq<Tree>, ghost above: Above, ghost parent: Menu)
    requires root.next == null && root.parent == null
    requires start.parent != null && Climb(startAbove, start.parent, root, menus)
    ensures menu == FirstOf(cur) && Linked(cur, parent, menus) && Climb(above, parent, root, menus)
    ensures After(startAbove) == Preorder(cur) + After(above)
    ensures menu == null ==> above == Top
  {
    hide Preorder;
    menu := start.parent;
    cur, above, parent := [], startAbove, start.parent;
    while menu != null
      invariant menu != null ==> menu == parent
      invariant menu == null ==> above == Top && parent == root
      invariant Climb(above, parent, root, menus) && After(startAbove) == After(above)
      decreases menu != null, above
    {
      if menu.next != null {
        menu := menu.next;
        cur, above, parent := above.siblings, above.above, parent.parent;
        return;
      }
      ghost var level := above;
      menu := menu.parent;
      if level.Level? {
        EmptyLevel(level);
        above, parent := level.above, menu;
      }
    }
    EmptyForest(above);
  }

  lemma EmptyLevel(a: Above)
    requires a.Level? && a.siblings == []
    ensures After(a) == After(a.above)
  {
  }

  lemma EmptyForest(a: Above)
    ensures After(a) == Preorder([]) + After(a)
  {
  }

  /** The walk visits exactly the menus below the root, in recursive order, and ends. */
  method Walk(root: Menu, ghost f: seq<Tree>, ghost menus: set<Menu>) returns (visited: seq<Menu>)
    requires root.list == FirstOf(f) && root.next == null && root.parent == null
    requires Linked(f, root, menus)
    ensures visited == Preorder(f)
  {
    hide Climb, After;
    visited := [];
    var menu := root.list;
    ghost var cur, above, parent: Menu := f, Top, root;
    AtTop(root, menus);
    while menu != null
      invariant menu == FirstOf(cur) && Linked(cur, parent, menus)
      invariant Climb(above, parent, root, menus) && (menu == null ==> above == Top)
      invariant Preorder(f) == visited + (Preorder(cur) + After(above))
      decreases |Preorder(cur) + After(above)|
    {
      ghost var old_visited := visited;
      visited := visited + [menu];
      NodeFirst(old_visited, cur, above);
      if menu.list != null {
        GoDown(cur, parent, above, root, menus);
        cur, above, parent := cur[0].children, Level(cur[1..], above), menu;
        menu := menu.list;
      } else if menu.next != null {
        cur := cur[1..];
        menu := menu.next;
      } else {
        menu, cur, above, parent := NextAbove(menu, root, menus, above);
      }
    }
  }

  lemma AtTop(root: Menu, menus: set<Menu>)
    ensures Climb(Top, root, root, menus) && After(Top) == []
  {
  }

  /** The first menu is visited; what remains are its children and its siblings. */
  lemma NodeFirst(visited: seq<Menu>, cur: seq<Tree>, above: Above)
    requires cur != []
    ensures var rest := Preorder(cur[0].children) + (Preorder(cur[1..]) + After(above));
            && visited + (Preorder(cur) + After(above)) == visited + [cur[0].menu] + rest
            && |rest| < |Preorder(cur) + After(above)|
            && After(Level(cur[1..], above)) == Preorder(cur[1..]) + After(above)
            && (cur[0].children == [] ==> rest == Preorder(cur[1..]) + After(above))
            && (cur[0].children == [] && cur[1..] == [] ==> rest == After(above))
  {
    var kids, later, up := Preorder(cur[0].children), Preorder(cur[1..]), After(above);
    var m := [cur[0].menu];
    assert Preorder(cur) == m + kids + later;
    assert After(Level(cur[1..], above)) == later + up;
    assert cur[0].children == [] ==> kids == [];
    assert cur[1..] == [] ==> later == [];
    hide Preorder, After;
    Regroup(visited, m, kids, later, up);
  }

  lemma Regroup(v: seq<Menu>, m: seq<Menu>, a: seq<Menu>, b: seq<Menu>, c: seq<Menu>)
    ensures v + (m + a + b + c) == v + m + (a + (b + c))
    ensures a == [] ==> a + (b + c) == b + c
    ensures a == [] && b == [] ==> a + (b + c) == c
  {
  }

  lemma GoDown(cur: seq<Tree>, parent: Menu, above: Above, root: Menu, menus: set<Menu>)
    requires cur != [] && Linked(cur, parent, menus) && Climb(above, parent, root, menus)
    ensures Climb(Level(cur[1..], above), cur[0].menu, root, menus)
  {
  }

  // ---------------------------------------------------------------------------
  // No menu is visited twice
  // ---------------------------------------------------------------------------

  /** The way up from a menu ends after exactly d steps. */
  ghost predicate Height(m: Menu, d: nat, menus: set<Menu>)
    reads menus
  {
    m in menus && if d == 0 then m.parent == null else m.parent != null && Height(m.parent, d - 1, menus)
  }

  /** Exactly n steps lead up from one menu to another. */
  ghost predicate Below(m: Menu, a: Menu, n: nat, menus: set<Menu>)
    reads menus
  {
    m in menus && if n == 0 then m == a else m.parent != null && Below(m.parent, a, n - 1, menus)
  }

  lemma {:induction false} OneAncestor(m: Menu, a: Menu, i: nat, b: Menu, j: nat, d: nat, menus: set<Menu>)
    requires Below(m, a, i, menus) && Below(m, b, j, menus) && Height(a, d, menus) && Height(b, d, menus)
    ensures i == j && a == b
    decreases i + j
  {
    if i > 0 && j > 0 {
      OneAncestor(m.parent, a, i - 1, b, j - 1, d, menus);
    } else if i > 0 {
      HeightAbove(m, a, i, d, menus);
      OneHeight(m, d, d + i, menus);
    } else if j > 0 {
      HeightAbove(m, b, j, d, menus);
      OneHeight(m, d, d + j, menus);
    }
  }

  lemma {:induction false} HeightAbove(m: Menu, a: Menu, n: nat, d: nat, menus: set<Menu>)
    requires Below(m, a, n, menus) && Height(a, d, menus)
    ensures Height(m, d + n, menus)
    decreases n
  {
    if n > 0 { HeightAbove(m.parent, a, n - 1, d, menus); }
  }

  lemma {:induction false} OneHeight(m: Menu, d: nat, e: nat, menus: set<Menu>)
    requires Height(m, d, menus) && Height(m, e, menus)
    ensures d == e
    decreases d
  {
    if d > 0 && e > 0 { OneHeight(m.parent, d - 1, e - 1, menus); }
  }

  lemma {:induction false} BelowParent(m: Menu, a: Menu, n: nat, p: Menu, menus: set<Menu>)
    requires Below(m, a, n, menus) && a.parent == p && p in menus
    ensures Below(m, p, n + 1, menus)
    decreases n
  {
    if n > 0 { BelowParent(m.parent, a, n - 1, p, menus); } else { assert Below(p, p, 0, menus); }
  }

  lemma BelowSelf(m: Menu, menus: set<Menu>)
    requires m in menus
    ensures Below(m, m, 0, menus)
  {
  }

  lemma {:induction false} LinkedFrom(f: seq<Tree>, parent: Menu?, i: nat, menus: set<Menu>)
    requires Linked(f, parent, menus) && i <= |f|
    ensures Linked(f[i..], parent, menus)
    decreases i
  {
    if i > 0 {
      LinkedFrom(f[1..], parent, i - 1, menus);
      assert f[1..][i - 1..] == f[i..];
    }
  }

  lemma {:induction false} SiblingsDiffer(f: seq<Tree>, parent: Menu?, i: nat, j: nat, menus: set<Menu>)
    requires Linked(f, parent, menus) && i < j < |f|
    ensures f[i].menu != f[j].menu
    decreases |f| - j
  {
    LinkedFrom(f, parent, i, menus);
    LinkedFrom(f, parent, j, menus);
    assert f[i..][1..] == f[i + 1..] && f[j..][1..] == f[j + 1..];
    if j + 1 < |f| { SiblingsDiffer(f, parent, i + 1, j + 1, menus); }
  }

  /** Every menu of a forest is one of its tops or below one. */
  lemma {:induction false} UnderSome(f: seq<Tree>, parent: Menu, m: Menu, menus: set<Menu>) returns (i: nat, n: nat)
    requires Linked(f, parent, menus) && m in Preorder(f)
    ensures i < |f| && Below(m, f[i].menu, n, menus)
    decreases f
  {
    if m == f[0].menu {
      i, n := 0, 0;
    } else if m in Preorder(f[0].children) {
      var k, l := UnderSome(f[0].children, f[0].menu, m, menus);
      TopAt(f[0].children, f[0].menu, k, menus);
      BelowParent(m, f[0].children[k].menu, l, f[0].menu, menus);
      i, n := 0, l + 1;
    } else {
      i, n := UnderSome(f[1..], parent, m, menus);
      i := i + 1;
    }
  }

  lemma TopAt(f: seq<Tree>, parent: Menu?, i: nat, menus: set<Menu>)
    requires Linked(f, parent, menus) && i < |f|
    ensures f[i].menu in menus && f[i].menu.parent == parent && Linked(f[i].children, f[i].menu, menus)
  {
    LinkedFrom(f, parent, i, menus);
  }

  lemma TopHeight(f: seq<Tree>, parent: Menu, i: nat, d: nat, menus: set<Menu>)
    requires Linked(f, parent, menus) && Height(parent, d, menus) && i < |f|
    ensures Height(f[i].menu, d + 1, menus)
  {
    LinkedFrom(f, parent, i, menus);
  }

  ghost predicate NoneTwice(s: seq<Menu>) { forall i, j | 0 <= i < j < |s| :: s[i] != s[j] }

  lemma NoneTwiceConcat(m: Menu, a: seq<Menu>, b: seq<Menu>)
    requires NoneTwice(a) && NoneTwice(b) && m !in a && m !in b && forall x | x in a :: x !in b
    ensures NoneTwice([m] + a + b)
  {
    var s := [m] + a + b;
    assert forall i | 0 < i <= |a| :: s[i] == a[i - 1];
    assert forall i | |a| < i < |s| :: s[i] == b[i - 1 - |a|];
    forall i, j | 0 <= i < j < |s| ensures s[i] != s[j] {
      if 0 < i <= |a| < j { assert s[i] in a && s[j] in b; }
    }
  }

  /** In linked menus the recursive order, and so the walk, has no menu twice. */
  lemma {:induction false} VisitedOnce(f: seq<Tree>, parent: Menu, d: nat, menus: set<Menu>)
    requires Linked(f, parent, menus) && Height(parent, d, menus)
    ensures NoneTwice(Preorder(f))
    decreases f
  {
    if f != [] {
      var m, a, b := f[0].menu, Preorder(f[0].children), Preorder(f[1..]);
      TopHeight(f, parent, 0, d, menus);
      VisitedOnce(f[0].children, m, d + 1, menus);
      VisitedOnce(f[1..], parent, d, menus);
      NotBelowItself(f, parent, d, menus);
      forall x | x in a ensures x !in b { OnlyOneSide(f, parent, x, d, menus); }
      if m in b { BelowFirst(f, parent, m, 0, d, menus); }
      NoneTwiceConcat(m, a, b);
    }
  }

  /** What is below the first menu, at any distance, is not among the others. */
  lemma BelowFirst(f: seq<Tree>, parent: Menu, x: Menu, n: nat, d: nat, menus: set<Menu>)
    requires Linked(f, parent, menus) && Height(parent, d, menus) && f != [] && Below(x, f[0].menu, n, menus)
    ensures x !in Preorder(f[1..])
  {
    if x in Preorder(f[1..]) {
      LinkedFrom(f, parent, 1, menus);
      var k, l := UnderSome(f[1..], parent, x, menus);
      assert f[1..][k] == f[k + 1];
      hide Linked, Preorder, Height, Below;
      TopHeight(f, parent, 0, d, menus);
      TopHeight(f, parent, k + 1, d, menus);
      OneAncestor(x, f[0].menu, n, f[k + 1].menu, l, d + 1, menus);
      SiblingsDiffer(f, parent, 0, k + 1, menus);
    }
  }

  lemma OnlyOneSide(f: seq<Tree>, parent: Menu, x: Menu, d: nat, menus: set<Menu>)
    requires Linked(f, parent, menus) && Height(parent, d, menus) && f != [] && x in Preorder(f[0].children)
    ensures x !in Preorder(f[1..])
  {
    var k, l := UnderSome(f[0].children, f[0].menu, x, menus);
    TopAt(f[0].children, f[0].menu, k, menus);
    BelowParent(x, f[0].children[k].menu, l, f[0].menu, menus);
    BelowFirst(f, parent, x, l + 1, d, menus);
  }

  lemma NotBelowItself(f: seq<Tree>, parent: Menu, d: nat, menus: set<Menu>)
    requires Linked(f, parent, menus) && Height(parent, d, menus) && f != []
    ensures f[0].menu !in Preorder(f[0].children)
  {
    hide Preorder, Linked, Below;
    var m := f[0].menu;
    if m in Preorder(f[0].children) {
      TopAt(f, parent, 0, menus);
      var k, l := UnderSome(f[0].children, m, m, menus);
      TopAt(f[0].children, m, k, menus);
      BelowParent(m, f[0].children[k].menu, l, m, menus);
      TopHeight(f, parent, 0, d, menus);
      BelowSelf(m, menus);
      OneAncestor(m, m, 0, m, l + 1, d + 1, menus);
    }
  }
}
