/** Insertion into the fleet's red-black tree: descend to the attachment point,
    then repair double-RED edges on the way back up (fleet.cpp). */
module Insertion {
  import opened Ships
  import opened TreeSpec
  import opened Rotations

  /** Plain binary-search-tree insertion: the reference for where a new Ship lands. */
  function PlainInsert(t: Tree, n: Tree): Tree
    requires n.Node?
  {
    match t
    case Leaf => n
    case Node(_, _, _, _, l, r) =>
      if n.id < t.id then t.(left := PlainInsert(l, n)) else t.(right := PlainInsert(r, n))
  }

  /** Inserting a new id keeps the tree ordered and adds exactly that id with its payload. */
  lemma {:induction false} PlainInsertContents(t: Tree, n: Tree)
    requires Ordered(t) && n.Node? && n.left == Leaf && n.right == Leaf
    requires n.id !in Ids(InOrder(t))
    ensures Ordered(PlainInsert(t, n))
    ensures ContentsOf(PlainInsert(t, n)) == ContentsOf(t)[n.id := (n.kind, n.state)]
    ensures Ids(InOrder(PlainInsert(t, n))) == Ids(InOrder(t)) + {n.id}
  {
    match t
    case Leaf =>
      assert InOrder(n) == [EntryOf(n)];
      assert Ids([EntryOf(n)]) == {n.id};
    case Node(_, _, _, _, l, r) =>
      OrderedNode(t);
      if n.id < t.id {
        PlainInsertContents(l, n);
        InsertedBelow(t, PlainInsert(l, n), n, true);
      } else {
        PlainInsertContents(r, n);
        InsertedBelow(t, PlainInsert(r, n), n, false);
      }
  }

  /** One step of PlainInsertContents: replacing a child of an ordered node by
      that child plus the new id. */
  lemma InsertedBelow(t: Tree, c: Tree, n: Tree, left: bool)
    requires t.Node? && Ordered(t) && n.Node? && n.id !in Ids(InOrder(t))
    requires left <==> n.id < t.id
    requires Ordered(c) && Ids(InOrder(c)) == Ids(InOrder(Child(t, left))) + {n.id}
    requires ContentsOf(c) == ContentsOf(Child(t, left))[n.id := (n.kind, n.state)]
    ensures var t' := SetChild(t, left, c);
      Ordered(t') && ContentsOf(t') == ContentsOf(t)[n.id := (n.kind, n.state)]
      && Ids(InOrder(t')) == Ids(InOrder(t)) + {n.id}
  {
    var t' := SetChild(t, left, c);
    assert Ordered(t') by {
      OrderedNode(t);
      ReplaceChildOrdered(t, c, left);
    }
    ContentsInOrder(t.right);
    InsertedBelowContents(t, c, n, left);
    ContentsInOrder(t);
    ContentsInOrder(t');
    assert ContentsOf(t').Keys == ContentsOf(t).Keys + {n.id};
  }

  lemma InsertedBelowContents(t: Tree, c: Tree, n: Tree, left: bool)
    requires t.Node? && n.Node? && n.id != t.id && n.id !in ContentsOf(t.right)
    requires ContentsOf(c) == ContentsOf(Child(t, left))[n.id := (n.kind, n.state)]
    ensures ContentsOf(SetChild(t, left, c)) == ContentsOf(t)[n.id := (n.kind, n.state)]
  {
    var t' := SetChild(t, left, c);
    var v := (n.kind, n.state);
    if left {
      assert ContentsOf(t') == (ContentsOf(t.left)[n.id := v])[t.id := (t.kind, t.state)] + ContentsOf(t.right);
    } else {
      assert ContentsOf(t') == ContentsOf(t.left)[t.id := (t.kind, t.state)] + ContentsOf(t.right)[n.id := v];
    }
  }

  /** insertRebalance: repairs a double RED below a BLACK grandparent, by
      recolouring when the uncle is RED and by one or two rotations otherwise. */
  function InsertRebalance(g: Tree, outerLeft: bool, innerLeft: bool): (r: Tree)
    requires g.Node? && Child(g, outerLeft).Node? && Child(Child(g, outerLeft), innerLeft).Node?
    ensures InOrder(r) == InOrder(g)
    ensures r.Node? && Child(r, outerLeft).Node?
    ensures var p := Child(g, outerLeft);
      !(g.color == Black && p.color == Red && IsRed(Child(p, innerLeft))) ==> r == g
    ensures var p := Child(g, outerLeft);
      g.color == Black && p.color == Red && IsRed(Child(p, innerLeft)) && IsRed(Child(g, !outerLeft)) ==>
        r.color == Red && r.left.Node? && r.left.color == Black && r.right.Node? && r.right.color == Black
        && r.(color := g.color, left := g.left, right := g.right) == g
        && r.left.(color := g.left.color) == g.left && r.right.(color := g.right.color) == g.right
    ensures var p := Child(g, outerLeft);
      g.color == Black && p.color == Red && IsRed(Child(p, innerLeft)) && !IsRed(Child(g, !outerLeft)) ==>
        r.color == Black && Child(r, !outerLeft).Node?
        && EntryOf(Child(r, !outerLeft)) == EntryOf(g) && Child(r, !outerLeft).color == Red
  {
    var parent := Child(g, outerLeft);
    var child := Child(parent, innerLeft);
    if g.color == Black && parent.color == Red && child.color == Red then
      var uncle := Child(g, !outerLeft);
      if IsRed(uncle) then
        Recolor(g)
      else
        var p1 := if outerLeft == innerLeft then parent
                  else if innerLeft then RotateRight(parent) else RotateLeft(parent);
        var g1 := SetChild(g, outerLeft, p1.(color := Black)).(color := Red);
        if outerLeft then RotateRight(g1) else RotateLeft(g1)
    else
      g
  }

  /** recursInsert: inserts `n` below the `left` child of `a` and returns the
      subtree that replaces `a` (the source writes it through `Ship*&`). */
  function RecursInsert(a: Tree, n: Tree, left: bool): (r: Tree)
    requires a.Node? && n.Node?
    ensures r.Node? && Child(r, left).Node?
    ensures InOrder(r) == InOrder(SetChild(a, left, PlainInsert(Child(a, left), n)))
    decreases Size(a)
  {
    var possibility := Child(a, left);
    if possibility.Leaf? then
      SetChild(a, left, n)
    else
      var nextLeft := n.id < possibility.id;
      var a1 := SetChild(a, left, RecursInsert(possibility, n, nextLeft));
      InsertRebalance(a1, left, nextLeft)
  }

  // ---------------------------------------------------------------------
  // Colour invariants of insertion

  /** The single double RED that insertion may leave: between a RED subtree
      root and its child on the insertion path. */
  ghost predicate RedRedAtTop(t: Tree, left: bool) {
    t.Node? && t.color == Red && IsRed(Child(t, left)) && !IsRed(Child(t, !left))
    && NoRedRed(t.left) && NoRedRed(t.right)
  }

  /** Below a BLACK grandparent, insertRebalance removes the double RED and
      keeps the black height. */
  lemma InsertRebalanceRepairs(g: Tree, outerLeft: bool, innerLeft: bool)
    requires g.Node? && g.color == Black
    requires Child(g, outerLeft).Node? && Child(Child(g, outerLeft), innerLeft).Node?
    requires Balanced(g) && NoDoubleBlack(g)
    requires RedRedAtTop(Child(g, outerLeft), innerLeft) || NoRedRed(Child(g, outerLeft))
    requires NoRedRed(Child(g, !outerLeft))
    ensures var r := InsertRebalance(g, outerLeft, innerLeft);
      Balanced(r) && BlackHeight(r) == BlackHeight(g) && NoDoubleBlack(r) && NoRedRed(r)
  {
    var p := Child(g, outerLeft);
    var c := Child(p, innerLeft);
    var u := Child(g, !outerLeft);
    if p.color == Red && c.color == Red {
      if IsRed(u) {
      } else if outerLeft == innerLeft {
        SingleRotationRepairs(g, outerLeft);
      } else {
        DoubleRotationRepairs(g, outerLeft);
      }
    }
  }

  lemma SingleRotationRepairs(g: Tree, outerLeft: bool)
    requires g.Node? && g.color == Black && Balanced(g) && NoDoubleBlack(g)
    requires RedRedAtTop(Child(g, outerLeft), outerLeft) && !IsRed(Child(g, !outerLeft))
    requires NoRedRed(Child(g, !outerLeft))
    ensures var r := InsertRebalance(g, outerLeft, outerLeft);
      Balanced(r) && BlackHeight(r) == BlackHeight(g) && NoDoubleBlack(r) && NoRedRed(r)
  {
    var p := Child(g, outerLeft);
    var c := Child(p, outerLeft);
    assert BlackHeight(c) == BlackHeight(Child(p, !outerLeft)) == BlackHeight(Child(g, !outerLeft));
  }

  lemma DoubleRotationRepairs(g: Tree, outerLeft: bool)
    requires g.Node? && g.color == Black && Balanced(g) && NoDoubleBlack(g)
    requires RedRedAtTop(Child(g, outerLeft), !outerLeft) && !IsRed(Child(g, !outerLeft))
    requires NoRedRed(Child(g, !outerLeft))
    ensures var r := InsertRebalance(g, outerLeft, !outerLeft);
      Balanced(r) && BlackHeight(r) == BlackHeight(g) && NoDoubleBlack(r) && NoRedRed(r)
  {
    var p := Child(g, outerLeft);
    var c := Child(p, !outerLeft);
    assert Balanced(p) && Balanced(c) && NoDoubleBlack(p) && NoDoubleBlack(c);
    assert BlackHeight(c) == BlackHeight(Child(p, outerLeft)) == BlackHeight(Child(g, !outerLeft));
    assert BlackHeight(c.left) == BlackHeight(c.right) == BlackHeight(c);
  }

  /** recursInsert keeps the black height and leaves at most one double RED,
      at the top of the subtree and only when its root was already RED. */
  lemma {:induction false} RecursInsertKeepsColors(a: Tree, n: Tree, left: bool)
    requires a.Node? && RedBlack(a)
    requires n.Node? && n.color == Red && n.left == Leaf && n.right == Leaf
    ensures var r := RecursInsert(a, n, left);
      Balanced(r) && BlackHeight(r) == BlackHeight(a) && NoDoubleBlack(r)
      && (NoRedRed(r) || (a.color == Red && RedRedAtTop(r, left)))
    decreases Size(a)
  {
    var p := Child(a, left);
    if p.Node? {
      var nextLeft := n.id < p.id;
      var p' := RecursInsert(p, n, nextLeft);
      RecursInsertKeepsColors(p, n, nextLeft);
      var a1 := SetChild(a, left, p');
      assert Balanced(a1) && BlackHeight(a1) == BlackHeight(a);
      if a.color == Black {
        InsertRebalanceRepairs(a1, left, nextLeft);
      }
    }
  }

  /** Inserting a new id below the root (the second and third branches of
      insert) and painting the root BLACK yields a valid tree holding the old
      Ships plus the new one. */
  lemma InsertBelowRoot(root: Tree, n: Tree)
    requires root.Node? && ValidTree(root)
    requires n.Node? && n.color == Red && n.left == Leaf && n.right == Leaf
    requires n.id !in Ids(InOrder(root))
    ensures var r := RecursInsert(root, n, n.id < root.id);
      ValidTree(r.(color := Black))
      && ContentsOf(r.(color := Black)) == ContentsOf(root)[n.id := (n.kind, n.state)]
      && Ids(InOrder(r.(color := Black))) == Ids(InOrder(root)) + {n.id}
  {
    var r := RecursInsert(root, n, n.id < root.id);
    var p := PlainInsert(root, n);
    assert RedBlack(r.(color := Black)) by {
      RecursInsertKeepsColors(root, n, n.id < root.id);
      BlackenRoot(r);
    }
    assert InOrder(r.(color := Black)) == InOrder(p) by {
      assert p == SetChild(root, n.id < root.id, PlainInsert(Child(root, n.id < root.id), n));
    }
    PlainInsertContents(root, n);
    ContentsInOrder(r.(color := Black));
    ContentsInOrder(p);
  }
}
