/** The red-black invariants of removal: removeRebalance resolves or lifts a
    DOUBLEBLACK without changing any black height, so recursRemove and remove
    leave a valid tree holding every Ship but the removed one. */
module DeletionInvariants {
  import opened Ships
  import opened TreeSpec
  import opened Rotations
  import opened Deletion

  /** What the DOUBLEBLACK child stands for once its extra black is paid: a
      BLACK subtree, or nothing at all when it is the leaf being removed. */
  function Effective(c: Tree, doomed: bool): Tree
    requires c.Node?
  {
    if doomed then Leaf else c.(color := Black)
  }

  /** The rebalanced subtree as the caller sees it, the doomed leaf unlinked. */
  function View(r: Tree, left: bool, doomed: bool): Tree
    requires r.Node? && (doomed ==> Child(r, left).Node?)
  {
    if doomed then UnlinkExtreme(r, left) else r
  }

  /** The state removeRebalance leaves a subtree in: red-black below its root,
      whose colour may still carry one extra black. */
  ghost predicate Settled(v: Tree) {
    v.Node? && Balanced(v) && NoRedRed(v) && NoDoubleBlack(v.left) && NoDoubleBlack(v.right)
  }

  // ---------------------------------------------------------------------
  // Cases 2 to 4: a BLACK sibling

  /** The shared hypotheses of the BLACK-sibling cases: `x` (the repaid child,
      not RED) is one black lower than the BLACK sibling, both are red-black. */
  ghost predicate BlackSiblingCase(p: Tree, left: bool, x: Tree) {
    p.Node? && p.color != DoubleBlack && Child(p, !left).Node? && Child(p, !left).color == Black
    && RedBlack(Child(p, !left)) && RedBlack(x) && !IsRed(x)
    && BlackHeight(Child(p, !left)) == BlackHeight(x) + 1
  }

  /** What every BLACK-sibling case achieves: the subtree is settled, its black
      height is the sibling's plus the parent's own weight, and its root is
      DOUBLEBLACK only under a BLACK parent and RED only under a RED one. */
  ghost predicate Resolved(r: Tree, p: Tree, left: bool) {
    p.Node? && Settled(r) && BlackHeight(r) == BlackHeight(Child(p, !left)) + Weight(p.color)
    && (r.color == DoubleBlack ==> p.color == Black) && (IsRed(r) ==> p.color == Red)
  }

  lemma RightNephewLeft(p: Tree, x: Tree)
    requires BlackSiblingCase(p, true, x) && IsRed(p.right.right)
    ensures Resolved(FixBlackSibling(p, true, x), p, true)
  {
    var s := p.right;
    assert Balanced(s) && NoRedRed(s) && NoDoubleBlack(s);
    assert Balanced(s.right) && NoRedRed(s.right) && NoDoubleBlack(s.right);
    assert BlackHeight(s.left) == BlackHeight(s.right) == BlackHeight(x);
    var a := p.(left := x, right := s.left);
    var b := s.right.(color := p.color);
    var q := s.(left := a, right := b);
    assert Balanced(a) && Balanced(b) && BlackHeight(a) == BlackHeight(b) == BlackHeight(x) + Weight(p.color);
    assert FixBlackSibling(p, true, x) == if p.color == Red && IsRed(s.left) then Recolor(q) else q;
  }

  lemma RightNephewRight(p: Tree, x: Tree)
    requires BlackSiblingCase(p, false, x) && IsRed(p.left.right)
    ensures Resolved(FixBlackSibling(p, false, x), p, false)
  {
    var s := p.left;
    var g := s.right;
    assert Balanced(s) && NoRedRed(s) && NoDoubleBlack(s);
    assert Balanced(g) && NoRedRed(g) && NoDoubleBlack(g);
    assert BlackHeight(s.left) == BlackHeight(g) == BlackHeight(x);
    assert BlackHeight(g.left) == BlackHeight(g.right) == BlackHeight(x);
    var a := s.(color := p.color, right := g.left);
    var b := p.(left := g.right, right := x);
    var q := g.(color := Black, left := a, right := b);
    assert Balanced(a) && Balanced(b) && BlackHeight(a) == BlackHeight(b) == BlackHeight(x) + Weight(p.color);
    assert FixBlackSibling(p, false, x) == if p.color == Red && IsRed(s.left) then Recolor(q) else q;
  }

  lemma LeftNephewLeft(p: Tree, x: Tree)
    requires BlackSiblingCase(p, true, x) && !IsRed(p.right.right) && IsRed(p.right.left)
    ensures Resolved(FixBlackSibling(p, true, x), p, true)
  {
    var s := p.right;
    var g := s.left;
    assert Balanced(s) && NoRedRed(s) && NoDoubleBlack(s);
    assert Balanced(g) && NoRedRed(g) && NoDoubleBlack(g);
    assert BlackHeight(g) == BlackHeight(s.right) == BlackHeight(x);
    assert BlackHeight(g.left) == BlackHeight(g.right) == BlackHeight(x);
    var a := p.(left := x, right := g.left);
    var b := s.(color := p.color, left := g.right);
    var q := g.(color := Black, left := a, right := b);
    assert Balanced(a) && Balanced(b) && BlackHeight(a) == BlackHeight(b) == BlackHeight(x) + Weight(p.color);
    assert FixBlackSibling(p, true, x) == q;
  }

  lemma LeftNephewRight(p: Tree, x: Tree)
    requires BlackSiblingCase(p, false, x) && !IsRed(p.left.right) && IsRed(p.left.left)
    ensures Resolved(FixBlackSibling(p, false, x), p, false)
  {
    var s := p.left;
    assert Balanced(s) && NoRedRed(s) && NoDoubleBlack(s);
    assert Balanced(s.left) && NoRedRed(s.left) && NoDoubleBlack(s.left);
    assert BlackHeight(s.left) == BlackHeight(s.right) == BlackHeight(x);
    var a := s.left.(color := p.color);
    var b := p.(left := s.right, right := x);
    var q := s.(left := a, right := b);
    assert Balanced(a) && Balanced(b) && BlackHeight(a) == BlackHeight(b) == BlackHeight(x) + Weight(p.color);
    assert FixBlackSibling(p, false, x) == q;
  }

  lemma NoRedNephew(p: Tree, left: bool, x: Tree)
    requires BlackSiblingCase(p, left, x)
    requires !IsRed(Child(p, !left).left) && !IsRed(Child(p, !left).right)
    ensures Resolved(FixBlackSibling(p, left, x), p, left)
  {
    var s := Child(p, !left);
    assert Balanced(s) && NoRedRed(s) && NoDoubleBlack(s);
    assert BlackHeight(s.left) == BlackHeight(s.right) == BlackHeight(x);
  }

  /** Cases 2 to 4 of removeRebalance restore the invariants. */
  lemma FixBlackSiblingRestores(p: Tree, left: bool, x: Tree)
    requires BlackSiblingCase(p, left, x)
    ensures Resolved(FixBlackSibling(p, left, x), p, left)
  {
    var s := Child(p, !left);
    if IsRed(s.right) {
      if left { RightNephewLeft(p, x); } else { RightNephewRight(p, x); }
    } else if IsRed(s.left) {
      if left { LeftNephewLeft(p, x); } else { LeftNephewRight(p, x); }
    } else {
      NoRedNephew(p, left, x);
    }
  }

  // ---------------------------------------------------------------------
  // removeRebalance as a whole

  /** removeRebalance, given a DOUBLEBLACK child whose sibling is one black
      higher than the child once repaid, returns a settled subtree (the doomed
      leaf unlinked) whose black height is the sibling's plus the parent's
      weight: the missing black is restored, or lifted to a BLACK parent. */
  lemma {:induction false} RemoveRebalanceRestores(p: Tree, left: bool, doomed: bool)
    requires p.Node? && p.color != DoubleBlack
    requires IsDoubleBlack(Child(p, left))
    requires doomed ==> Child(p, left).left.Leaf? && Child(p, left).right.Leaf?
    requires RedBlack(Effective(Child(p, left), doomed))
    requires RedBlack(Child(p, !left))
    requires BlackHeight(Child(p, !left)) == BlackHeight(Effective(Child(p, left), doomed)) + 1
    requires p.color == Red ==> !IsRed(Child(p, !left))
    ensures Resolved(View(RemoveRebalance(p, left), left, doomed), p, left)
    decreases Size(p)
  {
    var c := Child(p, left);
    var s := Child(p, !left);
    var x := Effective(c, doomed);
    assert s.Node?;
    if s.color == Red {
      var p0 := SetChild(p, !left, s.(color := Black));
      var p1 := p0.(color := Red);
      var q := if left then RotateLeft(p1) else RotateRight(p1);
      assert Size(q) == Size(p1) == Size(p);
      var inner := Child(q, left);
      assert inner == p.(color := Red).(left := if left then c else s.right, right := if left then s.left else c);
      assert Balanced(s) && NoRedRed(s) && NoDoubleBlack(s);
      RemoveRebalanceRestores(inner, left, doomed);
      var r1 := RemoveRebalance(inner, left);
      var v1 := View(r1, left, doomed);
      assert View(RemoveRebalance(p, left), left, doomed) == SetChild(q, left, v1);
    } else {
      if doomed {
        FixBlackSiblingUnlink(p, left, c.(color := Black));
      }
      FixBlackSiblingRestores(p, left, x);
    }
  }

  // ---------------------------------------------------------------------
  // recursRemove and remove

  /** A node with one child only: that child is a RED leaf. */
  lemma LoneChildIsRedLeaf(p: Tree)
    requires p.Node? && RedBlack(p) && p.left.Leaf? && p.right.Node?
    ensures p.right.color == Red && p.right.left.Leaf? && p.right.right.Leaf?
  {
    assert BlackHeight(p.right) == 0;
    assert RedBlack(p.right);
  }

  /** recursRemove keeps the black height of the subtree it returns, leaves it
      settled, and its root is DOUBLEBLACK only where `a` was BLACK and RED
      only where `a` was RED. */
  lemma {:induction false} RecursRemoveKeepsColors(a: Tree, id: int, left: bool)
    requires a.Node? && Child(a, left).Node?
    requires Ordered(Child(a, left)) && id in Ids(InOrder(Child(a, left)))
    requires RedBlack(a)
    ensures var v := RecursRemove(a, id, left);
      Settled(v) && BlackHeight(v) == BlackHeight(a)
      && (v.color == DoubleBlack ==> a.color == Black) && (IsRed(v) ==> a.color == Red)
    decreases Size(Child(a, left)), 1
  {
    var p := Child(a, left);
    if id != p.id {
      BelowKeepsColors(a, id, left);
    } else if p.left.Node? {
      WithLeftKeepsColors(a, left);
    } else if p.right.Node? {
      WithRightKeepsColors(a, left);
    } else {
      LeafKeepsColors(a, left);
    }
  }

  /** The id is at a leaf: a RED one is dropped, a BLACK one turns DOUBLEBLACK,
      is rebalanced away and unlinked. */
  lemma LeafKeepsColors(a: Tree, left: bool)
    requires a.Node? && Child(a, left).Node? && Child(a, left).left.Leaf? && Child(a, left).right.Leaf?
    requires Ordered(Child(a, left)) && RedBlack(a)
    ensures var p := Child(a, left);
      p.id in Ids(InOrder(p)) && var v := RecursRemove(a, p.id, left);
      Settled(v) && BlackHeight(v) == BlackHeight(a)
      && (v.color == DoubleBlack ==> a.color == Black) && (IsRed(v) ==> a.color == Red)
  {
    var p := Child(a, left);
    assert EntryOf(p) in InOrder(p);
    assert RedBlack(p) && RedBlack(Child(a, !left));
    if p.color == Black {
      var a1 := SetChild(a, left, p.(color := DoubleBlack));
      RemoveRebalanceRestores(a1, left, true);
    }
  }

  /** The id lies further down: the recursion settles the side it took. */
  lemma {:induction false} BelowKeepsColors(a: Tree, id: int, left: bool)
    requires a.Node? && Child(a, left).Node? && id != Child(a, left).id
    requires Ordered(Child(a, left)) && id in Ids(InOrder(Child(a, left)))
    requires RedBlack(a)
    ensures var v := RecursRemove(a, id, left);
      Settled(v) && BlackHeight(v) == BlackHeight(a)
      && (v.color == DoubleBlack ==> a.color == Black) && (IsRed(v) ==> a.color == Red)
    decreases Size(Child(a, left)), 0
  {
    var p := Child(a, left);
    var nextLeft := id < p.id;
    assert RedBlack(p);
    IdBelow(p, id);
    var p' := RecursRemove(p, id, nextLeft);
    assert RecursRemove(a, id, left) == RemoveRebalance(SetChild(a, left, p'), left);
    RecursRemoveKeepsColors(p, id, nextLeft);
    RebalanceAfterRemoval(a, left, p');
  }

  /** The id is at a node with a left child: its predecessor moves up and is
      removed from the left subtree. */
  lemma {:induction false} WithLeftKeepsColors(a: Tree, left: bool)
    requires a.Node? && Child(a, left).Node? && Child(a, left).left.Node?
    requires Ordered(Child(a, left)) && RedBlack(a)
    ensures var p := Child(a, left);
      p.id in Ids(InOrder(p)) && var v := RecursRemove(a, p.id, left);
      Settled(v) && BlackHeight(v) == BlackHeight(a)
      && (v.color == DoubleBlack ==> a.color == Black) && (IsRed(v) ==> a.color == Red)
    decreases Size(Child(a, left)), 0
  {
    var p := Child(a, left);
    assert EntryOf(p) in InOrder(p);
    assert RedBlack(p);
    OrderedNode(p);
    LargestBelow(p);
    var p1 := ReplaceWithLargest(p);
    var p' := RecursRemove(p1, p1.id, true);
    assert RecursRemove(a, p.id, left) == RemoveRebalance(SetChild(a, left, p'), left);
    RecursRemoveKeepsColors(p1, p1.id, true);
    RebalanceAfterRemoval(a, left, p');
  }

  /** The id is at a node whose only child is on the right: that child, a RED
      leaf, is moved to the left and removed from there. */
  lemma {:induction false} WithRightKeepsColors(a: Tree, left: bool)
    requires a.Node? && Child(a, left).Node? && Child(a, left).left.Leaf? && Child(a, left).right.Node?
    requires Ordered(Child(a, left)) && RedBlack(a)
    ensures var p := Child(a, left);
      p.id in Ids(InOrder(p)) && var v := RecursRemove(a, p.id, left);
      Settled(v) && BlackHeight(v) == BlackHeight(a)
      && (v.color == DoubleBlack ==> a.color == Black) && (IsRed(v) ==> a.color == Red)
    decreases Size(Child(a, left)), 0
  {
    var p := Child(a, left);
    assert EntryOf(p) in InOrder(p);
    assert RedBlack(p);
    LoneChildIsRedLeaf(p);
    OrderedNode(p);
    var q := p.(left := p.right, right := Leaf);
    LargestBelow(q);
    var p1 := ReplaceWithLargest(q);
    assert RedBlack(p1) && BlackHeight(p1) == BlackHeight(p);
    var p' := RecursRemove(p1, p1.id, true);
    assert RecursRemove(a, p.id, left) == RemoveRebalance(SetChild(a, left, p'), left);
    RecursRemoveKeepsColors(p1, p1.id, true);
    RebalanceAfterRemoval(a, left, p');
  }

  /** The rebalancing step of recursRemove: once the `left` child of `a` is
      replaced by a settled subtree of the same black height, coloured as the
      recursion leaves it, removeRebalance returns a settled subtree of the
      black height of `a`. */
  lemma RebalanceAfterRemoval(a: Tree, left: bool, p': Tree)
    requires a.Node? && RedBlack(a) && Child(a, left).Node?
    requires Settled(p') && BlackHeight(p') == BlackHeight(Child(a, left))
    requires p'.color == DoubleBlack ==> Child(a, left).color == Black
    requires IsRed(p') ==> Child(a, left).color == Red
    ensures var v := RemoveRebalance(SetChild(a, left, p'), left);
      Settled(v) && BlackHeight(v) == BlackHeight(a)
      && (v.color == DoubleBlack ==> a.color == Black) && (IsRed(v) ==> a.color == Red)
  {
    var a1 := SetChild(a, left, p');
    if p'.color == DoubleBlack {
      assert BlackHeight(Effective(p', false)) + 1 == BlackHeight(p');
      RemoveRebalanceRestores(a1, left, false);
    }
  }

  /** A tree whose in-order sequence is that of an ordered tree with `id`
      erased is ordered and stores the old map without `id`. */
  lemma ErasedTree(root: Tree, r: Tree, id: int)
    requires Ordered(root) && InOrder(r) == Erase(InOrder(root), id)
    ensures Ordered(r) && ContentsOf(r) == ContentsOf(root) - {id}
  {
    EraseSubsequence(InOrder(root), id);
    EraseToMap(InOrder(root), id);
    ContentsInOrder(root);
    ContentsInOrder(r);
  }

  /** The first branch of remove: the id lies below the root. */
  lemma RemoveBelowRoot(root: Tree, id: int)
    requires root.Node? && ValidTree(root) && id in Ids(InOrder(root)) && id != root.id
    ensures Child(root, id < root.id).Node? && Ordered(Child(root, id < root.id))
      && id in Ids(InOrder(Child(root, id < root.id)))
      && var v := RecursRemove(root, id, id < root.id);
      v.Node? && ValidTree(v.(color := Black)) && ContentsOf(v.(color := Black)) == ContentsOf(root) - {id}
  {
    var dir := id < root.id;
    OrderedNode(root);
    var v := RecursRemove(root, id, dir);
    RecursRemoveKeepsColors(root, id, dir);
    BlackenRoot(v);
    RecursRemoveInOrder(root, id, dir);
    EraseBelow(root, id, dir);
    ErasedTree(root, v.(color := Black), id);
  }

  /** The second branch of remove: the root itself goes and has a left child,
      so it takes its predecessor's data and the predecessor is removed. */
  lemma RemoveRootWithLeft(root: Tree)
    requires root.Node? && ValidTree(root) && root.left.Node?
    ensures var r1 := ReplaceWithLargest(root);
      Ordered(r1.left) && r1.id in Ids(InOrder(r1.left))
      && var v := RecursRemove(r1, r1.id, true);
      v.Node? && ValidTree(v.(color := Black)) && ContentsOf(v.(color := Black)) == ContentsOf(root) - {root.id}
  {
    OrderedNode(root);
    var r1 := ReplaceWithLargest(root);
    var l := InOrder(root.left);
    assert l[|l| - 1] in l;
    assert RedBlack(r1);
    var v := RecursRemove(r1, r1.id, true);
    RecursRemoveKeepsColors(r1, r1.id, true);
    BlackenRoot(v);
    RecursRemoveInOrder(r1, r1.id, true);
    EraseLast(l);
    EraseNodeOwnId(root);
    ErasedTree(root, v.(color := Black), root.id);
  }

  /** The third branch of remove: the root has only a right child, which
      takes its place. */
  lemma RemoveRootWithRightOnly(root: Tree)
    requires root.Node? && ValidTree(root) && root.left.Leaf? && root.right.Node?
    ensures ValidTree(root.right.(color := Black))
    ensures ContentsOf(root.right.(color := Black)) == ContentsOf(root) - {root.id}
  {
    LoneChildIsRedLeaf(root);
    EraseNodeOwnId(root);
    ErasedTree(root, root.right.(color := Black), root.id);
  }

  /** remove on a tree that holds `id`: its four branches (an id below the
      root; the root with a left child; the root with only a right child; the
      root alone), each followed by painting the new root BLACK. The result is
      a valid tree holding the old map without `id`. */
  function RemoveFromRoot(root: Tree, id: int): (r: Tree)
    requires ValidTree(root) && id in ContentsOf(root)
    ensures ValidTree(r) && ContentsOf(r) == ContentsOf(root) - {id}
  {
    ContentsInOrder(root);
    if root.id != id then
      RemoveBelowRoot(root, id);
      var v := RecursRemove(root, id, id < root.id);
      v.(color := Black)
    else if root.left.Node? then
      RemoveRootWithLeft(root);
      var replaced := ReplaceWithLargest(root);
      var v := RecursRemove(replaced, replaced.id, true);
      v.(color := Black)
    else if root.right.Node? then
      RemoveRootWithRightOnly(root);
      root.right.(color := Black)
    else
      assert ContentsOf(root) == map[id := (root.kind, root.state)];
      Leaf
  }
}
