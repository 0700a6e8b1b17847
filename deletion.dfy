/** Removal from the fleet's red-black tree: find the Ship, swap in its
    in-order predecessor until a leaf is reached, turn a BLACK leaf into a
    DOUBLEBLACK and push that extra black up with rotations (fleet.cpp). */
module Deletion {
  import opened Ships
  import opened TreeSpec
  import opened Rotations

  /** findLargest: the Ship at the end of the right spine, which is the last
      Ship in order. */
  function FindLargest(t: Tree): (r: Tree)
    requires t.Node?
    ensures r.Node? && r.right.Leaf?
    ensures InOrder(t) != [] && EntryOf(r) == InOrder(t)[|InOrder(t)| - 1]
  {
    if t.right.Leaf? then t else FindLargest(t.right)
  }

  /** replaceWithLargest: the Ship takes over the data (id, type, state) of the
      largest Ship of its left subtree; colour and links stay. The source
      returns the new id, here `r.id`. */
  function ReplaceWithLargest(a: Tree): (r: Tree)
    requires a.Node? && a.left.Node?
    ensures r.Node? && EntryOf(r) == InOrder(a.left)[|InOrder(a.left)| - 1]
    ensures r.color == a.color && r.left == a.left && r.right == a.right
  {
    var replacement := FindLargest(a.left);
    a.(state := replacement.state, kind := replacement.kind, id := replacement.id)
  }

  /** The Ship copied up by replaceWithLargest is still in the left subtree,
      so the removal can continue there. */
  lemma LargestBelow(a: Tree)
    requires a.Node? && a.left.Node? && Ordered(a.left)
    ensures var r := ReplaceWithLargest(a); Ordered(r.left) && r.id in Ids(InOrder(r.left))
  {
    var s := InOrder(a.left);
    assert s[|s| - 1] in s;
  }

  /** Cases 2 to 4 of removeRebalance, where the sibling is not RED. `x` is
      what stands in the DOUBLEBLACK child's slot afterwards: the child itself
      repainted BLACK. The child is never read, so it is a parameter. */
  function FixBlackSibling(p: Tree, left: bool, x: Tree): (r: Tree)
    requires p.Node? && Child(p, !left).Node?
    ensures r.Node? && InOrder(r) == InOrder(SetChild(p, left, x))
    ensures var s := Child(p, !left);
      IsRed(s.left) || IsRed(s.right) ==>
        Child(r, left).Node? && EntryOf(Child(r, left)) == EntryOf(p) && Child(Child(r, left), left) == x
    ensures var s := Child(p, !left);
      !IsRed(s.left) && !IsRed(s.right) ==>
        EntryOf(r) == EntryOf(p) && Child(r, left) == x && Child(r, !left) == s.(color := Red)
        && r.color == (if p.color == Black then DoubleBlack else Black)
  {
    var s := Child(p, !left);
    if IsRed(s.right) then
      // the sibling's right child is RED: it or the sibling takes the parent's colour
      var recolorNecessary := p.color == Red && IsRed(s.left);
      assert InOrder(s.right.(color := p.color)) == InOrder(s.right);
      var q :=
        if left then
          RotateLeft(p.(left := x, right := s.(right := s.right.(color := p.color))))
        else
          var s1 := RotateLeft(s.(color := p.color));
          RotateRight(p.(left := s1.(color := Black), right := x));
      if recolorNecessary then Recolor(q) else q
    else if IsRed(s.left) then
      // the sibling's left child is RED
      if left then
        var s1 := RotateRight(s.(color := p.color));
        RotateLeft(p.(left := x, right := s1.(color := Black)))
      else
        assert InOrder(s.left.(color := p.color)) == InOrder(s.left);
        RotateRight(p.(left := s.(left := s.left.(color := p.color)), right := x))
    else
      // no RED nephew: the parent absorbs the extra black, the sibling turns RED
      var p1 := SetChild(SetChild(p, left, x), !left, s.(color := Red));
      p1.(color := if p.color == Black then DoubleBlack else Black)
  }

  /** removeRebalance: when the `left` child of `p` is DOUBLEBLACK, moves the
      extra black up or resolves it; otherwise returns `p` as it is. The source
      dereferences a missing sibling; that cannot happen in a red-black tree
      (see DeletionInvariants.RemoveRebalanceRestores), and here `p` is returned. */
  function RemoveRebalance(p: Tree, left: bool): (r: Tree)
    requires p.Node?
    ensures r.Node? && InOrder(r) == InOrder(p)
    ensures !IsDoubleBlack(Child(p, left)) ==> r == p
    ensures IsDoubleBlack(Child(p, left)) ==> Child(r, left).Node?
    decreases Size(p)
  {
    var child := Child(p, left);
    if !IsDoubleBlack(child) then p
    else
      var sibling := Child(p, !left);
      if sibling.Leaf? then p
      else if sibling.color == Red then
        // RED sibling: rotate it above the parent and rebalance one level down
        var p1 := SetChild(p, !left, sibling.(color := Black)).(color := Red);
        var q := if left then RotateLeft(p1) else RotateRight(p1);
        assert Size(q) == Size(p1) == Size(p);
        SetChild(q, left, RemoveRebalance(Child(q, left), left))
      else
        assert InOrder(child.(color := Black)) == InOrder(child);
        FixBlackSibling(p, left, child.(color := Black))
  }

  /** getParent followed by clearing the parent's link: the doomed leaf is the
      first (left) or last Ship in order of the rebalanced subtree, and its
      parent is the last Ship with a child on the `left` spine. */
  function UnlinkExtreme(t: Tree, left: bool): (r: Tree)
    requires t.Node? && Child(t, left).Node?
    ensures r.Node? && EntryOf(r) == EntryOf(t)
    decreases t
  {
    var c := Child(t, left);
    if Child(c, left).Leaf? then SetChild(t, left, Leaf)
    else SetChild(t, left, UnlinkExtreme(c, left))
  }

  /** recursRemove: removes `id` from the `left` subtree of `a` and returns the
      subtree that replaces `a`. */
  function RecursRemove(a: Tree, id: int, left: bool): (r: Tree)
    requires a.Node? && Child(a, left).Node?
    requires Ordered(Child(a, left)) && id in Ids(InOrder(Child(a, left)))
    ensures r.Node?
    decreases Size(Child(a, left))
  {
    var possibility := Child(a, left);
    if id > possibility.id then
      IdBelow(possibility, id);
      RemoveRebalance(SetChild(a, left, RecursRemove(possibility, id, false)), left)
    else if id == possibility.id then
      OrderedNode(possibility);
      if possibility.left.Node? then
        LargestBelow(possibility);
        var p1 := ReplaceWithLargest(possibility);
        RemoveRebalance(SetChild(a, left, RecursRemove(p1, p1.id, true)), left)
      else if possibility.right.Node? then
        LargestBelow(possibility.(left := possibility.right, right := Leaf));
        var p1 := ReplaceWithLargest(possibility.(left := possibility.right, right := Leaf));
        RemoveRebalance(SetChild(a, left, RecursRemove(p1, p1.id, true)), left)
      else if possibility.color == Black then
        var a1 := RemoveRebalance(SetChild(a, left, possibility.(color := DoubleBlack)), left);
        UnlinkExtreme(a1, left)
      else
        SetChild(a, left, Leaf)
    else
      IdBelow(possibility, id);
      RemoveRebalance(SetChild(a, left, RecursRemove(possibility, id, true)), left)
  }

  // ---------------------------------------------------------------------
  // Order: removal erases exactly one id

  /** The in-order sequence of `a` with its `left` subtree's part replaced by `s`. */
  function SpliceChild(a: Tree, left: bool, s: seq<Entry>): seq<Entry>
    requires a.Node?
  {
    if left then s + [EntryOf(a)] + InOrder(a.right) else InOrder(a.left) + [EntryOf(a)] + s
  }

  /** Unlinking the doomed leaf from what FixBlackSibling built gives what
      FixBlackSibling builds with nothing in the child's slot. */
  lemma FixBlackSiblingUnlink(p: Tree, left: bool, x: Tree)
    requires p.Node? && Child(p, !left).Node?
    requires x.Node? && x.left.Leaf? && x.right.Leaf?
    ensures var r := FixBlackSibling(p, left, x);
      Child(r, left).Node? && UnlinkExtreme(r, left) == FixBlackSibling(p, left, Leaf)
  {
  }

  /** Unlinking the doomed leaf after removeRebalance removes exactly that leaf. */
  lemma {:induction false} RemoveRebalanceUnlink(p: Tree, left: bool)
    requires p.Node? && IsDoubleBlack(Child(p, left))
    requires Child(p, left).left.Leaf? && Child(p, left).right.Leaf?
    ensures InOrder(UnlinkExtreme(RemoveRebalance(p, left), left)) == InOrder(SetChild(p, left, Leaf))
    decreases Size(p)
  {
    var child := Child(p, left);
    var sibling := Child(p, !left);
    if sibling.Leaf? {
    } else if sibling.color == Red {
      var p0 := SetChild(p, !left, sibling.(color := Black));
      var p1 := p0.(color := Red);
      var q := if left then RotateLeft(p1) else RotateRight(p1);
      assert Size(q) == Size(p1) == Size(p);
      RemoveRebalanceUnlink(Child(q, left), left);
      var r1 := RemoveRebalance(Child(q, left), left);
      assert UnlinkExtreme(SetChild(q, left, r1), left) == SetChild(q, left, UnlinkExtreme(r1, left));
      var e1 := SetChild(p1, left, Leaf);
      var eq := if left then RotateLeft(e1) else RotateRight(e1);
      assert eq == SetChild(q, left, SetChild(Child(q, left), left, Leaf));
      assert InOrder(e1) == InOrder(SetChild(p, left, Leaf));
    } else {
      FixBlackSiblingUnlink(p, left, child.(color := Black));
    }
  }

  /** A node's own id leaves the rest of its in-order sequence untouched. */
  lemma EraseNodeOwnId(p: Tree)
    requires p.Node? && Ordered(p)
    ensures Erase(InOrder(p), p.id) == InOrder(p.left) + InOrder(p.right)
  {
    var l, e, r := InOrder(p.left), EntryOf(p), InOrder(p.right);
    EraseAppend(l + [e], r, p.id);
    EraseAppend(l, [e], p.id);
    assert Erase(l, p.id) == l && Erase(r, p.id) == r by {
      OrderedNode(p);
      EraseAbsent(l, p.id);
      EraseAbsent(r, p.id);
    }
    assert Erase([e], p.id) == [] by {
      assert [e][..0] == [];
    }
    assert l + [] + r == l + r;
  }

  /** An id on one side of a node is erased from that side only. */
  lemma EraseBelow(p: Tree, id: int, left: bool)
    requires p.Node? && Ordered(p) && id in Ids(InOrder(Child(p, left)))
    ensures Erase(InOrder(p), id) == SpliceChild(p, left, Erase(InOrder(Child(p, left)), id))
  {
    OrderedNode(p);
    EraseAppend(InOrder(p.left) + [EntryOf(p)], InOrder(p.right), id);
    EraseAppend(InOrder(p.left), [EntryOf(p)], id);
    assert id != p.id;
    assert Erase([EntryOf(p)], id) == [EntryOf(p)] by {
      assert [EntryOf(p)][..0] == [];
    }
    if left {
      EraseAbsent(InOrder(p.right), id);
    } else {
      EraseAbsent(InOrder(p.left), id);
    }
  }

  /** Rebalancing after a child was replaced keeps the spliced order. */
  lemma RebalancedSplice(a: Tree, left: bool, c: Tree)
    requires a.Node?
    ensures InOrder(RemoveRebalance(SetChild(a, left, c), left)) == SpliceChild(a, left, InOrder(c))
  {
  }

  /** recursRemove erases exactly `id` from the in-order sequence of the
      `left` subtree and leaves the rest of `a` in place. */
  lemma {:induction false} RecursRemoveInOrder(a: Tree, id: int, left: bool)
    requires a.Node? && Child(a, left).Node?
    requires Ordered(Child(a, left)) && id in Ids(InOrder(Child(a, left)))
    ensures InOrder(RecursRemove(a, id, left)) == SpliceChild(a, left, Erase(InOrder(Child(a, left)), id))
    decreases Size(Child(a, left)), 1
  {
    var p := Child(a, left);
    if id != p.id {
      RemoveBelowInOrder(a, id, left);
    } else if p.left.Node? {
      RemoveWithLeftInOrder(a, left);
    } else if p.right.Node? {
      RemoveWithRightInOrder(a, left);
    } else {
      EraseNodeOwnId(p);
      if p.color == Black {
        RemoveRebalanceUnlink(SetChild(a, left, p.(color := DoubleBlack)), left);
      }
    }
  }

  /** The id lies further down: recurse on the side the comparison picks. */
  lemma {:induction false} RemoveBelowInOrder(a: Tree, id: int, left: bool)
    requires a.Node? && Child(a, left).Node? && id != Child(a, left).id
    requires Ordered(Child(a, left)) && id in Ids(InOrder(Child(a, left)))
    ensures InOrder(RecursRemove(a, id, left)) == SpliceChild(a, left, Erase(InOrder(Child(a, left)), id))
    decreases Size(Child(a, left)), 0
  {
    var p := Child(a, left);
    var nextLeft := id < p.id;
    IdBelow(p, id);
    var p' := RecursRemove(p, id, nextLeft);
    assert InOrder(p') == Erase(InOrder(p), id) by {
      RecursRemoveInOrder(p, id, nextLeft);
      EraseBelow(p, id, nextLeft);
    }
    RebalancedSplice(a, left, p');
  }

  /** The id is at a node with a left child: its in-order predecessor moves up. */
  lemma {:induction false} RemoveWithLeftInOrder(a: Tree, left: bool)
    requires a.Node? && Child(a, left).Node? && Child(a, left).left.Node?
    requires Ordered(Child(a, left))
    ensures var p := Child(a, left);
      p.id in Ids(InOrder(p)) && InOrder(RecursRemove(a, p.id, left)) == SpliceChild(a, left, Erase(InOrder(p), p.id))
    decreases Size(Child(a, left)), 0
  {
    var p := Child(a, left);
    assert EntryOf(p) in InOrder(p);
    OrderedNode(p);
    LargestBelow(p);
    var p1 := ReplaceWithLargest(p);
    var p' := RecursRemove(p1, p1.id, true);
    assert InOrder(p') == Erase(InOrder(p), p.id) by {
      RecursRemoveInOrder(p1, p1.id, true);
      EraseLast(InOrder(p.left));
      EraseNodeOwnId(p);
    }
    RebalancedSplice(a, left, p');
  }

  /** The id is at a node with only a right child, which is moved to the left
      before its largest Ship moves up. */
  lemma {:induction false} RemoveWithRightInOrder(a: Tree, left: bool)
    requires a.Node? && Child(a, left).Node? && Child(a, left).left.Leaf? && Child(a, left).right.Node?
    requires Ordered(Child(a, left))
    ensures var p := Child(a, left);
      p.id in Ids(InOrder(p)) && InOrder(RecursRemove(a, p.id, left)) == SpliceChild(a, left, Erase(InOrder(p), p.id))
    decreases Size(Child(a, left)), 0
  {
    var p := Child(a, left);
    assert EntryOf(p) in InOrder(p);
    OrderedNode(p);
    var q := p.(left := p.right, right := Leaf);
    LargestBelow(q);
    var p1 := ReplaceWithLargest(q);
    var p' := RecursRemove(p1, p1.id, true);
    assert InOrder(p') == Erase(InOrder(p), p.id) by {
      RecursRemoveInOrder(p1, p1.id, true);
      EraseLast(InOrder(p.right));
      EraseNodeOwnId(p);
    }
    RebalancedSplice(a, left, p');
  }
}
