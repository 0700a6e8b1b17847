/** The restructuring primitives of the fleet: left and right rotation and the
    recolouring that pushes a BLACK down to two children (fleet.cpp). */
module Rotations {
  import opened Ships
  import opened TreeSpec

  /** Rotates left around `a`: its right child becomes the subtree root and `a`
      that child's left child; the Ships keep their order and their colours. */
  function RotateLeft(a: Tree): (r: Tree)
    requires a.Node? && a.right.Node?
    ensures r.Node? && EntryOf(r) == EntryOf(a.right) && r.color == a.right.color
    ensures r.left.Node? && EntryOf(r.left) == EntryOf(a) && r.left.color == a.color
    ensures r.left.left == a.left && r.left.right == a.right.left && r.right == a.right.right
    ensures InOrder(r) == InOrder(a)
    ensures Size(r) == Size(a)
  {
    var temp := a.right;
    temp.(left := a.(right := temp.left))
  }

  /** Rotates right around `a`: its left child becomes the subtree root and `a`
      that child's right child; the Ships keep their order and their colours. */
  function RotateRight(a: Tree): (r: Tree)
    requires a.Node? && a.left.Node?
    ensures r.Node? && EntryOf(r) == EntryOf(a.left) && r.color == a.left.color
    ensures r.right.Node? && EntryOf(r.right) == EntryOf(a) && r.right.color == a.color
    ensures r.right.right == a.right && r.right.left == a.left.right && r.left == a.left.left
    ensures InOrder(r) == InOrder(a)
    ensures Size(r) == Size(a)
  {
    var temp := a.left;
    temp.(right := a.(left := temp.right))
  }

  /** Makes `a` RED and both of its children BLACK; nothing else changes. */
  function Recolor(a: Tree): (r: Tree)
    requires a.Node? && a.left.Node? && a.right.Node?
    ensures r.Node? && r.left.Node? && r.right.Node?
    ensures r.color == Red && r.left.color == Black && r.right.color == Black
    ensures r.(color := a.color, left := a.left, right := a.right) == a
    ensures r.left.(color := a.left.color) == a.left && r.right.(color := a.right.color) == a.right
    ensures InOrder(r) == InOrder(a)
  {
    a.(color := Red, left := a.left.(color := Black), right := a.right.(color := Black))
  }
}
