/** The oracles the fleet's tests judge a tree by (mytest.cpp): the red-black
    check with its black-height count, deep copy, deep equality and the array
    membership helper. */
module Tester {
  import opened Ships
  import opened TreeSpec
  import opened Fleets

  // ---------------------------------------------------------------------
  // recursBalanced and unbalanced

  /** recursBalanced as written: -1 when a violation is seen at some Ship or
      below it, otherwise the number of BLACK Ships on a path to null. Its
      order check compares each Ship only with its own children. */
  function RecursBalanced(t: Tree): (r: int)
    ensures r == -1 || r == BlackHeight(t)
  {
    match t
    case Leaf => 0
    case Node(c, id, _, _, l, rt) =>
      var left := RecursBalanced(l);
      var right := RecursBalanced(rt);
      if left < 0 || right < 0 || left != right
         || (l.Node? && (l.id >= id || (l.color == Red && c == Red)))
         || (rt.Node? && (rt.id <= id || (rt.color == Red && c == Red)))
         || c == DoubleBlack
      then -1
      else if c == Black then left + 1 else left
  }

  /** The order recursBalanced checks: every child on the right side of its
      own parent. */
  ghost predicate LocallyOrdered(t: Tree) {
    match t
    case Leaf => true
    case Node(_, id, _, _, l, r) =>
      LocallyOrdered(l) && LocallyOrdered(r) && (l.Node? ==> l.id < id) && (r.Node? ==> id < r.id)
  }

  /** recursBalanced accepts exactly the locally ordered red-black subtrees,
      and then returns their black height; otherwise it returns -1. */
  lemma {:induction false} RecursBalancedMeaning(t: Tree)
    ensures RecursBalanced(t) >= 0 <==> LocallyOrdered(t) && RedBlack(t)
    ensures RecursBalanced(t) >= 0 ==> RecursBalanced(t) == BlackHeight(t)
    ensures RecursBalanced(t) < 0 ==> RecursBalanced(t) == -1
  {
    match t
    case Leaf =>
    case Node(_, _, _, _, l, r) =>
      RecursBalancedMeaning(l);
      RecursBalancedMeaning(r);
  }

  /** Search-tree order implies the parent-child order. */
  lemma {:induction false} OrderedIsLocallyOrdered(t: Tree)
    ensures Ordered(t) ==> LocallyOrdered(t)
  {
    match t
    case Leaf =>
    case Node(_, _, _, _, l, r) =>
      if !Ordered(t) {
        return;
      }
      OrderedNode(t);
      OrderedIsLocallyOrdered(l);
      OrderedIsLocallyOrdered(r);
      if l.Node? {
        assert EntryOf(l) in InOrder(l);
        assert l.id in Ids(InOrder(l));
      }
      if r.Node? {
        assert EntryOf(r) in InOrder(r);
        assert r.id in Ids(InOrder(r));
      }
  }

  /** unbalanced as written: the fleet fails recursBalanced. Every valid
      fleet passes, and a fleet that passes is red-black and locally ordered. */
  function Unbalanced(f: Fleet): (r: bool)
    reads f
    ensures ValidTree(f.root) ==> !r
    ensures !r ==> LocallyOrdered(f.root) && RedBlack(f.root)
  {
    RecursBalancedMeaning(f.root);
    OrderedIsLocallyOrdered(f.root);
    RecursBalanced(f.root) < 0
  }

  /** recursBalanced accepts a tree that is not a search tree: 60000 sits in
      the left subtree of 50000, yet each Ship is ordered with its children. */
  lemma RecursBalancedAcceptsUnordered()
    ensures var t := Node(Black, 50000, Cargo, Alive,
                          Node(Black, 30000, Cargo, Alive, Leaf, Node(Red, 60000, Cargo, Alive, Leaf, Leaf)),
                          Node(Black, 70000, Cargo, Alive, Leaf, Leaf));
      RecursBalanced(t) == 2 && !Ordered(t)
  {
    var x := Node(Red, 60000, Cargo, Alive, Leaf, Leaf);
    var l := Node(Black, 30000, Cargo, Alive, Leaf, x);
    var r := Node(Black, 70000, Cargo, Alive, Leaf, Leaf);
    var t := Node(Black, 50000, Cargo, Alive, l, r);
    assert InOrder(x) == [EntryOf(x)];
    assert InOrder(l) == [EntryOf(l), EntryOf(x)];
    assert InOrder(t)[1] == EntryOf(x) && InOrder(t)[2] == EntryOf(t);
  }

  /** Every Ship of `t` has an id strictly between `lo` and `hi`. */
  ghost predicate Within(t: Tree, lo: int, hi: int) {
    forall e | e in InOrder(t) :: lo < e.id < hi
  }

  /** recursBalanced with the order check it is documented to make: each
      subtree is checked against the id range its ancestors allow. */
  function BalancedWithin(t: Tree, lo: int, hi: int): (r: int)
    ensures r == -1 || r == BlackHeight(t)
  {
    match t
    case Leaf => 0
    case Node(c, id, _, _, l, rt) =>
      var left := BalancedWithin(l, lo, id);
      var right := BalancedWithin(rt, id, hi);
      if left < 0 || right < 0 || left != right || id <= lo || hi <= id
         || (l.Node? && l.color == Red && c == Red)
         || (rt.Node? && rt.color == Red && c == Red)
         || c == DoubleBlack
      then -1
      else if c == Black then left + 1 else left
  }

  /** The range check accepts exactly the red-black search trees whose ids lie
      in (lo, hi), and then returns their black height. */
  lemma {:induction false} BalancedWithinMeaning(t: Tree, lo: int, hi: int)
    ensures BalancedWithin(t, lo, hi) >= 0 <==> Ordered(t) && RedBlack(t) && Within(t, lo, hi)
    ensures BalancedWithin(t, lo, hi) >= 0 ==> BalancedWithin(t, lo, hi) == BlackHeight(t)
  {
    match t
    case Leaf =>
    case Node(_, id, _, _, l, r) =>
      BalancedWithinMeaning(l, lo, id);
      BalancedWithinMeaning(r, id, hi);
      WithinNode(t, lo, hi);
  }

  /** A node is an ordered tree within (lo, hi) exactly when its children are
      ordered within (lo, id) and (id, hi) and lo < id < hi. */
  lemma WithinNode(t: Tree, lo: int, hi: int)
    requires t.Node?
    ensures Ordered(t) && Within(t, lo, hi) <==>
      Ordered(t.left) && Within(t.left, lo, t.id) && Ordered(t.right) && Within(t.right, t.id, hi)
      && lo < t.id < hi
  {
    var s := InOrder(t);
    assert s == InOrder(t.left) + [EntryOf(t)] + InOrder(t.right);
    SortedSplit(InOrder(t.left), EntryOf(t), InOrder(t.right));
    assert EntryOf(t) in s;
    assert forall e | e in s :: e in InOrder(t.left) || e == EntryOf(t) || e in InOrder(t.right);
  }

  /** unbalanced as documented ("a BST and a Red-Black Tree"): a fleet fails
      exactly when it is not an ordered red-black tree of ids in
      [MINID, MAXID]. */
  function UnbalancedSearch(f: Fleet): (r: bool)
    reads f
    ensures r <==> !(Ordered(f.root) && RedBlack(f.root) && Within(f.root, MinId - 1, MaxId + 1))
  {
    BalancedWithinMeaning(f.root, MinId - 1, MaxId + 1);
    BalancedWithin(f.root, MinId - 1, MaxId + 1) < 0
  }

  // ---------------------------------------------------------------------
  // copyShip, shipEqual and fleetEqual

  /** copyShip: a new Ship built with the constructor, given the original's
      colour, with copies of both subtrees; the copy is the same tree. */
  function CopyShip(t: Tree): (r: Tree)
    ensures r == t
  {
    match t
    case Leaf => Leaf
    case Node(c, id, kind, state, l, rt) =>
      NewShip(id, kind, state).(color := c, left := CopyShip(l), right := CopyShip(rt))
  }

  /** copyFleet: a new Fleet holding a copy of the tree. */
  method CopyFleet(f: Fleet) returns (copy: Fleet)
    ensures fresh(copy) && copy.root == f.root
  {
    copy := new Fleet();
    copy.root := CopyShip(f.root);
  }

  /** shipEqual as written: its second recursive call compares the right
      subtree of `rhs` with itself, so right subtrees are never compared. */
  function ShipEqualAsWritten(lhs: Tree, rhs: Tree): (r: bool)
    ensures r ==> LeftSpine(lhs) == LeftSpine(rhs)
    decreases rhs
  {
    if lhs.Leaf? && rhs.Leaf? then true
    else if lhs.Leaf? || rhs.Leaf? then false
    else
      ShipEqualAsWritten(lhs.left, rhs.left) && ShipEqualAsWritten(rhs.right, rhs.right)
      && lhs.id == rhs.id && lhs.kind == rhs.kind && lhs.state == rhs.state && lhs.color == rhs.color
  }

  /** The Ships met from the root going left only, with their colours. */
  function LeftSpine(t: Tree): seq<(int, ShipType, State, Color)> {
    match t
    case Leaf => []
    case Node(c, id, kind, state, l, _) => [(id, kind, state, c)] + LeftSpine(l)
  }

  /** Comparing a tree with itself always succeeds. */
  lemma {:induction false} ShipEqualAsWrittenSelf(t: Tree)
    ensures ShipEqualAsWritten(t, t)
  {
    match t
    case Leaf =>
    case Node(_, _, _, _, l, r) =>
      ShipEqualAsWrittenSelf(l);
      ShipEqualAsWrittenSelf(r);
  }

  /** What shipEqual as written decides: equality of the left spines. */
  lemma {:induction false} ShipEqualAsWrittenMeaning(lhs: Tree, rhs: Tree)
    ensures ShipEqualAsWritten(lhs, rhs) <==> LeftSpine(lhs) == LeftSpine(rhs)
    decreases rhs
  {
    if lhs.Node? && rhs.Node? {
      ShipEqualAsWrittenMeaning(lhs.left, rhs.left);
      ShipEqualAsWrittenSelf(rhs.right);
      assert LeftSpine(lhs) == [(lhs.id, lhs.kind, lhs.state, lhs.color)] + LeftSpine(lhs.left);
      assert LeftSpine(rhs) == [(rhs.id, rhs.kind, rhs.state, rhs.color)] + LeftSpine(rhs.left);
      if LeftSpine(lhs) == LeftSpine(rhs) {
        assert LeftSpine(lhs)[0] == LeftSpine(rhs)[0];
        assert LeftSpine(lhs)[1..] == LeftSpine(rhs)[1..];
      }
    } else if lhs.Node? {
      assert |LeftSpine(lhs)| > 0;
    } else if rhs.Node? {
      assert |LeftSpine(rhs)| > 0;
    }
  }

  /** shipEqual as written calls two different trees equal: a single Ship and
      the same Ship with a right child. */
  lemma ShipEqualMissesRight()
    ensures var a := Node(Black, 50000, Cargo, Alive, Leaf, Leaf);
      var b := Node(Black, 50000, Cargo, Alive, Leaf, Node(Red, 60000, Cargo, Alive, Leaf, Leaf));
      a != b && ShipEqualAsWritten(a, b)
  {
    ShipEqualAsWrittenSelf(Node(Red, 60000, Cargo, Alive, Leaf, Leaf));
  }

  /** shipEqual with both subtrees compared: deep equality. */
  function ShipEqual(lhs: Tree, rhs: Tree): (r: bool)
    ensures r <==> lhs == rhs
  {
    if lhs.Leaf? && rhs.Leaf? then true
    else if lhs.Leaf? || rhs.Leaf? then false
    else
      ShipEqual(lhs.left, rhs.left) && ShipEqual(lhs.right, rhs.right)
      && lhs.id == rhs.id && lhs.kind == rhs.kind && lhs.state == rhs.state && lhs.color == rhs.color
  }

  /** fleetEqual as written: shipEqual as written on the two roots, so it
      compares the left spines of the two trees only. */
  function FleetEqualAsWritten(lhs: Fleet, rhs: Fleet): (r: bool)
    reads lhs, rhs
    ensures r <==> LeftSpine(lhs.root) == LeftSpine(rhs.root)
    ensures lhs.root == rhs.root ==> r
  {
    ShipEqualAsWrittenMeaning(lhs.root, rhs.root);
    ShipEqualAsWritten(lhs.root, rhs.root)
  }

  /** fleetEqual as written calls two fleets with different trees equal: a
      single Ship, and the same Ship with a right child. */
  lemma FleetEqualMissesRight(f: Fleet, g: Fleet)
    requires f.root == Node(Black, 50000, Cargo, Alive, Leaf, Leaf)
    requires g.root == Node(Black, 50000, Cargo, Alive, Leaf, Node(Red, 60000, Cargo, Alive, Leaf, Leaf))
    ensures FleetEqualAsWritten(f, g) && !FleetEqual(f, g)
  {
    assert LeftSpine(f.root) == [(50000, Cargo, Alive, Black)];
    assert LeftSpine(g.root) == [(50000, Cargo, Alive, Black)];
  }

  /** fleetEqual with shipEqual corrected: the two fleets hold deep-equal trees. */
  function FleetEqual(lhs: Fleet, rhs: Fleet): (r: bool)
    reads lhs, rhs
    ensures r <==> lhs.root == rhs.root
    ensures r ==> lhs.Contents() == rhs.Contents()
  {
    ShipEqual(lhs.root, rhs.root)
  }

  // ---------------------------------------------------------------------
  // inArray

  /** inArray: whether `item` occurs among the first `size` elements. */
  method InArray(item: int, arr: array<int>, size: int) returns (found: bool)
    requires size <= arr.Length
    ensures found <==> exists i | 0 <= i < size :: arr[i] == item
  {
    var i := 0;
    while i < size
      invariant 0 <= i <= if size < 0 then 0 else size
      invariant forall j | 0 <= j < i :: arr[j] != item
    {
      if arr[i] == item {
        return true;
      }
      i := i + 1;
    }
    return false;
  }
}
