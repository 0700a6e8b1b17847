/** Abstractions of a Ship subtree: its in-order sequence of entries, the map
    from id to payload it stores, search order, and the colour invariants of a
    red-black tree. */
module TreeSpec {
  import opened Ships

  /** The data of one Ship apart from its colour and its links. */
  datatype Entry = Entry(id: int, kind: ShipType, state: State)

  type Payload = (ShipType, State)

  function EntryOf(t: Tree): Entry
    requires t.Node?
  {
    Entry(t.id, t.kind, t.state)
  }

  /** The `(left ? s->m_left : s->m_right)` idiom of the source. */
  function Child(t: Tree, left: bool): Tree
    requires t.Node?
  {
    if left then t.left else t.right
  }

  function SetChild(t: Tree, left: bool, c: Tree): (r: Tree)
    requires t.Node?
    ensures r.Node? && EntryOf(r) == EntryOf(t) && r.color == t.color
    ensures Child(r, left) == c && Child(r, !left) == Child(t, !left)
  {
    if left then t.(left := c) else t.(right := c)
  }

  function Size(t: Tree): nat {
    match t
    case Leaf => 0
    case Node(_, _, _, _, l, r) => Size(l) + 1 + Size(r)
  }

  /** The order in which the listing and dump routines visit the Ships. */
  function InOrder(t: Tree): seq<Entry> {
    match t
    case Leaf => []
    case Node(_, _, _, _, l, r) => InOrder(l) + [EntryOf(t)] + InOrder(r)
  }

  /** The in-order visit lists every Ship of the subtree: one entry per Ship. */
  lemma {:induction false} InOrderSize(t: Tree)
    ensures |InOrder(t)| == Size(t)
  {
    match t
    case Leaf =>
    case Node(_, _, _, _, l, r) =>
      InOrderSize(l);
      InOrderSize(r);
  }

  function Ids(s: seq<Entry>): set<int> {
    set e | e in s :: e.id
  }

  /** The map from id to payload described by a sequence of entries
      (a later entry wins, which never matters for a sorted sequence). */
  function ToMap(s: seq<Entry>): map<int, Payload> {
    if s == [] then map[]
    else ToMap(s[..|s| - 1])[s[|s| - 1].id := (s[|s| - 1].kind, s[|s| - 1].state)]
  }

  /** What a subtree stores: every id with its (type, state). */
  function ContentsOf(t: Tree): map<int, Payload> {
    match t
    case Leaf => map[]
    case Node(_, _, _, _, l, r) => ContentsOf(l)[t.id := (t.kind, t.state)] + ContentsOf(r)
  }

  /** The entries of `s` whose id is not `k`, in their order. */
  function Erase(s: seq<Entry>, k: int): seq<Entry> {
    if s == [] then []
    else Erase(s[..|s| - 1], k) + (if s[|s| - 1].id == k then [] else [s[|s| - 1]])
  }

  ghost predicate Sorted(s: seq<Entry>) {
    forall i, j :: 0 <= i < j < |s| ==> s[i].id < s[j].id
  }

  /** Binary-search-tree order: strictly increasing ids in order. */
  ghost predicate Ordered(t: Tree) {
    Sorted(InOrder(t))
  }

  // ---------------------------------------------------------------------
  // Colours

  /** BLACK counts one, DOUBLEBLACK (a black that owes one more) counts two. */
  function Weight(c: Color): nat {
    match c
    case Red => 0
    case Black => 1
    case DoubleBlack => 2
  }

  /** Black nodes on the leftmost path to a null child, the subtree root included. */
  function BlackHeight(t: Tree): nat {
    match t
    case Leaf => 0
    case Node(c, _, _, _, l, _) => BlackHeight(l) + Weight(c)
  }

  /** Every path to a null child weighs the same. */
  ghost predicate Balanced(t: Tree) {
    match t
    case Leaf => true
    case Node(_, _, _, _, l, r) => Balanced(l) && Balanced(r) && BlackHeight(l) == BlackHeight(r)
  }

  predicate IsRed(t: Tree) {
    t.Node? && t.color == Red
  }

  predicate IsDoubleBlack(t: Tree) {
    t.Node? && t.color == DoubleBlack
  }

  /** No RED Ship has a RED child. */
  ghost predicate NoRedRed(t: Tree) {
    match t
    case Leaf => true
    case Node(c, _, _, _, l, r) =>
      NoRedRed(l) && NoRedRed(r) && (c == Red ==> !IsRed(l) && !IsRed(r))
  }

  ghost predicate NoDoubleBlack(t: Tree) {
    match t
    case Leaf => true
    case Node(c, _, _, _, l, r) => c != DoubleBlack && NoDoubleBlack(l) && NoDoubleBlack(r)
  }

  /** The colour invariants of a red-black subtree (its root may be RED). */
  ghost predicate RedBlack(t: Tree) {
    Balanced(t) && NoRedRed(t) && NoDoubleBlack(t)
  }

  /** A whole fleet at rest: ordered, red-black, with a BLACK (or no) root. */
  ghost predicate ValidTree(t: Tree) {
    Ordered(t) && RedBlack(t) && !IsRed(t)
  }

  // ---------------------------------------------------------------------
  // Lemmas about entry sequences

  lemma IdsAppend(a: seq<Entry>, b: seq<Entry>)
    ensures Ids(a + b) == Ids(a) + Ids(b)
  {
    forall k | k in Ids(a + b) ensures k in Ids(a) + Ids(b) {
      var e :| e in a + b && e.id == k;
    }
    forall k | k in Ids(a) + Ids(b) ensures k in Ids(a + b) {
      if k in Ids(a) {
        var e :| e in a && e.id == k;
        assert e in a + b;
      } else {
        var e :| e in b && e.id == k;
        assert e in a + b;
      }
    }
  }

  lemma {:induction false} ToMapAppend(a: seq<Entry>, b: seq<Entry>)
    ensures ToMap(a + b) == ToMap(a) + ToMap(b)
    decreases |b|
  {
    if b == [] {
      assert a + b == a;
    } else {
      var b' := b[..|b| - 1];
      var x := b[|b| - 1];
      assert (a + b)[..|a + b| - 1] == a + b';
      assert (a + b)[|a + b| - 1] == x;
      ToMapAppend(a, b');
    }
  }

  lemma {:induction false} ToMapKeys(s: seq<Entry>)
    ensures ToMap(s).Keys == Ids(s)
    decreases |s|
  {
    if s != [] {
      var s' := s[..|s| - 1];
      ToMapKeys(s');
      DropLastAppend(s);
      IdsAppend(s', [s[|s| - 1]]);
    }
  }

  lemma {:induction false} EraseAppend(a: seq<Entry>, b: seq<Entry>, k: int)
    ensures Erase(a + b, k) == Erase(a, k) + Erase(b, k)
    decreases |b|
  {
    if b == [] {
      assert a + b == a;
    } else {
      var b' := b[..|b| - 1];
      assert (a + b)[..|a + b| - 1] == a + b';
      assert (a + b)[|a + b| - 1] == b[|b| - 1];
      EraseAppend(a, b', k);
    }
  }

  /** Erasing an id removes exactly that key from the stored map. */
  lemma {:induction false} EraseToMap(s: seq<Entry>, k: int)
    ensures ToMap(Erase(s, k)) == ToMap(s) - {k}
    decreases |s|
  {
    if s != [] {
      var s' := s[..|s| - 1];
      var x := s[|s| - 1];
      EraseToMap(s', k);
      if x.id != k {
        ToMapAppend(Erase(s', k), [x]);
        assert [x][..0] == [];
      } else {
        assert Erase(s', k) + [] == Erase(s', k);
      }
    }
  }

  lemma {:induction false} EraseAbsent(s: seq<Entry>, k: int)
    requires k !in Ids(s)
    ensures Erase(s, k) == s
    decreases |s|
  {
    if s != [] {
      var s' := s[..|s| - 1];
      assert s[|s| - 1] in s;
      assert Ids(s') <= Ids(s) by {
        forall j | j in Ids(s') ensures j in Ids(s) {
          var e :| e in s' && e.id == j;
          assert e in s;
        }
      }
      EraseAbsent(s', k);
      DropLastAppend(s);
    }
  }

  /** Erasing keeps only entries already present, in their order. */
  lemma {:induction false} EraseSubsequence(s: seq<Entry>, k: int)
    ensures forall e :: e in Erase(s, k) ==> e in s && e.id != k
    ensures Sorted(s) ==> Sorted(Erase(s, k))
    decreases |s|
  {
    if s != [] {
      var s' := s[..|s| - 1];
      var x := s[|s| - 1];
      EraseSubsequence(s', k);
      assert forall e :: e in s' ==> e in s;
      if Sorted(s) {
        assert Sorted(s');
        var t := Erase(s', k);
        if x.id != k {
          forall i, j | 0 <= i < j < |t + [x]| ensures (t + [x])[i].id < (t + [x])[j].id {
            if j < |t| {
            } else {
              assert t[i] in s';
              var m :| 0 <= m < |s'| && s'[m] == t[i];
            }
          }
        } else {
          assert t + [] == t;
        }
      }
    }
  }

  /** In a sorted sequence the last id is erased by dropping the last entry,
      and putting that entry back restores the sequence. */
  lemma EraseLast(s: seq<Entry>)
    requires Sorted(s) && s != []
    ensures Erase(s, s[|s| - 1].id) == s[..|s| - 1]
    ensures Erase(s, s[|s| - 1].id) + [s[|s| - 1]] == s
  {
    LastIsLargest(s, s[..|s| - 1]);
    EraseLargestLast(s, s[..|s| - 1]);
  }

  lemma LastIsLargest(s: seq<Entry>, s': seq<Entry>)
    requires Sorted(s) && s != [] && s' == s[..|s| - 1]
    ensures forall i | 0 <= i < |s'| :: s'[i].id < s[|s| - 1].id
  {
  }

  lemma EraseLargestLast(s: seq<Entry>, s': seq<Entry>)
    requires s != [] && s' == s[..|s| - 1]
    requires forall i | 0 <= i < |s'| :: s'[i].id < s[|s| - 1].id
    ensures Erase(s, s[|s| - 1].id) == s'
    ensures Erase(s, s[|s| - 1].id) + [s[|s| - 1]] == s
  {
    var x := s[|s| - 1];
    EraseSmaller(s', x.id);
    assert Erase(s, x.id) == Erase(s', x.id) + [];
    DropLastAppend(s);
  }

  /** Erasing an id larger than every id present changes nothing. */
  lemma {:induction false} EraseSmaller(s: seq<Entry>, k: int)
    requires forall i | 0 <= i < |s| :: s[i].id < k
    ensures Erase(s, k) == s
    decreases |s|
  {
    if s != [] {
      var s' := s[..|s| - 1];
      var x := s[|s| - 1];
      assert forall i | 0 <= i < |s'| :: s'[i].id < k;
      EraseSmaller(s', k);
      assert Erase(s, k) == Erase(s', k) + [x] by {
        assert x.id != k;
      }
      DropLastAppend(s);
    }
  }

  lemma DropLastAppend(s: seq<Entry>)
    requires s != []
    ensures s[..|s| - 1] + [s[|s| - 1]] == s
  {
  }

  /** How a sorted in-order sequence splits around a node. */
  lemma SortedSplit(a: seq<Entry>, x: Entry, b: seq<Entry>)
    ensures Sorted(a + [x] + b) <==>
      Sorted(a) && Sorted(b) && (forall e | e in a :: e.id < x.id) && (forall e | e in b :: x.id < e.id)
  {
    if Sorted(a + [x] + b) {
      SortedSplitParts(a, x, b);
    }
    if Sorted(a) && Sorted(b) && (forall e | e in a :: e.id < x.id) && (forall e | e in b :: x.id < e.id) {
      SortedSplitJoin(a, x, b);
    }
  }

  lemma SortedSplitParts(a: seq<Entry>, x: Entry, b: seq<Entry>)
    requires Sorted(a + [x] + b)
    ensures Sorted(a) && Sorted(b) && (forall e | e in a :: e.id < x.id) && (forall e | e in b :: x.id < e.id)
  {
    var s := a + [x] + b;
    assert s[|a|] == x;
    forall i, j | 0 <= i < j < |a| ensures a[i].id < a[j].id {
      assert s[i] == a[i] && s[j] == a[j];
    }
    forall i, j | 0 <= i < j < |b| ensures b[i].id < b[j].id {
      assert s[|a| + 1 + i] == b[i] && s[|a| + 1 + j] == b[j];
    }
    forall e | e in a ensures e.id < x.id {
      var m :| 0 <= m < |a| && a[m] == e;
      assert s[m] == e;
    }
    forall e | e in b ensures x.id < e.id {
      var m :| 0 <= m < |b| && b[m] == e;
      assert s[|a| + 1 + m] == e;
    }
  }

  lemma SortedSplitJoin(a: seq<Entry>, x: Entry, b: seq<Entry>)
    requires Sorted(a) && Sorted(b) && (forall e | e in a :: e.id < x.id) && (forall e | e in b :: x.id < e.id)
    ensures Sorted(a + [x] + b)
  {
    var s := a + [x] + b;
    forall i, j | 0 <= i < j < |s| ensures s[i].id < s[j].id {
      if j < |a| {
        assert s[i] == a[i] && s[j] == a[j];
      } else if j == |a| {
        assert s[i] == a[i] && a[i] in a;
      } else if i < |a| {
        assert s[i] == a[i] && a[i] in a;
        assert s[j] == b[j - |a| - 1] && b[j - |a| - 1] in b;
      } else if i == |a| {
        assert s[j] == b[j - |a| - 1] && b[j - |a| - 1] in b;
      } else {
        assert s[i] == b[i - |a| - 1] && s[j] == b[j - |a| - 1];
      }
    }
  }

  /** An ordered node: ordered children, smaller ids on the left, larger on the right. */
  lemma OrderedNode(t: Tree)
    requires t.Node? && Ordered(t)
    ensures Ordered(t.left) && Ordered(t.right)
    ensures forall k | k in Ids(InOrder(t.left)) :: k < t.id
    ensures forall k | k in Ids(InOrder(t.right)) :: t.id < k
    ensures Ids(InOrder(t)) == Ids(InOrder(t.left)) + {t.id} + Ids(InOrder(t.right))
  {
    SortedSplit(InOrder(t.left), EntryOf(t), InOrder(t.right));
    IdsAppend(InOrder(t.left) + [EntryOf(t)], InOrder(t.right));
    IdsAppend(InOrder(t.left), [EntryOf(t)]);
    assert Ids([EntryOf(t)]) == {t.id};
  }

  /** The stored map is the map of the in-order sequence, so its keys are the ids in order. */
  lemma {:induction false} ContentsInOrder(t: Tree)
    ensures ContentsOf(t) == ToMap(InOrder(t))
    ensures ContentsOf(t).Keys == Ids(InOrder(t))
  {
    match t
    case Leaf =>
    case Node(_, _, _, _, l, r) =>
      ContentsInOrder(l);
      ContentsInOrder(r);
      ToMapAppend(InOrder(l) + [EntryOf(t)], InOrder(r));
      ToMapAppend(InOrder(l), [EntryOf(t)]);
      assert [EntryOf(t)][..0] == [];
      ToMapKeys(InOrder(t));
  }

  /** Replacing a child of an ordered node by an ordered subtree whose ids lie
      on the same side of the node keeps the node ordered. */
  lemma ReplaceChildOrdered(t: Tree, c: Tree, left: bool)
    requires t.Node? && Ordered(t) && Ordered(c)
    requires left ==> forall k | k in Ids(InOrder(c)) :: k < t.id
    requires !left ==> forall k | k in Ids(InOrder(c)) :: t.id < k
    ensures Ordered(SetChild(t, left, c))
  {
    var x := EntryOf(t);
    SortedSplit(InOrder(t.left), x, InOrder(t.right));
    if left {
      assert forall e | e in InOrder(c) :: e.id in Ids(InOrder(c));
      SortedSplit(InOrder(c), x, InOrder(t.right));
      assert InOrder(t.(left := c)) == InOrder(c) + [x] + InOrder(t.right);
    } else {
      assert forall e | e in InOrder(c) :: e.id in Ids(InOrder(c));
      SortedSplit(InOrder(t.left), x, InOrder(c));
      assert InOrder(t.(right := c)) == InOrder(t.left) + [x] + InOrder(c);
    }
  }

  /** A red-black subtree whose only fault is at its root stays red-black once
      the root is painted BLACK (what insert and remove do to m_root). */
  lemma BlackenRoot(t: Tree)
    requires t.Node? && Balanced(t) && NoDoubleBlack(t.left) && NoDoubleBlack(t.right)
    requires NoRedRed(t.left) && NoRedRed(t.right)
    ensures RedBlack(t.(color := Black)) && !IsRed(t.(color := Black))
    ensures InOrder(t.(color := Black)) == InOrder(t)
  {
  }

  /** One step of the search loops (findShip, setState, getParent): an id that
      is not at the node can only be on the side the comparison picks. */
  lemma SearchStep(t: Tree, k: int)
    requires t.Node? && Ordered(t) && k != t.id
    ensures Ordered(t.left) && Ordered(t.right)
    ensures k in ContentsOf(t) <==> k in ContentsOf(if t.id > k then t.left else t.right)
  {
    OrderedNode(t);
    ContentsInOrder(t);
    ContentsInOrder(t.left);
    ContentsInOrder(t.right);
  }

  /** The same step stated on in-order ids: the side the comparison picks is
      ordered and holds the id. */
  lemma IdBelow(t: Tree, k: int)
    requires t.Node? && Ordered(t) && k in Ids(InOrder(t)) && k != t.id
    ensures Ordered(Child(t, k < t.id)) && k in Ids(InOrder(Child(t, k < t.id)))
  {
    OrderedNode(t);
  }

  /** In an ordered tree every Ship seen in order is what the map stores for its id. */
  lemma {:induction false} ContentsEntry(t: Tree, e: Entry)
    requires Ordered(t) && e in InOrder(t)
    ensures e.id in ContentsOf(t) && ContentsOf(t)[e.id] == (e.kind, e.state)
  {
    match t
    case Node(_, _, _, _, l, r) =>
      OrderedNode(t);
      ContentsInOrder(r);
      assert e.id in Ids(InOrder(t));
      if e in InOrder(l) {
        ContentsEntry(l, e);
        assert e.id in Ids(InOrder(l));
      } else if e in InOrder(r) {
        ContentsEntry(r, e);
      } else {
        assert e == EntryOf(t);
      }
  }

  /** Every stored id comes from some Ship seen in order. */
  lemma ContentsFrom(t: Tree, k: int)
    requires k in ContentsOf(t)
    ensures exists e :: e in InOrder(t) && e.id == k
  {
    ContentsInOrder(t);
  }
}
