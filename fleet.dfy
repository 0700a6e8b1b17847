/** The Fleet: a red-black tree of Ships owned through `root`, with the
    public operations of fleet.cpp. */
module Fleets {
  import opened Ships
  import opened TreeSpec
  import opened Insertion
  import opened Deletion
  import opened DeletionInvariants

  datatype Option<T> = None | Some(value: T)

  /** recursRemoveLost's search order: the Ship itself, then its left
      subtree, then its right subtree; the first LOST Ship met. */
  function FirstLost(t: Tree): (r: Option<Entry>)
    ensures r.Some? ==> r.value in InOrder(t) && r.value.state == Lost
    ensures r.None? <==> forall e | e in InOrder(t) :: e.state == Alive
  {
    match t
    case Leaf => None
    case Node(_, _, _, state, left, right) =>
      var s := InOrder(t);
      assert s == InOrder(left) + [EntryOf(t)] + InOrder(right);
      assert forall e | e in s :: e in InOrder(left) || e == EntryOf(t) || e in InOrder(right);
      if state == Lost then Some(EntryOf(t))
      else if FirstLost(left).Some? then FirstLost(left)
      else
        assert forall e | e in InOrder(left) :: e.state == Alive;
        assert EntryOf(t).state == Alive;
        FirstLost(right)
  }

  /** In an ordered tree, FirstLost finds a stored LOST Ship, and finds none
      exactly when every stored Ship is ALIVE. */
  lemma FirstLostStored(t: Tree)
    requires Ordered(t)
    ensures FirstLost(t).Some? ==>
      FirstLost(t).value.id in ContentsOf(t) && ContentsOf(t)[FirstLost(t).value.id].1 == Lost
    ensures FirstLost(t).None? ==> forall k | k in ContentsOf(t) :: ContentsOf(t)[k].1 == Alive
  {
    var m := ContentsOf(t);
    if FirstLost(t).Some? {
      ContentsEntry(t, FirstLost(t).value);
    } else {
      forall k | k in m ensures m[k].1 == Alive {
        ContentsFrom(t, k);
        var e :| e in InOrder(t) && e.id == k;
        ContentsEntry(t, e);
      }
    }
  }

  /** The entries of `s`, with the Ship `id` given state `state`. */
  function Restate(s: seq<Entry>, id: int, state: State): (r: seq<Entry>)
    ensures |r| == |s|
    ensures forall i | 0 <= i < |s| :: r[i].id == s[i].id && r[i].kind == s[i].kind
    ensures forall i | 0 <= i < |s| :: r[i].state == if s[i].id == id then state else s[i].state
  {
    seq(|s|, i requires 0 <= i < |s| => if s[i].id == id then s[i].(state := state) else s[i])
  }

  /** The tree with every state forgotten (set to ALIVE): its links, ids,
      types and colours. */
  function Shape(t: Tree): Tree {
    match t
    case Leaf => Leaf
    case Node(_, _, _, _, l, r) => t.(state := Alive, left := Shape(l), right := Shape(r))
  }

  /** The write of setState: along the search path of `id`, the Ship with that
      id gets the new state; colours and links are untouched. */
  function WithState(t: Tree, id: int, state: State): (r: Tree)
    ensures Shape(r) == Shape(t)
    ensures r.Node? == t.Node? && (r.Node? ==> r.color == t.color && r.id == t.id)
    ensures BlackHeight(r) == BlackHeight(t) && (Balanced(r) <==> Balanced(t))
    ensures (NoRedRed(r) <==> NoRedRed(t)) && (NoDoubleBlack(r) <==> NoDoubleBlack(t))
  {
    match t
    case Leaf => Leaf
    case Node(_, _, _, _, l, r) =>
      if t.id == id then t.(state := state)
      else if t.id > id then t.(left := WithState(l, id, state))
      else t.(right := WithState(r, id, state))
  }

  /** In an ordered tree setState's write relabels exactly the Ship `id`
      and keeps the order. */
  lemma {:induction false} WithStateInOrder(t: Tree, id: int, state: State)
    requires Ordered(t)
    ensures InOrder(WithState(t, id, state)) == Restate(InOrder(t), id, state)
    ensures Ordered(WithState(t, id, state))
  {
    match t
    case Leaf =>
    case Node(_, _, _, _, l, r) =>
      var t' := WithState(t, id, state);
      assert InOrder(t'.left) == Restate(InOrder(l), id, state)
        && InOrder(t'.right) == Restate(InOrder(r), id, state) by {
        OrderedNode(t);
        if t.id == id {
          RestateAbsent(InOrder(l), id, state);
          RestateAbsent(InOrder(r), id, state);
        } else if t.id > id {
          WithStateInOrder(l, id, state);
          RestateAbsent(InOrder(r), id, state);
        } else {
          WithStateInOrder(r, id, state);
          RestateAbsent(InOrder(l), id, state);
        }
      }
      assert [EntryOf(t')] == Restate([EntryOf(t)], id, state);
      RestateSplit(InOrder(l), EntryOf(t), InOrder(r), id, state);
      assert Ordered(t') by {
        RestateSorted(InOrder(t), id, state);
      }
  }

  /** In an ordered tree setState's write changes the state stored for `id`,
      if present, and nothing else. */
  lemma {:induction false} WithStateContents(t: Tree, id: int, state: State)
    requires Ordered(t)
    ensures ContentsOf(WithState(t, id, state)) ==
      if id in ContentsOf(t) then ContentsOf(t)[id := (ContentsOf(t)[id].0, state)] else ContentsOf(t)
  {
    match t
    case Leaf =>
    case Node(_, _, _, _, l, r) =>
      var cl, cr := ContentsOf(l), ContentsOf(r);
      assert Ordered(l) && Ordered(r)
        && (id <= t.id ==> id !in cr) && (t.id <= id ==> id !in cl) by {
        OrderedNode(t);
        ContentsInOrder(l);
        ContentsInOrder(r);
      }
      if t.id > id {
        WithStateContents(l, id, state);
        WithStateAside(t, true, id, state);
      } else if t.id < id {
        WithStateContents(r, id, state);
        WithStateAside(t, false, id, state);
      } else {
        assert ContentsOf(t) == cl[t.id := (t.kind, t.state)] + cr;
        assert ContentsOf(t.(state := state)) == cl[t.id := (t.kind, state)] + cr;
      }
  }

  /** One step of WithStateContents: the write happens in the `left` child of
      `t`, and the id is neither `t`'s nor in the other child. */
  lemma WithStateAside(t: Tree, left: bool, id: int, state: State)
    requires t.Node? && t.id != id && id !in ContentsOf(Child(t, !left))
    requires left <==> id < t.id
    requires var c := ContentsOf(Child(t, left));
      ContentsOf(WithState(Child(t, left), id, state)) ==
        if id in c then c[id := (c[id].0, state)] else c
    ensures ContentsOf(WithState(t, id, state)) ==
      if id in ContentsOf(t) then ContentsOf(t)[id := (ContentsOf(t)[id].0, state)] else ContentsOf(t)
  {
    var m := ContentsOf(t);
    var t' := WithState(t, id, state);
    var c := ContentsOf(Child(t, left));
    var c' := ContentsOf(WithState(Child(t, left), id, state));
    var p := (t.kind, t.state);
    if left {
      assert t' == t.(left := WithState(t.left, id, state));
      assert m == c[t.id := p] + ContentsOf(t.right);
      assert ContentsOf(t') == c'[t.id := p] + ContentsOf(t.right);
    } else {
      assert t' == t.(right := WithState(t.right, id, state));
      assert m == ContentsOf(t.left)[t.id := p] + c;
      assert ContentsOf(t') == ContentsOf(t.left)[t.id := p] + c';
    }
  }

  lemma RestateAbsent(s: seq<Entry>, id: int, state: State)
    requires id !in Ids(s)
    ensures Restate(s, id, state) == s
  {
    forall i | 0 <= i < |s| ensures s[i].id != id {
      assert s[i] in s;
    }
  }

  lemma RestateSplit(a: seq<Entry>, x: Entry, b: seq<Entry>, id: int, state: State)
    ensures Restate(a + [x] + b, id, state) == Restate(a, id, state) + Restate([x], id, state) + Restate(b, id, state)
  {
  }

  lemma RestateSorted(s: seq<Entry>, id: int, state: State)
    requires Sorted(s)
    ensures Sorted(Restate(s, id, state))
  {
  }

  /** The stored map restricted to its ALIVE Ships. */
  function AliveShips(m: map<int, Payload>): (r: map<int, Payload>)
    ensures forall k :: k in r <==> k in m && m[k].1 == Alive
    ensures forall k | k in r :: r[k] == m[k]
  {
    map k | k in m && m[k].1 == Alive :: m[k]
  }

  /** A sub-map of `m0` that keeps every ALIVE Ship and holds only ALIVE
      Ships is the ALIVE part of `m0`. */
  lemma AliveShipsRemain(m0: map<int, Payload>, m: map<int, Payload>)
    requires forall k | k in m :: k in m0 && m[k] == m0[k]
    requires forall k | k in m0 && m0[k].1 == Alive :: k in m
    requires forall k | k in m :: m[k].1 == Alive
    ensures m == AliveShips(m0)
  {
    var alive := AliveShips(m0);
    forall k | k in m ensures k in alive {
      assert m0[k].1 == Alive;
    }
    forall k | k in alive ensures k in m {
      assert k in m0 && m0[k].1 == Alive;
    }
    assert m.Keys == alive.Keys;
    assert forall k | k in m :: m[k] == alive[k];
  }

  class Fleet {
    var root: Tree

    /** The class invariant: a valid red-black search tree of accepted ids. */
    ghost predicate Valid()
      reads this
    {
      ValidTree(root) && forall k | k in ContentsOf(root) :: ValidId(k)
    }

    /** What the fleet holds: each id with its (type, state). */
    ghost function Contents(): map<int, Payload>
      reads this
    {
      ContentsOf(root)
    }

    /** An empty fleet. */
    constructor()
      ensures Valid() && Contents() == map[] && root == Leaf
    {
      root := Leaf;
    }

    /** clear: drops every Ship; the fleet is as newly constructed. */
    method Clear()
      modifies this
      ensures Valid() && Contents() == map[] && root == Leaf
    {
      root := Leaf;
    }

    /** findShip: walks down from the root, left when the Ship's id is larger. */
    method FindShip(id: int) returns (found: bool)
      requires Valid()
      ensures found <==> id in Contents()
    {
      var iter := root;
      while iter.Node?
        invariant Ordered(iter)
        invariant id in Contents() <==> id in ContentsOf(iter)
        decreases Size(iter)
      {
        if iter.id == id {
          return true;
        }
        SearchStep(iter, id);
        iter := if iter.id > id then iter.left else iter.right;
      }
      return false;
    }

    /** insert: a Ship with an id in [MINID, MAXID] not yet present is added as
      a new RED Ship and the tree rebalanced; anything else changes nothing. */
    method Insert(ship: Tree)
      requires Valid() && ship.Node?
      modifies this
      ensures Valid()
      ensures ValidId(ship.id) && ship.id !in old(Contents()) ==>
        Contents() == old(Contents())[ship.id := (ship.kind, ship.state)]
      ensures !(ValidId(ship.id) && ship.id !in old(Contents())) ==> root == old(root)
    {
      if MinId <= ship.id && ship.id <= MaxId {
        var present := FindShip(ship.id);
        if !present {
          var newShip := NewShip(ship.id, ship.kind, ship.state);
          if root.Leaf? {
            root := newShip;
          } else {
            ContentsInOrder(root);
            InsertBelowRoot(root, newShip);
            if Child(root, ship.id < root.id).Leaf? {
              root := SetChild(root, ship.id < root.id, newShip);
            } else {
              root := RecursInsert(root, newShip, ship.id < root.id);
            }
          }
          root := root.(color := Black);
        }
      }
    }

    /** remove: a present id is removed and the tree rebalanced; an absent id
      changes nothing. */
    method Remove(id: int)
      requires Valid()
      modifies this
      ensures Valid()
      ensures Contents() == old(Contents()) - {id}
      ensures id !in old(Contents()) ==> root == old(root)
    {
      var found := FindShip(id);
      if found {
        root := RemoveFromRoot(root, id);
      }
    }

    /** setState: the Ship with `id` gets `state` and true is returned; without
      such a Ship nothing changes and false is returned. */
    method SetState(id: int, state: State) returns (found: bool)
      requires Valid()
      modifies this
      ensures Valid()
      ensures found <==> id in old(Contents())
      ensures found ==> Contents() == old(Contents())[id := (old(Contents())[id].0, state)]
      ensures Shape(root) == Shape(old(root))
      ensures !found ==> root == old(root)
    {
      found := FindShip(id);
      if found {
        WithStateInOrder(root, id, state);
        WithStateContents(root, id, state);
        root := WithState(root, id, state);
      }
    }

    /** recursRemoveLost: removes the first LOST Ship of the search order, if any. */
    method RemoveOneLost() returns (removed: bool)
      requires Valid()
      modifies this
      ensures Valid()
      ensures removed <==> FirstLost(old(root)).Some?
      ensures removed ==> Contents() == old(Contents()) - {FirstLost(old(root)).value.id}
      ensures !removed ==> root == old(root)
    {
      var lost := FirstLost(root);
      if lost.Some? {
        Remove(lost.value.id);
        return true;
      }
      return false;
    }

    /** removeLost: removes LOST Ships one at a time until none is left; every
      ALIVE Ship stays, and without LOST Ships nothing changes. */
    method RemoveLost()
      requires Valid()
      modifies this
      ensures Valid()
      ensures Contents() == AliveShips(old(Contents()))
      ensures (forall k | k in old(Contents()) :: old(Contents())[k].1 == Alive) ==> root == old(root)
    {
      FirstLostStored(root);
      var more := RemoveOneLost();
      while more
        invariant Valid()
        invariant forall k | k in Contents() :: k in old(Contents()) && Contents()[k] == old(Contents())[k]
        invariant forall k | k in old(Contents()) && old(Contents())[k].1 == Alive :: k in Contents()
        invariant !more ==> FirstLost(root).None?
        invariant (forall k | k in old(Contents()) :: old(Contents())[k].1 == Alive) ==> root == old(root) && !more
        decreases |Contents().Keys| + if more then 1 else 0
      {
        FirstLostStored(root);
        var before := Contents();
        more := RemoveOneLost();
        assert more ==> Contents().Keys < before.Keys;
      }
      var r := root;
      assert Ordered(r) && FirstLost(r).None?;
      FirstLostStored(r);
      AliveShipsRemain(old(Contents()), ContentsOf(r));
    }
  }
}
