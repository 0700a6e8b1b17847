/** The Ship record of the fleet: its three enumerations, the id bounds and the
    node itself (fleet.h). A null child pointer is `Leaf`. */
module Ships {

  datatype State = Alive | Lost
  datatype ShipType = Cargo | Telescope | Communicator | FuelCarrier | RoboCarrier
  datatype Color = Red | Black | DoubleBlack

  const MinId: int := 10000
  const MaxId: int := 99999
  const DefaultId: int := 0

  /** The closed interval of ids a fleet accepts. */
  predicate ValidId(id: int) {
    MinId <= id <= MaxId
  }

  /** A Ship and, through its two owned children, the subtree below it.
      The getters of the record are the destructors of `Node`. */
  datatype Tree =
    | Leaf
    | Node(color: Color, id: int, kind: ShipType, state: State, left: Tree, right: Tree)

  /** The Ship constructor: RED and childless, with the given or default fields. */
  function NewShip(id: int := DefaultId, kind: ShipType := Cargo, state: State := Alive): (s: Tree)
    ensures s.Node? && s.color == Red && s.left == Leaf && s.right == Leaf
    ensures s.id == id && s.kind == kind && s.state == state
  {
    Node(Red, id, kind, state, Leaf, Leaf)
  }

  /** getStateStr: the printed name; the "UNKNOWN" default is never reached. */
  function StateName(s: State): (r: string)
    ensures r != "" && r != "UNKNOWN"
  {
    match s
    case Lost => "LOST"
    case Alive => "ALIVE"
  }

  /** getTypeStr: the printed name; the "UNKNOWN" default is never reached. */
  function TypeName(k: ShipType): (r: string)
    ensures r != "" && r != "UNKNOWN"
  {
    match k
    case Cargo => "CARGO"
    case Telescope => "TELESCOPE"
    case Communicator => "COMMUNICATOR"
    case FuelCarrier => "FUELCARRIER"
    case RoboCarrier => "ROBOCARRIER"
  }

  /** getColorStr: the printed name; the "UNKNOWN" default is never reached. */
  function ColorName(c: Color): (r: string)
    ensures r != "" && r != "UNKNOWN"
  {
    match c
    case Red => "RED"
    case Black => "BLACK"
    case DoubleBlack => "DOUBLEBLACK"
  }

  /** Every enumerator has a name of its own, and none falls through to "UNKNOWN". */
  lemma NamesAreDistinct()
    ensures forall a: State, b: State :: StateName(a) == StateName(b) ==> a == b
    ensures forall a: ShipType, b: ShipType :: TypeName(a) == TypeName(b) ==> a == b
    ensures forall a: Color, b: Color :: ColorName(a) == ColorName(b) ==> a == b
    ensures forall a: State :: StateName(a) != "UNKNOWN"
    ensures forall a: ShipType :: TypeName(a) != "UNKNOWN"
    ensures forall a: Color :: ColorName(a) != "UNKNOWN"
  {
  }

  // Each setter overwrites one field: putting the old value back gives the old Ship.

  function SetId(s: Tree, id: int): (r: Tree)
    requires s.Node?
    ensures r.Node? && r.id == id && r.(id := s.id) == s
  {
    s.(id := id)
  }

  function SetState(s: Tree, state: State): (r: Tree)
    requires s.Node?
    ensures r.Node? && r.state == state && r.(state := s.state) == s
  {
    s.(state := state)
  }

  function SetType(s: Tree, kind: ShipType): (r: Tree)
    requires s.Node?
    ensures r.Node? && r.kind == kind && r.(kind := s.kind) == s
  {
    s.(kind := kind)
  }

  function SetColor(s: Tree, color: Color): (r: Tree)
    requires s.Node?
    ensures r.Node? && r.color == color && r.(color := s.color) == s
  {
    s.(color := color)
  }

  function SetLeft(s: Tree, left: Tree): (r: Tree)
    requires s.Node?
    ensures r.Node? && r.left == left && r.(left := s.left) == s
  {
    s.(left := left)
  }

  function SetRight(s: Tree, right: Tree): (r: Tree)
    requires s.Node?
    ensures r.Node? && r.right == right && r.(right := s.right) == s
  {
    s.(right := right)
  }
}
