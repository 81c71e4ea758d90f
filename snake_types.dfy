/** Values of the snake game: cell types, headings, cells, keys, errors, and the pure
    case analyses of the game (the heading filter, the key mapping, one step on the grid). */
module SnakeTypes {

  datatype Option<+T> = None | Some(value: T)

  datatype Result<+T, +E> = Ok(value: T) | Err(error: E)

  /** A grid coordinate: (column, row). */
  type Pos = (nat, nat)

  datatype CellType = Wall | SnakeHead | SnakeBody | Food | Empty

  datatype Direction = Left | Right | Up | Down

  /** A grid cell: the coordinates it was created at, its "changed since the last
      render" flag and its type. */
  datatype Cell = Cell(x: nat, y: nat, changed: bool, kind: CellType)

  /** Why a session could not start, or had to end. */
  datatype GameError =
    | SizeUnavailable   // the terminal size could not be queried
    | WindowTooSmall    // the terminal is smaller than the minimum grid
    | HitWall           // the head ran into the border
    | SelfCollision     // the head ran into the body
    | NoSpaceForFood    // no Empty cell was left for new food

  datatype Outcome = Pass | Fail(error: GameError)

  /** A key code as the event reader reports it; only character keys steer. */
  datatype KeyCode = Char(c: char) | Esc | OtherKey

  // ---------------------------------------------------------------------------
  // Headings

  datatype Axis = Horizontal | Vertical

  function AxisOf(d: Direction): Axis {
    match d
    case Left | Right => Horizontal
    case Up | Down => Vertical
  }

  function Opposite(d: Direction): (r: Direction)
    ensures r != d && AxisOf(r) == AxisOf(d)
  {
    match d
    case Left => Right
    case Right => Left
    case Up => Down
    case Down => Up
  }

  /** The heading filter of turn_around: the requested heading is taken only when it
      is one of the eight 90-degree turns from the current one. */
  function Turn(current: Direction, requested: Direction): (r: Direction)
    ensures AxisOf(current) != AxisOf(requested) ==> r == requested
    ensures AxisOf(current) == AxisOf(requested) ==> r == current
  {
    match (current, requested)
    case (Left, Up) | (Left, Down) | (Right, Up) | (Right, Down)
       | (Up, Left) | (Up, Right) | (Down, Left) | (Down, Right) => requested
    case _ => current
  }

  /** Neither a same-heading request nor a reversal changes the heading; every other
      request is taken. */
  lemma TurnRejectsReversal(d: Direction, requested: Direction)
    ensures Turn(d, d) == d && Turn(d, Opposite(d)) == d
    ensures Turn(d, requested) != d <==> requested != d && requested != Opposite(d)
  {
  }

  // ---------------------------------------------------------------------------
  // Keys

  /** The lower-case steering key of each heading. */
  function KeyOf(d: Direction): char {
    match d
    case Left => 'a'
    case Down => 's'
    case Right => 'd'
    case Up => 'w'
  }

  /** ASCII upper case of a lower-case letter. */
  function Upper(c: char): char
    requires 'a' <= c <= 'z'
  {
    (c as int - 32) as char
  }

  /** The key-to-heading mapping of the game loop: a, s, d, w in either case steer;
      every other key leaves the heading alone. */
  function KeyDirection(key: KeyCode): (r: Option<Direction>)
    ensures r.Some? <==> key.Char? && key.c in "aAsSdDwW"
    ensures r.Some? ==> key.c == KeyOf(r.value) || key.c == Upper(KeyOf(r.value))
  {
    match key
    case Char(c) =>
      if c == 'a' || c == 'A' then Some(Left)
      else if c == 's' || c == 'S' then Some(Down)
      else if c == 'd' || c == 'D' then Some(Right)
      else if c == 'w' || c == 'W' then Some(Up)
      else None
    case _ => None
  }

  /** Both cases of every heading's key map back to that heading. */
  lemma KeyRoundTrip(d: Direction)
    ensures KeyDirection(Char(KeyOf(d))) == Some(d)
    ensures KeyDirection(Char(Upper(KeyOf(d)))) == Some(d)
  {
  }

  /** The heading after the key held at the start of a tick has been applied. */
  function Steer(current: Direction, key: KeyCode): (r: Direction)
    ensures r == current || (KeyDirection(key) == Some(r) && AxisOf(r) != AxisOf(current))
    ensures r != Opposite(current)
    ensures KeyDirection(key).None? ==> r == current
    ensures KeyDirection(key).Some? && AxisOf(KeyDirection(key).value) != AxisOf(current) ==> r == KeyDirection(key).value
  {
    match KeyDirection(key)
    case Some(d) => Turn(current, d)
    case None => current
  }

  // ---------------------------------------------------------------------------
  // One step on the grid

  function DeltaX(d: Direction): int {
    match d
    case Left => -1
    case Right => 1
    case _ => 0
  }

  function DeltaY(d: Direction): int {
    match d
    case Up => -1
    case Down => 1
    case _ => 0
  }

  /** The coordinate one step from p along d, computed in signed arithmetic; None when
      a coordinate would become negative (a step left of column 0 or above row 0). */
  function Step(p: Pos, d: Direction): (r: Option<Pos>)
    ensures r.None? <==> (d == Left && p.0 == 0) || (d == Up && p.1 == 0)
    ensures r.Some? ==> r.value.0 as int == p.0 + DeltaX(d) && r.value.1 as int == p.1 + DeltaY(d)
    ensures r.Some? ==> r.value != p
  {
    var (nx, ny) := match d
      case Left => (p.0 - 1, p.1)
      case Right => (p.0 + 1, p.1)
      case Up => (p.0, p.1 - 1)
      case Down => (p.0, p.1 + 1);
    if nx < 0 || ny < 0 then None else Some((nx, ny))
  }

  /** Stepping forward and then in the opposite heading comes back to the start. */
  lemma StepBack(p: Pos, d: Direction)
    requires Step(p, d).Some?
    ensures Step(Step(p, d).value, Opposite(d)) == Some(p)
  {
  }

  // ---------------------------------------------------------------------------
  // Presentation

  datatype Color = Blue | Green | Yellow | Red | Black

  /** The glyph and foreground colour each cell type is drawn with. */
  function Style(t: CellType): (char, Color) {
    match t
    case Wall => ('█', Blue)
    case SnakeHead => ('#', Green)
    case SnakeBody => ('#', Yellow)
    case Food => ('$', Red)
    case Empty => ('█', Black)
  }

  /** Each cell type has a visual of its own. */
  lemma StyleDistinct(s: CellType, t: CellType)
    ensures Style(s) == Style(t) ==> s == t
  {
  }
}
