/** The game state and its operations: a column-major grid of cells, the snake (heading,
    head, body deque) and the score, updated in place tick by tick. */
module SnakeGame {
  import opened SnakeTypes
  import opened SnakeBoard
  import opened SnakeRender

  /** The smallest playable terminal. */
  const MinWidth: nat := 60
  const MinHeight: nat := 20
  /** Milliseconds between ticks. */
  const Speed: nat := 80
  const InitialHead: Pos := (9, 7)
  /** The initial body, from the neck to the tail. */
  const InitialBody: seq<Pos> := [(8, 7), (8, 8), (7, 8), (7, 9), (7, 10), (8, 10), (8, 11)]

  class Game {
    /** cells[x, y] is the cell in column x, row y. */
    const cells: array2<Cell>
    const speed: nat
    var direction: Direction
    var head: Pos
    /** The body deque, from the neck (front) to the tail (back). */
    var body: seq<Pos>
    var score: nat
    /** Where the food stands. The game keeps it only in the grid; this records it. */
    ghost var food: Pos
    /** Everything the renderer has drawn so far, in order. */
    ghost var drawn: seq<Drawn>

    predicate InBounds(p: Pos) {
      p.0 < cells.Length0 && p.1 < cells.Length1
    }

    /** The grid is at least the minimum size and every cell stores its own coordinates. */
    ghost predicate Valid()
      reads cells
    {
      && MinWidth <= cells.Length0 && MinHeight <= cells.Length1
      && forall i, j {:trigger cells[i, j]} :: 0 <= i < cells.Length0 && 0 <= j < cells.Length1 ==> cells[i, j].x == i && cells[i, j].y == j
    }

    /** The invariant of a running session: every cell shows what the snake and the
        food say it shows, and the score counts the segments grown. */
    ghost predicate Consistent()
      reads this`head, this`body, this`score, this`food, cells
    {
      && Valid()
      && WellPlaced(cells.Length0, cells.Length1, head, body, food)
      && |body| == |InitialBody| + score
      && forall i, j {:trigger cells[i, j]} :: 0 <= i < cells.Length0 && 0 <= j < cells.Length1 ==>
                          cells[i, j].kind == Layout(cells.Length0, cells.Length1, head, body, food, (i, j))
    }

    /** The state right after construction. */
    ghost predicate Pristine()
      reads this, cells
    {
      && Valid()
      && direction == Right && head == InitialHead && body == InitialBody && score == 0
      && forall i, j {:trigger cells[i, j]} :: 0 <= i < cells.Length0 && 0 <= j < cells.Length1 ==> cells[i, j] == Cell(i, j, false, Empty)
    }

    ghost predicate HasEmptyCell()
      reads cells
    {
      exists i, j {:trigger cells[i, j]} :: 0 <= i < cells.Length0 && 0 <= j < cells.Length1 && cells[i, j].kind == Empty
    }

    ghost predicate NoneChanged()
      reads cells
    {
      forall i, j {:trigger cells[i, j]} :: 0 <= i < cells.Length0 && 0 <= j < cells.Length1 ==> !cells[i, j].changed
    }

    /** The positions of the cells marked changed. */
    ghost function Dirty(): set<Pos>
      reads cells
    {
      set i: nat, j: nat {:trigger cells[i, j]} | i < cells.Length0 && j < cells.Length1 && cells[i, j].changed :: (i, j)
    }

    // -------------------------------------------------------------------------
    // Construction

    /** Builds a width x height grid of clean Empty cells and the fixed initial snake. */
    constructor Init(width: nat, height: nat)
      requires MinWidth <= width && MinHeight <= height
      ensures Pristine() && fresh(cells)
      ensures cells.Length0 == width && cells.Length1 == height
      ensures speed == Speed && drawn == []
    {
      var grid := new Cell[width, height];
      for i := 0 to width
        invariant forall a, b {:trigger grid[a, b]} :: 0 <= a < i && 0 <= b < height ==> grid[a, b] == Cell(a, b, false, Empty)
      {
        for j := 0 to height
          invariant forall a, b {:trigger grid[a, b]} :: 0 <= a < width && 0 <= b < height && (a < i || (a == i && b < j)) ==>
                                     grid[a, b] == Cell(a, b, false, Empty)
        {
          grid[i, j] := Cell(i, j, false, Empty);
        }
      }
      cells := grid;
      speed := Speed;
      direction := Right;
      head := InitialHead;
      body := InitialBody;
      score := 0;
      food := (0, 0);
      drawn := [];
    }

    /** Game::new: fails when the terminal size is unknown or below the minimum. */
    static method New(size: Option<(nat, nat)>) returns (r: Result<Game, GameError>)
      ensures size.None? ==> r == Err(SizeUnavailable)
      ensures size.Some? && (size.value.0 < MinWidth || size.value.1 < MinHeight) ==> r == Err(WindowTooSmall)
      ensures r.Ok? <==> size.Some? && MinWidth <= size.value.0 && MinHeight <= size.value.1
      ensures r.Ok? ==> && fresh(r.value) && fresh(r.value.cells) && r.value.Pristine()
                        && r.value.cells.Length0 == size.value.0 && r.value.cells.Length1 == size.value.1
                        && r.value.speed == Speed && r.value.drawn == []
    {
      if size.None? {
        return Err(SizeUnavailable);
      }
      var (w, h) := size.value;
      if w < MinWidth || h < MinHeight {
        return Err(WindowTooSmall);
      }
      var g := new Game.Init(w, h);
      r := Ok(g);
    }

    /** build_default without its screen commands: the wall ring, the snake, one food. */
    method BuildDefault()
      requires Pristine()
      modifies this`food, cells
      ensures Consistent()
      ensures InBounds(food) && cells[food.0, food.1].changed
      ensures forall i, j {:trigger cells[i, j]} :: 0 <= i < cells.Length0 && 0 <= j < cells.Length1 && (i, j) != food ==> !cells[i, j].changed
    {
      var w, h := cells.Length0, cells.Length1;
      InitialPlacement(w, h);
      BuildWalls();
      PlaceSnake();
      assert cells[1, 1].kind == Empty;
      var r := GenerateFood();
      // the grid always has room, so the unwrap never fails
      assert r.Pass?;
      forall i, j {:trigger cells[i, j]} | 0 <= i < w && 0 <= j < h
        ensures cells[i, j].kind == Layout(w, h, head, body, food, (i, j))
      {
      }
    }

    /** The start of run without its screen output: the scene is built and then drawn
        in full, which leaves no cell marked changed. */
    method Start()
      requires Pristine()
      modifies this`food, this`drawn, cells
      ensures Consistent() && NoneChanged()
      ensures |drawn| == |old(drawn)| + cells.Length0 * cells.Length1 && drawn[..|old(drawn)|] == old(drawn)
      ensures forall i, j {:trigger cells[i, j]} :: 0 <= i < cells.Length0 && 0 <= j < cells.Length1 ==>
                                                      ((i, j), cells[i, j].kind) in drawn[|old(drawn)|..]
    {
      BuildDefault();
      label Built:
      FullFrameLength(cells, cells.Length0);
      GridFrameMembers(cells, cells.Length0, true);
      RenderAll();
      forall i, j {:trigger cells[i, j]} | 0 <= i < cells.Length0 && 0 <= j < cells.Length1
        ensures ((i, j), cells[i, j].kind) in drawn[|old(drawn)|..]
      {
        assert Entry(old@Built(cells[i, j])) in old@Built(GridFrame(cells, cells.Length0, true));
      }
    }

    /** The wall loop of build_default: every border cell becomes Wall without being
        marked changed; the interior is left as it was. */
    method BuildWalls()
      requires Valid()
      modifies cells
      ensures Valid()
      ensures forall i, j {:trigger cells[i, j]} :: 0 <= i < cells.Length0 && 0 <= j < cells.Length1 ==>
                               cells[i, j] == if OnBorder(cells.Length0, cells.Length1, (i, j))
                                              then old(cells[i, j]).(kind := Wall) else old(cells[i, j])
    {
      var width, height := cells.Length0, cells.Length1;
      for x := 0 to width
        invariant forall i, j {:trigger cells[i, j]} :: 0 <= i < width && 0 <= j < height ==>
                                   cells[i, j] == if i < x && OnBorder(width, height, (i, j))
                                                  then old(cells[i, j]).(kind := Wall) else old(cells[i, j])
      {
        for y := 0 to height
          invariant forall i, j {:trigger cells[i, j]} :: 0 <= i < width && 0 <= j < height ==>
                                     cells[i, j] == if (i < x || (i == x && j < y)) && OnBorder(width, height, (i, j))
                                                    then old(cells[i, j]).(kind := Wall) else old(cells[i, j])
        {
          if x == 0 || y == 0 || x == width - 1 || y == height - 1 {
            cells[x, y] := cells[x, y].(kind := Wall);
          }
        }
      }
    }

    /** The snake loop of build_default: the head cell becomes SnakeHead, then every body
        cell SnakeBody, neither marked changed. */
    method PlaceSnake()
      requires Valid() && InBounds(head) && forall k :: 0 <= k < |body| ==> InBounds(body[k])
      modifies cells
      ensures Valid()
      ensures forall i, j {:trigger cells[i, j]} :: 0 <= i < cells.Length0 && 0 <= j < cells.Length1 ==>
                               cells[i, j] == if (i, j) in body then old(cells[i, j]).(kind := SnakeBody)
                                              else if (i, j) == head then old(cells[i, j]).(kind := SnakeHead)
                                              else old(cells[i, j])
    {
      var (hx, hy) := head;
      cells[hx, hy] := cells[hx, hy].(kind := SnakeHead);
      for k := 0 to |body|
        invariant forall i, j {:trigger cells[i, j]} :: 0 <= i < cells.Length0 && 0 <= j < cells.Length1 ==>
                                   cells[i, j] == if (i, j) in body[..k] then old(cells[i, j]).(kind := SnakeBody)
                                                  else if (i, j) == head then old(cells[i, j]).(kind := SnakeHead)
                                                  else old(cells[i, j])
      {
        var (x, y) := body[k];
        assert body[..k + 1] == body[..k] + [(x, y)];
        cells[x, y] := cells[x, y].(kind := SnakeBody);
      }
      assert body[..|body|] == body;
    }

    // -------------------------------------------------------------------------
    // Cells

    /** Cell::set_type: the cell takes the type and is marked changed, even when it
        already had that type; nothing else changes. */
    method SetType(p: Pos, t: CellType)
      requires Valid() && InBounds(p)
      modifies cells
      ensures Valid()
      ensures cells[p.0, p.1] == old(cells[p.0, p.1]).(changed := true, kind := t)
      ensures forall i, j {:trigger cells[i, j]} :: 0 <= i < cells.Length0 && 0 <= j < cells.Length1 && (i, j) != p ==> cells[i, j] == old(cells[i, j])
      ensures Dirty() == old(Dirty()) + {p}
    {
      cells[p.0, p.1] := cells[p.0, p.1].(changed := true, kind := t);
      forall q | q in Dirty() && q != p ensures q in old(Dirty()) {
        assert cells[q.0, q.1] == old(cells[q.0, q.1]);
      }
      forall q | q in old(Dirty()) ensures q in Dirty() {
        assert q != p ==> cells[q.0, q.1] == old(cells[q.0, q.1]);
      }
    }

    /** Cell::render: the cell is drawn at the coordinates it stores and its flag cleared. */
    method Render(p: Pos)
      requires Valid() && InBounds(p)
      modifies this`drawn, cells
      ensures Valid()
      ensures drawn == old(drawn) + [Entry(old(cells[p.0, p.1]))]
      ensures cells[p.0, p.1] == old(cells[p.0, p.1]).(changed := false)
      ensures forall i, j {:trigger cells[i, j]} :: 0 <= i < cells.Length0 && 0 <= j < cells.Length1 && (i, j) != p ==> cells[i, j] == old(cells[i, j])
    {
      drawn := drawn + [Entry(cells[p.0, p.1])];
      cells[p.0, p.1] := cells[p.0, p.1].(changed := false);
    }

    // -------------------------------------------------------------------------
    // Steering and collision detection

    /** turn_around: the heading becomes the requested one only on a 90-degree turn. */
    method TurnAround(d: Direction)
      modifies this`direction
      ensures direction == Turn(old(direction), d)
    {
      match (direction, d)
      case (Left, Up) | (Left, Down) | (Right, Up) | (Right, Down)
         | (Up, Left) | (Up, Right) | (Down, Left) | (Down, Right) =>
        direction := d;
      case _ =>
    }

    /** The key handling at the start of a tick: a steering key asks for a turn. */
    method ApplyKey(key: KeyCode)
      modifies this`direction
      ensures direction == Steer(old(direction), key)
    {
      if key.Char? {
        var c := key.c;
        if c == 'a' || c == 'A' {
          TurnAround(Left);
        } else if c == 's' || c == 'S' {
          TurnAround(Down);
        } else if c == 'd' || c == 'D' {
          TurnAround(Right);
        } else if c == 'w' || c == 'W' {
          TurnAround(Up);
        }
      }
    }

    /** The step the head would take, when it stays inside the grid or goes negative. */
    predicate NextInGridOrNegative()
      reads this
    {
      Step(head, direction).Some? ==> InBounds(Step(head, direction).value)
    }

    /** collision_detection: the content of the cell one step along the heading and its
        coordinate, or (Wall, (0, 0)) when that step would leave column 0 or row 0.
        It changes nothing. */
    function CollisionDetection(): (r: (CellType, Pos))
      reads this, cells
      requires NextInGridOrNegative()
      ensures (direction == Left && head.0 == 0) || (direction == Up && head.1 == 0) ==> r == (Wall, (0, 0))
      ensures !((direction == Left && head.0 == 0) || (direction == Up && head.1 == 0)) ==>
                && r.1.0 as int == head.0 + DeltaX(direction) && r.1.1 as int == head.1 + DeltaY(direction)
                && InBounds(r.1) && r.0 == cells[r.1.0, r.1.1].kind
    {
      match Step(head, direction)
      case None => (Wall, (0, 0))
      case Some(n) => (cells[n.0, n.1].kind, n)
    }

    // -------------------------------------------------------------------------
    // Moves

    /** go: the old head is pushed onto the front of the body and typed SnakeBody, the
        target becomes the head, and the back of the body is popped and typed Empty. */
    method Go(x: nat, y: nat)
      requires Consistent()
      requires InBounds((x, y)) && cells[x, y].kind == Empty
      modifies this`head, this`body, cells
      ensures Consistent()
      ensures head == (x, y)
      ensures body == Moved(old(head), old(body)) && |body| == |old(body)|
      ensures var h, v := old(head), Vacated(old(head), old(body));
              forall i, j {:trigger cells[i, j]} :: 0 <= i < cells.Length0 && 0 <= j < cells.Length1 ==>
                               cells[i, j] == (if (i, j) == v then old(cells[i, j]).(changed := true, kind := Empty)
                                               else if (i, j) == (x, y) then old(cells[i, j]).(changed := true, kind := SnakeHead)
                                               else if (i, j) == h then old(cells[i, j]).(changed := true, kind := SnakeBody)
                                               else old(cells[i, j]))
      ensures Dirty() == old(Dirty()) + {old(head), (x, y), Vacated(old(head), old(body))}
    {
      var w, hgt := cells.Length0, cells.Length1;
      var h := head;
      ghost var b := body;
      body := PushFront(head, body);
      head := (x, y);
      PopAfterPush(h, b);
      // the deque is never empty after the push, so pop_back always yields a coordinate
      var tail := body[|body| - 1];
      body := body[..|body| - 1];
      RetypeMove(h, head, tail);
      forall i, j {:trigger cells[i, j]} | 0 <= i < w && 0 <= j < hgt
        ensures cells[i, j].kind == (if (i, j) == tail then Empty
                                     else if (i, j) == (x, y) then SnakeHead
                                     else if (i, j) == h then SnakeBody
                                     else Layout(w, hgt, h, b, food, (i, j)))
      {
        assert old(cells[i, j]).kind == Layout(w, hgt, h, b, food, (i, j));
      }
      MoveKeepsConsistent(this, h, b, (x, y));
    }

    /** The three cell writes of go, in its order: the old head becomes SnakeBody, the
        new head SnakeHead and the popped tail Empty, each marked changed. */
    method RetypeMove(neck: Pos, target: Pos, tail: Pos)
      requires Valid() && InBounds(neck) && InBounds(target) && InBounds(tail)
      requires neck != target && tail != target && tail != neck
      modifies cells
      ensures Valid()
      ensures forall i, j {:trigger cells[i, j]} :: 0 <= i < cells.Length0 && 0 <= j < cells.Length1 ==>
                               cells[i, j] == (if (i, j) == tail then old(cells[i, j]).(changed := true, kind := Empty)
                                               else if (i, j) == target then old(cells[i, j]).(changed := true, kind := SnakeHead)
                                               else if (i, j) == neck then old(cells[i, j]).(changed := true, kind := SnakeBody)
                                               else old(cells[i, j]))
      ensures Dirty() == old(Dirty()) + {neck, target, tail}
    {
      SetType(neck, SnakeBody);
      SetType(target, SnakeHead);
      SetType(tail, Empty);
    }

    /** eat_food: new food is spawned first, while the target still holds food; if that
        fails nothing else happens. Otherwise the old head is pushed onto the body and
        typed SnakeBody, the target becomes the head and the score goes up by one. */
    method EatFood(x: nat, y: nat) returns (r: Outcome)
      requires Consistent()
      requires InBounds((x, y)) && cells[x, y].kind == Food
      modifies this`head, this`body, this`score, this`food, cells
      ensures Consistent()
      ensures r.Fail? <==> !old(HasEmptyCell())
      ensures r.Fail? ==> && r.error == NoSpaceForFood
                          && head == old(head) && body == old(body) && score == old(score) && food == old(food)
                          && unchanged(cells)
      ensures r.Pass? ==> && head == (x, y) && body == PushFront(old(head), old(body)) && score == old(score) + 1
                          && |body| == |old(body)| + 1
      ensures r.Pass? ==> forall i, j {:trigger cells[i, j]} :: 0 <= i < cells.Length0 && 0 <= j < cells.Length1 && cells[i, j].kind == Empty ==>
                                                                   old(cells[i, j]).kind == Empty
      ensures r.Pass? ==> var h, f := old(head), food;
                          && old(cells[f.0, f.1]).kind == Empty
                          && forall i, j {:trigger cells[i, j]} :: 0 <= i < cells.Length0 && 0 <= j < cells.Length1 ==>
                                              cells[i, j] == (if (i, j) == (x, y) then old(cells[i, j]).(changed := true, kind := SnakeHead)
                                                              else if (i, j) == h then old(cells[i, j]).(changed := true, kind := SnakeBody)
                                                              else if (i, j) == f then old(cells[i, j]).(changed := true, kind := Food)
                                                              else old(cells[i, j]))
      ensures r.Pass? ==> Dirty() == old(Dirty()) + {(x, y), old(head), food}
    {
      var w, hgt := cells.Length0, cells.Length1;
      ghost var oldHead, oldBody, oldFood := head, body, food;
      assert (x, y) == food;
      r := GenerateFood();
      if r.Fail? {
        return;
      }
      label Spawned:
      var h := head;
      body := PushFront(head, body);
      head := (x, y);
      RetypeGrow(h, head);
      score := score + 1;
      ghost var f := food;
      forall i, j {:trigger cells[i, j]} | 0 <= i < w && 0 <= j < hgt
        ensures cells[i, j] == (if (i, j) == (x, y) then old(cells[i, j]).(changed := true, kind := SnakeHead)
                                else if (i, j) == h then old(cells[i, j]).(changed := true, kind := SnakeBody)
                                else if (i, j) == f then old(cells[i, j]).(changed := true, kind := Food)
                                else old(cells[i, j]))
      {
        if (i, j) != f {
          assert old@Spawned(cells[i, j]) == old(cells[i, j]);
        }
      }
      forall i, j {:trigger cells[i, j]} | 0 <= i < w && 0 <= j < hgt
        ensures cells[i, j].kind == (if (i, j) == (x, y) then SnakeHead
                                     else if (i, j) == h then SnakeBody
                                     else if (i, j) == f then Food
                                     else Layout(w, hgt, h, oldBody, oldFood, (i, j)))
      {
        assert old(cells[i, j]).kind == Layout(w, hgt, h, oldBody, oldFood, (i, j));
      }
      GrowKeepsConsistent(this, h, oldBody, (x, y));
    }

    /** The two cell writes of eat_food, in its order: the old head becomes SnakeBody and
        the new head SnakeHead, each marked changed. */
    method RetypeGrow(neck: Pos, target: Pos)
      requires Valid() && InBounds(neck) && InBounds(target) && neck != target
      modifies cells
      ensures Valid()
      ensures forall i, j {:trigger cells[i, j]} :: 0 <= i < cells.Length0 && 0 <= j < cells.Length1 ==>
                               cells[i, j] == (if (i, j) == target then old(cells[i, j]).(changed := true, kind := SnakeHead)
                                               else if (i, j) == neck then old(cells[i, j]).(changed := true, kind := SnakeBody)
                                               else old(cells[i, j]))
      ensures Dirty() == old(Dirty()) + {neck, target}
    {
      SetType(neck, SnakeBody);
      SetType(target, SnakeHead);
    }

    // -------------------------------------------------------------------------
    // Food

    /** The scan of generage_food: the coordinates every Empty cell stores. */
    method EmptyCells() returns (empties: seq<Pos>)
      requires Valid()
      ensures forall p: Pos :: p in empties <==> InBounds(p) && cells[p.0, p.1].kind == Empty
    {
      empties := [];
      var width, height := cells.Length0, cells.Length1;
      for x := 0 to width
        invariant forall p: Pos :: p in empties <==> p.0 < x && p.1 < height && cells[p.0, p.1].kind == Empty
      {
        for y := 0 to height
          invariant forall p: Pos :: p in empties <==> (p.0 < x || (p.0 == x && p.1 < y)) && p.1 < height && cells[p.0, p.1].kind == Empty
        {
          var c := cells[x, y];
          if c.kind == Empty {
            empties := empties + [(c.x, c.y)];
          }
        }
      }
    }

    /** generage_food: fails exactly when no cell is Empty; otherwise one Empty cell,
        chosen at random, becomes Food and is marked changed, and no other cell changes. */
    method GenerateFood() returns (r: Outcome)
      requires Valid()
      modifies this`food, cells
      ensures Valid()
      ensures r.Fail? <==> !old(HasEmptyCell())
      ensures r.Fail? ==> r.error == NoSpaceForFood && food == old(food) && unchanged(cells)
      ensures r.Pass? ==> var f := food;
                          && InBounds(f) && old(cells[f.0, f.1]).kind == Empty
                          && cells[f.0, f.1] == old(cells[f.0, f.1]).(changed := true, kind := Food)
                          && forall i, j {:trigger cells[i, j]} :: 0 <= i < cells.Length0 && 0 <= j < cells.Length1 && (i, j) != f ==>
                                              cells[i, j] == old(cells[i, j])
      ensures r.Pass? ==> Dirty() == old(Dirty()) + {food}
    {
      var empties := EmptyCells();
      if HasEmptyCell() {
        var i, j :| 0 <= i < cells.Length0 && 0 <= j < cells.Length1 && cells[i, j].kind == Empty;
        assert (i, j) in empties;
      }
      if |empties| == 0 {
        return Fail(NoSpaceForFood);
      }
      // the random index: any one in range
      var index :| 0 <= index < |empties|;
      var p := empties[index];
      SetType(p, Food);
      food := p;
      r := Pass;
    }

    // -------------------------------------------------------------------------
    // Rendering

    /** render_all: draws every cell, column by column, and clears every flag. */
    method RenderAll()
      requires Valid()
      modifies this`drawn, cells
      ensures Valid()
      ensures drawn == old(drawn) + old(GridFrame(cells, cells.Length0, true))
      ensures forall i, j {:trigger cells[i, j]} :: 0 <= i < cells.Length0 && 0 <= j < cells.Length1 ==> cells[i, j] == old(cells[i, j]).(changed := false)
      ensures NoneChanged()
    {
      var width, height := cells.Length0, cells.Length1;
      for x := 0 to width
        invariant Valid()
        invariant drawn == old(drawn) + old(GridFrame(cells, x, true))
        invariant forall i, j {:trigger cells[i, j]} :: 0 <= i < width && 0 <= j < height ==>
                                   cells[i, j] == if i < x then old(cells[i, j]).(changed := false) else old(cells[i, j])
      {
        for y := 0 to height
          invariant Valid()
          invariant drawn == old(drawn) + old(GridFrame(cells, x, true)) + old(ColumnFrame(cells, x, y, true))
          invariant forall i, j {:trigger cells[i, j]} :: 0 <= i < width && 0 <= j < height ==>
                                     cells[i, j] == if i < x || (i == x && j < y) then old(cells[i, j]).(changed := false) else old(cells[i, j])
        {
          Render((x, y));
        }
      }
    }

    /** render_only_updated: draws exactly the changed cells, column by column, and
        clears their flags; right after a full render it draws nothing. */
    method RenderOnlyUpdated()
      requires Valid()
      modifies this`drawn, cells
      ensures Valid()
      ensures drawn == old(drawn) + old(GridFrame(cells, cells.Length0, false))
      ensures forall i, j {:trigger cells[i, j]} :: 0 <= i < cells.Length0 && 0 <= j < cells.Length1 ==> cells[i, j] == old(cells[i, j]).(changed := false)
      ensures NoneChanged()
      ensures old(NoneChanged()) ==> drawn == old(drawn)
      ensures old(Consistent()) ==> Consistent()
      ensures |old(drawn)| <= |drawn| && drawn[..|old(drawn)|] == old(drawn)
      ensures forall e :: e in drawn[|old(drawn)|..] <==>
                exists p :: p in old(Dirty()) && InBounds(p) && e == (p, cells[p.0, p.1].kind)
    {
      ghost var wasClean := NoneChanged();
      if wasClean {
        CleanGridDrawsNothing(cells, cells.Length0);
      }
      DirtyFrame(this);
      var width, height := cells.Length0, cells.Length1;
      for x := 0 to width
        invariant Valid()
        invariant drawn == old(drawn) + old(GridFrame(cells, x, false))
        invariant forall i, j {:trigger cells[i, j]} :: 0 <= i < width && 0 <= j < height ==>
                                   cells[i, j] == if i < x then old(cells[i, j]).(changed := false) else old(cells[i, j])
      {
        for y := 0 to height
          invariant Valid()
          invariant drawn == old(drawn) + old(GridFrame(cells, x, false)) + old(ColumnFrame(cells, x, y, false))
          invariant forall i, j {:trigger cells[i, j]} :: 0 <= i < width && 0 <= j < height ==>
                                     cells[i, j] == if i < x || (i == x && j < y) then old(cells[i, j]).(changed := false) else old(cells[i, j])
        {
          if cells[x, y].changed {
            Render((x, y));
          }
        }
      }
      assert drawn[|old(drawn)|..] == old(GridFrame(cells, cells.Length0, false));
      forall p: Pos | InBounds(p) ensures cells[p.0, p.1].kind == old(cells[p.0, p.1]).kind {
      }
    }

    // -------------------------------------------------------------------------
    // One tick

    /** The outcome match of the game loop: a wall or the body ends the session, the
        head itself is a no-op, food is eaten and an Empty cell is moved onto. */
    method NextFrame() returns (r: Outcome)
      requires Consistent()
      modifies this`head, this`body, this`score, this`food, cells
      ensures Consistent()
      ensures var (t, next) := old(CollisionDetection());
              && (t == Wall ==> r == Fail(HitWall))
              && (t == SnakeBody ==> r == Fail(SelfCollision))
              && (t == Empty ==> && r == Pass && head == next && body == Moved(old(head), old(body))
                                 && score == old(score) && food == old(food))
              && (t == Food ==> && (r.Pass? <==> old(HasEmptyCell()))
                                && (r.Pass? ==> head == next && body == PushFront(old(head), old(body)) && score == old(score) + 1)
                                && (r.Fail? ==> r == Fail(NoSpaceForFood)))
      ensures var (t, next) := old(CollisionDetection());
              t == Empty ==> var h, v := old(head), Vacated(old(head), old(body));
                             forall i, j {:trigger cells[i, j]} :: 0 <= i < cells.Length0 && 0 <= j < cells.Length1 ==>
                               cells[i, j] == (if (i, j) == v then old(cells[i, j]).(changed := true, kind := Empty)
                                               else if (i, j) == next then old(cells[i, j]).(changed := true, kind := SnakeHead)
                                               else if (i, j) == h then old(cells[i, j]).(changed := true, kind := SnakeBody)
                                               else old(cells[i, j]))
      ensures var (t, next) := old(CollisionDetection());
              t == Food && r.Pass? ==> var h, f := old(head), food;
                                       && old(cells[f.0, f.1]).kind == Empty
                                       && forall i, j {:trigger cells[i, j]} :: 0 <= i < cells.Length0 && 0 <= j < cells.Length1 ==>
                                            cells[i, j] == (if (i, j) == next then old(cells[i, j]).(changed := true, kind := SnakeHead)
                                                            else if (i, j) == h then old(cells[i, j]).(changed := true, kind := SnakeBody)
                                                            else if (i, j) == f then old(cells[i, j]).(changed := true, kind := Food)
                                                            else old(cells[i, j]))
      ensures var (t, next) := old(CollisionDetection());
              && (t == Empty ==> Dirty() == old(Dirty()) + {next, old(head), Vacated(old(head), old(body))})
              && (t == Food && r.Pass? ==> Dirty() == old(Dirty()) + {next, old(head), food})
      ensures r.Fail? ==> head == old(head) && body == old(body) && score == old(score) && food == old(food) && unchanged(cells)
      ensures score == old(score) || score == old(score) + 1
    {
      var (t, next) := CollisionDetection();
      match t
      case Wall =>
        r := Fail(HitWall);
      case SnakeHead =>
        r := Pass;
      case SnakeBody =>
        r := Fail(SelfCollision);
      case Food =>
        r := EatFood(next.0, next.1);
      case Empty =>
        Go(next.0, next.1);
        r := Pass;
    }

    /** One pass of the game loop after input was read: steer by the held key, play the
        frame and, unless the session ended, redraw the changed cells. */
    method Tick(key: KeyCode) returns (r: Outcome)
      requires Consistent()
      modifies this, cells
      ensures Consistent()
      ensures direction == Steer(old(direction), key)
      ensures r.Pass? ==> NoneChanged()
      ensures r.Fail? ==> head == old(head) && body == old(body) && score == old(score)
      ensures score == old(score) || (score == old(score) + 1 && |body| == old(|body|) + 1)
      ensures score == old(score) ==> |body| == old(|body|)
      ensures Step(old(head), direction).Some?
      ensures var n := Step(old(head), direction).value;
              && (OnBorder(cells.Length0, cells.Length1, n) ==> r == Fail(HitWall))
              && (n in old(body) ==> r == Fail(SelfCollision))
              && (r.Fail? <==> OnBorder(cells.Length0, cells.Length1, n) || n in old(body) || (n == old(food) && !old(HasEmptyCell())))
              && (r.Pass? ==> head == n)
              && (r.Pass? && n != old(food) ==> body == Moved(old(head), old(body)) && score == old(score) && food == old(food))
              && (r.Pass? && n == old(food) ==> body == PushFront(old(head), old(body)) && score == old(score) + 1)
      ensures r.Fail? ==> food == old(food) && unchanged(cells) && drawn == old(drawn)
      ensures |old(drawn)| <= |drawn| && drawn[..|old(drawn)|] == old(drawn)
      ensures r.Pass? ==> var n := Step(old(head), direction).value;
                          var retyped := {n, old(head), if n == old(food) then food else Vacated(old(head), old(body))};
                          forall e :: e in drawn[|old(drawn)|..] <==>
                            exists p :: p in old(Dirty()) + retyped && InBounds(p) && e == (p, cells[p.0, p.1].kind)
    {
      ApplyKey(key);
      NextCellUnderInvariant(this);
      ghost var n := Step(head, direction).value;
      ghost var h, b, f := head, body, food;
      r := NextFrame();
      if r.Pass? {
        ghost var retyped := {n, h, if n == f then food else Vacated(h, b)};
        assert Dirty() == old(Dirty()) + retyped;
        RenderOnlyUpdated();
      }
    }

    /** The initial snake stands inside any grid of the minimum size without overlapping
        itself, and leaves cell (1, 1) free. */
    static lemma InitialPlacement(w: nat, h: nat)
      requires MinWidth <= w && MinHeight <= h
      ensures Interior(w, h, InitialHead) && InitialHead !in InitialBody && Distinct(InitialBody)
      ensures forall k :: 0 <= k < |InitialBody| ==> Interior(w, h, InitialBody[k])
      ensures Interior(w, h, (1, 1)) && (1, 1) != InitialHead && (1, 1) !in InitialBody
    {
    }
  }

  /** A pass that draws only changed cells draws exactly the changed cells, each with
      its coordinates and type. */
  lemma DirtyFrame(g: Game)
    requires g.Valid()
    ensures forall e :: e in GridFrame(g.cells, g.cells.Length0, false) <==>
                        exists p :: p in g.Dirty() && g.InBounds(p) && e == (p, g.cells[p.0, p.1].kind)
  {
    GridFrameMembers(g.cells, g.cells.Length0, false);
    forall e | e in GridFrame(g.cells, g.cells.Length0, false)
      ensures exists p :: p in g.Dirty() && g.InBounds(p) && e == (p, g.cells[p.0, p.1].kind)
    {
      var i, j :| 0 <= i < g.cells.Length0 && 0 <= j < g.cells.Length1 && g.cells[i, j].changed && e == Entry(g.cells[i, j]);
      assert (i, j) in g.Dirty();
    }
    forall p | p in g.Dirty() && g.InBounds(p)
      ensures (p, g.cells[p.0, p.1].kind) in GridFrame(g.cells, g.cells.Length0, false)
    {
      assert Drawable(g.cells[p.0, p.1], false) && Entry(g.cells[p.0, p.1]) == (p, g.cells[p.0, p.1].kind);
    }
  }

  /** Under the session invariant the next cell is always the true neighbour of the head,
      never the (Wall, (0, 0)) fallback and never the head itself; it is Wall exactly on
      the border. */
  lemma NextCellUnderInvariant(g: Game)
    requires g.Consistent()
    ensures g.NextInGridOrNegative() && Step(g.head, g.direction).Some?
    ensures g.CollisionDetection().1 == Step(g.head, g.direction).value
    ensures g.CollisionDetection().0 != SnakeHead
    ensures g.CollisionDetection().0 == Wall <==> OnBorder(g.cells.Length0, g.cells.Length1, g.CollisionDetection().1)
    ensures g.CollisionDetection().0 == SnakeBody <==> g.CollisionDetection().1 in g.body
    ensures g.CollisionDetection().0 == Food <==> g.CollisionDetection().1 == g.food
  {
    var n := Step(g.head, g.direction).value;
    InvariantMeaning(g, n.0, n.1);
  }

  /** The session invariant, read cell by cell: the border ring is Wall, the SnakeBody
      cells are exactly the body's coordinates, and the head is the one SnakeHead cell. */
  lemma InvariantMeaning(g: Game, i: nat, j: nat)
    requires g.Consistent() && i < g.cells.Length0 && j < g.cells.Length1
    ensures g.cells[i, j].kind == Wall <==> OnBorder(g.cells.Length0, g.cells.Length1, (i, j))
    ensures g.cells[i, j].kind == SnakeBody <==> (i, j) in g.body
    ensures g.cells[i, j].kind == SnakeHead <==> (i, j) == g.head
    ensures g.cells[i, j].kind == Food <==> (i, j) == g.food
  {
    LayoutMeaning(g.cells.Length0, g.cells.Length1, g.head, g.body, g.food, (i, j));
  }

  /** A grid whose cells were retyped as a growth move retypes them, with the new food
      on a cell that was Empty, satisfies the session invariant for the grown snake. */
  lemma GrowKeepsConsistent(g: Game, h: Pos, b: seq<Pos>, eaten: Pos)
    requires g.Valid() && WellPlaced(g.cells.Length0, g.cells.Length1, h, b, eaten)
    requires g.InBounds(g.food) && Layout(g.cells.Length0, g.cells.Length1, h, b, eaten, g.food) == Empty
    requires g.head == eaten && g.body == PushFront(h, b) && |b| + 1 == |InitialBody| + g.score
    requires forall i, j {:trigger g.cells[i, j]} :: 0 <= i < g.cells.Length0 && 0 <= j < g.cells.Length1 ==>
                              g.cells[i, j].kind == if (i, j) == eaten then SnakeHead
                                                    else if (i, j) == h then SnakeBody
                                                    else if (i, j) == g.food then Food
                                                    else Layout(g.cells.Length0, g.cells.Length1, h, b, eaten, (i, j))
    ensures g.Consistent()
  {
    var w, hh := g.cells.Length0, g.cells.Length1;
    GrowLayout(w, hh, h, b, eaten, g.food);
    forall i, j {:trigger g.cells[i, j]} | 0 <= i < w && 0 <= j < hh
      ensures g.cells[i, j].kind == Layout(w, hh, eaten, g.body, g.food, (i, j))
    {
      var p := (i, j);
      assert Layout(w, hh, eaten, PushFront(h, b), g.food, p) ==
             (if p == eaten then SnakeHead
              else if p == h then SnakeBody
              else if p == g.food then Food
              else Layout(w, hh, h, b, eaten, p));
    }
  }

  /** A grid whose cells were retyped as a normal move retypes them satisfies the
      session invariant for the moved snake. */
  lemma MoveKeepsConsistent(g: Game, h: Pos, b: seq<Pos>, target: Pos)
    requires g.Valid() && WellPlaced(g.cells.Length0, g.cells.Length1, h, b, g.food) && b != []
    requires g.InBounds(target) && Layout(g.cells.Length0, g.cells.Length1, h, b, g.food, target) == Empty
    requires g.head == target && g.body == Moved(h, b) && |b| == |InitialBody| + g.score
    requires forall i, j {:trigger g.cells[i, j]} :: 0 <= i < g.cells.Length0 && 0 <= j < g.cells.Length1 ==>
                              g.cells[i, j].kind == if (i, j) == Vacated(h, b) then Empty
                                                    else if (i, j) == target then SnakeHead
                                                    else if (i, j) == h then SnakeBody
                                                    else Layout(g.cells.Length0, g.cells.Length1, h, b, g.food, (i, j))
    ensures g.Consistent()
  {
    var w, hh := g.cells.Length0, g.cells.Length1;
    MoveLayout(w, hh, h, b, g.food, target);
    forall i, j {:trigger g.cells[i, j]} | 0 <= i < w && 0 <= j < hh
      ensures g.cells[i, j].kind == Layout(w, hh, target, g.body, g.food, (i, j))
    {
      var p := (i, j);
      assert Layout(w, hh, target, Moved(h, b), g.food, p) ==
             (if p == target then SnakeHead
              else if p == Vacated(h, b) then Empty
              else if p == h then SnakeBody
              else Layout(w, hh, h, b, g.food, p));
    }
  }

  /** Game::new on a 60 x 20 terminal followed by the start of run: a consistent,
      fully drawn grid with the initial snake, heading right, and room for more food. */
  method Opening() returns (g: Game)
    ensures fresh(g) && fresh(g.cells)
    ensures g.Consistent() && g.NoneChanged() && g.HasEmptyCell()
    ensures g.cells.Length0 == 60 && g.cells.Length1 == 20
    ensures g.head == InitialHead && g.body == InitialBody && g.direction == Right && g.score == 0
  {
    var made := Game.New(Some((60, 20)));
    g := made.value;
    g.Start();
    // two interior cells off the snake: at most one of them holds the food
    InvariantMeaning(g, 1, 1);
    InvariantMeaning(g, 1, 2);
    if g.cells[1, 1].kind == Empty {
      assert g.HasEmptyCell();
    } else {
      assert g.cells[1, 2].kind == Empty;
      assert g.HasEmptyCell();
    }
  }

  /** The first step of the initial snake heading right: the head reaches (10, 7), a
      free cell, and a normal move leaves (8, 11) behind. */
  lemma FirstStep()
    ensures Step(InitialHead, Right) == Some((10, 7)) && (10, 7) !in InitialBody
    ensures Moved(InitialHead, InitialBody) == [(9, 7), (8, 7), (8, 8), (7, 8), (7, 9), (7, 10), (8, 10)]
    ensures Vacated(InitialHead, InitialBody) == (8, 11) && (8, 11) !in Moved(InitialHead, InitialBody)
  {
  }

  /** A fresh 60 x 20 session, built, drawn, and played for one tick with the key the
      game loop starts out holding ('d'): the head moves right onto (10, 7). Unless the
      food happened to land there, that is a normal move: the old head joins the body,
      the old tail cell (8, 11) is Empty again and the score stays 0; otherwise the
      snake grows by one and scores 1. */
  method FirstTick() returns (g: Game, r: Outcome)
    ensures g.Consistent() && g.NoneChanged()
    ensures g.cells.Length0 == 60 && g.cells.Length1 == 20
    ensures r == Pass && g.head == (10, 7) && g.direction == Right
    ensures g.score == 0 ==> g.body == [(9, 7), (8, 7), (8, 8), (7, 8), (7, 9), (7, 10), (8, 10)]
                             && g.cells[8, 11].kind == Empty
    ensures g.score == 1 ==> g.body == [(9, 7)] + InitialBody
  {
    g := Opening();
    ghost var food := g.food;
    assert food !in InitialBody;
    FirstStep();
    r := g.Tick(Char('d'));
    if g.score == 0 {
      InvariantMeaning(g, 8, 11);
    }
  }
}
