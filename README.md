# Snake game core, modelled in Dafny

The repository is a terminal snake game. A `Game` owns a column-major grid of cells.
Each cell stores its own coordinates, a cell type (Wall, SnakeHead, SnakeBody, Food,
Empty) and a "changed since the last render" flag. The snake is a heading, a head
coordinate and a body deque from the neck to the tail. A session starts with
`Game::new`, which rejects a terminal smaller than 60 × 20, and then `build_default`:
a ring of Wall, the fixed initial snake, and one piece of food. The game loop then runs
tick by tick:

- the held key may turn the snake by 90 degrees;
- `collision_detection` looks one cell ahead;
- the outcome is dispatched: Wall or SnakeBody end the session, Food leads to
  `eat_food` (grow, score, spawn new food), and Empty leads to `go` (a normal move);
- `render_only_updated` redraws exactly the cells whose flag is set.

The model is a Dafny class `SnakeGame.Game` over an `array2<Cell>`. The deque is a
`seq<Pos>` field and the score a field. Each operation of `src/lib.rs` is a method
that updates them in place, with loops where the source loops. The pure decisions
(the 90-degree filter, the key mapping, one step on the grid, the picture a
consistent grid shows) are functions in `SnakeTypes` and `SnakeBoard`. Two ghost
fields record what the program does not store:

- `food` is where the food stands;
- `drawn` is the trace of everything the renderer has written, as (coordinate, type)
  pairs, in drawing order. A pass's trace is specified by `GridFrame` and `ColumnFrame`
  in `SnakeRender`.

The session invariant `Game.Consistent` says:

- every cell's type is `Layout(width, height, head, body, food, cell)`: Wall on the
  border ring, SnakeHead at the head, SnakeBody on the body, Food at the food, Empty
  elsewhere;
- the snake and the food lie inside the ring without overlapping;
- the body is duplicate-free;
- the body length is 7 plus the score.

`InvariantMeaning` reads this back as the game's own promises: the ring is Wall, the
SnakeBody cells are exactly the body, and there is exactly one SnakeHead. The
invariant is set up by `BuildDefault` and kept by `Go`, `EatFood`, `NextFrame`,
`RenderOnlyUpdated` and `Tick`.

`go` pushes the old head before it calls `pop_back`, so `pop_back` always yields a
coordinate. With an empty body that coordinate is the old head itself, which is then
typed Empty. `Vacated` states this. Under the session invariant the body is never
empty, so `Go` never takes that case.

## Model

| member | source | states |
|---|---|---|
| SnakeGame.Game.Init | src/lib.rs:89-125 | a width × height grid in which every cell (i, j) stores x = i, y = j, type Empty and a clear flag; heading Right, head (9, 7), the seven-segment initial body, score 0, speed 80 |
| SnakeGame.Game.New | src/lib.rs:85-130 | fails with SizeUnavailable when the size is unknown and with WindowTooSmall below 60 × 20; succeeds exactly otherwise, with the freshly built state |
| SnakeGame.Game.BuildDefault | src/lib.rs:138-156 | from the freshly built state, establishes the session invariant; only the food cell ends up marked changed |
| SnakeGame.Game.BuildWalls | src/lib.rs:141-147 | every border cell becomes Wall with its flag untouched; interior cells are unchanged |
| SnakeGame.Game.PlaceSnake | src/lib.rs:149-154 | the head cell becomes SnakeHead and every body cell SnakeBody, neither marked changed; all other cells are unchanged |
| SnakeGame.Game.InitialPlacement | src/lib.rs:104-117 | in any grid of at least 60 × 20, the initial head and body are interior, pairwise distinct and leave cell (1, 1) free |
| SnakeGame.Game.Start | src/lib.rs:160-166 | building the scene and then drawing it in full keeps the invariant, leaves no cell marked changed, and draws width × height entries including every cell with its type |
| SnakeGame.Game.SetType | src/lib.rs:78-81 | the cell takes the new type and is marked changed even if it already had that type; no other cell changes, and the set of changed cells grows by exactly this one |
| SnakeGame.Game.Render | src/lib.rs:63-68 | appends the cell's stored coordinates and type to the trace and clears its flag; no other cell changes |
| SnakeTypes.StyleDistinct | src/lib.rs:69-77 | `Style`, the glyph and colour `cell_style_content` gives each type, draws the five cell types with five different glyph/colour pairs |
| SnakeTypes.Opposite | src/lib.rs:255-268 | the reverse heading differs from the heading and lies on the same axis |
| SnakeTypes.Turn | src/lib.rs:255-268 | a request on the other axis is taken; a request on the same axis (same heading or reversal) leaves the heading |
| SnakeTypes.TurnRejectsReversal | src/lib.rs:255-268 | the heading changes exactly when the request is neither the current heading nor its reverse |
| SnakeGame.Game.TurnAround | src/lib.rs:255-268 | the new heading is the filtered turn of the old one |
| SnakeTypes.KeyDirection | src/lib.rs:201-209 | a key steers exactly when it is one of a, s, d, w in either case, and then it is that heading's letter |
| SnakeTypes.KeyRoundTrip | src/lib.rs:201-209 | both cases of each heading's letter map back to that heading |
| SnakeTypes.Steer | src/lib.rs:201-209 | a key that is not a steering key leaves the heading; a steering key on the other axis is taken; otherwise the heading stays; so the snake never reverses |
| SnakeGame.Game.ApplyKey | src/lib.rs:201-209 | the heading after the key handling is the steered heading |
| SnakeTypes.Step | src/lib.rs:283-288 | the step is undefined exactly when it would leave column 0 to the left or row 0 upwards, and otherwise moves one unit along the heading to a different cell |
| SnakeTypes.StepBack | src/lib.rs:283-288 | a step followed by a step in the reverse heading returns to the start |
| SnakeGame.Game.CollisionDetection | src/lib.rs:282-297 | changes nothing; gives (Wall, (0, 0)) when a coordinate would go negative, otherwise the neighbour one step along the heading and that cell's type |
| SnakeGame.NextCellUnderInvariant | src/lib.rs:282-297 | under the invariant the lookup is always the true in-grid neighbour, is never SnakeHead, and is Wall, SnakeBody or Food exactly when the neighbour is on the border, in the body or the food |
| SnakeBoard.LayoutMeaning | src/lib.rs:138-156 | in a well-placed picture, Wall, SnakeBody, SnakeHead and Food cells are exactly the ring, the body, the head and the food |
| SnakeGame.InvariantMeaning | src/lib.rs:138-156 | under the invariant the ring is Wall, the SnakeBody cells are exactly the body, the head is the only SnakeHead and the food the only Food |
| SnakeBoard.PushFront | src/lib.rs:272 | push_front puts the old head before the unchanged body |
| SnakeBoard.Moved | src/lib.rs:272-278 | the moved body has the old length, starts with the old head and continues with all but the last old segment |
| SnakeBoard.Vacated | src/lib.rs:277-279 | pop_back after push_front yields the old tail, or the old head itself when the body was empty |
| SnakeBoard.PopAfterPush | src/lib.rs:272-279 | popping the back right after pushing the front yields the vacated coordinate and leaves the moved body |
| SnakeBoard.MoveLayout | src/lib.rs:270-280 | a normal move onto an Empty cell keeps the snake well placed and changes the picture in exactly three cells: the target becomes SnakeHead, the vacated cell Empty and the old head SnakeBody |
| SnakeGame.MoveKeepsConsistent | src/lib.rs:270-280 | a grid retyped as a normal move retypes it satisfies the invariant for the moved snake |
| SnakeGame.Game.RetypeMove | src/lib.rs:273-279 | the old head becomes SnakeBody, the target SnakeHead and the tail Empty, all three marked changed; no other cell changes, and exactly these three join the changed set |
| SnakeGame.Game.Go | src/lib.rs:270-280 | keeps the invariant and the body length; the head is the target, the body is the moved body, and only the target, old head and tail cells are changed, as set_type changes them, so exactly these three join the changed set |
| SnakeBoard.GrowLayout | src/lib.rs:324-334 | a growth move with the new food on a formerly Empty cell keeps the snake well placed; the eaten cell becomes SnakeHead, the old head SnakeBody, the spawn Food, and no cell becomes Empty |
| SnakeGame.GrowKeepsConsistent | src/lib.rs:324-334 | a grid retyped as a growth move retypes it satisfies the invariant for the grown snake |
| SnakeGame.Game.RetypeGrow | src/lib.rs:326-330 | the old head becomes SnakeBody and the target SnakeHead, both marked changed; no other cell changes, and exactly these two join the changed set |
| SnakeGame.Game.EatFood | src/lib.rs:324-334 | fails (NoSpaceForFood) exactly when no cell was Empty, and then changes nothing; otherwise the body grows by the old head, the score by 1, no cell becomes Empty, and only the target, old head and new food cells change, so exactly these three join the changed set; keeps the invariant |
| SnakeGame.Game.EmptyCells | src/lib.rs:300-312 | the collected coordinates are exactly those of the Empty cells |
| SnakeGame.Game.GenerateFood | src/lib.rs:299-322 | fails exactly when no cell is Empty, changing nothing; otherwise one formerly Empty cell becomes Food and is marked changed, every other cell is unchanged, and the changed set grows by exactly that cell |
| SnakeRender.ColumnFrameMembers | src/lib.rs:348-352 | a column pass draws exactly the drawable cells of that column |
| SnakeRender.GridFrameMembers | src/lib.rs:345-356 | a pass draws exactly the drawable cells of the grid: every cell for a full pass, the changed ones otherwise |
| SnakeRender.FullFrameLength | src/lib.rs:337-343 | a full pass draws one entry per cell |
| SnakeRender.ColumnFrameLength | src/lib.rs:338-340 | a full column pass draws one entry per row |
| SnakeRender.CleanGridDrawsNothing | src/lib.rs:345-356 | a pass over a grid without changed cells draws nothing |
| SnakeRender.CleanColumnDrawsNothing | src/lib.rs:348-352 | a pass over a column without changed cells draws nothing |
| SnakeGame.Game.RenderAll | src/lib.rs:337-343 | the trace grows by the full column-major pass of the old grid, and every flag is cleared with types kept |
| SnakeGame.Game.RenderOnlyUpdated | src/lib.rs:345-356 | the trace grows by exactly the changed cells of the old grid in column-major order, so the new entries are exactly those cells with their coordinates and types; every flag is cleared with types kept; the invariant is kept; on a grid with no changed cell, such as right after render_all, nothing is drawn |
| SnakeGame.DirtyFrame | src/lib.rs:345-356 | a pass over the changed cells draws an entry exactly for each changed cell, with its coordinates and type |
| SnakeGame.Game.NextFrame | src/lib.rs:212-226 | Wall ends the session with HitWall and SnakeBody with SelfCollision; Empty is a normal move, which retypes and marks exactly the target, the old head and the vacated tail; Food is a growth move that fails exactly when no cell was Empty, and otherwise retypes and marks exactly the target, the old head and the new food; a failure changes nothing; the invariant is kept |
| SnakeGame.Game.Tick | src/lib.rs:201-228 | one loop pass: the heading is steered; the session ends with HitWall on the border and SelfCollision on the body, and fails exactly in those cases or on food with no Empty cell left; otherwise the head moves one step, the body moves (score kept) or grows (score + 1), the tick draws exactly the cells that were already marked plus the target, the old head and either the vacated tail or the new food, each with its new type, and afterwards no cell is marked changed; a failing tick changes no cell and draws nothing |
| SnakeGame.Opening | src/lib.rs:160-166 | a 60 × 20 session after construction and the start of run is consistent, fully drawn, and has an Empty cell |
| SnakeGame.FirstStep | src/lib.rs:104-117 | heading right from (9, 7), the head reaches the free cell (10, 7) and the tail (8, 11) is left behind |
| SnakeGame.FirstTick | src/lib.rs:180-228 | the first tick, with the loop's initial key 'd', moves the head to (10, 7); with score 0 the old head joins the body and (8, 11) is Empty again; with score 1 (the food was at (10, 7)) the body grew by the old head |

## Left out

- Terminal control is not modelled: raw mode, alternate screen, title, cursor hiding,
  `MoveTo`/`PrintStyledContent` queuing, `flush`, and the teardown in `Drop`. Drawing is
  recorded only as the ghost trace `drawn`. Because nothing is written, the I/O errors
  those calls can return, and the `unwrap` on them, are not modelled.
- Event polling and `read()` are not modelled: the Release-kind filter that keeps the
  held key, and Esc quitting. `Tick` takes the held key as a parameter, and the outer
  `loop` is the caller's repetition of `Tick`.
- `thread::sleep` is left out. `speed` holds the constant 80 and nothing reads it.
- `rand::thread_rng().gen_range` becomes a nondeterministic choice of an index in
  range.
- `terminal::size()` becomes the `Option` parameter of `New`.
- `print_score`, the title text and `Game::score` are left out: they are output, or a
  plain field read. Glyph styling is kept only as `Style`.
- src/main.rs is not part of this model (process glue that prints the result).
- Integer widths are not modelled: coordinates and the score are unbounded naturals,
  and the `usize` score cannot overflow in the model. The `u16` casts in drawing do
  not matter here, because a terminal's size fits in `u16`.
- The grid is an `array2` instead of a `Vec` of columns, with `cells[x, y]` for
  `cells[x][y]`. Mutating a cell through `&mut` is modelled as writing a new `Cell`
  value into its slot.
- SnakeGame.Game.BuildDefault: it requires the freshly constructed state, which is the only state
  `run` calls it in.
- SnakeGame.Game.Go: it requires the session invariant, so the empty-body case, where the popped
  coordinate is the old head, is stated by `Vacated` but never reached.
- SnakeGame.Game.CollisionDetection: it requires the looked-up neighbour to lie inside
  the grid. The source would panic on an out-of-range index there.
  `NextCellUnderInvariant` proves that every state satisfying the session invariant meets
  this requirement.
- SnakeGame.Game.Tick: it states which entries the tick draws, not their order. The
  column-major order is stated by `RenderOnlyUpdated`.
- SnakeGame.Game.NextFrame: it states nothing for the SnakeHead outcome (a no-op in the source). It
  cannot occur under the invariant, as `NextCellUnderInvariant` proves.
