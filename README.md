# Divergence and Slither, modelled in Dafny

Two small grid games, each written as one C++ file, and the game logic at
their core:

- **Divergence**, a Sokoban clone.
  - `level_file.dfy` (module `LevelFile`) models the line-splitting loop of
    `initLevels`. Every line of the level file is one grid row, and a line
    holding only `,` closes a level. Each level becomes one definition string:
    its rows joined with `|`.
  - `divergence.dfy` (module `Divergence`) models the rest:
    - `loadLevel` turns a definition string into a ragged grid of cells
      (`Cell{type, isGoal, hasBox, onGoal}`), the player's position, the
      width, the height and `goals`. `goals` counts the goal cells that no
      box covers.
    - `move`, `moveBox` and `update` move the player one cell, possibly
      pushing one box. They keep every cell's invariant (a wall holds no
      goal and no box; `onGoal == isGoal && hasBox`) and keep `goals`
      equal to the number of uncovered goals.
  - `Level` is a class whose fields the moves update in place.
  - `Level.Load` is the parsing loop, proved equal to a grid defined by
    recursion over the definition (`Rows`). The width, goal count and player
    position are proved the same way.
- **Slither**, a Snake clone on a 20 by 20 board whose edges wrap around.
  - `slither.dfy` (module `Slither`) models:
    - the board constants;
    - the start position of the snake;
    - the arrow-key direction change;
    - `update`, one tick: the head steps and wraps, the snake grows on food
      or loses its tail, and it is cut back to three cells when the head
      meets the body from its third cell on.
  - The global state (`direction`, `length`, `body`, `food`) is the class
    `Snake`. `Snake.Tick` is proved equal to the functions `NextHead`,
    `Slide` and `Advance`, and the lemmas state what those functions promise.

One might expect the snake's body never to cover a cell twice. The code
allows it after a reversal into the snake's own neck, and the model follows
the code:

- `Slither.AdvanceDistinct` proves that a tick keeps the cells apart in
  every other case.
- `Slither.ReversalOverlaps` exhibits the overlap from the start position.

## Model

| member | source | states |
|---|---|---|
| LevelFile.InitLevels | Divergence/divergence.cpp:193-207 | the splitting loop returns exactly `LevelDefs(lines)`: one string per `,` line, the lines of its group joined by a bar with the trailing bar dropped; requires that no `,` line closes an empty level (`pop_back` on an empty string) |
| LevelFile.LevelCount | Divergence/divergence.cpp:197-202 | one level per `,` line: the number of levels equals the number of separator lines |
| LevelFile.DropsTrailingLines | Divergence/divergence.cpp:195-207 | lines after the last `,` add no level, whatever they hold |
| LevelFile.TwoRowExample | Divergence/divergence.cpp:195-207 | the lines `#.#`, `#@#`, `,`, `###` give the single level `#.#` and `#@#` joined by a bar |
| Divergence.Move | Divergence/divergence.cpp:362-371 | `move` shifts the point by exactly one cell; the coordinate falls on the left, rises on the right, falls going up and rises going down, and in no other case |
| Divergence.CellOf | Divergence/divergence.cpp:274-312 | the cell of each definition character: a wall exactly for `#`, a goal exactly for `.`, `*` and `&`, a box exactly for `$` and `*`, an uncovered goal exactly for `.` and `&`; every such cell keeps the cell invariant |
| Divergence.RowCount | Divergence/divergence.cpp:302-308 | the grid has one row per bar plus one |
| Divergence.RowsOfJoined | Divergence/divergence.cpp:270-316 | a definition made of rows joined by a bar parses back into the rows parsed one by one (`RowsOf`): one grid row per row, holding one cell per character, each the `CellOf` of that character |
| Divergence.WidthIsLongest | Divergence/divergence.cpp:302-318 | `width` bounds every row that a bar ends and equals the length of one of them (or is 0); the last row is not measured |
| Divergence.GoalsCounted | Divergence/divergence.cpp:266-300 | the number of uncovered goals in the parsed grid equals the number of `.` and `&` characters; `*` adds none |
| Divergence.RowsWellFormed | Divergence/divergence.cpp:274-312 | every parsed cell keeps the cell invariant: a wall holds no goal and no box, and `onGoal == isGoal && hasBox` |
| Divergence.PlayerPlaced | Divergence/divergence.cpp:291-299 | the player is placed exactly when the definition holds an `@` or an `&` |
| Divergence.PlayerCell | Divergence/divergence.cpp:291-299 | the player stands at the cell of the last `@` or `&`: inside the grid, on floor, without a box |
| Divergence.LoadBar | Divergence/divergence.cpp:302-315 | a bar starts a new empty row, measures the ended row into the width and resets the column, keeping the parser's state equal to the recursive definition |
| Divergence.LoadCell | Divergence/divergence.cpp:274-315 | any other character appends its cell to the current row, counts `.` and `&` as goals and places the player at `@` and `&`, keeping the parser's state equal to the recursive definition |
| Divergence.LoadDone | Divergence/divergence.cpp:316-319 | once the whole definition is read, the parser's grid, height, width, goal count and player are those the definition describes, every cell keeps its invariant and the player stands on floor without a box |
| Divergence.Level.Load | Divergence/divergence.cpp:262-319 | the level's grid, height, width, goal count and player are those the definition describes; the level is valid: every cell keeps its invariant and `goals` counts the uncovered goals |
| Divergence.PushBox | Divergence/divergence.cpp:380-395 | a push changes only the box's cell and the cell beyond it: the box leaves the first and enters the second, both keep their kind and goal flag |
| Divergence.PushBoxCounts | Divergence/divergence.cpp:380-395 | a push keeps every cell invariant and the number of boxes, and the uncovered-goal count rises by one when the box leaves a goal and falls by one when it lands on one |
| Divergence.LastGoal | Divergence/divergence.cpp:339-347 | with one uncovered goal left, pushing a box from a non-goal cell completes the level exactly when it lands on a goal |
| Divergence.Level.MoveBox | Divergence/divergence.cpp:373-401 | the box moves exactly when the cell beyond is neither wall nor box; on success the grid becomes `PushBox` and `goals` moves as the goals left and entered say; on failure nothing changes; boxes are kept and the level stays valid |
| Divergence.Level.Update | Divergence/divergence.cpp:333-360 | into a wall or an unpushable box nothing changes and the result is false; a push moves the player one cell and returns true exactly when no uncovered goal remains; a plain step moves the player and returns false; validity, box count and the player's floor cell are kept |
| Slither.NextHead | Slither/slither.cpp:230-267 | from a cell of the board, the new head is on the board, equals the old head plus the direction's step taken modulo 20 on each axis, and differs from the old head |
| Slither.WrapsAround | Slither/slither.cpp:252-267 | crossing any edge enters the opposite one (left from x=0 gives x=19, and so on) |
| Slither.Snake.constructor | Slither/slither.cpp:115-118 | the snake starts as (10,10), (9,10), (8,10), heading right, with length 3 and food at the supplied cell on the board |
| Slither.StartIsValid | Slither/slither.cpp:115-118 | the start cells are on the board and all different |
| Slither.Snake.Steer | Slither/slither.cpp:148-153 | an arrow key sets the direction and changes nothing else |
| Slither.Snake.Tick | Slither/slither.cpp:227-305 | the new body is `Advance` of the old one for the wrapped head: grown when the head is on the food, otherwise without the tail, cut to three cells after a bite; length, food and direction follow; `body.size() == length >= 3`, the body on the board and the food on the board are kept |
| Slither.AdvanceInBoard | Slither/slither.cpp:252-286 | if every body cell is on the board before a tick, every cell is after it |
| Slither.AdvanceLength | Slither/slither.cpp:270-304 | a tick adds one cell when eating, keeps the length otherwise, leaves 3 after a bite, and never leaves fewer than 3 |
| Slither.BiteKeepsNeck | Slither/slither.cpp:291-304 | a bite leaves the new head followed by the first two cells of the old body |
| Slither.VacatedTail | Slither/slither.cpp:282-293 | without eating, moving onto the cell the tail leaves is no bite, because the tail goes before the test |
| Slither.AdvanceDistinct | Slither/slither.cpp:270-304 | a tick keeps the body's cells apart unless the new head is the cell right behind the old head |
| Slither.ReversalOverlaps | Slither/slither.cpp:291-304 | heading left from the start position, the head lands on the second cell, the bite keeps it, and the body covers (9, 10) twice |

## Left out

- SDL: the window, renderer, drawing, event polling and `SDL_Delay` in `init`, `render` and both `main` loops. These are platform I/O.
- Opening and reading the `levels` file in `initLevels`. `LevelFile.InitLevels` takes the file's lines as a sequence.
- Level progression and restart in Divergence's `main`, and Divergence's arrow-key dispatch. These are tied to the event loop.
- `cellSize`, `xp` and `yp`, which are only used for rendering. They also divide by `width`, which is 0 for a one-row level.
- The `-w` command-line option and its `atoi` calls.
- `rand()` and `srand(time(NULL))`. `Snake.constructor` and `Snake.Tick` take the food cell that `rand() % 20` would give as an argument on the board.
- The `paused` flag and the escape key in Slither's event loop.
- Bytes: level definitions and level-file lines are sequences of Dafny `char`, while the C++ `std::string` holds bytes. A multi-byte character would be one floor cell here and several in `loadLevel`; level files are ASCII, so nothing depends on this.
- Integer overflow: coordinates, counters and widths are unbounded integers. Every value the games reach is small.
- Divergence.Level.Load: when the definition holds no `@` or `&`, the C++ leaves `player` uninitialised. The model states nothing about `player` in that case.
- Divergence.Level.Load: it does not mirror the C++ switch. It branches on `|` and otherwise appends `CellOf` of the character, and `CellOf` holds the switch's cases.
- LevelFile.InitLevels: `pop_back` on an empty level (a first line `,`, or two `,` lines in a row) is undefined behaviour. The model requires that it does not happen.
- Divergence.Level.Update and Divergence.Level.MoveBox: the C++ does no bounds checks. The model requires the destination, and the push target when there is a box, to lie inside the grid, which a wall-enclosed level guarantees.
