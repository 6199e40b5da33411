# Tetrominoes on a 64×32 LED matrix: a verified model of the game engine

This project models the game engine of `code.py`, a falling-block game for a 64×32 LED matrix. The pieces fall from the left edge towards the right. Two buttons and an accelerometer move the piece along y. A strong tilt on z rotates it. The engine covers:

- the board: 32 rows of 64 integer cells, where 0 is empty and k + 1 is a cell of catalog shape k;
- the seven-shape catalog and its rotation;
- collision, movement, rotation, placement, line clearing and spawning;
- the two 64×32 bitmaps used for double buffering, with drawing, clearing, borders and the buffer swap;
- one pass of the game loop, as a single timed step.

Layout:

- `wrappers.dfy` defines `Option`.
- `shapes.dfy` (module `Shapes`) holds the catalog, footprints, the quarter turn and the catalog lookup `SHAPES.index`.
- `playfield.dfy` (module `Playfield`) holds the board and the active piece:
  - collision and its meaning;
  - the value-level move and rotation;
  - placement;
  - line clearing;
  - spawning.
- `input.dfy` (module `Input`) holds the tilt threshold and the input phase as a function.
- `engine.dfy` (module `Engine`) holds the class `Game`:
  - the board, the piece, the two bitmaps with a "which is shown" flag, and the three loop timers;
  - methods that update them in place, each proved against the functions above.

Modelling choices:

- **Rotation and shape identity.** Rotation in the source builds rows as tuples. The catalog is a list of lists, so a rotated footprint never equals a catalog entry. `SHAPES.index` then raises at the next placement or drawing.
  - A `Footprint` carries a `rotated` flag.
  - `Shapes.ShapeIndex` is a partial lookup that returns `None` for a rotated footprint.
  - Placement and drawing return a failure (the `Fault` outcome) where the source raises.
  - Placement fails only when some set cell lies on the board, because the lookup sits inside the bounds test.
  - Drawing fails at the first set cell whatever its position, because the lookup is an argument to `draw_block`. By then the board has already been drawn into the next bitmap.
- **Rotation test.** `rotate_tetromino` tests the piece as it stands, unrotated, at offset (0, 0). The turned footprint is never tested. `Playfield.RotationMayCollide` exhibits a turn that reaches below the last row.
- **Time.** Time is an integer `now` in milliseconds. The intervals are 300 (buttons), 10 (tilt), 200 (gravity) and 50 (drawing), and every gate is a strict `>`.
- **Bitmaps.** The bitmaps are `array2<int>` indexed `[x, y]`. A pixel holds a palette index; 0 is black and k + 1 is `COLORS[k]`.
- **Sessions.** The constructor and `StartSession` model the supervisor starting a session: a new piece, the borders, and the three timers. `ResetBoard` is the supervisor's recovery after an exception. It is the only place the board is emptied, so a session that begins after a game over keeps the old board.
- **Borders.** The borders are drawn into the next bitmap. The first render clears that bitmap before drawing, so they never reach a shown frame (see `Engine.Game.constructor` and `Engine.Game.RenderPhase`).
- **Line clearing.** `clear_lines` keeps the incomplete rows in order and then APPENDS one empty row per full row removed, at the high-y end. `code.py:157` builds the new board as the kept rows followed by the empty rows, so a cleared row leaves an empty row at the bottom of the board, not at the top.

## Model

| member | source | states |
|---|---|---|
| Shapes.RotateGrid | code.py:138 | the quarter turn is again a rectangle, with rows and columns swapped |
| Shapes.RotateKeepsSetCells | code.py:138 | cell (i, j) of the footprint lands at (j, R-1-i) of the turned grid, so a set cell survives the turn |
| Shapes.Rotate | code.py:138-140 | a turned footprint is well formed, carries the rotated mark and has swapped dimensions |
| Shapes.HalfTurn | code.py:138 | two quarter turns reflect the grid through its centre |
| Shapes.FullTurn | code.py:138 | four quarter turns give back the original grid |
| Shapes.IndexOf | code.py:150 | the lookup finds the first position holding the grid, and finds nothing exactly when the grid is absent |
| Shapes.ShapeIndex | code.py:150 | the catalog lookup succeeds exactly for an unrotated footprint that equals a catalog entry, and yields that entry's index |
| Shapes.CatalogDistinct | code.py:45-53 | no two catalog shapes are equal, so the lookup recovers each shape's own index |
| Shapes.CatalogShapes | code.py:45-53 | every catalog shape is a rectangle of at most 5 rows of at most 6 cells, with a set cell in its first row |
| Shapes.CatalogFootprint | code.py:110 | the footprint `random.choice` yields for index k is well formed and unrotated, and its lookup gives k back |
| Playfield.EmptyBoard | code.py:59 | the initial board is 32 rows of 64 cells, all 0 |
| Playfield.CellsCollideMeans | code.py:116-123 | the inner loop finds a hit exactly when some set cell of the row from column j on is off the board or on a filled cell |
| Playfield.RowsCollideMeans | code.py:115-124 | the outer loop finds a hit exactly when some set cell from row i on is off the board or on a filled cell |
| Playfield.Blocked | code.py:120-122 | the test on one shifted cell blocks exactly the positions off the board or on a nonzero cell, so its `board_x < BOARD_WIDTH` conjunct adds nothing |
| Playfield.CellsCollide | code.py:116-123 | the inner loop over row i from column j reports a hit only at a set cell from column j on whose shifted position is blocked |
| Playfield.RowsCollide | code.py:115-124 | the outer loop from row i reports a hit only at a set cell in a row from i on whose shifted position is blocked |
| Playfield.CheckCollision | code.py:114-124 | `check_collision(dx, dy)` reports a hit only at a set cell of the footprint whose shifted position is blocked |
| Playfield.CheckCollisionMeans | code.py:114-124 | `check_collision(dx, dy)` is true exactly when the piece shifted by (dx, dy) has a set cell off the 64×32 board or on a nonzero cell; the `board_x < BOARD_WIDTH` conjunct changes nothing |
| Playfield.CheckCollisionShift | code.py:114-124 | testing at offset (dx, dy) is the same as testing the moved piece at offset (0, 0) |
| Playfield.TryMove | code.py:127-133 | the move succeeds exactly when the moved piece does not collide; then the position changes by exactly (dx, dy), otherwise the piece is unchanged |
| Playfield.TryRotate | code.py:136-140 | the position never changes; the turn is adopted exactly when the unrotated piece does not collide where it stands |
| Playfield.RotationMayCollide | code.py:138-140 | a piece that does not collide can be turned into one that does, because the turned footprint is never tested |
| Playfield.Placed | code.py:143-150 | writing v under the piece changes exactly the on-board cells under set cells, and keeps the board's shape and value range |
| Playfield.Lock | code.py:143-150 | placement fails exactly when the lookup fails and the piece has an on-board set cell; otherwise every on-board covered cell holds index + 1, every other cell is unchanged and the value range is kept |
| Playfield.PlacedOccupies | code.py:143-150 | after placement the piece, where it stood, overlaps filled cells |
| Playfield.FullRow | code.py:155 | `all(row)` holds exactly when no cell of the row is 0 |
| Playfield.Incomplete | code.py:155 | the comprehension never yields more rows than the board has |
| Playfield.IncompleteRows | code.py:155 | every row the filter keeps is a row of the board and is not full |
| Playfield.IncompleteAppend | code.py:155 | filtering commutes with concatenation, so kept rows stay in their original relative order |
| Playfield.IncompleteCount | code.py:155-156 | kept rows plus full rows make up the whole board, so the number of lines cleared is the number of full rows |
| Playfield.IncompleteNoFull | code.py:155 | with no full row the filter keeps everything |
| Playfield.Cleared | code.py:153-157 | the cleared board again has 32 rows of 64 cells |
| Playfield.ClearedLayout | code.py:153-157 | the kept rows come first in their order, then as many empty rows as there were full rows |
| Playfield.ClearedHasNoFullRow | code.py:153-157 | no row of a cleared board is full |
| Playfield.ClearedNoFull | code.py:153-157 | a board with no full row is left unchanged |
| Playfield.ClearedIdempotent | code.py:153-157 | clearing twice is the same as clearing once |
| Playfield.ClearedInRange | code.py:153-157 | every cell of the cleared board still names a catalog shape or is empty |
| Playfield.IncompleteDropRow | code.py:155 | a single full row between incomplete rows is the only row removed |
| Playfield.IncompleteOneFull | code.py:155 | when only row k is full, the filter removes exactly row k |
| Playfield.ClearOneRow | code.py:153-157 | when only row k is full, the rows after it move up by one and one empty row is appended at the end |
| Playfield.SpawnPiece | code.py:108-111 | a new piece is the catalog shape k, unrotated, anchored at x = 0 and y = 16 - (rows of shape k) / 2, and lies wholly on the board |
| Playfield.SpawnCollision | code.py:108-111 | the game-over test after a spawn fires exactly when the new piece overlaps a filled cell, and never on an empty board |
| Input.MoveDirection | code.py:227-232 | the direction is +1 exactly above 0.5, -1 exactly below -0.5, and 0 otherwise |
| Input.MoveDirectionOdd | code.py:227-232 | the opposite tilt gives the opposite direction |
| Input.InputStep | code.py:247-263 | the input phase never changes x; it moves y by at most one net step; the button gate resets the timer; nothing moves within 10 ms of the last move; a rotation happens only on a sample whose z magnitude exceeds 9 |
| Input.InputButtons | code.py:247-252 | with the gate open and no sample, up acts before down, each as `move_tetromino`, and the timer becomes now whether or not a button was pressed; pressing both from a clear position undoes a successful up move |
| Input.InputTiltMove | code.py:258-261 | with the button gate closed, y changes only by a tilt move of exactly the tilt direction onto a free position after more than 10 ms, and the timer moves to now exactly when that move happens |
| Input.InputButtonsWithSample | code.py:247-261 | with the button gate open, a sample leaves the buttons' effect as it is: the timer is now and the piece stands where the buttons alone put it, since the tilt gate on the just-reset timer cannot open |
| Input.InputTiltFires | code.py:255-261 | with the button gate closed, a sample tilted past 0.5 more than 10 ms after the last move moves the piece one step in its direction whenever that position is free, and sets the timer to now |
| Input.InputRotation | code.py:262-263 | a sample whose z magnitude exceeds 9 applies `rotate_tetromino` to the piece where the moves left it |
| Input.InputKeepsClear | code.py:247-263 | without a rotation, a piece clear of the walls and filled cells stays clear through the input phase |
| Engine.Game.constructor | code.py:59-65 | the program starts with an empty board, two blank bitmaps with bitmap1 shown, a new piece, the borders in the hidden bitmap and all timers at now |
| Engine.Game.NewTetromino | code.py:108-111 | the active piece becomes the spawn piece for index k |
| Engine.Game.MoveTetromino | code.py:127-133 | the new piece and the result are those of the value-level move: exactly (dx, dy) on success and a non-colliding piece, unchanged position on failure |
| Engine.Game.RotateTetromino | code.py:136-140 | the new piece is that of the value-level rotation |
| Engine.Game.PlaceCell | code.py:146-150 | one footprint cell extends the placed region by that cell, or fails before any write |
| Engine.Game.PlaceRow | code.py:144-150 | one footprint row extends the placed region by that row, or fails before any write |
| Engine.Game.PlaceTetromino | code.py:143-150 | the new board is the value-level placement, and a failed lookup leaves the board untouched |
| Engine.Game.ClearLines | code.py:153-157 | the new board is the cleared old board |
| Engine.Game.DrawBlock | code.py:99-101 | exactly pixel (x, y) of the next bitmap becomes colorIndex + 1 when it is on the board, and nothing changes otherwise |
| Engine.Game.ClearDisplay | code.py:104-105 | every pixel of the next bitmap becomes 0 |
| Engine.Game.DrawBoardCells | code.py:161-165 | every nonzero board cell is copied into the next bitmap, and every other pixel is unchanged |
| Engine.Game.DrawPiece | code.py:167-173 | on success each pixel under a set cell becomes index + 1; it fails exactly when the lookup fails, and then the bitmap is unchanged |
| Engine.Game.DrawPieceRow | code.py:169-173 | one footprint row is drawn, or the draw fails at the first set cell |
| Engine.Game.DrawGameState | code.py:160-173 | each pixel shows the piece where a set cell covers it, otherwise the nonzero board cell, otherwise its old value; it fails exactly when the lookup fails |
| Engine.Game.DrawBorders | code.py:206-221 | the borders take indices 1, 2, 3 and 4 in the order drawn, later edges overwriting corners, and every inner pixel is kept |
| Engine.Game.SwapBuffers | code.py:88-96 | the shown and hidden bitmaps exchange roles and stay distinct, so two swaps restore the original roles |
| Engine.Game.StartSession | code.py:292-295 | a session start spawns a piece, draws the borders into the hidden bitmap, sets all timers to now and keeps the board and the shown bitmap |
| Engine.Game.ResetBoard | code.py:302 | recovery from a fault empties the board |
| Engine.Game.InputPhase | code.py:247-265 | the new piece and move timer are those of the input function |
| Engine.LockStep | code.py:270-276 | a piece that cannot step is locked: a fault exactly when the placement lookup raises, leaving everything as it was; otherwise the board is the cleared placement, the piece the spawn, the game over exactly when the spawn collides, and the fall timer is set only when the game goes on |
| Engine.GravityStep | code.py:268-278 | within 200 ms nothing changes; otherwise the piece steps one cell in +x or is locked; a running step sets the fall timer to now; a game over keeps the fall timer and has a colliding spawn; a fault changes nothing and means the lookup failed |
| Engine.GravityKeepsClear | code.py:268-278 | a gravity step that keeps the game running leaves a clear piece clear |
| Engine.PassStep | code.py:247-278 | the input phase followed by the gravity phase: the button gate sets the move timer to now, the board changes only when gravity fires, a game over has a colliding spawn and the old fall timer, and a fault changes neither the board nor the fall timer |
| Engine.PassKeepsClear | code.py:247-278 | without a rotation, a pass that keeps the game running leaves a clear piece clear |
| Engine.Game.GravityPhase | code.py:267-278 | the new board, piece and fall timer and the outcome are exactly those of the gravity step on the old state; a fault means a rotated piece |
| Engine.Game.Redraw | code.py:281-283 | a successful draw leaves in the hidden bitmap exactly the frame of board and piece, every pixel within the palette; a failed one leaves exactly the board cells there |
| Engine.Game.RenderPhase | code.py:280-286 | within 50 ms nothing changes; otherwise the frame of board and piece becomes the shown bitmap, and the bitmap shown before keeps its contents; or a rotated piece makes the draw fail, the shown bitmap stays as it was and the hidden one holds exactly the board cells |
| Engine.Game.Advance | code.py:245-278 | the new board, piece, move timer and fall timer and the outcome are exactly those of the input and gravity phases on the old state, and the game stays valid |
| Engine.Game.Step | code.py:243-289 | one loop pass: board, piece, move timer and fall timer are exactly those of the input and gravity phases; a game over or fault there ends the pass with both bitmaps, the shown flag and the draw timer untouched; within 50 ms of the last frame the same holds and the pass runs on; otherwise the pass runs on exactly when the lookup succeeds, and then the shown bitmap is exactly the frame of board and piece, within the palette, the bitmap shown before keeps its contents, and the draw timer is now; a failed draw leaves exactly the board cells in the hidden bitmap; a fault means a rotated piece |

## Left out

- Hardware and library setup are not modelled: the matrix, the I2C accelerometer, the buttons, the palette, and the TileGrid and Group objects. A bitmap is a plain array; the palette is only its size.
- Display output is not modelled (`display.show`, `display.refresh`, the group slot update in `swap_buffers`). Only which bitmap is shown is tracked.
- `time.monotonic` and `time.sleep` are not modelled. Time is an integer millisecond parameter, and the sleeps do nothing to the state.
- The accelerometer read and its `OSError` handler are not modelled. The optional `Tilt` sample stands for a read that succeeded; `None` stands for no accelerometer or a failed read.
- `random.choice` is not modelled; the chosen catalog index is a parameter.
- The restart supervisor's loop and exception handler are not modelled as a loop. A `Fault` outcome stands for the exception. `StartSession` and `ResetBoard` are the two halves of the restart, and callers sequence them.
- `display_game_over` and `draw_text` are not modelled. They are fixed text drawn in a colour index (0xFF0000) far beyond the palette, whose handling by the display library cannot be seen. `GameOver` is the outcome at that point.
- Printing is not modelled.
- Engine.Game.Step: the pass stops at a game over before `display_game_over`, which in the program goes on to clear the hidden bitmap, draw the text there and swap it in (`code.py:176-185`). The model's pass ends with both bitmaps as they were, and the game-over screen is not modelled.
- Input.InputStep: its own contract gives the bounds (x fixed, y within one step, timers). The lemmas beside it state the rest. `Input.InputButtons` gives the button order when there is no sample, and `Input.InputButtonsWithSample` shows that a sample does not change it. `Input.InputTiltMove` says that with the button gate closed only a tilt move changes y. `Input.InputTiltFires` says that a free tilt move after 10 ms does happen and sets the timer. `Input.InputRotation` gives the rotation.
- Playfield.Cleared: its own contract gives only the board shape. The layout, the no-full-row result, idempotence and the value range are the lemmas beside it.
- Playfield.Incomplete: its own contract gives only the length bound. That kept rows are board rows and not full, their order, and their count are `Playfield.IncompleteRows`, `Playfield.IncompleteAppend` and `Playfield.IncompleteCount`.
