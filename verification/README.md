# Block game grid engine, modelled in Dafny

This project models the grid engine of a small falling-block puzzle with match-3 clearing (`finalProject.py`). The field is 20 × 20 cells. Each cell is empty or holds one block in one of six colours. A falling piece is an anchor plus a shape from a fixed catalog of six offset lists, and it has one colour. The engine works in four parts:

- the **collision check** (`can_move`);
- the **lock**, which writes the landed piece into the field (`lock_shape`). Its trailing call to the engine (finalProject.py:105) is composed in `Controller.LockAndSpawn`;
- the **match/clear engine** (`clear_rows_and_matches`). It scans every row and column for runs of three or more equal blocks, clears their union at 10 points per cell, and lets every column settle under gravity only if something matched. It then removes full rows at 100 points per row, adding empty rows at the top;
- **one pass of the game loop**: the timeout check, the speed-up rule, the gravity step (move down, or lock, clear and spawn, with game over when the new piece is blocked), then the polled key events (left, right, down, pause, quit).

Everything is a pure function over immutable values. Grid is `seq<seq<Cell>>`, indexed `g[y][x]`, and `Board.WellFormed` fixes its size. The module-level globals of the program become the fields of one `Controller.Game` value. Module layout:

| file | module | program part |
|---|---|---|
| board.dfy | Board | constants, colours, cells, grid, shapes, pieces, `new_shape`, random pre-seed |
| collision.dfy | Collision | `can_move` |
| lock.dfy | Lock | the writes of `lock_shape` |
| runs.dfy | Runs | the counting run scan of one row or column |
| matches.dfy | Matches | union of row and column scans, clearing matched cells |
| gravity.dfy | Gravity | per-column compaction |
| rows.dfy | Rows | full-row removal (delete, then insert an empty row at the top) |
| engine.dfy | Engine | `clear_rows_and_matches` as a whole |
| controller.dfy | Controller | game state, one loop pass, key events, pause, the loop |

Each operation is paired with an independent description, and a lemma or contract connects the two:

- The counting scan (`Runs.Scan`, written as the loop is) is proved to report exactly the cells covered by some window of three equal blocks (`Runs.ScanLineCorrect`).
- The delete-then-insert loop over the ascending full-row list is proved equal to a stable filter with empty rows prepended (`Rows.RemovalIsStableFilter`).
- Gravity is characterised as the unique settled column with the same blocks in the same order (`Gravity.SettleUnique`).
- Clearing is shown to leave no run behind (`Matches.ClearLeavesNoRun`).
- The gravity step, by contrast, can create a new run, and the engine does not scan again (`Engine.NoCascade`).

Three behaviours of the program are easy to get wrong, and the model keeps them as the code has them:

- **Clearing is not idempotent.** The engine scans once and never re-scans after compaction, so compaction can leave a fresh run of three on the field for the next lock to find. `Engine.NoCascade` exhibits such a field.
- **The pass in which the timeout fires still finishes.** It still runs the gravity step, the key events and the draw; only the next pass is skipped. `Controller.Tick` runs the whole pass.
- **Movement keys work while paused.** Only the gravity step checks the pause flag, so left, right and down still move the piece. `Controller.HandleEvent` does not look at the flag.

## Model

| member | source | states |
|---|---|---|
| Board.EmptyGrid | finalProject.py:39 | the starting field has ROWS rows of COLUMNS cells, all empty |
| Board.NewShape | finalProject.py:55-58 | a spawned piece has the catalog shape and palette colour picked by the two choices and is anchored at (COLUMNS // 2, 0); it covers its anchor, and every block lies inside the field in the top two rows |
| Board.PreSeed | finalProject.py:49-53 | pre-seeding writes each seed's colour at its cell in order: a cell named by no seed is unchanged, and a cell gets the colour of the last seed naming it |
| Board.InitialGrid | finalProject.py:39-53 | the starting field is well formed. A cell holds a block exactly when a seed names it, with the colour of the last seed naming it, and every row above the bottom eight is empty |
| Collision.FitsFrom | finalProject.py:92-97 | the block loop returns true exactly when every remaining block, shifted, is in bounds on an empty cell, and false at the first one that is not |
| Collision.CanMove | finalProject.py:91-97 | true exactly when every shifted block lies in [0, COLUMNS) × [0, ROWS) on an empty cell; then every cell the shifted piece covers is in bounds and empty |
| Collision.MoveIsPlacement | finalProject.py:91-97 | a move by (dx, dy) is allowed exactly when the translated piece fits where it stands |
| Collision.OutOfBoundsBlocked | finalProject.py:95 | a piece with any block outside the field can never move there |
| Lock.StampFrom | finalProject.py:100-104 | writing blocks from a given index on sets exactly the in-field cells under those blocks to the piece colour and leaves every other cell as it was |
| Lock.LockShape | finalProject.py:99-104 | after the lock writes, each in-field cell under the piece holds its colour; every other cell is unchanged, and off-field blocks are skipped |
| Runs.Scan | finalProject.py:113-124 | the counting loop of one row (and, on a column, of finalProject.py:128-139) as written, including the close-out at the end of the line. Its own contract says only that the scan adds to its accumulator and reports indices below the line length; Runs.ScanInvariant and Runs.ScanLineCorrect state what it computes |
| Runs.SegmentRuns | finalProject.py:113-124 | between two breaks, every cell lies in a run of three or more exactly when the segment is at least three long |
| Runs.CloseRun | finalProject.py:117-121 | closing a run at a break adds its cells exactly when they are run cells, keeping the reported set equal to the run cells so far |
| Runs.ScanInvariant | finalProject.py:112-124 | the invariant of the counting loop: from any consistent midway state the scan ends with exactly the run cells of the line |
| Runs.ScanLineCorrect | finalProject.py:112-139 | the scan of a line reports exactly the cells in a run of three or more equal blocks, including runs that end at the last cell |
| Runs.InRunFilled | finalProject.py:115 | a run cell is never empty |
| Matches.HorizontalMatches | finalProject.py:111-124 | the row scans report exactly the positions lying in a horizontal run of three or more |
| Matches.VerticalMatches | finalProject.py:126-139 | the column scans report exactly the positions lying in a vertical run of three or more |
| Matches.MatchedPositions | finalProject.py:109-139 | the matched set is exactly the in-field cells in a row run or a column run of three or more; each holds a block, and a cell in both counts once |
| Matches.ClearCells | finalProject.py:142-143 | the matched positions become empty, and nothing else changes |
| Matches.ClearRemovesMatchedBlocks | finalProject.py:142-144 | clearing removes exactly as many blocks as there are matched cells, so the score rises by ten per removed block |
| Matches.ClearLeavesNoRun | finalProject.py:109-143 | after clearing the matched set, no cell of the field lies in a run of three |
| Gravity.Blocks | finalProject.py:149 | the `stack` comprehension: a column's blocks, top to bottom, without the empty cells. It is never longer than the column and holds no empty cell |
| Gravity.Settle | finalProject.py:149-153 | a compacted column has the same length and the same blocks in the same top-to-bottom order and multiset, with no empty cell below a block |
| Gravity.SettleUnique | finalProject.py:149-153 | compaction is the only settled column with those blocks, so it is fully determined by them |
| Gravity.SettleIdempotent | finalProject.py:149-153 | compacting a compacted column changes nothing |
| Gravity.BlocksMultiset | finalProject.py:149 | a column's cells are its blocks plus the right number of empties |
| Gravity.GravityAll | finalProject.py:147-153 | every column of the field is compacted on its own, so no block changes column |
| Rows.FullRows | finalProject.py:156 | the `full_rows` list of the whole field: every full row index appears, only full rows appear, and the list is strictly ascending |
| Rows.DeleteInsert | finalProject.py:157-159 | the delete-then-insert loop as written, one listed index at a time; it keeps the row count. Rows.DeleteInsertInvariant and Rows.RemovalIsStableFilter state its result |
| Rows.FullRowsFrom | finalProject.py:156 | the full-row list holds every full row exactly once, in ascending order |
| Rows.DeleteInsertInvariant | finalProject.py:157-159 | the invariant of the delete-then-insert loop: from the midway state at any row, the loop ends in the stable filter |
| Rows.RemovalIsStableFilter | finalProject.py:156-159 | deleting each listed full row and inserting an empty row at the top yields k empty rows followed by the non-full rows in their original order |
| Rows.RemoveFullRows | finalProject.py:155-159 | full-row removal keeps ROWS rows of COLUMNS cells, leaves no full row, removes as many rows as are full, and changes nothing when none is full |
| Engine.Compacted | finalProject.py:141-153 | with no match the field is unchanged (no gravity); otherwise every column is settled; either way each column keeps its surviving blocks in order |
| Engine.ClearRowsAndMatches | finalProject.py:107-160 | the score grows by 10 per matched cell plus 100 per full row; the field keeps its size, holds no full row, and is the empty rows over the kept rows |
| Engine.QuietFieldUnchanged | finalProject.py:107-160 | a field with no run and no full row passes through the engine with field and score unchanged |
| Engine.NoCascade | finalProject.py:107-160 | there is a field where the engine matches something, yet its result still holds a run of three, because there is no second scan |
| Controller.InitialGame | finalProject.py:39-60 | the game starts valid, running, unpaused, with score 0, fall delay 500, the last fall at the start time, the pre-seeded field, and the first piece spawned from the given choices at the spawn anchor |
| Controller.CheckTimeout | finalProject.py:171-174 | once the elapsed seconds reach 120 the game is over and the loop stops; before that nothing changes |
| Controller.EffectiveDelay | finalProject.py:179-180 | the delay in force for the gravity step of a valid state is 300 exactly when the score is above 160, and 500 otherwise |
| Controller.Fall | finalProject.py:176-190 | while unpaused: the delay becomes 300 when the score at the start of the pass is over 160, and is kept otherwise. When a step is due the piece moves down one row if it can; otherwise it locks, the engine runs and a piece spawns. The game is then over when it already was or when the new piece is blocked |
| Controller.LockAndSpawn | finalProject.py:184-189 | the field and score become the engine's output on the locked field; the new piece is at the spawn anchor; running and game-over follow whether it fits |
| Controller.TogglePause | finalProject.py:162-164 | the pause flag flips, and nothing else changes |
| Controller.HandleEvent | finalProject.py:192-203 | a left, right or down key moves the piece one cell when the collision check allows it, and is a no-op otherwise. Space toggles pause, quit stops the loop, and field and score never change |
| Controller.HandleEvents | finalProject.py:192-203 | the events of one pass leave field and score alone; the pause flag flips once per space press, and any quit stops the loop |
| Controller.Tick | finalProject.py:168-205 | one pass keeps the state valid and never lowers the score. A timeout ends the game. The fall delay drops to 300 when the pass starts unpaused with a score over 160, and is kept otherwise, so a lock that pushes the score past 160 speeds things up only from the next pass. While paused the field and score stay put |
| Controller.Play | finalProject.py:167-205 | across any number of passes the state stays valid, the score never decreases and the fall delay never rises; once the loop has stopped nothing changes |
| Controller.LeftRightInverse | finalProject.py:196-199 | a successful move left is undone by a move right |
| Controller.PauseTwiceIsIdentity | finalProject.py:162-164 | two pause presses leave the game as it was |

## Left out

- Rendering, fonts, the window, the game-over screen, `pygame.quit` and `sys.exit` (finalProject.py:33-37, 62-89, 205, 207-214). These are presentation and process exit.
- Event polling. The events of one pass are a parameter, a sequence of `Controller.Event` values.
- Wall-clock time. `clock.tick`, `get_ticks` and the remaining-time display are not modelled. The millisecond reading `now` and the whole elapsed seconds are inputs to each pass, and the start time is an input of `Controller.InitialGame`.
- Randomness. The shape and colour picks of `new_shape` are `Controller.Spawn` indices. The 60 random pre-seed cells are a sequence of `Board.Seed` values drawn from the same ranges. The model takes any number of seeds, not exactly 60.
- Pixel constants (`BLOCK_SIZE`, `WIDTH`, `HEIGHT`, `FPS`), the RGB values of the palette, and the player name. They only matter for drawing.
- Integer width. Python integers are unbounded, like Dafny's, so no wrap-around is involved.
