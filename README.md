# tetrisPY engine in Dafny

This project models the game engine of tetrisPY, a pygame Tetris, and proves
properties of that model. The engine is the `TetrisGame` class together with
the list logic of `HighScoreManager.add_score`. `alternative.py` and `Main.py`
contain the same engine code; the table below cites `alternative.py`. The
same code sits in `Main.py` at these lines:

- `SHAPES`: 21-57
- `HighScoreManager.add_score`: 105-109
- the engine fields of `TetrisGame.__init__`: 204-214
- `init_bag` and `new_piece`: 216-233
- `check_collision`: 235-246
- `move`: 248-257
- `rotate`: 259-265
- `place_piece`: 267-280
- `clear_lines`: 282-292
- `update_score`: 294-298
- `handle_input`: 358-377
- `run`: 379-388

The model has two layers.

- **Values.** Every engine operation is a pure transition on a `Game`
  snapshot of the object's fields (module `Engine`). The lemmas about the
  game are stated on these transitions:
  - an invariant every step keeps (`ValidGame`);
  - what locking a piece does;
  - bag fairness;
  - how the hard-drop key and gravity lock a piece twice.
- **Objects.** `Tetris.TetrisGame` is a class with the same fields as the
  Python object. The grid is a `seq` of rows, and the bag is a `seq` that
  `new_piece` pops from the end. Every method is proved to change the fields
  exactly as the matching transition says (`Snapshot() == F(old(Snapshot()), …)`).
  The two loops of `place_piece` and `clear_lines` run on the grid value, in
  `Tetris.WritePiece` and `Tetris.ClearRows`. `check_collision` is a loop in
  `TetrisGame.CheckCollision`.

Things outside the engine become parameters:

- `random.shuffle` becomes `deck`, the permutation of the seven names that a
  refill uses. A call that might refill takes one.
- `pygame.time.get_ticks()` becomes `now`.
- The high-score file that was loaded becomes the constructor's argument.

Modules and files:

- `Shapes` (shapes.dfy): the `SHAPES` table.
- `Board` (board.dfy): the grid, full rows, and the meaning of `clear_lines`.
- `Bag` (bag.dfy): the 7-bag draws of `init_bag` and `new_piece`.
- `Scoring` (scoring.dfy): `update_score`.
- `Pieces` (pieces.dfy): `check_collision`, the cell writes of `place_piece`,
  and the spawn position.
- `Engine` (engine.dfy): the transitions and the lemmas about them.
- `Tetris` (tetris_game.dfy): the class.
- `HighScores` (high_scores.dfy): `add_score`.

### Behaviour of the code worth knowing

- **`game_over` does not stop `place_piece`.** `place_piece`
  (alternative.py:330-346) never reads `game_over`, and `run`
  (alternative.py:477-487) tests the flag only at the top of each pass. So
  after the game is over:
  - the hard-drop key still writes the current piece into the grid;
  - a gravity step in the same pass still calls `place_piece()`. This
    happens, for instance, when Escape ends the game earlier in that pass.

  `HardDropWhenOver` and `GravityLocks` state this. Once set, the flag never
  goes back to false (`KeyKeepsValid`, `LockF`, `TickF`).
- **The hard-drop key locks twice.** In `handle_input`
  (alternative.py:469-473), `while self.move(0, 1): pass` already locks the
  piece when the last move fails. The `place_piece()` after the loop then
  locks the freshly spawned piece where it appeared, without any collision
  test. `HardDropLocksTwice` proves that the key equals two locks.
- **Gravity on a blocked piece also locks twice.** `move(0, 1)` locks the
  piece, and `run` then calls `place_piece()` again
  (alternative.py:483-484, `GravityLocks`).
- **The `I` piece lists its two orientations twice**, which makes four
  rotations (alternative.py:23-28, `RotationCounts`).

Integers are unbounded in Python, and they are unbounded here too.

## Model

| member | source | states |
|---|---|---|
| Shapes.Rotations | alternative.py:22-58 | the shape table; every shape has 1, 2 or 4 rotations, and each matrix has 1-4 rows of one width of 1-4 with an occupied cell in every row (which the lock and above-top reasoning relies on) |
| Shapes.RotationCounts | alternative.py:22-58 | O has one rotation, S and Z two, and I, T, L and J four |
| Shapes.AllShapesOnce | alternative.py:274 | the table's keys are the seven names, each exactly once |
| Bag.ShuffleMultiset | alternative.py:274-275 | a shuffle of the table's keys (seven entries covering every key) holds each of the seven names exactly once |
| Bag.Draw | alternative.py:281-285 | a draw refills an empty bag with the shuffle, then pops the last name: the remaining bag plus the drawn name is the old bag, or the deck when it was empty |
| Bag.DrawKeepsBagOk | alternative.py:281-285 | a draw keeps "fewer than seven left, no name twice among the bag and the buffered next name" |
| Bag.FirstDrawBagOk | alternative.py:274-276 | `init_bag`'s first pop sets up that invariant |
| Bag.ReversePermutes | alternative.py:285 | handing out a bag back to front gives each of its names once |
| Bag.DrainBag | alternative.py:281-285 | a non-empty bag is handed out from its end without refilling |
| Bag.ReverseOnce | alternative.py:285 | handing out, back to front, a deck that holds each name once gives each name exactly once |
| Bag.RefillOrder | alternative.py:281-285 | a refill and the six draws after it hand out that deck back to front, and the decks offered to those six are never used |
| Bag.RefillIsFair | alternative.py:281-285 | the seven draws that start with a refill hand out each of the seven names exactly once |
| Scoring.Points | alternative.py:363-364 | the points table gives at most 800, and a positive value exactly for 1-4 rows (`points.get(lines, 0)`) |
| Scoring.LevelFor | alternative.py:365 | the level is at least 1, and the score lies in that level's band of a thousand |
| Scoring.SpeedFor | alternative.py:367 | the fall interval is between 50 and 1000 ms; it is 1000 − 100·(level−1) unless clamped to 50, which happens only from level 11 |
| Scoring.ScoreAfter | alternative.py:364 | the score never decreases and grows by points × level |
| Scoring.PointsIncrease | alternative.py:363 | more rows at once are worth strictly more |
| Scoring.SpeedNonIncreasing | alternative.py:365-367 | a higher level never falls more slowly |
| Scoring.ScoreExamples | alternative.py:361-367 | a tetris at level 1 gives 800; 1000 points reach level 2 and 900 ms; level 11 is clamped to 50 ms |
| Board.EmptyGrid | alternative.py:255 | the starting grid is 20 × 10, all empty, with no full row |
| Board.EmptyRow | alternative.py:356 | the inserted row has ten empty cells and is not full |
| Board.Cleared | alternative.py:348-359 | the meaning of `clear_lines`: as many empty rows as were full, on top of the rows that were not full, in order (its properties are `ClearedShape`, `ClearedNoFull`, `ClearedOneRow`, `ClearedDeleteFull` and `ClearedIdempotent`) |
| Board.ClearedShape | alternative.py:348-359 | after clearing, the grid keeps its dimensions and has no full row, and it is as many empty rows as were full followed by the other rows in order |
| Board.KeepRows | alternative.py:353-355 | the rows that survive are not full and come from the grid |
| Board.KeepCount | alternative.py:353-356 | surviving rows plus cleared rows make up the grid |
| Board.ClearedNoFull | alternative.py:352-358 | a grid without full rows is left unchanged, and nothing is counted |
| Board.ClearedOneRow | alternative.py:353-356 | with one full row, it is deleted and an empty row goes on top |
| Board.ClearedDeleteFull | alternative.py:353-356 | deleting one full row and inserting an empty one on top leaves the final result unchanged and removes exactly one full row |
| Board.DeleteRowShift | alternative.py:355-356 | that step moves the rows above the deleted one down by one and leaves the rows below it in place |
| Board.ClearedIdempotent | alternative.py:348-359 | clearing twice is the same as clearing once |
| Pieces.MatrixOf | alternative.py:296 | a piece's matrix is a well-formed entry of the table |
| Pieces.ScanRow | alternative.py:298-305 | the inner scan reports a hit exactly when some occupied cell from column c on is blocked |
| Pieces.ScanRows | alternative.py:297-306 | the outer scan reports a hit exactly when some occupied cell from row r down is blocked |
| Pieces.Collides | alternative.py:294-306 | `check_collision` is true exactly when some occupied cell, moved by (dx, dy), is left of or right of the board, below the floor, or on an occupied cell on the board |
| Pieces.FreeIsInBounds | alternative.py:302-305 | a position without collision lies within the walls and above the floor |
| Pieces.AboveTopIff | alternative.py:337 | a cell of the piece is above row 0 exactly when the piece's y is negative |
| Pieces.InBoundsRows | alternative.py:302 | a piece within the walls occupies rows above the floor only |
| Pieces.Stamp | alternative.py:340 | writing the piece sets exactly the cells it covers to its shape and leaves every other cell as it was |
| Pieces.StampOtherRows | alternative.py:333-340 | rows the piece does not reach are unchanged |
| Pieces.Spawn | alternative.py:286-292 | the spawned piece has a valid rotation |
| Pieces.SpawnOnBoard | alternative.py:286-292 | a spawned piece is in rotation 0, on row 0, at x = 5 − width//2, and lies on the board within rows 0..3 |
| Engine.SettleF | alternative.py:342-346 | after the cells are written, the grid is the cleared grid with no full row, the buffered next piece spawns, and the score grows by points × level |
| Engine.LockF | alternative.py:330-346 | `place_piece` keeps the game invariant, never clears the game-over flag, and never sends a piece on the board above the top |
| Engine.LockAboveTop | alternative.py:335-339 | a piece above the board is not written, and only ends the game |
| Engine.LockOnBoard | alternative.py:330-346 | for a piece on the board: grid = cleared(stamped), score += points(full rows) × level, the next piece spawns and the bag pops, `last_fall` is kept, and the game ends if and only if it was over or the spawned piece collides |
| Engine.LockClearsAtMostFour | alternative.py:330-359 | one lock clears at most four rows |
| Engine.MoveF | alternative.py:308-319 | `move` shifts exactly when the game is not over and there is no collision; a blocked move down locks the piece; any other blocked move changes nothing; the result says whether the piece moved |
| Engine.MoveKeepsValid | alternative.py:308-319 | moving keeps the invariant and the game-over flag |
| Engine.NextRotation | alternative.py:326 | the next rotation number, modulo the shape's count, is valid |
| Engine.RotateF | alternative.py:321-328 | `rotate` gives either the old game or the game with the next rotation, and the next rotation exactly when the game is not over and the rotated piece does not collide |
| Engine.RotateKeepsValid | alternative.py:321-328 | rotating keeps the invariant and the game-over flag |
| Engine.DropLoop | alternative.py:471-472 | the drop loop keeps the invariant |
| Engine.DropLoopSticky | alternative.py:471-472 | the drop loop keeps a finished game finished |
| Engine.Landed | alternative.py:471-472 | a landed piece has moved straight down only, and is blocked one row further down |
| Engine.LandedFirst | alternative.py:471-472 | the landed piece stops at the first row from which moving down collides: from every row it passed, moving down was free |
| Engine.DropLoopLocksOnce | alternative.py:471-472 | the drop loop equals landing the piece and then locking it once |
| Engine.HardDropF | alternative.py:469-473 | the hard-drop key is the drop loop followed by one more `place_piece()` (its properties are `HardDropKeepsValid`, `HardDropLocksTwice` and `HardDropWhenOver`) |
| Engine.HardDropKeepsValid | alternative.py:469-473 | the hard-drop key keeps the invariant and a finished game finished |
| Engine.HardDropLocksTwice | alternative.py:469-473 | the hard-drop key equals lock(lock(landed)): the second `place_piece()` locks the new piece where it spawned |
| Engine.HardDropWhenOver | alternative.py:469-473 | after game over, the hard-drop key still locks the current piece into the grid |
| Engine.TickF | alternative.py:481-485 | gravity does nothing until more than `speed` ms have passed, then records `now`; it keeps the invariant and the game-over flag |
| Engine.TickFires | alternative.py:482-485 | a gravity step that fires is `move(0, 1)`, then `place_piece()` if the piece did not move, then the clock reading is recorded |
| Engine.GravityLocks | alternative.py:482-485 | gravity on a blocked piece locks twice, after game over it locks once, and otherwise it shifts the piece down |
| Engine.KeyF | alternative.py:460-475 | no key sends a piece on the board above the top |
| Engine.KeyKeepsValid | alternative.py:460-475 | every key keeps the invariant, and a finished game stays finished |
| Engine.InitF | alternative.py:255-277 | the new game: empty grid, score 0, level 1, 1000 ms, `last_fall` = the clock reading, not over, and current, next and bag from two draws of the shuffle (its properties are `InitValid` and `InitBag`) |
| Engine.InitValid | alternative.py:255-277 | a new game is valid: score 0, level 1, 1000 ms, not over, five names left in the bag, and bag + next + current are the seven names |
| Engine.InitBag | alternative.py:272-277 | after `init_bag`, the bag keeps five names, and together with the next and current names they are all seven, each once |
| Tetris.TetrisGame.constructor | alternative.py:255-277 | the fields equal the new game for the shuffle and the clock reading, and the game is valid |
| Tetris.TetrisGame.InitBag | alternative.py:272-277 | the bag, next name and current piece become those of two draws from the shuffle |
| Tetris.TetrisGame.NewPiece | alternative.py:279-292 | returns the spawn of the old next name and pops the bag as `Draw` says, refilling it when empty; nothing else changes |
| Tetris.TetrisGame.CheckCollision | alternative.py:294-306 | the scanning loop returns exactly `Collides` |
| Tetris.TetrisGame.Move | alternative.py:308-319 | the fields and the result are those of `MoveF`, and the invariant is kept |
| Tetris.TetrisGame.ShiftPiece | alternative.py:313-314 | only the piece's position changes, by (dx, dy) |
| Tetris.TetrisGame.SetCurrent | alternative.py:344 | `self.current_piece = …`: only the current piece changes |
| Tetris.TetrisGame.Rotate | alternative.py:321-328 | the fields become those of `RotateF`, and the invariant is kept |
| Tetris.TetrisGame.PlacePiece | alternative.py:330-346 | the fields become those of `LockF`, and the invariant is kept |
| Tetris.TetrisGame.Settle | alternative.py:342-346 | the fields become those of `SettleF` |
| Tetris.TetrisGame.WriteCells | alternative.py:332-340 | the loop writes the game's grid in place; the game ends, with the grid unchanged, exactly when the piece is above the board; otherwise only the grid changes, to the stamped grid |
| Tetris.TetrisGame.ClearLines | alternative.py:348-359 | returns the number of full rows, and only the grid changes, to `Cleared` |
| Tetris.TetrisGame.UpdateScore | alternative.py:361-367 | score, level and speed follow `ScoreAfter`, `LevelFor` and `SpeedFor`; nothing else changes |
| Tetris.TetrisGame.HardDrop | alternative.py:469-473 | the loop and the extra `place_piece()` give `HardDropF`, and the invariant is kept |
| Tetris.TetrisGame.HandleKey | alternative.py:460-475 | the fields become those of `KeyF`, and the invariant is kept |
| Tetris.TetrisGame.EndGame | alternative.py:474-475 | only the game-over flag changes, to true |
| Tetris.TetrisGame.SetLastFall | alternative.py:485 | `self.last_fall = now`: only the time of the last gravity step changes |
| Tetris.TetrisGame.GravityStep | alternative.py:481-485 | the fields become those of `TickF`, and the invariant is kept |
| Tetris.WritePiece | alternative.py:332-340 | the writing loop reports "above the board" exactly when y < 0, and then has written no cell (the grid is unchanged); otherwise it gives the stamped grid |
| Tetris.ClearRows | alternative.py:348-359 | the bottom-up delete-and-insert loop counts the full rows and gives `Cleared` |
| HighScores.Insert | alternative.py:108 | inserting one entry grows the table by one |
| HighScores.InsertPermutes | alternative.py:108 | inserting adds exactly that one entry |
| HighScores.InsertSorted | alternative.py:108 | inserting into a table sorted high to low keeps it sorted |
| HighScores.SortDesc | alternative.py:108 | the sort gives a permutation of its input, sorted from highest to lowest score |
| HighScores.SortSorted | alternative.py:108 | the sort is stable: a table that is already sorted is unchanged |
| HighScores.InsertPosition | alternative.py:108 | the new entry goes after every entry scoring at least as much, and before every entry scoring less |
| HighScores.Prefix | alternative.py:109 | `s[:n]` is the first min(n, len) entries |
| HighScores.AddScoreF | alternative.py:106-109 | the table becomes sorted with min(len+1, 10) entries, all from the old table plus the new entry |
| HighScores.AddToSorted | alternative.py:106-109 | on a sorted table, the new entry goes after the entries scoring at least as much as it, and the table is cut to ten |
| HighScores.NewEntryKept | alternative.py:106-109 | with fewer than ten entries the new one is kept; with ten, it is kept if and only if it beats the tenth score (or an equal entry is already there) |
| HighScores.KeepsBest | alternative.py:108-109 | what is cut scores no more than anything kept |
| HighScores.HighScoreManager.constructor | alternative.py:90-100 | the table is the one that was loaded |
| HighScores.HighScoreManager.AddScore | alternative.py:106-110 | the table becomes `AddScoreF` of the old one, with at most ten entries, sorted |

## Left out

- Rendering (`draw`), the menu, skins and colours, window resizing (`VIDEORESIZE`) and `QUIT`/`sys.exit`: no game state that the engine reads depends on them.
- The event queue and the main loop: `pygame.event.get()` becomes one `HandleKey` call per key event, and `run`'s loop becomes one `GravityStep` per pass. `clock.tick(FPS)` is not modelled.
- `pygame.time.get_ticks()` becomes the parameter `now`.
- `random.shuffle` becomes the parameter `deck`. The model covers any permutation the shuffle may produce, but not its probability distribution. A game step that locks twice passes the same `deck` to both refills it might need, and at most one refill can happen in such a step.
- JSON reading and writing in `load_high_scores` and `save_high_scores`: the loaded table is the constructor's parameter, and nothing is written.
- The `filename`, `window`, `skin_manager`, `player_name`, `block_size` and `clock` fields: the engine never reads them.
- `main()`, which calls `add_score` only when the score is positive: the caller is not part of this model.
- HighScores.SortDesc: Python's `list.sort` is modelled by an insertion sort. Its stability is stated through `SortSorted` and `AddToSorted`, which describe where a new entry lands among equal scores, not as a general "equal keys keep their order" property for arbitrary input lists.
- Tetris.TetrisGame.CheckCollision: it looks only at the game's own grid, like the source. Its `requires` asks that the grid is 20 × 10 and the rotation number is valid, which the source assumes silently.
- The grid's cell values: Python stores `0` or the shape's letter. The model uses `Empty` or `Filled(shape)`, so the truthiness test `all(row)` becomes "no `Empty` in the row".
