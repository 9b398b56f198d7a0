# snake-gb game engine in Dafny

This project models the per-frame game engine of a Game Boy snake game, `main.c`. The model covers `tick()`, which runs once per display frame, and `init_game()`. The globals of `main.c` become the fields of one object, `GameSession.Session`:

- the game state (TITLE, GAME, GAMEOVER, PAUSE);
- the head position `plr_x`/`plr_y` in pixels and the heading `plr_dir`;
- the `move_lock` flag, the speed `spd`, the `wrap` flag and the `score`;
- the 360-cell occupancy grid `body_tiles`;
- the 360-slot ring `ordered_body_tiles`, which holds the cells the snake entered in order, and its write cursor `current_body_tile_i`.

`Session.Tick` and `Session.InitGame` change these fields and arrays in place, as the C code does. `Session.Model()` reads the object back as a value, an `Engine.Snapshot`. Each method is proved to transform that value exactly as the pure function `Engine.Step` or `Engine.InitGame` does. `Tick` and `InitGame` also keep the invariant `Engine.Inv` of reachable states. The lemmas in `EngineProperties` state what those functions mean. `SnakeBody` proves a stronger invariant, `SnakeBody.Reach`, of the states that tick() reaches from power-on. In those states the grid marks exactly the cells held by the used slots of a three-slot ring window. Those cells are distinct, so the snake covers exactly min(moves, 3) cells.

The joypad bits and the frame counter `sys_time` are parameters of `Tick`. Coordinates are `uint8_t` values, and a step is computed modulo 256. So moving left from x = 0 gives 248, the value that the wrap and border tests look for.

Files:

- `types.dfy` (module `SnakeTypes`): machine integer types, the state and heading codes, the joypad bits and the tile constants.
- `engine.dfy` (module `Engine`): tick() and init_game() as pure functions, and the invariant.
- `properties.dfy` (module `EngineProperties`): the lemmas.
- `session.dfy` (module `GameSession`): the imperative class.
- `snake.dfy` (module `SnakeBody`): the torus geometry of cell indices and the exact length of the snake.

## Model

| member | source | states |
|---|---|---|
| SnakeTypes.MaxSnakeSize | main.c:32 | The snake's length `score + 3` is between 3 and 258, because `score` is 8-bit. |
| SnakeTypes.Wrap8 | main.c:112-123 | Storing an integer into a `uint8_t` keeps it modulo 256: one step below 0 adds 256, one step above 255 subtracts 256. |
| Engine.PowerOn | main.c:35-52 | The zero-initialised globals are in TITLE. Both arrays have 360 entries, no cell is marked and the cursor is 0. |
| Engine.TurnVertical | main.c:83-94 | The first input block changes the heading only while the lock is clear and the heading is left or right, and only to up or down. A change sets the lock. UP wins over DOWN. With neither UP nor DOWN pressed, heading and lock are unchanged. |
| Engine.TurnHorizontal | main.c:95-106 | The second input block changes the heading only while the lock is clear and the heading is up or down, and only to left or right. A change sets the lock. LEFT wins over RIGHT. With neither LEFT nor RIGHT pressed, heading and lock are unchanged. |
| Engine.Turn | main.c:83-106 | A heading changes only while `move_lock` is clear, only to a perpendicular heading, and the change sets the lock. Heading left/right: UP wins over DOWN. Heading up/down: LEFT wins over RIGHT. Every other input leaves the heading and the lock as they were. |
| Engine.StepAlongAxis | main.c:112-123 | Along one axis, a step of -8, 0 or +8 from cell k lands on cell k + delta. Before cell 0 it gives 248. Past the last cell it gives `cells * 8`. |
| Engine.Advance | main.c:110-124 | A move changes exactly one coordinate, the one along the heading, by +8 or -8 modulo 256. From a grid cell it lands on a cell or one step outside the grid (248, 160 or 144). |
| Engine.WrapCoord | main.c:128-137 | On one axis, wrap maps 248 to the last cell and one past the last cell to 0, so every value on the axis or one step off it ends on the axis. It leaves on-axis values alone. |
| Engine.WrapAround | main.c:128-138 | Wrap mode maps any position one step outside the grid back onto the grid. A position already on the grid is unchanged. |
| Engine.OffGrid | main.c:139 | For a position reachable in one step from the grid, the border test holds exactly when the position is not on the grid. |
| Engine.PlrTile | main.c:31 | For an aligned on-grid head, `(plr_y >> 1) * 5 + (plr_x >> 3)` equals `row * 20 + col` and is below 360. |
| Engine.RecordHead | main.c:144-158 | Body update. A used slot at the cursor has its cell cleared, unless the head moved into it. The head's cell is marked. The slot gets the head's index. No other cell or slot changes. The cursor moves to the next slot and goes back to 0 at `score + 3`, so it stays below `score + 3`. |
| Engine.InitGame | main.c:176-188 | All 360 ring slots become the sentinel. Score is 0, wrap is on and the lock is clear. From well-shaped arrays the result is a well-defined GAME state. The grid, the cursor and the state are kept. |
| Engine.GameTick | main.c:81-160 | A GAME frame either stays in GAME or, only with wrap off, ends the game. Score, speed, wrap and joypad bits are unchanged. |
| Engine.Step | main.c:76-173 | A tick stores the joypad bits and never leaves the game in TITLE. Outside TITLE it keeps score, speed and wrap. It ends the game only with wrap off. |
| Engine.Move | main.c:109-158 | A move keeps the heading, clears the lock and leaves score, speed, wrap and joypad bits alone. It can end the game only with wrap off. |
| EngineProperties.PlrTileCoordinates | main.c:148-154 | The column `tile % 20` and row `tile / 20` used when a cell is cleared are the head's `plr_x >> 3` and `plr_y >> 3`. A head's index is never the sentinel 65535. |
| EngineProperties.PlrTileInjective | main.c:31 | Distinct grid positions get distinct cell indices. |
| EngineProperties.AdvanceByOffsets | main.c:110-124 | The movement switch is a step of (-1, 0), (1, 0), (0, -1) or (0, 1) cells in 8-bit arithmetic. |
| EngineProperties.WrapCoordIsModular | main.c:128-137 | On one axis, a step followed by the wrap moves the cell number by the step, modulo the axis length. |
| EngineProperties.WrapIsTorus | main.c:128-138 | With wrap on, a move from any cell lands on the neighbouring cell of the 20x18 torus: column and row change by the step, modulo 20 and 18. |
| EngineProperties.BorderIsExact | main.c:139-142 | With wrap off, a move is off the grid exactly when the neighbouring cell lies outside the 20x18 grid. Otherwise it lands on that cell. |
| EngineProperties.TickInQuietStates | main.c:162-171 | A tick in GAMEOVER or PAUSE changes nothing except the sampled joypad bits. |
| EngineProperties.TickInTitle | main.c:165-187 | A tick in TITLE enters GAME. All 360 slots become the sentinel, the head is at (80, 64) heading left, the lock is clear, score is 0, `spd` is 6 and wrap is on. The grid and the cursor are kept. |
| EngineProperties.TickWithoutMove | main.c:81-108 | In GAME, when `sys_time % spd != 0`, only the heading and the lock may change, as `Turn` says. Position, state, grid, ring and cursor are unchanged. |
| EngineProperties.TickWithMove | main.c:108-160 | In GAME, when `sys_time % spd == 0`, the head advances along the new heading and the lock is cleared. With wrap on, the head wraps, the game goes on and the body is updated. With wrap off, the state becomes GAMEOVER exactly when the step is off the grid. In that case the grid, ring and cursor are untouched. |
| EngineProperties.StepKeepsSafe | main.c:76-173 | Every tick from a well-defined state gives a well-defined state: arrays of 360 entries, in-range slots and cursor, and in GAME a positive speed and an on-grid head. |
| EngineProperties.RecordHeadKeepsSafe | main.c:144-158 | The body update keeps the arrays, slots and cursor well defined. |
| EngineProperties.PowerOnSatisfiesInv | main.c:35-48 | The zero-initialised globals in TITLE satisfy the invariant. |
| EngineProperties.RecordHeadPreservesInv | main.c:144-158 | The body update keeps every cell marked as snake held by a slot in the window `[0, score + 3)`. It also keeps the slots past the window unused, the cursor inside the window, and every cell and slot value well formed. |
| EngineProperties.MovePreservesInv | main.c:109-158 | A move keeps the invariant. The head stays on the grid unless the game ends. |
| EngineProperties.StepPreservesInv | main.c:76-173 | Every tick keeps the invariant. |
| EngineProperties.WindowCellsBound | main.c:46-48 | The first n slots of the ring hold at most n distinct cells. |
| EngineProperties.SnakeLengthBounded | main.c:144-158 | In any state that satisfies the invariant, at most `score + 3` cells are marked as snake. |
| EngineProperties.SnakeNeverOutgrowsItsLength | main.c:57-73 | From power-on, for every sequence of joypad inputs and frame times, the game stays in the invariant and covers at most `score + 3` cells. |
| EngineProperties.AtMostOneTurnBetweenMoves | main.c:83-125 | Over frames with no move, the head stays put. `move_lock` lets through at most one turn, and that turn is perpendicular. |
| EngineProperties.NoReversalBetweenMoves | main.c:83-125 | The heading of the next move equals the previous move's heading or is perpendicular to it. It is never the reverse. That move clears the lock. |
| SnakeBody.NextCell | main.c:110-138 | The neighbouring cell of a cell index on the 20x18 torus is a cell index. Its column and row are the old ones shifted by the heading's offsets, modulo 20 and 18. |
| SnakeBody.MoveIsNextCell | main.c:110-152 | With wrap on, the cell index of the head after a move is the neighbouring torus cell of the index before it. |
| SnakeBody.NextCellLeaves | main.c:110-138 | A move never stays on the cell it leaves: the torus is at least 3 cells wide in each direction. |
| SnakeBody.NextCellInjective | main.c:110-138 | Moves along different headings from one cell land on different cells. |
| SnakeBody.NextCellBack | main.c:110-138 | A move followed by a move in the opposite heading returns to the cell it started from. |
| SnakeBody.PowerOnReach | main.c:35-52 | The power-on state is reachable: invariant, score 0, TITLE. |
| SnakeBody.TitleReach | main.c:165-168 | Leaving TITLE gives a GAME state with wrap on, an empty three-slot window and no marked cell. |
| SnakeBody.TurnKeepsReach | main.c:83-106 | A turn keeps the reachable-state invariant. The new heading never points at the cell the head came from, because `move_lock` allows one perpendicular turn per move. |
| SnakeBody.RecordKeepsShape | main.c:144-158 | After a step from the newest held cell, the body update keeps the window's used slots first, distinct and marked. The newest slot holds the head. The window gains one used slot until all three are used. |
| SnakeBody.MoveKeepsReach | main.c:109-158 | A move with wrap on keeps the reachable-state invariant and gains one used slot until all three are used. |
| SnakeBody.HeldCellsCount | main.c:144-158 | The used slots of the window hold exactly as many distinct cells as there are used slots. |
| SnakeBody.SnakeIsWindow | main.c:144-158 | In a reachable GAME state the marked cells are exactly the cells of the used slots, both ways, and there are as many of them as used slots. |
| SnakeBody.LengthIsSnake | main.c:144-158 | In a reachable state the number of marked cells is 0 in TITLE and the number of used slots in GAME. |
| SnakeBody.StepKeepsReach | main.c:76-173 | Every tick keeps the reachable-state invariant. The snake gains one cell on a move frame until it is three cells long, and keeps its length on every other frame. |
| SnakeBody.RunKeepsReach | main.c:66-72 | Every run of ticks from a reachable state ends in a reachable state. |
| SnakeBody.FirstFrame | main.c:66-72 | The state after a run's first frame is reachable. Growth over the rest of the run gives growth over the whole run. |
| SnakeBody.GrowsFromRest | main.c:66-72 | One frame's growth and the growth over the rest of the run add up to the growth over the whole run. |
| SnakeBody.RunGrowsSnake | main.c:66-72 | Over any run of ticks from a reachable state the snake gains one cell per move frame, up to three cells. |
| SnakeBody.SnakeIsExactlyItsLength | main.c:57-73 | From power-on, for every sequence of joypad inputs and frame times, the game is in TITLE or GAME with score 0. In GAME the marked cells are exactly the cells of the ring window. The number of marked cells is exactly min(number of move frames, `score + 3`). |
| GameSession.Session.constructor | main.c:35-52 | The object starts as the zero-initialised globals in TITLE, and they satisfy the invariant. |
| GameSession.Session.InitGame | main.c:176-188 | The loop sets all 360 ring slots to the sentinel. The rest of init_game resets the player and settings. The result is `Engine.InitGame` of the old state. |
| GameSession.Session.Tick | main.c:76-173 | One frame updates the object exactly as `Engine.Step` says, and keeps the invariant. |
| GameSession.Session.Dispatch | main.c:79-172 | The switch on the game state, after the joypad bits are sampled, updates the object exactly as `Engine.Step` says for those bits. |
| GameSession.Session.PlayFrame | main.c:81-160 | The GAME branch updates the object exactly as `Engine.GameTick` says. |
| GameSession.Session.Move | main.c:109-158 | The movement, wrap/border and body-update code changes the object exactly as `Engine.Move` says. |
| GameSession.Session.Steer | main.c:83-106 | The two input blocks set heading and lock as `Turn` says and touch nothing else. |
| GameSession.Session.MoveHead | main.c:110-124 | The movement switch gives `Advance` of the old position. |
| GameSession.Session.WrapHead | main.c:128-138 | The wrap block gives `WrapAround` of the position. |
| GameSession.Session.RecordPosition | main.c:144-158 | The arrays and cursor are updated in place exactly as `RecordHead` says. |

`Engine.Step` requires only `Engine.Safe`: the conditions under which tick() stays defined. They are:

- both arrays have 360 entries;
- the cursor and every used slot index a cell;
- in GAME, `spd > 0` and the head is on an aligned grid cell.

The invariant `Engine.Inv` of reachable states adds three more conditions:

- Every cell is TILE_EMPTY or TILE_SNAKE.
- In TITLE, no cell is marked and the cursor is 0.
- Outside TITLE, every marked cell is held by a slot in `[0, score + 3)`, the later slots are unused, and the cursor is in that window.

The TITLE clause matters because `init_game` clears neither `body_tiles` nor `current_body_tile_i`. Its correctness depends on TITLE being only the power-on state, and that holds in this program.

## Left out

- Rendering: `font_init`, `font_load`, `set_bkg_data`, `set_bkg_tiles`, `set_bkg_tile_xy`, SHOW_BKG and DISPLAY_ON only draw and never feed back into the game state. `PlrTileCoordinates` shows that the cleared cell's display coordinates are the ones that were drawn.
- The endless loop and `wait_vbl_done` (frame timing). One call of `Session.Tick` is one frame; `EngineProperties.Run` chains ticks.
- `joypad()` and `sys_time` are library and hardware reads. They are the `pad` and `sysTime` parameters. The joypad bit values are GBDK's (RIGHT 0x01, LEFT 0x02, UP 0x04, DOWN 0x08); gb.h is not part of this model.
- `food_x`, `food_y` and `high_scores[12]` are declared in main.c but never read or written by `tick()` or `init_game()`. savedata.c, savedata.h and tiles.h hold only data declarations and graphics.
- `state` and `plr_dir` are `uint8_t` in C. Here they are enumerations of the four codes that the program ever assigns.
- `sys_time % spd` with `spd == 0` would divide by zero in C. GAME is only entered after `init_game` sets `spd` to 6, and `Engine.Safe` records `spd > 0` in GAME.
- EngineProperties.SnakeLengthBounded: for an arbitrary state that satisfies `Engine.Inv`, only the upper bound `score + 3` on the marked cells is proved, since such a state need not be reachable. For the states reached from power-on, `SnakeBody.SnakeIsWindow` proves the converse (every used slot's cell is marked) and `SnakeBody.SnakeIsExactlyItsLength` proves the exact count.
- Food placement, score increase, pause toggle, edge-triggered input, difficulty selection, self-collision and high-score update: `main.c` has no code for them. TITLE enters GAME on the first frame, without waiting for a button.
- `move_lock` stays set from a turn until the next move, which can be several frames later. The model keeps it exactly that long.
