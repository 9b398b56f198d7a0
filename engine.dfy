/**
 * The per-frame game-state engine of main.c as pure functions over a snapshot of
 * the program's globals. `Step` is one call of tick(); the class in session.dfy
 * runs the same logic imperatively and is proved to agree with `Step`.
 */
module Engine {
  import opened SnakeTypes

  /** The globals of main.c that tick() and init_game() read or write. */
  datatype Snapshot = Snapshot(
    state: GameState,
    plrX: u8, plrY: u8, plrDir: Direction,
    score: u8,
    spd: u8,
    moveLock: bool,
    wrap: bool,
    joypadStatus: bv8,
    bodyTiles: seq<u8>,
    orderedBodyTiles: seq<u16>,
    currentBodyTileI: u16)

  /** The globals as the C runtime zero-initialises them, with `state = STATE_TITLE`. */
  function PowerOn(): (s: Snapshot)
    // what init_game relies on: TITLE, an empty grid and the cursor at slot 0
    ensures s.state == Title && Shaped(s) && NoSnake(s.bodyTiles) && s.currentBodyTileI == 0
  {
    Snapshot(Title, 0, 0, Left, 0, 0, false, false, 0,
             seq(RING_CAPACITY, _ => TILE_EMPTY), seq(RING_CAPACITY, _ => 0), 0)
  }

  // ---------------------------------------------------------------------------
  // Positions

  /** A pixel coordinate that names one of `cells` cells along an axis. */
  predicate OnAxis(v: u8, cells: int)
  {
    v as int % CELL == 0 && v as int < cells * CELL
  }

  /** A coordinate one step outside the axis: 0 - 8 wraps to 248, or one past the last cell. */
  predicate JustOffAxis(v: u8, cells: int)
  {
    v == 248 || v as int == cells * CELL
  }

  /** The head is on a cell of the 20x18 grid. */
  predicate InGrid(x: u8, y: u8)
  {
    OnAxis(x, GRID_WIDTH) && OnAxis(y, GRID_HEIGHT)
  }

  /** Where one step from a grid cell can lead before wrapping or the border test. */
  predicate NearGrid(x: u8, y: u8)
  {
    (OnAxis(x, GRID_WIDTH) || JustOffAxis(x, GRID_WIDTH)) &&
    (OnAxis(y, GRID_HEIGHT) || JustOffAxis(y, GRID_HEIGHT))
  }

  // ---------------------------------------------------------------------------
  // Turning (main.c:83-106)

  /** The first input block: heading left or right, UP (checked first) or DOWN turns. */
  function TurnVertical(dir: Direction, lock: bool, pad: bv8): (r: (Direction, bool))
    ensures r.0 != dir ==> !lock && dir.Horizontal() && r.0.Vertical() && r.1
    ensures r.0 == dir ==> r.1 == lock
    ensures !lock && dir.Horizontal() && Pressed(pad, J_UP) ==> r.0 == Up
    ensures !lock && dir.Horizontal() && !Pressed(pad, J_UP) && Pressed(pad, J_DOWN) ==> r.0 == Down
    ensures !Pressed(pad, J_UP) && !Pressed(pad, J_DOWN) ==> r == (dir, lock)
  {
    if !lock && dir.Horizontal() then
      if Pressed(pad, J_UP) then (Up, true)
      else if Pressed(pad, J_DOWN) then (Down, true)
      else (dir, lock)
    else (dir, lock)
  }

  /** The second input block: heading up or down, LEFT (checked first) or RIGHT turns. */
  function TurnHorizontal(dir: Direction, lock: bool, pad: bv8): (r: (Direction, bool))
    ensures r.0 != dir ==> !lock && dir.Vertical() && r.0.Horizontal() && r.1
    ensures r.0 == dir ==> r.1 == lock
    ensures !lock && dir.Vertical() && Pressed(pad, J_LEFT) ==> r.0 == Left
    ensures !lock && dir.Vertical() && !Pressed(pad, J_LEFT) && Pressed(pad, J_RIGHT) ==> r.0 == Right
    ensures !Pressed(pad, J_LEFT) && !Pressed(pad, J_RIGHT) ==> r == (dir, lock)
  {
    if !lock && dir.Vertical() then
      if Pressed(pad, J_LEFT) then (Left, true)
      else if Pressed(pad, J_RIGHT) then (Right, true)
      else (dir, lock)
    else (dir, lock)
  }

  /** Both input blocks in order: the new `plr_dir` and `move_lock`. */
  function Turn(dir: Direction, lock: bool, pad: bv8): (r: (Direction, bool))
    // a change of heading is a perpendicular turn, only while unlocked, and it locks
    ensures r.0 != dir ==> Perpendicular(r.0, dir) && !lock && r.1
    ensures r.0 == dir ==> r.1 == lock
    // which turn wins when several buttons are held
    ensures !lock && dir.Horizontal() && Pressed(pad, J_UP) ==> r.0 == Up
    ensures !lock && dir.Horizontal() && !Pressed(pad, J_UP) && Pressed(pad, J_DOWN) ==> r.0 == Down
    ensures !lock && dir.Vertical() && Pressed(pad, J_LEFT) ==> r.0 == Left
    ensures !lock && dir.Vertical() && !Pressed(pad, J_LEFT) && Pressed(pad, J_RIGHT) ==> r.0 == Right
    // every other input is ignored
    ensures lock ==> r == (dir, lock)
    ensures dir.Horizontal() && !Pressed(pad, J_UP) && !Pressed(pad, J_DOWN) ==> r == (dir, lock)
    ensures dir.Vertical() && !Pressed(pad, J_LEFT) && !Pressed(pad, J_RIGHT) ==> r == (dir, lock)
  {
    var v := TurnVertical(dir, lock, pad);
    TurnHorizontal(v.0, v.1, pad)
  }

  // ---------------------------------------------------------------------------
  // Movement and the border (main.c:110-142)

  /**
   * One step of -8, 0 or +8 pixels from cell `k` of an axis, in 8-bit arithmetic:
   * before cell 0 it is 248, past the last cell it is `cells * 8`, otherwise it is cell `k + delta`.
   */
  lemma StepAlongAxis(v: u8, cells: int, delta: int)
    requires cells == GRID_WIDTH || cells == GRID_HEIGHT
    requires -1 <= delta <= 1
    ensures var a := Wrap8(v as int + CELL * delta);
            var k := v as int / CELL + delta;
            OnAxis(v, cells) ==>
            && (k == -1 ==> a == 248)
            && (k == cells ==> a as int == cells * CELL)
            && (0 <= k < cells ==> OnAxis(a, cells) && a as int / CELL == k)
  {
    var k := v as int / CELL;
    if OnAxis(v, cells) {
      assert v as int == k * CELL;
      if delta == -1 && k == 0 {
        assert Wrap8(v as int + CELL * delta) == 248;
      } else if delta == 1 && k == cells - 1 {
        assert Wrap8(v as int + CELL * delta) as int == cells * CELL;
      } else {
        assert Wrap8(v as int + CELL * delta) as int == (k + delta) * CELL;
      }
    }
  }

  /** One 8-pixel step along `dir` in unsigned 8-bit arithmetic. */
  function Advance(x: u8, y: u8, dir: Direction): (r: (u8, u8))
    ensures dir.Horizontal() ==> r.1 == y && (r.0 as int - x as int) % 0x100 == (if dir == Right then CELL else 0x100 - CELL)
    ensures dir.Vertical() ==> r.0 == x && (r.1 as int - y as int) % 0x100 == (if dir == Down then CELL else 0x100 - CELL)
    ensures InGrid(x, y) ==> NearGrid(r.0, r.1)
  {
    match dir
    case Up => StepAlongAxis(y, GRID_HEIGHT, -1); (x, Wrap8(y as int - CELL))
    case Down => StepAlongAxis(y, GRID_HEIGHT, 1); (x, Wrap8(y as int + CELL))
    case Left => StepAlongAxis(x, GRID_WIDTH, -1); (Wrap8(x as int - CELL), y)
    case Right => StepAlongAxis(x, GRID_WIDTH, 1); (Wrap8(x as int + CELL), y)
  }

  /** Screen wrap along one axis: 248 (0 - 8) goes to the last cell, one past the last cell goes to 0. */
  function WrapCoord(v: u8, cells: int): (r: u8)
    requires cells == GRID_WIDTH || cells == GRID_HEIGHT
    ensures OnAxis(v, cells) || JustOffAxis(v, cells) ==> OnAxis(r, cells)
    ensures OnAxis(v, cells) ==> r == v
    ensures v == 248 ==> r as int == (cells - 1) * CELL
    ensures v as int == cells * CELL ==> r == 0
  {
    if v == 248 then ((cells - 1) * CELL) as u8
    else if v as int == cells * CELL then 0
    else v
  }

  /** Screen wrap: a coordinate that left the grid re-enters at the opposite edge. */
  function WrapAround(x: u8, y: u8): (r: (u8, u8))
    ensures NearGrid(x, y) ==> InGrid(r.0, r.1)
    ensures InGrid(x, y) ==> r == (x, y)
  {
    (WrapCoord(x, GRID_WIDTH), WrapCoord(y, GRID_HEIGHT))
  }

  /** The border test of the no-wrap mode. */
  function OffGrid(x: u8, y: u8): (off: bool)
    ensures NearGrid(x, y) ==> (off <==> !InGrid(x, y))
  {
    x == 248 || x == 160 || y == 248 || y == 144
  }

  /** get_plr_tile(): the head's cell index, computed as `(plr_y >> 1) * 5 + (plr_x >> 3)`. */
  function PlrTile(x: u8, y: u8): (t: u16)
    ensures InGrid(x, y) ==> t as int == CellIndex(x as int / CELL, y as int / CELL) < NUM_CELLS
  {
    ((y as int / 2) * 5 + x as int / 8) as u16
  }

  // ---------------------------------------------------------------------------
  // The body tracker (main.c:144-158)

  /** A ring slot is either unused or the index of a grid cell. */
  predicate SlotOk(v: u16)
  {
    v == DUMMY_BODY_TILE || (v as int) < NUM_CELLS
  }

  /** The two arrays have their 360 entries and the cursor is inside the ring. */
  predicate Shaped(s: Snapshot)
  {
    |s.bodyTiles| == NUM_CELLS && |s.orderedBodyTiles| == RING_CAPACITY &&
    (s.currentBodyTileI as int) < RING_CAPACITY
  }

  /**
   * Evicts the cell held by the slot at the cursor, marks the head's cell, stores
   * the head's index in that slot and advances the cursor, which wraps at
   * get_max_snake_size().
   */
  function RecordHead(s: Snapshot): (r: Snapshot)
    requires Shaped(s) && InGrid(s.plrX, s.plrY)
    requires SlotOk(s.orderedBodyTiles[s.currentBodyTileI])
    ensures Shaped(r)
    ensures r == s.(bodyTiles := r.bodyTiles, orderedBodyTiles := r.orderedBodyTiles,
                    currentBodyTileI := r.currentBodyTileI)
    ensures var tile := PlrTile(s.plrX, s.plrY) as int;
            var slot := s.currentBodyTileI as int;
            var evicted := s.orderedBodyTiles[slot];
            // the head's cell is marked, even when it is the cell being evicted
            && r.bodyTiles[tile] == TILE_SNAKE
            // the evicted cell is cleared unless the head moved into it
            && (evicted != DUMMY_BODY_TILE && evicted as int != tile ==>
                  r.bodyTiles[evicted] == TILE_EMPTY)
            // no other cell changes
            && (forall c ::
                  0 <= c < NUM_CELLS && c != tile && (evicted == DUMMY_BODY_TILE || c != evicted as int)
                  ==> r.bodyTiles[c] == s.bodyTiles[c])
            // the slot now holds the head, every other slot is unchanged
            && r.orderedBodyTiles[slot] as int == tile
            && (forall j :: 0 <= j < RING_CAPACITY && j != slot ==>
                  r.orderedBodyTiles[j] == s.orderedBodyTiles[j])
            // the cursor moves to the next slot, back to 0 at the snake's length
            && (r.currentBodyTileI as int) < MaxSnakeSize(s.score)
            && (slot + 1 < MaxSnakeSize(s.score) ==> r.currentBodyTileI as int == slot + 1)
            && (slot + 1 >= MaxSnakeSize(s.score) ==> r.currentBodyTileI == 0)
  {
    var slot := s.currentBodyTileI;
    var evicted := s.orderedBodyTiles[slot];
    var cleared := if evicted != DUMMY_BODY_TILE then s.bodyTiles[evicted := TILE_EMPTY] else s.bodyTiles;
    var tile := PlrTile(s.plrX, s.plrY);
    var next := slot as int + 1;
    s.(bodyTiles := cleared[tile := TILE_SNAKE],
       orderedBodyTiles := s.orderedBodyTiles[slot := tile],
       currentBodyTileI := if next >= MaxSnakeSize(s.score) then 0 else next as u16)
  }

  // ---------------------------------------------------------------------------
  // The invariant of reachable states

  /** No cell of the grid shows the snake. */
  predicate NoSnake(body: seq<u8>)
  {
    forall c :: 0 <= c < |body| ==> body[c] != TILE_SNAKE
  }

  /**
   * The ring window [0, score + 3) accounts for the body: the cursor stays in the
   * window, slots past the window were never written, and every cell marked as
   * snake is held by a slot of the window.
   */
  predicate Tracked(s: Snapshot)
    requires Shaped(s)
  {
    var n := MaxSnakeSize(s.score);
    (s.currentBodyTileI as int) < n &&
    (forall j :: n <= j < RING_CAPACITY ==> s.orderedBodyTiles[j] == DUMMY_BODY_TILE) &&
    (forall c :: 0 <= c < NUM_CELLS && s.bodyTiles[c] == TILE_SNAKE ==>
       exists j :: 0 <= j < n && s.orderedBodyTiles[j] as int == c)
  }

  /**
   * What tick() needs to be defined: array indices in range (the cursor, every
   * ring slot, the head's cell) and a nonzero `spd` for `sys_time % spd` in GAME.
   */
  predicate Safe(s: Snapshot)
  {
    Shaped(s) &&
    (forall j :: 0 <= j < RING_CAPACITY ==> SlotOk(s.orderedBodyTiles[j])) &&
    (s.state == Game ==> s.spd > 0 && InGrid(s.plrX, s.plrY))
  }

  /**
   * What holds of the globals in every state tick() can reach from power-on.
   * STATE_TITLE occurs only at power-on, before any move: init_game relies on this,
   * since it clears neither `body_tiles` nor `current_body_tile_i`.
   */
  predicate Inv(s: Snapshot)
  {
    Safe(s) &&
    (forall c :: 0 <= c < NUM_CELLS ==> s.bodyTiles[c] == TILE_EMPTY || s.bodyTiles[c] == TILE_SNAKE) &&
    (s.state == Title ==> NoSnake(s.bodyTiles) && s.currentBodyTileI == 0) &&
    (s.state != Title ==> Tracked(s))
  }

  // ---------------------------------------------------------------------------
  // init_game and tick

  /** init_game(): every ring slot unused, the head at (80, 64) heading left, normal speed, wrap on. */
  function InitGame(s: Snapshot): (r: Snapshot)
    // every slot unused, and play can start: the head on the grid and a nonzero speed
    ensures |r.orderedBodyTiles| == RING_CAPACITY
    ensures forall j :: 0 <= j < RING_CAPACITY ==> r.orderedBodyTiles[j] == DUMMY_BODY_TILE
    ensures Shaped(s) ==> Safe(r.(state := Game))
    ensures r.score == 0 && r.wrap && !r.moveLock
    // neither the grid nor the cursor is reset
    ensures r.bodyTiles == s.bodyTiles && r.currentBodyTileI == s.currentBodyTileI && r.state == s.state
  {
    s.(orderedBodyTiles := seq(RING_CAPACITY, _ => DUMMY_BODY_TILE),
       plrX := 80, plrY := 64, plrDir := Left, moveLock := false,
       score := 0, spd := SPD_NORMAL, wrap := true)
  }

  /** The STATE_GAME branch of tick(), with `joypad_status` already sampled: input, then a move on every `spd`-th frame. */
  function GameTick(s: Snapshot, sysTime: u16): (r: Snapshot)
    requires Safe(s) && s.state == Game
    ensures r.state == Game || (!s.wrap && r.state == GameOver)
    ensures r.score == s.score && r.spd == s.spd && r.wrap == s.wrap && r.joypadStatus == s.joypadStatus
  {
    var turned := Turn(s.plrDir, s.moveLock, s.joypadStatus);
    var s1 := s.(plrDir := turned.0, moveLock := turned.1);
    if sysTime as int % s.spd as int != 0 then s1 else Move(s1)
  }

  /** A move: one step, the lock released, then the screen wrap or the border test, then the body update. */
  function Move(s: Snapshot): (r: Snapshot)
    requires Safe(s) && s.state == Game
    ensures r.plrDir == s.plrDir && !r.moveLock
    ensures r.score == s.score && r.spd == s.spd && r.wrap == s.wrap && r.joypadStatus == s.joypadStatus
    ensures r.state == Game || (!s.wrap && r.state == GameOver)
  {
    var p := Advance(s.plrX, s.plrY, s.plrDir);
    var s1 := s.(moveLock := false);
    if s.wrap then
      var w := WrapAround(p.0, p.1);
      RecordHead(s1.(plrX := w.0, plrY := w.1))
    else if OffGrid(p.0, p.1) then
      s1.(plrX := p.0, plrY := p.1, state := GameOver)
    else
      RecordHead(s1.(plrX := p.0, plrY := p.1))
  }

  /** tick(): sample the joypad, then dispatch on `state`. */
  function Step(s: Snapshot, pad: bv8, sysTime: u16): (r: Snapshot)
    requires Safe(s)
    ensures r.joypadStatus == pad
    // TITLE is left on the first tick and never entered again
    ensures r.state != Title
    // only init_game writes the score, the speed and the wrap flag
    ensures s.state != Title ==> r.score == s.score && r.spd == s.spd && r.wrap == s.wrap
    // the game ends only with wrap off
    ensures s.state != GameOver && r.state == GameOver ==> !s.wrap
  {
    var s1 := s.(joypadStatus := pad);
    match s.state
    case Game => GameTick(s1, sysTime)
    case GameOver => s1
    case Title => InitGame(s1).(state := Game)
    case Pause => s1
  }
}
