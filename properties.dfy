/**
 * Properties of the engine of main.c: what one tick() does in each state, the
 * geometry of moving, wrapping and the border, the invariant of reachable states
 * and what it implies about the snake's body, and the turning discipline across
 * the frames between two moves.
 */
module EngineProperties {
  import opened SnakeTypes
  import opened Engine

  // ---------------------------------------------------------------------------
  // Cell geometry

  /** Column and row offsets of one step along a heading. */
  function DCol(d: Direction): (dc: int)
    ensures -1 <= dc <= 1
  {
    match d
    case Left => -1
    case Right => 1
    case _ => 0
  }

  function DRow(d: Direction): (dr: int)
    ensures -1 <= dr <= 1 && (dr == 0 <==> DCol(d) != 0)
  {
    match d
    case Up => -1
    case Down => 1
    case _ => 0
  }

  /**
   * get_plr_tile() and the eviction's display coordinates agree: the column and
   * row recovered from a head's cell index (`tile % 20`, `tile / 20`, main.c:148)
   * are those of the head (`plr_x >> 3`, `plr_y >> 3`, main.c:154).
   */
  lemma PlrTileCoordinates(x: u8, y: u8)
    requires InGrid(x, y)
    ensures PlrTile(x, y) as int % GRID_WIDTH == x as int / CELL
    ensures PlrTile(x, y) as int / GRID_WIDTH == y as int / CELL
    ensures PlrTile(x, y) != DUMMY_BODY_TILE
  {
    var col, row := x as int / CELL, y as int / CELL;
    var t := PlrTile(x, y) as int;
    assert t == row * GRID_WIDTH + col && 0 <= col < GRID_WIDTH;
    assert t / GRID_WIDTH == row && t % GRID_WIDTH == col by {
      assert t == GRID_WIDTH * row + col;
    }
  }

  /** Distinct grid positions have distinct cell indices. */
  lemma PlrTileInjective(x1: u8, y1: u8, x2: u8, y2: u8)
    requires InGrid(x1, y1) && InGrid(x2, y2)
    requires PlrTile(x1, y1) == PlrTile(x2, y2)
    ensures x1 == x2 && y1 == y2
  {
    PlrTileCoordinates(x1, y1);
    PlrTileCoordinates(x2, y2);
  }

  /** The movement switch as a column and row offset. */
  lemma AdvanceByOffsets(x: u8, y: u8, d: Direction)
    ensures Advance(x, y, d) == (Wrap8(x as int + CELL * DCol(d)), Wrap8(y as int + CELL * DRow(d)))
  {
  }

  /** Along one axis, a step followed by the wrap moves the cell number by the step modulo the axis length. */
  lemma WrapCoordIsModular(v: u8, cells: int, delta: int)
    requires cells == GRID_WIDTH || cells == GRID_HEIGHT
    requires OnAxis(v, cells) && -1 <= delta <= 1
    ensures var w := WrapCoord(Wrap8(v as int + CELL * delta), cells);
            OnAxis(w, cells) && w as int / CELL == (v as int / CELL + delta) % cells
  {
    StepAlongAxis(v, cells, delta);
  }

  /**
   * With wrap on, a move from a grid cell lands on the neighbouring cell of the
   * 20x18 torus: column and row are preserved modulo the grid's size.
   */
  lemma WrapIsTorus(x: u8, y: u8, d: Direction)
    requires InGrid(x, y)
    ensures var p := Advance(x, y, d);
            var w := WrapAround(p.0, p.1);
            && InGrid(w.0, w.1)
            && w.0 as int / CELL == (x as int / CELL + DCol(d)) % GRID_WIDTH
            && w.1 as int / CELL == (y as int / CELL + DRow(d)) % GRID_HEIGHT
  {
    AdvanceByOffsets(x, y, d);
    WrapCoordIsModular(x, GRID_WIDTH, DCol(d));
    WrapCoordIsModular(y, GRID_HEIGHT, DRow(d));
  }

  /**
   * With wrap off, a move from a grid cell is off the grid exactly when the
   * neighbouring cell is outside the 20x18 grid; otherwise it lands on that cell.
   */
  lemma BorderIsExact(x: u8, y: u8, d: Direction)
    requires InGrid(x, y)
    ensures var p := Advance(x, y, d);
            var col := x as int / CELL + DCol(d);
            var row := y as int / CELL + DRow(d);
            && (OffGrid(p.0, p.1) <==> !(0 <= col < GRID_WIDTH && 0 <= row < GRID_HEIGHT))
            && (!OffGrid(p.0, p.1) ==> InGrid(p.0, p.1) && p.0 as int / CELL == col && p.1 as int / CELL == row)
  {
  }

  // ---------------------------------------------------------------------------
  // One tick, state by state

  /** A tick reads the joypad bits first, so the bits stored before it do not matter. */
  lemma StepSamplesJoypad(s: Snapshot, pad: bv8, sysTime: u16)
    requires Safe(s)
    ensures Step(s.(joypadStatus := pad), pad, sysTime) == Step(s, pad, sysTime)
  {
  }

  /** GAMEOVER and PAUSE only sample the joypad. */
  lemma TickInQuietStates(s: Snapshot, pad: bv8, sysTime: u16)
    requires Safe(s) && (s.state == GameOver || s.state == Pause)
    ensures Step(s, pad, sysTime) == s.(joypadStatus := pad)
  {
  }

  /** TITLE runs init_game() and enters GAME; the body grid and the cursor are kept. */
  lemma TickInTitle(s: Snapshot, pad: bv8, sysTime: u16)
    requires Safe(s) && s.state == Title
    ensures var r := Step(s, pad, sysTime);
            && r.state == Game
            && |r.orderedBodyTiles| == RING_CAPACITY
            && (forall j :: 0 <= j < RING_CAPACITY ==> r.orderedBodyTiles[j] == DUMMY_BODY_TILE)
            && r.plrX == 80 && r.plrY == 64 && r.plrDir == Left && !r.moveLock
            && r.score == 0 && r.spd == SPD_NORMAL && r.wrap
            && r.bodyTiles == s.bodyTiles && r.currentBodyTileI == s.currentBodyTileI
            && r.joypadStatus == pad
  {
    var r := Step(s, pad, sysTime);
    assert r == InitGame(s.(joypadStatus := pad)).(state := Game);
    assert r.orderedBodyTiles == seq(RING_CAPACITY, _ => DUMMY_BODY_TILE);
  }

  /** In GAME on a frame with `sys_time % spd != 0` only the heading and the lock may change. */
  lemma TickWithoutMove(s: Snapshot, pad: bv8, sysTime: u16)
    requires Safe(s) && s.state == Game && sysTime as int % s.spd as int != 0
    ensures var r := Step(s, pad, sysTime);
            && (r.plrDir, r.moveLock) == Turn(s.plrDir, s.moveLock, pad)
            && r == s.(joypadStatus := pad, plrDir := r.plrDir, moveLock := r.moveLock)
  {
  }

  /**
   * In GAME on a frame with `sys_time % spd == 0` the head takes one step along the
   * (possibly just turned) heading and the lock is released. With wrap on the head
   * re-enters at the opposite edge and the body tracker records it; with wrap off a
   * step off the grid ends the game and leaves the body tracker untouched.
   */
  lemma TickWithMove(s: Snapshot, pad: bv8, sysTime: u16)
    requires Safe(s) && s.state == Game && sysTime as int % s.spd as int == 0
    ensures var r := Step(s, pad, sysTime);
            var dir := Turn(s.plrDir, s.moveLock, pad).0;
            var p := Advance(s.plrX, s.plrY, dir);
            var moved := s.(joypadStatus := pad, plrDir := dir, moveLock := false);
            && r.plrDir == dir && !r.moveLock
            && (s.wrap ==>
                  var w := WrapAround(p.0, p.1);
                  r.state == Game && r == RecordHead(moved.(plrX := w.0, plrY := w.1)))
            && (!s.wrap ==> (r.state == GameOver <==> OffGrid(p.0, p.1)))
            && (!s.wrap && OffGrid(p.0, p.1) ==> r == moved.(plrX := p.0, plrY := p.1, state := GameOver))
            && (!s.wrap && !OffGrid(p.0, p.1) ==> r == RecordHead(moved.(plrX := p.0, plrY := p.1)))
  {
  }

  // ---------------------------------------------------------------------------
  // The invariant of reachable states

  /** The zero-initialised globals satisfy the invariant. */
  lemma PowerOnSatisfiesInv()
    ensures Inv(PowerOn())
  {
    var s := PowerOn();
    assert forall c :: 0 <= c < NUM_CELLS ==> s.bodyTiles[c] == TILE_EMPTY;
    assert forall j :: 0 <= j < RING_CAPACITY ==> s.orderedBodyTiles[j] == 0;
  }

  /** Recording a move keeps every snake cell held by a slot of the ring window. */
  lemma RecordHeadPreservesInv(s: Snapshot)
    requires Inv(s) && s.state == Game
    ensures Inv(RecordHead(s))
  {
    var r := RecordHead(s);
    var n := MaxSnakeSize(s.score);
    var tile := PlrTile(s.plrX, s.plrY) as int;
    var slot := s.currentBodyTileI as int;
    forall c | 0 <= c < NUM_CELLS && r.bodyTiles[c] == TILE_SNAKE
      ensures exists j :: 0 <= j < n && r.orderedBodyTiles[j] as int == c
    {
      if c == tile {
        assert r.orderedBodyTiles[slot] as int == c;
      } else {
        assert s.bodyTiles[c] == TILE_SNAKE;
        var j :| 0 <= j < n && s.orderedBodyTiles[j] as int == c;
        assert j != slot;
        assert r.orderedBodyTiles[j] as int == c;
      }
    }
  }

  /** A move keeps the invariant: the head stays on the grid unless the game is over. */
  lemma MovePreservesInv(s: Snapshot)
    requires Inv(s) && s.state == Game
    ensures Inv(Move(s))
  {
    var p := Advance(s.plrX, s.plrY, s.plrDir);
    var s1 := s.(moveLock := false);
    if s.wrap {
      var w := WrapAround(p.0, p.1);
      RecordHeadPreservesInv(s1.(plrX := w.0, plrY := w.1));
    } else if !OffGrid(p.0, p.1) {
      RecordHeadPreservesInv(s1.(plrX := p.0, plrY := p.1));
    }
  }

  /** tick() stays defined: from any state where it is defined, the next frame's state is one too. */
  lemma StepKeepsSafe(s: Snapshot, pad: bv8, sysTime: u16)
    requires Safe(s)
    ensures Safe(Step(s, pad, sysTime))
  {
    var s1 := s.(joypadStatus := pad);
    match s.state
    case Title =>
      TickInTitle(s, pad, sysTime);
    case Game =>
      var turned := Turn(s.plrDir, s.moveLock, pad);
      var s2 := s1.(plrDir := turned.0, moveLock := turned.1);
      if sysTime as int % s.spd as int == 0 {
        var p := Advance(s2.plrX, s2.plrY, s2.plrDir);
        if s.wrap {
          var w := WrapAround(p.0, p.1);
          RecordHeadKeepsSafe(s2.(moveLock := false, plrX := w.0, plrY := w.1));
        } else if !OffGrid(p.0, p.1) {
          RecordHeadKeepsSafe(s2.(moveLock := false, plrX := p.0, plrY := p.1));
        }
      }
    case GameOver =>
    case Pause =>
  }

  /** The body update writes only cell indices into the ring. */
  lemma RecordHeadKeepsSafe(s: Snapshot)
    requires Safe(s) && s.state == Game
    ensures Safe(RecordHead(s))
  {
  }

  /** Every tick keeps the invariant. */
  lemma StepPreservesInv(s: Snapshot, pad: bv8, sysTime: u16)
    requires Inv(s)
    ensures Inv(Step(s, pad, sysTime))
  {
    var s1 := s.(joypadStatus := pad);
    match s.state
    case Title =>
      var r := Step(s, pad, sysTime);
      assert r == InitGame(s1).(state := Game);
      assert forall c :: 0 <= c < NUM_CELLS ==> r.bodyTiles[c] != TILE_SNAKE;
    case Game =>
      var turned := Turn(s.plrDir, s.moveLock, pad);
      if sysTime as int % s.spd as int == 0 {
        MovePreservesInv(s1.(plrDir := turned.0, moveLock := turned.1));
      }
    case GameOver =>
    case Pause =>
  }

  /** The grid cells marked as snake. */
  ghost function SnakeCells(body: seq<u8>): set<int>
  {
    set c | 0 <= c < |body| && body[c] == TILE_SNAKE
  }

  /** The cell indices held by the first `n` ring slots. */
  ghost function WindowCells(ring: seq<u16>, n: nat): set<int>
    requires n <= |ring|
  {
    set j | 0 <= j < n :: ring[j] as int
  }

  lemma {:induction false} WindowCellsBound(ring: seq<u16>, n: nat)
    requires n <= |ring|
    ensures |WindowCells(ring, n)| <= n
  {
    if n == 0 {
      assert WindowCells(ring, n) == {};
    } else {
      WindowCellsBound(ring, n - 1);
      assert WindowCells(ring, n) == WindowCells(ring, n - 1) + {ring[n - 1] as int};
    }
  }

  /** In every state satisfying the invariant the snake covers at most `score + 3` cells. */
  lemma SnakeLengthBounded(s: Snapshot)
    requires Inv(s)
    ensures |SnakeCells(s.bodyTiles)| <= MaxSnakeSize(s.score)
  {
    var n := MaxSnakeSize(s.score);
    if s.state == Title {
      assert SnakeCells(s.bodyTiles) == {};
    } else {
      assert SnakeCells(s.bodyTiles) <= WindowCells(s.orderedBodyTiles, n) by {
        forall c | c in SnakeCells(s.bodyTiles) ensures c in WindowCells(s.orderedBodyTiles, n) {
          var j :| 0 <= j < n && s.orderedBodyTiles[j] as int == c;
        }
      }
      WindowCellsBound(s.orderedBodyTiles, n);
      SubsetCard(SnakeCells(s.bodyTiles), WindowCells(s.orderedBodyTiles, n));
    }
  }

  lemma SubsetCard(a: set<int>, b: set<int>)
    requires a <= b
    ensures |a| <= |b|
  {
    assert b == a + (b - a);
  }

  // ---------------------------------------------------------------------------
  // Runs of ticks

  /** One call of tick() per frame, from `s`. */
  datatype Frame = Frame(pad: bv8, sysTime: u16)

  ghost function Run(s: Snapshot, frames: seq<Frame>): (r: Snapshot)
    requires Inv(s)
    ensures Inv(r)
    decreases |frames|
  {
    if frames == [] then s
    else
      StepPreservesInv(s, frames[0].pad, frames[0].sysTime);
      Run(Step(s, frames[0].pad, frames[0].sysTime), frames[1..])
  }

  /** From power-on, whatever the inputs and frame times, the snake covers at most `score + 3` cells. */
  lemma SnakeNeverOutgrowsItsLength(frames: seq<Frame>)
    ensures Inv(Run(PowerOn(), frames))
    ensures var r := Run(PowerOn(), frames);
            |SnakeCells(r.bodyTiles)| <= MaxSnakeSize(r.score)
  {
    PowerOnSatisfiesInv();
    SnakeLengthBounded(Run(PowerOn(), frames));
  }

  /** Since the heading `d0`, at most one turn was accepted, and it was perpendicular. */
  predicate AtMostOneTurn(d0: Direction, s: Snapshot)
  {
    (!s.moveLock && s.plrDir == d0) || (s.moveLock && Perpendicular(s.plrDir, d0))
  }

  /** No frame of `frames` is a move frame at speed `spd`. */
  predicate NoMoveFrames(frames: seq<Frame>, spd: u8)
    requires spd > 0
  {
    forall i :: 0 <= i < |frames| ==> frames[i].sysTime as int % spd as int != 0
  }

  /**
   * Between two moves the head stays put and `move_lock` lets at most one
   * perpendicular turn through, whatever buttons are held on those frames.
   */
  lemma {:induction false} AtMostOneTurnBetweenMoves(s: Snapshot, frames: seq<Frame>, d0: Direction)
    requires Inv(s) && s.state == Game && AtMostOneTurn(d0, s)
    requires NoMoveFrames(frames, s.spd)
    ensures var r := Run(s, frames);
            && r.state == Game && r.spd == s.spd && AtMostOneTurn(d0, r)
            && r.plrX == s.plrX && r.plrY == s.plrY
    decreases |frames|
  {
    if frames != [] {
      var f := frames[0];
      TickWithoutMove(s, f.pad, f.sysTime);
      var s1 := Step(s, f.pad, f.sysTime);
      StepPreservesInv(s, f.pad, f.sysTime);
      assert NoMoveFrames(frames[1..], s1.spd) by {
        forall i | 0 <= i < |frames[1..]| ensures frames[1..][i].sysTime as int % s1.spd as int != 0 {
          assert frames[1..][i] == frames[i + 1];
        }
      }
      AtMostOneTurnBetweenMoves(s1, frames[1..], d0);
    }
  }

  /**
   * The heading of the next move is the heading of the previous move or
   * perpendicular to it, never its reverse, and the move releases the lock.
   */
  lemma NoReversalBetweenMoves(s: Snapshot, frames: seq<Frame>, next: Frame)
    requires Inv(s) && s.state == Game && !s.moveLock
    requires NoMoveFrames(frames, s.spd)
    requires next.sysTime as int % s.spd as int == 0
    ensures var r := Step(Run(s, frames), next.pad, next.sysTime);
            && (r.plrDir == s.plrDir || Perpendicular(r.plrDir, s.plrDir))
            && r.plrDir != Opposite(s.plrDir)
            && !r.moveLock
  {
    AtMostOneTurnBetweenMoves(s, frames, s.plrDir);
    var q := Run(s, frames);
    assert q.state == Game;
  }
}
