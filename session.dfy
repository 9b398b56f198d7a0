/**
 * The globals of main.c as one object, with tick() and init_game() as methods
 * that update them in place. `Model()` reads the object back as an
 * `Engine.Snapshot`; each method is proved to do to it what the pure function of
 * the same name does, and to keep the invariant `Engine.Inv`.
 */
module GameSession {
  import opened SnakeTypes
  import opened Engine
  import EngineProperties

  class Session {
    var state: GameState
    var plrX: u8
    var plrY: u8
    var plrDir: Direction
    var score: u8
    var spd: u8
    var moveLock: bool
    var wrap: bool
    var joypadStatus: bv8
    /** The grid, one entry per cell: TILE_EMPTY or TILE_SNAKE. */
    const bodyTiles: array<u8>
    /** The ring of the cells the snake entered, in order of entry. */
    const orderedBodyTiles: array<u16>
    /** The slot of `orderedBodyTiles` the next move overwrites. */
    var currentBodyTileI: u16

    ghost function Model(): Snapshot
      reads this, bodyTiles, orderedBodyTiles
    {
      Snapshot(state, plrX, plrY, plrDir, score, spd, moveLock, wrap, joypadStatus,
               bodyTiles[..], orderedBodyTiles[..], currentBodyTileI)
    }

    ghost predicate Valid()
      reads this, bodyTiles, orderedBodyTiles
    {
      Inv(Model())
    }

    /** The program's globals at power-on: all zero, `state = STATE_TITLE`. */
    constructor ()
      ensures Valid() && Model() == PowerOn()
      ensures fresh(bodyTiles) && fresh(orderedBodyTiles)
    {
      state := Title;
      plrX, plrY, plrDir := 0, 0, Left;
      score, spd := 0, 0;
      moveLock, wrap := false, false;
      joypadStatus := 0;
      bodyTiles := new u8[RING_CAPACITY](_ => TILE_EMPTY);
      orderedBodyTiles := new u16[RING_CAPACITY](_ => 0);
      currentBodyTileI := 0;
      new;
      assert bodyTiles[..] == seq(RING_CAPACITY, _ => TILE_EMPTY);
      assert orderedBodyTiles[..] == seq(RING_CAPACITY, _ => 0);
    }

    /** init_game(): fills the ring with the unused-slot marker and resets the player. */
    method InitGame()
      requires Valid() && state == Title
      modifies this, orderedBodyTiles
      ensures Valid()
      ensures Model() == Engine.InitGame(old(Model()))
    {
      var i := 0;
      while i < RING_CAPACITY
        invariant 0 <= i <= RING_CAPACITY
        invariant forall j :: 0 <= j < i ==> orderedBodyTiles[j] == DUMMY_BODY_TILE
        modifies orderedBodyTiles
      {
        orderedBodyTiles[i] := DUMMY_BODY_TILE;
        i := i + 1;
      }
      assert orderedBodyTiles[..] == seq(RING_CAPACITY, _ => DUMMY_BODY_TILE);
      plrX := 80;
      plrY := 64;
      plrDir := Left;
      moveLock := false;
      score := 0;
      spd := SPD_NORMAL;
      wrap := true;
    }

    /** tick(): one frame of the game, given the joypad bits and the frame counter `sys_time`. */
    method Tick(pad: bv8, sysTime: u16)
      requires Valid()
      modifies this, bodyTiles, orderedBodyTiles
      ensures Valid()
      ensures Model() == Step(old(Model()), pad, sysTime)
    {
      ghost var s0 := Model();
      EngineProperties.StepPreservesInv(s0, pad, sysTime);
      EngineProperties.StepSamplesJoypad(s0, pad, sysTime);
      joypadStatus := pad;
      assert Model() == s0.(joypadStatus := pad);
      Dispatch(sysTime);
    }

    /** The switch on the game state in tick(), once the joypad bits are sampled. */
    method Dispatch(sysTime: u16)
      requires Valid()
      modifies this, bodyTiles, orderedBodyTiles
      ensures Model() == Step(old(Model()), old(joypadStatus), sysTime)
    {
      ghost var s1 := Model();
      assert s1 == s1.(joypadStatus := joypadStatus);
      match state {
        case Game =>
          PlayFrame(sysTime);
        case GameOver =>
        case Title =>
          InitGame();
          state := Game;
          assert Model() == Engine.InitGame(s1).(state := Game);
        case Pause =>
      }
    }

    /** The STATE_GAME branch of tick(): input, then on every `spd`-th frame a move. */
    method PlayFrame(sysTime: u16)
      requires Valid() && state == Game
      modifies this, bodyTiles, orderedBodyTiles
      ensures Model() == Engine.GameTick(old(Model()), sysTime)
    {
      Steer();
      if sysTime as int % spd as int == 0 {
        Move();
      }
    }

    /** A move: step, release the lock, wrap or test the border, record the new position. */
    method Move()
      requires Valid() && state == Game
      modifies this, bodyTiles, orderedBodyTiles
      ensures Model() == Engine.Move(old(Model()))
    {
      ghost var s0 := Model();
      MoveHead();
      moveLock := false;

      // Off the play field: wrap to the opposite edge, or end the game when wrapping is off
      if wrap {
        WrapHead();
      } else if plrX == 248 || plrX == 160 || plrY == 248 || plrY == 144 {
        state := GameOver;
        return;
      }
      assert InGrid(plrX, plrY);
      assert Model() == s0.(moveLock := false, plrX := plrX, plrY := plrY);
      RecordPosition();
    }

    /** Movement: one 8-pixel step along `plr_dir`, in 8-bit arithmetic. */
    method MoveHead()
      modifies this`plrX, this`plrY
      ensures (plrX, plrY) == Advance(old(plrX), old(plrY), plrDir)
    {
      match plrDir {
        case Up => plrY := Wrap8(plrY as int - 8);
        case Down => plrY := Wrap8(plrY as int + 8);
        case Left => plrX := Wrap8(plrX as int - 8);
        case Right => plrX := Wrap8(plrX as int + 8);
      }
    }

    /** Screen wrap: a coordinate that left the grid re-enters at the opposite edge. */
    method WrapHead()
      modifies this`plrX, this`plrY
      ensures (plrX, plrY) == WrapAround(old(plrX), old(plrY))
    {
      if plrX == 248 { // 0 - 8 in 8 bits
        plrX := 152;
      } else if plrX == 160 {
        plrX := 0;
      }
      if plrY == 248 {
        plrY := 136;
      } else if plrY == 144 {
        plrY := 0;
      }
    }

    /** The two input blocks of tick(): at most one perpendicular turn while unlocked. */
    method Steer()
      modifies this
      ensures Model() == old(Model()).(plrDir := plrDir, moveLock := moveLock)
      ensures (plrDir, moveLock) == Turn(old(plrDir), old(moveLock), joypadStatus)
    {
      if !moveLock {
        if plrDir == Left || plrDir == Right {
          if Pressed(joypadStatus, J_UP) {
            plrDir := Up;
            moveLock := true;
          } else if Pressed(joypadStatus, J_DOWN) {
            plrDir := Down;
            moveLock := true;
          }
        }
      }
      if !moveLock {
        if plrDir == Up || plrDir == Down {
          if Pressed(joypadStatus, J_LEFT) {
            plrDir := Left;
            moveLock := true;
          } else if Pressed(joypadStatus, J_RIGHT) {
            plrDir := Right;
            moveLock := true;
          }
        }
      }
    }

    /** The body update of tick(): evict the slot at the cursor, record the head there, advance. */
    method RecordPosition()
      requires Shaped(Model()) && InGrid(plrX, plrY)
      requires SlotOk(orderedBodyTiles[currentBodyTileI])
      modifies this`currentBodyTileI, bodyTiles, orderedBodyTiles
      ensures Model() == RecordHead(old(Model()))
    {
      // Clear the cell held by the slot the cursor is about to reuse
      var slot := currentBodyTileI;
      var evicted := orderedBodyTiles[slot];
      if evicted != DUMMY_BODY_TILE {
        bodyTiles[evicted] := TILE_EMPTY;
      }

      // Mark the head's cell and store it in that slot, then move the cursor on
      var tile := PlrTile(plrX, plrY);
      bodyTiles[tile] := TILE_SNAKE;
      orderedBodyTiles[slot] := tile;
      currentBodyTileI := currentBodyTileI + 1;
      if currentBodyTileI as int >= MaxSnakeSize(score) {
        currentBodyTileI := 0;
      }
    }
  }
}
