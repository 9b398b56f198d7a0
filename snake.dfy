/**
 * The snake's body in the states tick() reaches from power-on. In main.c nothing
 * but init_game writes `score` or `wrap`, so after TITLE the score stays 0, wrap
 * stays on and the game never ends: the ring window is three slots long. This
 * module proves that the grid then marks exactly the cells held by the used slots
 * of that window, that those cells are distinct, and so that the snake covers
 * exactly min(moves, 3) cells. The key fact is geometric: on the 20x18 torus a
 * step never returns to the cell it left, and `move_lock` never lets the head
 * reverse into the cell behind it.
 */
module SnakeBody {
  import opened SnakeTypes
  import opened Engine
  import opened EngineProperties

  // ---------------------------------------------------------------------------
  // Neighbouring cells of the torus

  lemma CellParts(col: int, row: int)
    requires 0 <= col < GRID_WIDTH && 0 <= row < GRID_HEIGHT
    ensures 0 <= CellIndex(col, row) < NUM_CELLS
    ensures CellIndex(col, row) % GRID_WIDTH == col && CellIndex(col, row) / GRID_WIDTH == row
  {
  }

  /** A cell index is determined by its column and row. */
  lemma SameCell(a: int, b: int)
    requires 0 <= a && 0 <= b
    requires a % GRID_WIDTH == b % GRID_WIDTH && a / GRID_WIDTH == b / GRID_WIDTH
    ensures a == b
  {
    assert a == GRID_WIDTH * (a / GRID_WIDTH) + a % GRID_WIDTH;
    assert b == GRID_WIDTH * (b / GRID_WIDTH) + b % GRID_WIDTH;
  }

  /** The cell next to cell `t` along `d` on the 20x18 torus. */
  function NextCell(t: int, d: Direction): (r: int)
    requires 0 <= t < NUM_CELLS
    ensures 0 <= r < NUM_CELLS
    ensures r % GRID_WIDTH == (t % GRID_WIDTH + DCol(d)) % GRID_WIDTH
    ensures r / GRID_WIDTH == (t / GRID_WIDTH + DRow(d)) % GRID_HEIGHT
  {
    var col := (t % GRID_WIDTH + DCol(d)) % GRID_WIDTH;
    var row := (t / GRID_WIDTH + DRow(d)) % GRID_HEIGHT;
    CellParts(col, row);
    CellIndex(col, row)
  }

  /** An offset of at most one cell along an axis of the torus: past either edge it comes back at the other. */
  lemma AxisStep(v: int, m: int, a: int)
    requires (m == GRID_WIDTH || m == GRID_HEIGHT) && 0 <= v < m && -1 <= a <= 1
    ensures (v + a) % m == if v + a < 0 then m - 1 else if v + a == m then 0 else v + a
  {
    if m == GRID_WIDTH {
      assert (v + a) % GRID_WIDTH == if v + a < 0 then GRID_WIDTH - 1 else if v + a == GRID_WIDTH then 0 else v + a;
    } else {
      assert (v + a) % GRID_HEIGHT == if v + a < 0 then GRID_HEIGHT - 1 else if v + a == GRID_HEIGHT then 0 else v + a;
    }
  }

  /** Along an axis of the torus, different offsets of at most one cell land on different cells. */
  lemma AxisShift(v: int, m: int, a: int, b: int)
    requires (m == GRID_WIDTH || m == GRID_HEIGHT) && 0 <= v < m && -1 <= a <= 1 && -1 <= b <= 1
    ensures (v + a) % m == (v + b) % m ==> a == b
  {
    AxisStep(v, m, a);
    AxisStep(v, m, b);
  }

  /** An offset followed by the opposite offset comes back to the same cell of an axis. */
  lemma AxisBack(v: int, m: int, a: int)
    requires (m == GRID_WIDTH || m == GRID_HEIGHT) && 0 <= v < m && -1 <= a <= 1
    ensures ((v + a) % m - a) % m == v
  {
    AxisStep(v, m, a);
    AxisStep((v + a) % m, m, -a);
  }

  /** A step always leaves its cell. */
  lemma NextCellLeaves(t: int, d: Direction)
    requires 0 <= t < NUM_CELLS
    ensures NextCell(t, d) != t
  {
    AxisShift(t % GRID_WIDTH, GRID_WIDTH, DCol(d), 0);
    AxisShift(t / GRID_WIDTH, GRID_HEIGHT, DRow(d), 0);
  }

  /** Steps along different headings from one cell land on different cells. */
  lemma NextCellInjective(t: int, d: Direction, e: Direction)
    requires 0 <= t < NUM_CELLS
    ensures d != e ==> NextCell(t, d) != NextCell(t, e)
  {
    AxisShift(t % GRID_WIDTH, GRID_WIDTH, DCol(d), DCol(e));
    AxisShift(t / GRID_WIDTH, GRID_HEIGHT, DRow(d), DRow(e));
  }

  /** A step back along the opposite heading returns to the cell left. */
  lemma NextCellBack(t: int, d: Direction)
    requires 0 <= t < NUM_CELLS
    ensures NextCell(NextCell(t, d), Opposite(d)) == t
  {
    AxisBack(t % GRID_WIDTH, GRID_WIDTH, DCol(d));
    AxisBack(t / GRID_WIDTH, GRID_HEIGHT, DRow(d));
    SameCell(NextCell(NextCell(t, d), Opposite(d)), t);
  }

  /** With wrap on, a move takes the head's cell index to the neighbouring cell of the torus. */
  lemma MoveIsNextCell(x: u8, y: u8, d: Direction)
    requires InGrid(x, y)
    ensures var p := Advance(x, y, d);
            var w := WrapAround(p.0, p.1);
            InGrid(w.0, w.1) && PlrTile(w.0, w.1) as int == NextCell(PlrTile(x, y) as int, d)
  {
    var p := Advance(x, y, d);
    var w := WrapAround(p.0, p.1);
    WrapIsTorus(x, y, d);
    PlrTileCoordinates(x, y);
    PlrTileCoordinates(w.0, w.1);
    SameCell(PlrTile(w.0, w.1) as int, NextCell(PlrTile(x, y) as int, d));
  }

  // ---------------------------------------------------------------------------
  // The three-slot window

  /** The slot written just before slot `i` in a ring of three slots. */
  function Back(i: int): int
  {
    if i == 0 then 2 else i - 1
  }

  /**
   * The ring window of a 3-cell snake: the used slots come first until the ring
   * is full (until then the cursor is the first unused slot), the used slots hold
   * distinct cells, and each of those cells is marked as snake.
   */
  predicate RingShape(s: Snapshot)
    requires Safe(s)
  {
    var r := s.orderedBodyTiles;
    var c := s.currentBodyTileI as int;
    c < 3 &&
    (forall i :: 0 <= i < 3 ==> (r[i] == DUMMY_BODY_TILE <==> c <= i && r[c] == DUMMY_BODY_TILE)) &&
    (forall i, j :: 0 <= i < j < 3 && r[j] != DUMMY_BODY_TILE ==> r[i] != r[j]) &&
    (forall i :: 0 <= i < 3 && r[i] != DUMMY_BODY_TILE ==> s.bodyTiles[r[i]] == TILE_SNAKE)
  }

  /**
   * The newest used slot holds the head's cell. The slot before it holds the cell
   * the head came from: straight behind the head while the lock is clear, and not
   * straight ahead once a turn has set the lock.
   */
  predicate HeadLink(s: Snapshot)
    requires Safe(s) && s.state == Game && s.currentBodyTileI < 3
  {
    var r := s.orderedBodyTiles;
    var newest := Back(s.currentBodyTileI as int);
    var behind := Back(newest);
    var h := PlrTile(s.plrX, s.plrY) as int;
    (r[newest] != DUMMY_BODY_TILE ==> r[newest] as int == h) &&
    (r[newest] != DUMMY_BODY_TILE && r[behind] != DUMMY_BODY_TILE ==>
       if s.moveLock then r[behind] as int != NextCell(h, s.plrDir)
       else r[behind] as int == NextCell(h, Opposite(s.plrDir)))
  }

  /**
   * What holds in every state reachable from power-on: the invariant, a score of
   * 0, and either TITLE or GAME with wrap on and the three-slot window in shape.
   */
  predicate Reach(s: Snapshot)
  {
    Inv(s) && s.score == 0 &&
    (s.state == Title || (s.state == Game && s.wrap && RingShape(s) && HeadLink(s)))
  }

  /** The number of used slots in the window. */
  function Filled(s: Snapshot): nat
    requires Shaped(s)
  {
    if s.orderedBodyTiles[s.currentBodyTileI] != DUMMY_BODY_TILE then 3 else s.currentBodyTileI as int
  }

  /** The snake's length as the window records it: none in TITLE, otherwise the used slots. */
  function Length(s: Snapshot): nat
    requires Shaped(s)
  {
    if s.state == Title then 0 else Filled(s)
  }

  /** The cells held by the used slots of the window. */
  ghost function HeldCells(s: Snapshot): set<int>
    requires Shaped(s)
  {
    set i | 0 <= i < 3 && s.orderedBodyTiles[i] != DUMMY_BODY_TILE :: s.orderedBodyTiles[i] as int
  }

  function Min(a: int, b: int): int
  {
    if a < b then a else b
  }

  // ---------------------------------------------------------------------------
  // tick() keeps the shape

  lemma PowerOnReach()
    ensures Reach(PowerOn())
  {
    PowerOnSatisfiesInv();
  }

  /** Leaving TITLE: init_game empties the ring, and the grid and cursor of power-on are still clear. */
  lemma TitleReach(s: Snapshot, pad: bv8, sysTime: u16)
    requires Reach(s) && s.state == Title
    ensures Reach(Step(s, pad, sysTime)) && Filled(Step(s, pad, sysTime)) == 0
  {
    StepPreservesInv(s, pad, sysTime);
    TickInTitle(s, pad, sysTime);
  }

  /** A turn never points the head at the cell behind it. */
  lemma TurnKeepsReach(s: Snapshot, pad: bv8)
    requires Reach(s) && s.state == Game
    ensures var t := Turn(s.plrDir, s.moveLock, pad);
            Reach(s.(joypadStatus := pad, plrDir := t.0, moveLock := t.1))
  {
    var t := Turn(s.plrDir, s.moveLock, pad);
    var h := PlrTile(s.plrX, s.plrY) as int;
    NextCellInjective(h, t.0, Opposite(s.plrDir));
  }

  /**
   * Recording the head after a step from cell `h`: the new head's cell is not
   * one the window still holds, so the window keeps its shape and grows by one
   * used slot until it is full.
   */
  lemma RecordKeepsShape(q: Snapshot, h: int)
    requires Inv(q) && q.state == Game && q.score == 0 && q.wrap && !q.moveLock && RingShape(q)
    requires 0 <= h < NUM_CELLS && PlrTile(q.plrX, q.plrY) as int == NextCell(h, q.plrDir)
    requires var r := q.orderedBodyTiles;
             var newest := Back(q.currentBodyTileI as int);
             var behind := Back(newest);
             (r[newest] != DUMMY_BODY_TILE ==> r[newest] as int == h) &&
             (r[newest] != DUMMY_BODY_TILE && r[behind] != DUMMY_BODY_TILE ==>
                r[behind] as int != PlrTile(q.plrX, q.plrY) as int)
    ensures Reach(RecordHead(q))
    ensures Filled(RecordHead(q)) == Min(Filled(q) + 1, 3)
  {
    RecordHeadPreservesInv(q);
    var r := RecordHead(q);
    var c := q.currentBodyTileI as int;
    var h' := PlrTile(q.plrX, q.plrY) as int;
    NextCellLeaves(h, q.plrDir);
    NextCellBack(h, q.plrDir);
    var ring, ring' := q.orderedBodyTiles, r.orderedBodyTiles;
    assert ring'[c] as int == h';
    assert forall i :: 0 <= i < 3 && i != c ==> ring'[i] == ring[i];
    // every used slot other than the cursor holds a cell other than the new head's
    assert forall i :: 0 <= i < 3 && i != c && ring[i] != DUMMY_BODY_TILE ==> ring[i] as int != h' by {
      if c == 0 {
      } else if c == 1 {
      } else {
      }
    }
    assert RingShape(r);
    assert HeadLink(r);
  }

  /** A move with wrap on keeps the shape and grows the window by one used slot until it is full. */
  lemma MoveKeepsReach(s: Snapshot)
    requires Reach(s) && s.state == Game
    ensures Reach(Move(s)) && Filled(Move(s)) == Min(Filled(s) + 1, 3)
  {
    var h := PlrTile(s.plrX, s.plrY) as int;
    var p := Advance(s.plrX, s.plrY, s.plrDir);
    var w := WrapAround(p.0, p.1);
    MoveIsNextCell(s.plrX, s.plrY, s.plrDir);
    NextCellInjective(h, s.plrDir, Opposite(s.plrDir));
    var q := s.(moveLock := false, plrX := w.0, plrY := w.1);
    assert Move(s) == RecordHead(q);
    RecordKeepsShape(q, h);
  }

  /** The window's used slots hold `Filled` distinct cells. */
  lemma HeldCellsCount(s: Snapshot)
    requires Safe(s) && RingShape(s)
    ensures |HeldCells(s)| == Filled(s)
  {
    var r := s.orderedBodyTiles;
    var c := s.currentBodyTileI as int;
    if r[c] != DUMMY_BODY_TILE {
      assert HeldCells(s) == {r[0] as int, r[1] as int, r[2] as int};
    } else if c == 0 {
      assert HeldCells(s) == {};
    } else if c == 1 {
      assert HeldCells(s) == {r[0] as int};
    } else {
      assert HeldCells(s) == {r[0] as int, r[1] as int};
    }
  }

  /** In a reachable GAME state the grid marks exactly the cells of the used slots, and there are `Filled` of them. */
  lemma SnakeIsWindow(s: Snapshot)
    requires Reach(s) && s.state == Game
    ensures SnakeCells(s.bodyTiles) == HeldCells(s)
    ensures |SnakeCells(s.bodyTiles)| == Filled(s)
  {
    var r := s.orderedBodyTiles;
    forall c | c in SnakeCells(s.bodyTiles) ensures c in HeldCells(s) {
      var j :| 0 <= j < MaxSnakeSize(s.score) && r[j] as int == c;
    }
    forall c | c in HeldCells(s) ensures c in SnakeCells(s.bodyTiles) {
      var j :| 0 <= j < 3 && r[j] != DUMMY_BODY_TILE && r[j] as int == c;
    }
    HeldCellsCount(s);
  }

  /** Frame `f` moves the head: GAME and `sys_time % spd == 0`. */
  predicate IsMoveFrame(s: Snapshot, f: Frame)
  {
    s.state == Game && s.spd != 0 && f.sysTime as int % s.spd as int == 0
  }

  /** In a reachable state the grid marks exactly `Length` cells. */
  lemma LengthIsSnake(s: Snapshot)
    requires Reach(s)
    ensures |SnakeCells(s.bodyTiles)| == Length(s)
  {
    if s.state == Title {
      assert SnakeCells(s.bodyTiles) == {};
    } else {
      SnakeIsWindow(s);
    }
  }

  /**
   * One tick from a reachable state reaches a reachable state, and the snake
   * gains one cell on a move frame until it is three cells long.
   */
  lemma StepKeepsReach(s: Snapshot, pad: bv8, sysTime: u16)
    requires Reach(s)
    ensures Reach(Step(s, pad, sysTime))
    ensures Length(Step(s, pad, sysTime)) == Min(Length(s) + (if IsMoveFrame(s, Frame(pad, sysTime)) then 1 else 0), 3)
  {
    var r := Step(s, pad, sysTime);
    if s.state == Title {
      TitleReach(s, pad, sysTime);
    } else {
      var t := Turn(s.plrDir, s.moveLock, pad);
      var s1 := s.(joypadStatus := pad, plrDir := t.0, moveLock := t.1);
      TurnKeepsReach(s, pad);
      if sysTime as int % s.spd as int == 0 {
        assert r == Move(s1);
        MoveKeepsReach(s1);
      } else {
        assert r == s1;
      }
    }
  }

  // ---------------------------------------------------------------------------
  // Runs from power-on

  /** The number of move frames in a run of ticks from `s`. */
  ghost function MoveCount(s: Snapshot, frames: seq<Frame>): nat
    requires Inv(s)
    decreases |frames|
  {
    if frames == [] then 0
    else
      var f := frames[0];
      StepPreservesInv(s, f.pad, f.sysTime);
      (if IsMoveFrame(s, f) then 1 else 0) + MoveCount(Step(s, f.pad, f.sysTime), frames[1..])
  }

  lemma {:induction false} RunKeepsReach(s: Snapshot, frames: seq<Frame>)
    requires Reach(s)
    ensures Reach(Run(s, frames))
    decreases |frames|
  {
    if frames != [] {
      var f := frames[0];
      var s1 := Step(s, f.pad, f.sysTime);
      StepKeepsReach(s, f.pad, f.sysTime);
      RunKeepsReach(s1, frames[1..]);
    }
  }

  /**
   * The first frame of a run from a reachable state: the state `s1` after it is
   * reachable, and if the snake grows as claimed over the rest of the run from
   * `s1`, it grows as claimed over the whole run.
   */
  lemma FirstFrame(s: Snapshot, frames: seq<Frame>) returns (s1: Snapshot)
    requires Reach(s) && frames != []
    ensures Reach(s1)
    ensures Grows(s1, frames[1..]) ==> Grows(s, frames)
  {
    var f := frames[0];
    s1 := Step(s, f.pad, f.sysTime);
    StepKeepsReach(s, f.pad, f.sysTime);
    var moved := if IsMoveFrame(s, f) then 1 else 0;
    assert Run(s, frames) == Run(s1, frames[1..]);
    assert MoveCount(s, frames) == moved + MoveCount(s1, frames[1..]);
    GrowsFromRest(s, s1, frames, moved);
  }

  /** The arithmetic of one frame: growth over the rest of the run gives growth over the whole run. */
  lemma GrowsFromRest(s: Snapshot, s1: Snapshot, frames: seq<Frame>, moved: nat)
    requires Inv(s) && Inv(s1) && frames != []
    requires Run(s, frames) == Run(s1, frames[1..])
    requires MoveCount(s, frames) == moved + MoveCount(s1, frames[1..])
    requires Length(s1) == Min(Length(s) + moved, 3)
    ensures Grows(s1, frames[1..]) ==> Grows(s, frames)
  {
    MinOfMin(Length(s), Length(s1), moved, MoveCount(s1, frames[1..]), MoveCount(s, frames));
  }

  /** Over the run of `frames` from `s` the snake gains one cell per move frame until it is three cells long. */
  ghost predicate Grows(s: Snapshot, frames: seq<Frame>)
    requires Inv(s)
  {
    Length(Run(s, frames)) == Min(Length(s) + MoveCount(s, frames), 3)
  }

  lemma {:induction false} RunGrowsSnake(s: Snapshot, frames: seq<Frame>)
    requires Reach(s)
    ensures Grows(s, frames)
    decreases |frames|
  {
    if frames == [] {
      LengthAtMostThree(s);
    } else {
      var s1 := FirstFrame(s, frames);
      RunGrowsSnake(s1, frames[1..]);
    }
  }

  lemma LengthAtMostThree(s: Snapshot)
    requires Reach(s)
    ensures Length(s) <= 3
  {
  }

  lemma MinOfMin(len: int, len1: int, moved: int, later: int, total: int)
    requires 0 <= len && 0 <= moved && 0 <= later
    requires len1 == Min(len + moved, 3) && total == moved + later
    ensures Min(len1 + later, 3) == Min(len + total, 3)
  {
  }

  /**
   * From power-on, whatever the inputs and frame times: the game is in TITLE or
   * GAME (it never ends), the score stays 0, a cell is marked as snake exactly
   * when a used slot of the window holds it, and the snake covers exactly
   * min(moves, 3) cells.
   */
  lemma SnakeIsExactlyItsLength(frames: seq<Frame>)
    ensures var r := Run(PowerOn(), frames);
            && Reach(r)
            && (r.state == Title || r.state == Game)
            && r.score == 0
            && (r.state == Game ==> SnakeCells(r.bodyTiles) == HeldCells(r))
            && |SnakeCells(r.bodyTiles)| == Min(MoveCount(PowerOn(), frames), MaxSnakeSize(r.score))
  {
    PowerOnReach();
    RunKeepsReach(PowerOn(), frames);
    RunGrowsSnake(PowerOn(), frames);
    var r := Run(PowerOn(), frames);
    LengthIsSnake(r);
    if r.state == Game {
      SnakeIsWindow(r);
    }
  }
}
