/** Machine types and the constants of the snake game (main.c, lines 8-32). */
module SnakeTypes {

  /** C `uint8_t`. */
  newtype u8 = x: int | 0 <= x < 0x100

  /** C `uint16_t`. */
  newtype u16 = x: int | 0 <= x < 0x1_0000

  /** Reduces an integer to a `uint8_t` the way an assignment in C does (modulo 256). */
  function Wrap8(v: int): (r: u8)
    ensures (r as int - v) % 0x100 == 0
    ensures -0x100 <= v < 0 ==> r as int == v + 0x100
    ensures 0 <= v < 0x100 ==> r as int == v
    ensures 0x100 <= v < 0x200 ==> r as int == v - 0x100
  {
    (v % 0x100) as u8
  }

  /** The `state` global. Declaration order follows the STATE_* codes 0..3. */
  datatype GameState = Game | GameOver | Title | Pause

  /** The `plr_dir` global. Declaration order follows the DIR_* codes 0..3. */
  datatype Direction = Left | Up | Right | Down
  {
    predicate Horizontal() { this == Left || this == Right }
    predicate Vertical() { this == Up || this == Down }
  }

  /** Two headings are perpendicular when one is horizontal and the other vertical. */
  predicate Perpendicular(a: Direction, b: Direction)
  {
    (a.Horizontal() && b.Vertical()) || (a.Vertical() && b.Horizontal())
  }

  function Opposite(d: Direction): (r: Direction)
    ensures r != d && !Perpendicular(r, d) && (r.Horizontal() <==> d.Horizontal())
  {
    match d
    case Left => Right
    case Right => Left
    case Up => Down
    case Down => Up
  }

  /** Joypad bits as the GBDK library defines them (`joypad()` returns a `uint8_t` of these). */
  const J_RIGHT: bv8 := 0x01
  const J_LEFT: bv8 := 0x02
  const J_UP: bv8 := 0x04
  const J_DOWN: bv8 := 0x08

  predicate Pressed(pad: bv8, button: bv8)
  {
    pad & button != 0
  }

  /** Frames between moves after init_game. */
  const SPD_NORMAL: u8 := 6

  /** Background tile numbers stored in `body_tiles`. */
  const TILE_EMPTY: u8 := 0
  const TILE_SNAKE: u8 := 37

  /** Marks a slot of `ordered_body_tiles` that has never been written since init_game. */
  const DUMMY_BODY_TILE: u16 := 65535

  /** The playfield: 160x144 pixels, 20x18 cells of 8x8 pixels. */
  const GRID_WIDTH: int := 20
  const GRID_HEIGHT: int := 18
  const NUM_CELLS: int := 360
  const CELL: int := 8

  /** Length of the `body_tiles` and `ordered_body_tiles` arrays. */
  const RING_CAPACITY: int := 360

  /** get_max_snake_size(): the snake's length, head included (`score + 3`). */
  function MaxSnakeSize(score: u8): (n: int)
    ensures 3 <= n <= 258
  {
    score as int + 3
  }

  /** Index of the cell in column `col` and row `row` of the 20x18 grid. */
  function CellIndex(col: int, row: int): (t: int)
  {
    row * GRID_WIDTH + col
  }
}
