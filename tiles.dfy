/** The tile and level data model shared by every part of the game:
    a level is a flat row-major array of LEVEL_SIZE * LEVEL_SIZE 16-bit
    tiles, and each tile is a bit set whose bit n says that entity n is
    present on it. */
module Tiles {

  /** A tile is a 16-bit set of entity flags. */
  type Tile = bv16

  /** Entity kinds; the ordinal of each is the bit it occupies in a tile. */
  type Entity = n: bv16 | 1 <= n <= 9 witness 1

  const FLOOR: Entity := 1
  const WALL: Entity := 2
  const SPIKES: Entity := 3
  const EXIT: Entity := 4
  const LOCK: Entity := 5
  const GOLD: Entity := 6
  const KEY: Entity := 7
  const ENEMY: Entity := 8
  const PLAYER: Entity := 9

  /** BIT(e): the bit selecting entity `e`. */
  function Bit(e: Entity): (b: Tile)
    ensures b != 0
  {
    1 << e
  }

  /** True iff entity `e` is present on tile `t`. */
  predicate Has(t: Tile, e: Entity) {
    t & (1 << e) != 0
  }

  lemma HasBit(t: Tile, e: Entity)
    ensures Has(t, e) <==> t & Bit(e) != 0
  {
  }

  lemma HasUnion(a: Tile, b: Tile, e: Entity)
    ensures Has(a | b, e) <==> Has(a, e) || Has(b, e)
  {
  }

  /** Distinct entities occupy distinct bits. */
  lemma BitsDisjoint(e: Entity, f: Entity)
    ensures e != f <==> Bit(e) & Bit(f) == 0
  {
  }

  /** The entities that an update copies unchanged. */
  const STATIC_ENTITIES: Tile := Bit(FLOOR) | Bit(WALL) | Bit(SPIKES) | Bit(EXIT)

  /** The entities that cannot be walked on. */
  const SOLID_ENTITIES: Tile := Bit(WALL)

  const LEVEL_SIZE: int := 22
  const CELLS: int := LEVEL_SIZE * LEVEL_SIZE

  /** Player movement directions. */
  const UP: int := 1
  const DOWN: int := 2
  const LEFT: int := 3
  const RIGHT: int := 4

  predicate InGrid(x: int, y: int) {
    0 <= x < LEVEL_SIZE && 0 <= y < LEVEL_SIZE
  }

  /** The flat index of tile (x, y). */
  function Index(x: int, y: int): int {
    x + y * LEVEL_SIZE
  }

  function Col(i: int): int { i % LEVEL_SIZE }
  function Row(i: int): int { i / LEVEL_SIZE }

  lemma IndexCoords(x: int, y: int)
    requires InGrid(x, y)
    ensures 0 <= Index(x, y) < CELLS
    ensures Col(Index(x, y)) == x && Row(Index(x, y)) == y
  {
  }

  /** The outer ring of the grid: the first or last row or column. */
  predicate OnRing(i: int) {
    0 <= i < CELLS &&
    (i < LEVEL_SIZE || i >= CELLS - LEVEL_SIZE || i % LEVEL_SIZE == 0 || i % LEVEL_SIZE == LEVEL_SIZE - 1)
  }

  predicate Interior(i: int) {
    0 <= i < CELLS && !OnRing(i)
  }

  lemma InteriorCoords(x: int, y: int)
    requires InGrid(x, y)
    ensures Interior(Index(x, y)) <==> 1 <= x <= LEVEL_SIZE - 2 && 1 <= y <= LEVEL_SIZE - 2
  {
  }

  /** Four-way adjacency of two tiles of the grid. */
  predicate Adjacent(i: int, j: int) {
    0 <= i < CELLS && 0 <= j < CELLS &&
    ((j == i - 1 && i % LEVEL_SIZE != 0) ||
     (j == i + 1 && i % LEVEL_SIZE != LEVEL_SIZE - 1) ||
     j == i - LEVEL_SIZE ||
     j == i + LEVEL_SIZE)
  }

  lemma AdjacentSymmetric(i: int, j: int)
    ensures Adjacent(i, j) <==> Adjacent(j, i)
  {
  }

  /** Two tiles are adjacent exactly when their coordinates differ by one step. */
  lemma AdjacentCoords(i: int, j: int)
    requires 0 <= i < CELLS && 0 <= j < CELLS
    ensures Adjacent(i, j) <==>
      ((Row(i) == Row(j) && (Col(j) == Col(i) - 1 || Col(j) == Col(i) + 1)) ||
       (Col(i) == Col(j) && (Row(j) == Row(i) - 1 || Row(j) == Row(i) + 1)))
  {
  }

  function Min(a: int, b: int): int { if a < b then a else b }
  function Max(a: int, b: int): int { if a > b then a else b }

  /** CLAMP(low, val, high) = MIN(MAX(low, val), high). */
  function Clamp(low: int, val: int, high: int): (r: int)
    requires low <= high
    ensures low <= r <= high
    ensures low <= val <= high ==> r == val
  {
    Min(Max(low, val), high)
  }

  /** The tile one step from `i` in the given direction; any other direction stays put. */
  function Step(i: int, direction: int): int {
    if direction == UP then i - LEVEL_SIZE
    else if direction == DOWN then i + LEVEL_SIZE
    else if direction == LEFT then i - 1
    else if direction == RIGHT then i + 1
    else i
  }

  /** From an interior tile a step stays inside the grid, on that tile or a neighbour. */
  lemma StepFromInterior(i: int, direction: int)
    requires Interior(i)
    ensures 0 <= Step(i, direction) < CELLS
    ensures Step(i, direction) == i || Adjacent(i, Step(i, direction))
    ensures Step(i, direction) == i <==> !(UP <= direction <= RIGHT)
  {
  }
}
