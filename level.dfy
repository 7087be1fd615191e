/** The level generators and entity placers of level.c. Each one rewrites
    the level in place, drawing its random choices from an Oracle. */
module Generators {
  import opened Tiles
  import opened Draws
  import opened FloodFill
  import opened Completion

  /** fill_level: every tile becomes exactly the given entity's bit. */
  method FillLevel(level: array<Tile>, entity: Entity)
    requires level.Length == CELLS
    modifies level
    ensures forall i :: 0 <= i < CELLS ==> level[i] == Bit(entity)
  {
    var y := 0;
    while y < LEVEL_SIZE
      invariant 0 <= y <= LEVEL_SIZE
      invariant forall i :: 0 <= i < y * LEVEL_SIZE ==> level[i] == Bit(entity)
    {
      var x := 0;
      while x < LEVEL_SIZE
        invariant 0 <= x <= LEVEL_SIZE
        invariant forall i :: 0 <= i < x + y * LEVEL_SIZE ==> level[i] == Bit(entity)
      {
        level[Index(x, y)] := Bit(entity);
        x := x + 1;
      }
      assert LEVEL_SIZE + y * LEVEL_SIZE == (y + 1) * LEVEL_SIZE;
      y := y + 1;
    }
  }

  /** The tiles of the first or last row, not counting the corners. */
  predicate OnTopOrBottom(i: int) {
    0 <= i < CELLS && (i < LEVEL_SIZE || i >= CELLS - LEVEL_SIZE) &&
    i % LEVEL_SIZE != 0 && i % LEVEL_SIZE != LEVEL_SIZE - 1
  }

  /** empty_level: walls on the outer ring, plain floor everywhere else. */
  method EmptyLevel(level: array<Tile>)
    requires level.Length == CELLS
    modifies level
    ensures forall i :: 0 <= i < CELLS ==> level[i] == if OnRing(i) then Bit(WALL) else Bit(FLOOR)
  {
    FillLevel(level, FLOOR);
    var x := 1;
    while x < LEVEL_SIZE - 1
      invariant 1 <= x <= LEVEL_SIZE - 1
      invariant forall i :: 0 <= i < CELLS ==>
        level[i] == if OnTopOrBottom(i) && i % LEVEL_SIZE < x then Bit(WALL) else Bit(FLOOR)
    {
      level[x] := Bit(WALL);
      level[x + (LEVEL_SIZE - 1) * LEVEL_SIZE] := Bit(WALL);
      x := x + 1;
    }
    var y := 0;
    while y < LEVEL_SIZE
      invariant 0 <= y <= LEVEL_SIZE
      invariant forall i :: 0 <= i < CELLS ==>
        level[i] == if OnTopOrBottom(i) || (OnRing(i) && i / LEVEL_SIZE < y) then Bit(WALL) else Bit(FLOOR)
    {
      level[Index(0, y)] := Bit(WALL);
      level[Index(LEVEL_SIZE - 1, y)] := Bit(WALL);
      y := y + 1;
    }
  }

  /** The `j`-th tile scatter_generator turns to floor, from the integer
      draws that start at `u`: x, then y, both in [1, LEVEL_SIZE-2]. */
  function ScatterSpot(ints: nat -> nat, u: nat, j: nat): (c: int)
    ensures Interior(c)
  {
    var x := Pick(ints(u + 2 * j), 1, LEVEL_SIZE - 2);
    var y := Pick(ints(u + 2 * j + 1), 1, LEVEL_SIZE - 2);
    InteriorCoords(x, y);
    Index(x, y)
  }

  /** (int)(0.5f * LEVEL_SIZE * LEVEL_SIZE). */
  const FLOOR_COUNT: int := 242

  /** True iff one of the first `n` scatter draws from `u` landed on `i`. */
  ghost predicate Scattered(ints: nat -> nat, u: nat, n: nat, i: int) {
    exists j :: 0 <= j < n && ScatterSpot(ints, u, j) == i
  }

  /** scatter_generator: all walls, then FLOOR_COUNT draws each turn one
      interior tile into plain floor. */
  method ScatterGenerator(level: array<Tile>, rng: Oracle)
    requires level.Length == CELLS
    modifies level, rng
    ensures rng.usedInts == old(rng.usedInts) + 2 * FLOOR_COUNT && rng.usedCoins == old(rng.usedCoins)
    ensures forall i :: 0 <= i < CELLS ==>
      level[i] == if Scattered(rng.ints, old(rng.usedInts), FLOOR_COUNT, i) then Bit(FLOOR) else Bit(WALL)
  {
    ghost var u := rng.usedInts;
    FillLevel(level, WALL);
    var k := 0;
    while k < FLOOR_COUNT
      invariant 0 <= k <= FLOOR_COUNT
      invariant rng.usedInts == u + 2 * k && rng.usedCoins == old(rng.usedCoins)
      invariant forall i :: 0 <= i < CELLS ==>
        level[i] == if Scattered(rng.ints, u, k, i) then Bit(FLOOR) else Bit(WALL)
    {
      var x := rng.IntRange(1, LEVEL_SIZE - 2);
      var y := rng.IntRange(1, LEVEL_SIZE - 2);
      assert Index(x, y) == ScatterSpot(rng.ints, u, k);
      level[Index(x, y)] := Bit(FLOOR);
      k := k + 1;
    }
  }

  /** A scattered level keeps a solid outer ring and holds only plain floor
      and plain wall. */
  lemma ScatteredShape(s: seq<Tile>, ints: nat -> nat, u: nat)
    requires |s| == CELLS
    requires forall i :: 0 <= i < CELLS ==>
      s[i] == if Scattered(ints, u, FLOOR_COUNT, i) then Bit(FLOOR) else Bit(WALL)
    ensures forall i :: OnRing(i) ==> s[i] == Bit(WALL)
    ensures s[ScatterSpot(ints, u, 0)] == Bit(FLOOR)
    ensures FirstPlayer(s) == CELLS
  {
    assert Scattered(ints, u, FLOOR_COUNT, ScatterSpot(ints, u, 0));
  }

  // ---------------------------------------------------------------------
  // Connectivity of the walkable tiles, the promise of digger_generator.

  /** Every walkable tile reaches every other through walkable tiles: a
      completability flood from any of them covers all of them. */
  ghost predicate Connected(s: seq<Tile>)
    requires |s| == CELLS
  {
    forall a, b :: 0 <= a < CELLS && 0 <= b < CELLS && Walkable(s[a]) && Walkable(s[b]) ==>
      Reachable(s, WALKABLE_MASK, Bit(FLOOR), a, b)
  }

  ghost predicate NoWalkable(s: seq<Tile>)
    requires |s| == CELLS
  {
    forall i :: 0 <= i < CELLS ==> !Walkable(s[i])
  }

  /** Carving tile `c` cannot split the walkable tiles: it is walkable
      already, or next to a walkable tile, or nothing is walkable yet. */
  ghost predicate Attached(s: seq<Tile>, c: int)
    requires |s| == CELLS
  {
    0 <= c < CELLS &&
    (Walkable(s[c]) || NoWalkable(s) || exists f :: Adjacent(f, c) && Walkable(s[f]))
  }

  /** A walk stays a walk when no walkable tile stops being walkable. */
  lemma WalkWidens(s: seq<Tile>, s': seq<Tile>, w: seq<int>)
    requires |s| == CELLS && |s'| == CELLS
    requires forall i :: 0 <= i < CELLS && Walkable(s[i]) ==> Walkable(s'[i])
    requires IsWalk(s, WALKABLE_MASK, Bit(FLOOR), w)
    ensures IsWalk(s', WALKABLE_MASK, Bit(FLOOR), w)
  {
    forall k | 0 <= k < |w| ensures Walkable(s'[w[k]]) {
      assert Walkable(s[w[k]]);
    }
  }

  lemma ReachWidens(s: seq<Tile>, s': seq<Tile>, a: int, b: int)
    requires |s| == CELLS && |s'| == CELLS
    requires forall i :: 0 <= i < CELLS && Walkable(s[i]) ==> Walkable(s'[i])
    requires Reachable(s, WALKABLE_MASK, Bit(FLOOR), a, b)
    ensures Reachable(s', WALKABLE_MASK, Bit(FLOOR), a, b)
  {
    var w :| IsWalk(s, WALKABLE_MASK, Bit(FLOOR), w) && w[0] == a && w[|w| - 1] == b;
    WalkWidens(s, s', w);
  }

  /** A walkable neighbour of a walk's first tile can start the walk. */
  lemma ReachPrepend(s: seq<Tile>, c: int, f: int, b: int)
    requires |s| == CELLS && 0 <= c < CELLS && Walkable(s[c]) && Adjacent(c, f)
    requires Reachable(s, WALKABLE_MASK, Bit(FLOOR), f, b)
    ensures Reachable(s, WALKABLE_MASK, Bit(FLOOR), c, b)
  {
    var w :| IsWalk(s, WALKABLE_MASK, Bit(FLOOR), w) && w[0] == f && w[|w| - 1] == b;
    var w' := [c] + w;
    forall k | 0 <= k < |w'| - 1 ensures Adjacent(w'[k], w'[k + 1]) {
      if k > 0 {
        assert w'[k] == w[k - 1] && w'[k + 1] == w[k];
      }
    }
    assert IsWalk(s, WALKABLE_MASK, Bit(FLOOR), w');
    assert w'[|w'| - 1] == b;
  }

  /** A walkable neighbour of a walk's last tile can end the walk. */
  lemma ReachAppend(s: seq<Tile>, a: int, f: int, c: int)
    requires |s| == CELLS && 0 <= c < CELLS && Walkable(s[c]) && Adjacent(f, c)
    requires Reachable(s, WALKABLE_MASK, Bit(FLOOR), a, f)
    ensures Reachable(s, WALKABLE_MASK, Bit(FLOOR), a, c)
  {
    var w :| IsWalk(s, WALKABLE_MASK, Bit(FLOOR), w) && w[0] == a && w[|w| - 1] == f;
    var w' := w + [c];
    forall k | 0 <= k < |w'| - 1 ensures Adjacent(w'[k], w'[k + 1]) {
      if k < |w| - 1 {
        assert w'[k] == w[k] && w'[k + 1] == w[k + 1];
      }
    }
    assert IsWalk(s, WALKABLE_MASK, Bit(FLOOR), w');
  }

  /** Turning tile `c` into plain floor keeps the walkable tiles connected
      when `c` is attached to them. */
  lemma CarveKeepsConnected(s: seq<Tile>, c: int)
    requires |s| == CELLS && Connected(s) && Attached(s, c)
    ensures Connected(s[c := Bit(FLOOR)])
  {
    var s' := s[c := Bit(FLOOR)];
    assert Walkable(s'[c]);
    assert forall i :: 0 <= i < CELLS && Walkable(s[i]) ==> Walkable(s'[i]);
    forall a, b | 0 <= a < CELLS && 0 <= b < CELLS && Walkable(s'[a]) && Walkable(s'[b])
      ensures Reachable(s', WALKABLE_MASK, Bit(FLOOR), a, b)
    {
      if a == b {
        assert IsWalk(s', WALKABLE_MASK, Bit(FLOOR), [a]);
      } else if (a != c && b != c) || Walkable(s[c]) {
        ReachWidens(s, s', a, b);
      } else if a == c {
        assert Walkable(s[b]);
        var f :| Adjacent(f, c) && Walkable(s[f]);
        AdjacentSymmetric(f, c);
        ReachWidens(s, s', f, b);
        ReachPrepend(s', c, f, b);
      } else {
        assert Walkable(s[a]);
        var f :| Adjacent(f, c) && Walkable(s[f]);
        ReachWidens(s, s', a, f);
        ReachAppend(s', a, f, c);
      }
    }
  }

  /** One digger move from an interior tile, clamped back into the
      interior, lands on the same tile or a four-way neighbour. */
  lemma ClampedMove(x: int, y: int, nx: int, ny: int)
    requires 1 <= x <= LEVEL_SIZE - 2 && 1 <= y <= LEVEL_SIZE - 2
    requires (nx == x && (ny == y || ny == y - 1 || ny == y + 1)) || (ny == y && (nx == x - 1 || nx == x + 1))
    ensures var q := Index(Clamp(1, nx, LEVEL_SIZE - 2), Clamp(1, ny, LEVEL_SIZE - 2));
      Interior(q) && (q == Index(x, y) || Adjacent(Index(x, y), q))
  {
    var cx, cy := Clamp(1, nx, LEVEL_SIZE - 2), Clamp(1, ny, LEVEL_SIZE - 2);
    InteriorCoords(cx, cy);
    IndexCoords(x, y);
    IndexCoords(cx, cy);
    AdjacentCoords(Index(x, y), Index(cx, cy));
  }

  /** (int)(0.2f * LEVEL_SIZE * LEVEL_SIZE): tiles each digger walk carves. */
  const IDEAL_WALKABLE: int := 96

  /** The number of digger walks. */
  const ITERATIONS: int := 5

  /** One integer draw pair at (x, y) in [1, high], repeated while `needFloor`
      and the drawn tile is not exactly plain floor, at most max(1, fuel) times. */
  method DrawTile(level: array<Tile>, rng: Oracle, high: int, needFloor: bool, fuel: nat)
      returns (ok: bool, x: int, y: int)
    requires level.Length == CELLS && 1 <= high <= LEVEL_SIZE - 1
    modifies rng
    ensures 1 <= x <= high && 1 <= y <= high
    ensures rng.usedInts >= old(rng.usedInts) + 2 && rng.usedCoins == old(rng.usedCoins)
    ensures x == Pick(rng.ints(rng.usedInts - 2), 1, high) && y == Pick(rng.ints(rng.usedInts - 1), 1, high)
    ensures ok <==> !needFloor || level[Index(x, y)] == Bit(FLOOR)
    ensures !needFloor ==> rng.usedInts == old(rng.usedInts) + 2
    ensures !ok ==> rng.usedInts >= old(rng.usedInts) + 2 * fuel
  {
    x, y := DrawPair(rng, high);
    var tries := 1;
    while needFloor && level[Index(x, y)] != Bit(FLOOR) && tries < fuel
      invariant 1 <= x <= high && 1 <= y <= high && 1 <= tries && (!needFloor ==> tries == 1)
      invariant rng.usedInts == old(rng.usedInts) + 2 * tries && rng.usedCoins == old(rng.usedCoins)
      invariant x == Pick(rng.ints(rng.usedInts - 2), 1, high) && y == Pick(rng.ints(rng.usedInts - 1), 1, high)
      decreases fuel - tries
    {
      x, y := DrawPair(rng, high);
      tries := tries + 1;
    }
    ok := !needFloor || level[Index(x, y)] == Bit(FLOOR);
  }

  /** Two integer draws in [1, high], for x and then y. */
  method DrawPair(rng: Oracle, high: int) returns (x: int, y: int)
    requires 1 <= high
    modifies rng
    ensures rng.usedInts == old(rng.usedInts) + 2 && rng.usedCoins == old(rng.usedCoins)
    ensures x == Pick(rng.ints(rng.usedInts - 2), 1, high) && y == Pick(rng.ints(rng.usedInts - 1), 1, high)
  {
    x := rng.IntRange(1, high);
    y := rng.IntRange(1, high);
  }

  /** One iteration of a digger walk: carve tile (x, y) into plain floor,
      step once in `direction` and clamp into the interior. Carving next to
      a connected level keeps it connected, and the new position is attached
      to what was carved. */
  method DigStep(level: array<Tile>, x: int, y: int, direction: int) returns (nx: int, ny: int)
    requires level.Length == CELLS
    requires 1 <= x <= LEVEL_SIZE - 1 && 1 <= y <= LEVEL_SIZE - 1
    modifies level
    ensures level[..] == old(level[..])[Index(x, y) := Bit(FLOOR)]
    ensures 1 <= nx <= LEVEL_SIZE - 2 && 1 <= ny <= LEVEL_SIZE - 2
    ensures (x <= LEVEL_SIZE - 2 && y <= LEVEL_SIZE - 2 &&
             Connected(old(level[..])) && Attached(old(level[..]), Index(x, y))) ==>
            Connected(level[..]) && Attached(level[..], Index(nx, ny))
  {
    ghost var before := level[..];
    ghost var premise := x <= LEVEL_SIZE - 2 && y <= LEVEL_SIZE - 2 &&
      Connected(before) && Attached(before, Index(x, y));
    var c := Index(x, y);
    level[c] := level[c] & !Bit(WALL);
    level[c] := Bit(FLOOR);
    assert level[..] == before[c := Bit(FLOOR)];
    if premise {
      CarveKeepsConnected(before, c);
    }
    nx, ny := x, y;
    if direction == UP {
      ny := y - 1;
    } else if direction == DOWN {
      ny := y + 1;
    } else if direction == LEFT {
      nx := x - 1;
    } else if direction == RIGHT {
      nx := x + 1;
    }
    ghost var mx, my := nx, ny;
    nx := Clamp(1, nx, LEVEL_SIZE - 2);
    ny := Clamp(1, ny, LEVEL_SIZE - 2);
    if premise {
      ClampedMove(x, y, mx, my);
      assert Walkable(level[c]);
      AdjacentSymmetric(c, Index(nx, ny));
    }
  }

  /** One digger walk from (x0, y0): IDEAL_WALKABLE times carve the current
      tile into plain floor, move one tile in the current direction, clamp
      into the interior, and on a chance draw a new direction. */
  method DigTunnel(level: array<Tile>, rng: Oracle, x0: int, y0: int)
    requires level.Length == CELLS
    requires 1 <= x0 <= LEVEL_SIZE - 1 && 1 <= y0 <= LEVEL_SIZE - 1
    modifies level, rng
    ensures level[Index(x0, y0)] == Bit(FLOOR)
    ensures forall i :: 0 <= i < CELLS ==> level[i] == old(level[i]) || level[i] == Bit(FLOOR)
    ensures forall i :: 0 <= i < CELLS && level[i] != old(level[i]) ==> i == Index(x0, y0) || Interior(i)
    ensures (x0 <= LEVEL_SIZE - 2 && y0 <= LEVEL_SIZE - 2 &&
             Connected(old(level[..])) && Attached(old(level[..]), Index(x0, y0))) ==> Connected(level[..])
  {
    ghost var premise := x0 <= LEVEL_SIZE - 2 && y0 <= LEVEL_SIZE - 2 &&
      Connected(level[..]) && Attached(level[..], Index(x0, y0));
    var x, y := x0, y0;
    var direction := rng.IntRange(1, 4);
    var count := 0;
    while count < IDEAL_WALKABLE
      invariant 0 <= count <= IDEAL_WALKABLE
      invariant 1 <= x <= LEVEL_SIZE - 1 && 1 <= y <= LEVEL_SIZE - 1
      invariant count == 0 ==> x == x0 && y == y0 && level[..] == old(level[..])
      invariant count > 0 ==> x <= LEVEL_SIZE - 2 && y <= LEVEL_SIZE - 2 && level[Index(x0, y0)] == Bit(FLOOR)
      invariant forall i :: 0 <= i < CELLS ==> level[i] == old(level[i]) || level[i] == Bit(FLOOR)
      invariant forall i :: 0 <= i < CELLS && level[i] != old(level[i]) ==> i == Index(x0, y0) || Interior(i)
      invariant premise ==> Connected(level[..]) && Attached(level[..], Index(x, y))
    {
      assert count > 0 ==> Interior(Index(x, y)) by {
        if count > 0 {
          InteriorCoords(x, y);
        }
      }
      x, y := DigStep(level, x, y, direction);
      var turn := rng.Chance();
      if turn {
        direction := rng.IntRange(1, 4);
      }
      count := count + 1;
    }
  }

  /** The ITERATIONS digger walks, each starting from a pair of draws in
      [1, high]; after the first walk the start is redrawn until it is plain
      floor, at most max(1, fuel) times per walk, and `ok` is false when that
      runs out. digger_generator draws with high = LEVEL_SIZE-1. */
  method DiggerRun(level: array<Tile>, rng: Oracle, high: int, fuel: nat) returns (ok: bool)
    requires level.Length == CELLS
    requires high == LEVEL_SIZE - 1 || high == LEVEL_SIZE - 2
    modifies level, rng
    ensures forall i :: 0 <= i < CELLS ==> level[i] == old(level[i]) || level[i] == Bit(FLOOR)
    ensures forall i :: 0 <= i < CELLS && level[i] != old(level[i]) ==>
      1 <= Col(i) <= high && 1 <= Row(i) <= high
    ensures var first := Index(Pick(rng.ints(old(rng.usedInts)), 1, high), Pick(rng.ints(old(rng.usedInts) + 1), 1, high));
      level[first] == Bit(FLOOR)
    ensures (high == LEVEL_SIZE - 2 && NoWalkable(old(level[..]))) ==> Connected(level[..])
  {
    ghost var u := rng.usedInts;
    ghost var first := Index(Pick(rng.ints(u), 1, high), Pick(rng.ints(u + 1), 1, high));
    ghost var premise := high == LEVEL_SIZE - 2 && NoWalkable(level[..]);
    var i := 0;
    while i < ITERATIONS
      invariant 0 <= i <= ITERATIONS
      invariant i == 0 ==> level[..] == old(level[..]) && rng.usedInts == u
      invariant i > 0 ==> level[first] == Bit(FLOOR)
      invariant forall j :: 0 <= j < CELLS ==> level[j] == old(level[j]) || level[j] == Bit(FLOOR)
      invariant forall j :: 0 <= j < CELLS && level[j] != old(level[j]) ==>
        1 <= Col(j) <= high && 1 <= Row(j) <= high
      invariant premise ==> Connected(level[..])
    {
      ghost var before := level[..];
      var found, x, y := DrawTile(level, rng, high, i > 0, fuel);
      if !found {
        return false;
      }
      IndexCoords(x, y);
      InteriorCoords(x, y);
      assert premise ==> Attached(level[..], Index(x, y));
      DigTunnel(level, rng, x, y);
      forall j | 0 <= j < CELLS && level[j] != before[j] ensures 1 <= Col(j) <= high && 1 <= Row(j) <= high {
        if j != Index(x, y) {
          assert Interior(j);
        }
      }
      i := i + 1;
    }
    return true;
  }

  /** digger_generator as written: the start draws reach LEVEL_SIZE-1, so a
      walk can begin on the outer ring. Only plain floor is written. */
  method DiggerGenerator(level: array<Tile>, rng: Oracle, fuel: nat) returns (ok: bool)
    requires level.Length == CELLS
    modifies level, rng
    ensures forall i :: 0 <= i < CELLS ==> level[i] == old(level[i]) || level[i] == Bit(FLOOR)
    ensures forall i :: 0 <= i < CELLS && level[i] != old(level[i]) ==> 1 <= Col(i) && 1 <= Row(i)
    ensures var first := Index(Pick(rng.ints(old(rng.usedInts)), 1, LEVEL_SIZE - 1),
                               Pick(rng.ints(old(rng.usedInts) + 1), 1, LEVEL_SIZE - 1));
      level[first] == Bit(FLOOR)
  {
    ok := DiggerRun(level, rng, LEVEL_SIZE - 1, fuel);
  }

  /** digger_generator with its start draws kept to [1, LEVEL_SIZE-2]: the
      outer ring is never touched, and dug out of solid rock every walkable
      tile is reachable from every other. */
  method DiggerGeneratorInterior(level: array<Tile>, rng: Oracle, fuel: nat) returns (ok: bool)
    requires level.Length == CELLS
    modifies level, rng
    ensures forall i :: 0 <= i < CELLS ==> level[i] == old(level[i]) || level[i] == Bit(FLOOR)
    ensures forall i :: OnRing(i) ==> level[i] == old(level[i])
    ensures NoWalkable(old(level[..])) ==> Connected(level[..])
  {
    ok := DiggerRun(level, rng, LEVEL_SIZE - 2, fuel);
  }

  /** As written, a first draw of LEVEL_SIZE-1 for x starts the first walk,
      and so carves plain floor, on the outer ring. */
  lemma DiggerStartOnRing(ints: nat -> nat, u: nat)
    requires ints(u) == LEVEL_SIZE - 2
    ensures OnRing(Index(Pick(ints(u), 1, LEVEL_SIZE - 1), Pick(ints(u + 1), 1, LEVEL_SIZE - 1)))
  {
    var y := Pick(ints(u + 1), 1, LEVEL_SIZE - 1);
    IndexCoords(LEVEL_SIZE - 1, y);
  }

  /** A walk started on the ring can leave it diagonally: from (21, 5)
      going up, the clamp lands on (20, 4), which is not a neighbour, so the
      second carved tile is cut off from the first. */
  lemma RingStartMovesDiagonally()
    ensures var q := Index(Clamp(1, LEVEL_SIZE - 1, LEVEL_SIZE - 2), Clamp(1, 5 - 1, LEVEL_SIZE - 2));
      q != Index(LEVEL_SIZE - 1, 5) && !Adjacent(Index(LEVEL_SIZE - 1, 5), q)
  {
  }

  /** Those two steps out of solid rock break the promise of connected
      walkable tiles: with (21, 5) and the clamped (20, 4) carved into bare
      floor, neither reaches the other. */
  lemma RingStartDisconnects()
    ensures var a := Index(LEVEL_SIZE - 1, 5);
      var q := Index(Clamp(1, LEVEL_SIZE - 1, LEVEL_SIZE - 2), Clamp(1, 5 - 1, LEVEL_SIZE - 2));
      var s := seq(CELLS, i => Bit(WALL))[a := Bit(FLOOR)][q := Bit(FLOOR)];
      Walkable(s[a]) && Walkable(s[q]) && !Connected(s)
  {
    var a := Index(LEVEL_SIZE - 1, 5);
    var q := Index(Clamp(1, LEVEL_SIZE - 1, LEVEL_SIZE - 2), Clamp(1, 5 - 1, LEVEL_SIZE - 2));
    var s := seq(CELLS, i => Bit(WALL))[a := Bit(FLOOR)][q := Bit(FLOOR)];
    BitValues();
    RingStartMovesDiagonally();
    assert Walkable(s[a]) && Walkable(s[q]);
    if Connected(s) {
      assert Reachable(s, WALKABLE_MASK, Bit(FLOOR), a, q);
      var w :| IsWalk(s, WALKABLE_MASK, Bit(FLOOR), w) && w[0] == a && w[|w| - 1] == q;
      WalkSecondStep(s, w);
      assert false;
    }
  }

  // ---------------------------------------------------------------------
  // basic_room_generator

  /** True iff tile `i` lies in columns [x0, x1] and rows [y0, y1]. */
  predicate InRect(i: int, x0: int, x1: int, y0: int, y1: int) {
    0 <= i < CELLS && x0 <= Col(i) <= x1 && y0 <= Row(i) <= y1
  }

  /** Clamp into [1, LEVEL_SIZE-2], as every room tile is. */
  function Inside(v: int): (r: int)
    ensures 1 <= r <= LEVEL_SIZE - 2
  {
    Clamp(1, v, LEVEL_SIZE - 2)
  }

  /** Paint a width-by-height block of plain floor from (left, top), each
      coordinate clamped into the interior; clamping squeezes the block onto
      the rectangle between the clamped corners. */
  method PaintRoom(level: array<Tile>, left: int, top: int, width: int, height: int)
    requires level.Length == CELLS && width >= 1 && height >= 1
    modifies level
    ensures forall i :: 0 <= i < CELLS ==>
      level[i] == if InRect(i, Inside(left), Inside(left + width - 1), Inside(top), Inside(top + height - 1))
                  then Bit(FLOOR) else old(level[i])
  {
    var y := 0;
    while y < height
      invariant 0 <= y <= height
      invariant forall i :: 0 <= i < CELLS ==>
        level[i] == if y > 0 && InRect(i, Inside(left), Inside(left + width - 1), Inside(top), Inside(top + y - 1))
                    then Bit(FLOOR) else old(level[i])
    {
      var x := 0;
      while x < width
        invariant 0 <= x <= width
        invariant forall i :: 0 <= i < CELLS ==>
          level[i] == if (y > 0 && InRect(i, Inside(left), Inside(left + width - 1), Inside(top), Inside(top + y - 1))) ||
                         (x > 0 && InRect(i, Inside(left), Inside(left + x - 1), Inside(top + y), Inside(top + y)))
                      then Bit(FLOOR) else old(level[i])
      {
        var tx := Clamp(1, left + x, LEVEL_SIZE - 2);
        var ty := Clamp(1, top + y, LEVEL_SIZE - 2);
        IndexCoords(tx, ty);
        level[Index(tx, ty)] := Bit(FLOOR);
        x := x + 1;
      }
      y := y + 1;
    }
  }

  /** A room: its drawn centre and size. */
  datatype Room = Room(cx: int, cy: int, width: int, height: int)
  {
    function Left(): int { cx - width / 2 }
    function Top(): int { cy - height / 2 }
  }

  /** True iff room `r` paints tile `i`. */
  predicate InRoom(i: int, r: Room) {
    InRect(i, Inside(r.Left()), Inside(r.Left() + r.width - 1), Inside(r.Top()), Inside(r.Top() + r.height - 1))
  }

  /** True iff one of `rooms` paints tile `i`. */
  ghost predicate Painted(rooms: seq<Room>, i: int) {
    exists k :: 0 <= k < |rooms| && InRoom(i, rooms[k])
  }

  /** The tile `i` of `s` after painting `rooms`. */
  ghost function AfterRooms(s: seq<Tile>, rooms: seq<Room>, i: int): Tile
    requires 0 <= i < |s|
  {
    if Painted(rooms, i) then Bit(FLOOR) else s[i]
  }

  const ROOM_COUNT: int := 8
  const MIN_ROOM_SIZE: int := 2
  const MAX_ROOM_SIZE: int := 6

  /** Room `r` is the one drawn from the integer draws at p .. p+3: its
      centre in [1, LEVEL_SIZE-1], then its width and height in
      [MIN_ROOM_SIZE, MAX_ROOM_SIZE]. */
  predicate RoomDrawn(ints: nat -> nat, p: nat, r: Room) {
    r.cx == Pick(ints(p), 1, LEVEL_SIZE - 1) && r.cy == Pick(ints(p + 1), 1, LEVEL_SIZE - 1) &&
    r.width == Pick(ints(p + 2), MIN_ROOM_SIZE, MAX_ROOM_SIZE) &&
    r.height == Pick(ints(p + 3), MIN_ROOM_SIZE, MAX_ROOM_SIZE)
  }

  /** Room k of `rooms` is drawn at `drawnAt[k]`, the draws of the rooms
      follow one another in the stream, and all lie in [lo, hi). */
  ghost predicate DrawnInOrder(ints: nat -> nat, rooms: seq<Room>, drawnAt: seq<nat>, lo: nat, hi: nat) {
    |drawnAt| == |rooms| &&
    (forall k :: 0 <= k < |rooms| ==> RoomDrawn(ints, drawnAt[k], rooms[k])) &&
    (forall k :: 0 <= k < |rooms| ==> lo <= drawnAt[k] && drawnAt[k] + 4 <= hi) &&
    (forall k :: 0 <= k < |rooms| - 1 ==> drawnAt[k] + 4 <= drawnAt[k + 1])
  }

  lemma DrawnInOrderAppend(ints: nat -> nat, rooms: seq<Room>, drawnAt: seq<nat>, lo: nat, hi: nat,
                           r: Room, p: nat)
    requires DrawnInOrder(ints, rooms, drawnAt, lo, hi)
    requires RoomDrawn(ints, p, r) && lo <= hi <= p
    ensures DrawnInOrder(ints, rooms + [r], drawnAt + [p], lo, p + 4)
  {
    var rs, ds := rooms + [r], drawnAt + [p];
    assert rs[|rooms|] == r && ds[|rooms|] == p;
    forall k | 0 <= k < |rooms| ensures rs[k] == rooms[k] && ds[k] == drawnAt[k] {
    }
    forall k | 0 <= k < |rs| - 1 ensures ds[k] + 4 <= ds[k + 1] {
      if k < |rooms| - 1 {
        assert ds[k + 1] == drawnAt[k + 1];
      }
    }
  }

  lemma DrawnInOrderWiden(ints: nat -> nat, rooms: seq<Room>, drawnAt: seq<nat>, lo: nat, hi: nat, hi': nat)
    requires DrawnInOrder(ints, rooms, drawnAt, lo, hi) && hi <= hi'
    ensures DrawnInOrder(ints, rooms, drawnAt, lo, hi')
  {
  }

  /** One room of basic_room_generator: a centre drawn until it is plain
      floor, then a width and a height, and the block painted around the
      centre. `p` is where the accepted centre's draws begin. */
  method PlaceRoom(level: array<Tile>, rng: Oracle, fuel: nat) returns (found: bool, room: Room, ghost p: nat)
    requires level.Length == CELLS
    modifies level, rng
    ensures !found ==> level[..] == old(level[..])
    ensures rng.usedInts >= old(rng.usedInts)
    ensures found ==> RoomDrawn(rng.ints, p, room) && old(rng.usedInts) <= p && rng.usedInts == p + 4
    ensures found ==> 0 <= Index(room.cx, room.cy) < CELLS && old(level[Index(room.cx, room.cy)]) == Bit(FLOOR)
    ensures found ==> forall i :: 0 <= i < CELLS ==> level[i] == if InRoom(i, room) then Bit(FLOOR) else old(level[i])
  {
    var x, y;
    found, x, y := DrawTile(level, rng, LEVEL_SIZE - 1, true, fuel);
    p := rng.usedInts - 2;
    room := Room(x, y, 0, 0);
    if !found {
      return;
    }
    IndexCoords(x, y);
    var width := rng.IntRange(MIN_ROOM_SIZE, MAX_ROOM_SIZE);
    var height := rng.IntRange(MIN_ROOM_SIZE, MAX_ROOM_SIZE);
    room := Room(x, y, width, height);
    PaintRoom(level, room.Left(), room.Top(), width, height);
  }

  /** basic_room_generator: ROOM_COUNT times, draw a centre in [1, LEVEL_SIZE-1]
      until it is plain floor (at most max(1, fuel) times), draw a width and a
      height in [2, 6], and paint the room around the centre. The ghost
      `rooms` are the rooms painted, in order. */
  method BasicRoomGenerator(level: array<Tile>, rng: Oracle, fuel: nat)
      returns (ok: bool, ghost rooms: seq<Room>, ghost drawnAt: seq<nat>)
    requires level.Length == CELLS
    modifies level, rng
    ensures ok ==> |rooms| == ROOM_COUNT
    ensures |rooms| <= ROOM_COUNT
    ensures DrawnInOrder(rng.ints, rooms, drawnAt, old(rng.usedInts), rng.usedInts)
    ensures ok ==> rng.usedInts == drawnAt[ROOM_COUNT - 1] + 4
    ensures forall k :: 0 <= k < |rooms| ==>
      1 <= rooms[k].cx <= LEVEL_SIZE - 1 && 1 <= rooms[k].cy <= LEVEL_SIZE - 1 &&
      MIN_ROOM_SIZE <= rooms[k].width <= MAX_ROOM_SIZE && MIN_ROOM_SIZE <= rooms[k].height <= MAX_ROOM_SIZE
    ensures forall k :: 0 <= k < |rooms| ==>
      AfterRooms(old(level[..]), rooms[..k], Index(rooms[k].cx, rooms[k].cy)) == Bit(FLOOR)
    ensures forall i :: 0 <= i < CELLS ==> level[i] == AfterRooms(old(level[..]), rooms, i)
  {
    rooms, drawnAt := [], [];
    var i := 0;
    while i < ROOM_COUNT
      invariant 0 <= i <= ROOM_COUNT && |rooms| == i
      invariant DrawnInOrder(rng.ints, rooms, drawnAt, old(rng.usedInts), rng.usedInts)
      invariant i > 0 ==> rng.usedInts == drawnAt[i - 1] + 4
      invariant i == 0 ==> rng.usedInts == old(rng.usedInts)
      invariant forall k :: 0 <= k < |rooms| ==>
        AfterRooms(old(level[..]), rooms[..k], Index(rooms[k].cx, rooms[k].cy)) == Bit(FLOOR)
      invariant forall j :: 0 <= j < CELLS ==> level[j] == AfterRooms(old(level[..]), rooms, j)
    {
      ghost var before := level[..];
      ghost var lo, hi := old(rng.usedInts), rng.usedInts;
      var found, room, p := PlaceRoom(level, rng, fuel);
      if !found {
        DrawnInOrderWiden(rng.ints, rooms, drawnAt, lo, hi, rng.usedInts);
        return false, rooms, drawnAt;
      }
      assert before[Index(room.cx, room.cy)] == Bit(FLOOR);
      DrawnInOrderAppend(rng.ints, rooms, drawnAt, lo, hi, room, p);
      RoomsAppend(old(level[..]), rooms, room);
      rooms, drawnAt := rooms + [room], drawnAt + [p];
      i := i + 1;
    }
    return true, rooms, drawnAt;
  }

  lemma RoomsAppend(s: seq<Tile>, rooms: seq<Room>, r: Room)
    requires |s| == CELLS
    ensures forall k :: 0 <= k < |rooms| ==> (rooms + [r])[..k] == rooms[..k] && (rooms + [r])[k] == rooms[k]
    ensures (rooms + [r])[..|rooms|] == rooms
    ensures forall i :: 0 <= i < CELLS ==>
      AfterRooms(s, rooms + [r], i) == if InRoom(i, r) then Bit(FLOOR) else AfterRooms(s, rooms, i)
  {
    var rs := rooms + [r];
    assert rs[|rooms|] == r;
    forall i | 0 <= i < CELLS
      ensures AfterRooms(s, rs, i) == if InRoom(i, r) then Bit(FLOOR) else AfterRooms(s, rooms, i)
    {
      if Painted(rs, i) && !InRoom(i, r) {
        var k :| 0 <= k < |rs| && InRoom(i, rs[k]);
        assert rs[k] == rooms[k];
      }
      if Painted(rooms, i) {
        var k :| 0 <= k < |rooms| && InRoom(i, rooms[k]);
        assert rs[k] == rooms[k];
      }
    }
  }

  /** Rooms paint interior tiles only: the outer ring is never changed. */
  lemma RoomInterior(i: int, r: Room)
    requires InRoom(i, r)
    ensures Interior(i)
  {
    InteriorCoords(Col(i), Row(i));
  }

  /** After painting, a tile differs from the original only by having
      become plain floor, and never on the outer ring. */
  lemma AfterRoomsShape(s: seq<Tile>, rooms: seq<Room>, i: int)
    requires |s| == CELLS && 0 <= i < CELLS
    ensures AfterRooms(s, rooms, i) == s[i] || AfterRooms(s, rooms, i) == Bit(FLOOR)
    ensures OnRing(i) ==> AfterRooms(s, rooms, i) == s[i]
  {
    if Painted(rooms, i) {
      var k :| 0 <= k < |rooms| && InRoom(i, rooms[k]);
      RoomInterior(i, rooms[k]);
    }
  }

  /** A room of size at least 1 covers its centre, clamped into the interior. */
  lemma RoomCoversCentre(r: Room)
    requires r.width >= 1 && r.height >= 1
    ensures InRoom(Index(Inside(r.cx), Inside(r.cy)), r)
  {
    IndexCoords(Inside(r.cx), Inside(r.cy));
  }

  // ---------------------------------------------------------------------
  // reverse_verified_scatter_generator

  lemma BitValues()
    ensures Bit(FLOOR) == 2 && Bit(WALL) == 4 && Bit(PLAYER) == 512 && WALKABLE_MASK == 14
  {
  }

  /** `|= BIT(WALL)`. */
  function AddWall(t: Tile): Tile { t | Bit(WALL) }

  /** `^= BIT(WALL)`. */
  function ToggleWall(t: Tile): Tile { t ^ Bit(WALL) }

  lemma WallBlocks(t: Tile)
    ensures !Walkable(AddWall(t)) && !Walkable(Bit(WALL)) && !Has(Bit(WALL), PLAYER)
  {
    BitValues();
  }

  lemma WallKeepsPlayerBit(t: Tile)
    ensures Has(AddWall(t), PLAYER) <==> Has(t, PLAYER)
    ensures Has(ToggleWall(AddWall(t)), PLAYER) <==> Has(t, PLAYER)
  {
    BitValues();
  }

  /** Toggling the wall bit back out restores a tile that had none, and
      adding it to a tile that has it changes nothing. */
  lemma ToggleRestores(t: Tile)
    ensures !Has(t, WALL) ==> ToggleWall(AddWall(t)) == t
    ensures Has(t, WALL) ==> AddWall(t) == t
  {
    BitValues();
  }

  /** The tile an attempt at `c` leaves in level `s`, which was not a player
      tile: a bare wall when the level with the wall bit added is still
      completable, otherwise the wall bit toggled back out. */
  ghost function AttemptResult(s: seq<Tile>, c: int): Tile
    requires |s| == CELLS && 0 <= c < CELLS
  {
    if Completable(s[c := AddWall(s[c])]) then Bit(WALL) else ToggleWall(AddWall(s[c]))
  }

  /** The rollback toggles the wall bit rather than restoring the tile: on
      a level that cannot be completed, an attempt at a tile that already
      had a wall removes that wall. */
  lemma RollbackClearsWall(s: seq<Tile>, c: int)
    requires |s| == CELLS && 0 <= c < CELLS && Has(s[c], WALL) && !Completable(s)
    ensures !Has(AttemptResult(s, c), WALL)
    ensures AttemptResult(s, c) == s[c] & !Bit(WALL)
  {
    ToggleRestores(s[c]);
    assert s[c := AddWall(s[c])] == s;
  }

  /** The body of one attempt once the drawn tile is known not to hold the player. */
  method TryWall(level: array<Tile>, c: int) returns (placed: bool)
    requires level.Length == CELLS && 0 <= c < CELLS
    modifies level
    ensures placed <==> Completable(old(level[..])[c := AddWall(old(level[c]))])
    ensures level[..] == old(level[..])[c := AttemptResult(old(level[..]), c)]
  {
    level[c] := AddWall(level[c]);
    var ok := LevelIsCompletable(level);
    if !ok {
      level[c] := ToggleWall(level[c]);
      placed := false;
    } else {
      level[c] := Bit(WALL);
      placed := true;
    }
  }

  /** What an attempt keeps: the player tiles, and completability together
      with "changed tiles are bare walls" on a completable level. */
  lemma AttemptKeeps(s: seq<Tile>, c: int)
    requires |s| == CELLS && 0 <= c < CELLS && !Has(s[c], PLAYER)
    ensures !Has(AttemptResult(s, c), PLAYER)
    ensures Completable(s) ==> Completable(s[c := AttemptResult(s, c)])
    ensures Completable(s) ==> AttemptResult(s, c) == s[c] || AttemptResult(s, c) == Bit(WALL)
  {
    var checked := s[c := AddWall(s[c])];
    WallBlocks(s[c]);
    WallKeepsPlayerBit(s[c]);
    ToggleRestores(s[c]);
    if Completable(checked) {
      assert checked[c := Bit(WALL)] == s[c := Bit(WALL)];
      CompletableIgnores(checked, c, Bit(WALL));
    } else if Completable(s) {
      assert s[c := s[c]] == s;
    }
  }

  /** One placement attempt at a tile drawn in [1, LEVEL_SIZE-2]: a player
      tile is skipped; otherwise the wall bit is added, and the result is kept
      as a bare wall when the level is still completable and the wall bit is
      toggled back out when it is not. */
  method WallAttempt(level: array<Tile>, rng: Oracle) returns (placed: bool)
    requires level.Length == CELLS
    modifies level, rng
    ensures rng.usedInts == old(rng.usedInts) + 2 && rng.usedCoins == old(rng.usedCoins)
    ensures var c := Index(old(rng.PeekInt(0, 1, LEVEL_SIZE - 2)), old(rng.PeekInt(1, 1, LEVEL_SIZE - 2)));
      Interior(c) &&
      (Has(old(level[c]), PLAYER) ==> !placed && level[..] == old(level[..])) &&
      (!Has(old(level[c]), PLAYER) ==>
        (placed <==> Completable(old(level[..])[c := AddWall(old(level[c]))])) &&
        level[..] == old(level[..])[c := AttemptResult(old(level[..]), c)])
    ensures forall i :: 0 <= i < CELLS ==> (Has(level[i], PLAYER) <==> old(Has(level[i], PLAYER)))
    ensures forall i :: 0 <= i < CELLS && old(Has(level[i], PLAYER)) ==> level[i] == old(level[i])
    ensures old(Completable(level[..])) ==> Completable(level[..])
    ensures old(Completable(level[..])) ==> forall i :: 0 <= i < CELLS ==> level[i] == old(level[i]) || level[i] == Bit(WALL)
  {
    var x := rng.IntRange(1, LEVEL_SIZE - 2);
    var y := rng.IntRange(1, LEVEL_SIZE - 2);
    InteriorCoords(x, y);
    var c := Index(x, y);
    if level[c] & Bit(PLAYER) != 0 {
      return false;
    }
    AttemptKeeps(level[..], c);
    placed := TryWall(level, c);
  }

  /** (int)(4.0f * LEVEL_SIZE * LEVEL_SIZE) walls to try for. */
  const WALL_COUNT: int := 1936

  /** Attempts per wall before giving that wall up. */
  const WALL_ATTEMPTS: int := 32

  /** reverse_verified_scatter_generator: WALL_COUNT times, make up to
      WALL_ATTEMPTS attempts until one places a wall. A completable level
      stays completable, player tiles are never touched, the outer ring is
      kept, and on a completable level every changed tile is a bare wall. */
  method ReverseVerifiedScatterGenerator(level: array<Tile>, rng: Oracle)
    requires level.Length == CELLS
    modifies level, rng
    ensures old(Completable(level[..])) ==> Completable(level[..])
    ensures forall i :: 0 <= i < CELLS ==> (Has(level[i], PLAYER) <==> old(Has(level[i], PLAYER)))
    ensures forall i :: 0 <= i < CELLS && old(Has(level[i], PLAYER)) ==> level[i] == old(level[i])
    ensures forall i :: OnRing(i) ==> level[i] == old(level[i])
    ensures old(Completable(level[..])) ==> forall i :: 0 <= i < CELLS ==> level[i] == old(level[i]) || level[i] == Bit(WALL)
    ensures FirstPlayer(level[..]) == old(FirstPlayer(level[..]))
    ensures old(rng.usedInts) <= rng.usedInts <= old(rng.usedInts) + 2 * WALL_COUNT * WALL_ATTEMPTS
    ensures rng.usedCoins == old(rng.usedCoins)
  {
    ghost var premise := Completable(level[..]);
    var i := 0;
    while i < WALL_COUNT
      invariant 0 <= i <= WALL_COUNT
      invariant premise ==> Completable(level[..])
      invariant forall k :: 0 <= k < CELLS ==> (Has(level[k], PLAYER) <==> old(Has(level[k], PLAYER)))
      invariant forall k :: 0 <= k < CELLS && old(Has(level[k], PLAYER)) ==> level[k] == old(level[k])
      invariant forall k :: OnRing(k) ==> level[k] == old(level[k])
      invariant premise ==> forall k :: 0 <= k < CELLS ==> level[k] == old(level[k]) || level[k] == Bit(WALL)
      invariant old(rng.usedInts) <= rng.usedInts <= old(rng.usedInts) + 2 * WALL_ATTEMPTS * i
      invariant rng.usedCoins == old(rng.usedCoins)
    {
      var j := 0;
      while j < WALL_ATTEMPTS
        invariant 0 <= j <= WALL_ATTEMPTS
        invariant premise ==> Completable(level[..])
        invariant forall k :: 0 <= k < CELLS ==> (Has(level[k], PLAYER) <==> old(Has(level[k], PLAYER)))
        invariant forall k :: 0 <= k < CELLS && old(Has(level[k], PLAYER)) ==> level[k] == old(level[k])
        invariant forall k :: OnRing(k) ==> level[k] == old(level[k])
        invariant premise ==> forall k :: 0 <= k < CELLS ==> level[k] == old(level[k]) || level[k] == Bit(WALL)
        invariant old(rng.usedInts) <= rng.usedInts <= old(rng.usedInts) + 2 * WALL_ATTEMPTS * i + 2 * j
        invariant rng.usedCoins == old(rng.usedCoins)
      {
        var placed := WallAttempt(level, rng);
        if placed {
          break;
        }
        j := j + 1;
      }
      i := i + 1;
    }
    FirstWithSame(level[..], old(level[..]), PLAYER, 0);
  }

  // ---------------------------------------------------------------------
  // count_entities

  /** True iff `t` carries something besides floor, wall and spikes (the
      three bits WALKABLE_MASK selects). */
  predicate Bearing(t: Tile) {
    t & !WALKABLE_MASK != 0
  }

  /** count_entities as a flood visitor: add one for a bearing tile; never stop. */
  function CountEntities(t: Tile, x: int, y: int, count: int): (r: (int, bool))
    ensures !r.1
    ensures count <= r.0 <= count + 1
    ensures r.0 == count + 1 <==> Bearing(t)
  {
    if t & !WALKABLE_MASK != 0 then (count + 1, false) else (count, false)
  }

  /** How many of the tiles at `calls` are bearing. */
  function BearingCount(s: seq<Tile>, calls: seq<int>): (n: nat)
    requires forall k :: 0 <= k < |calls| ==> 0 <= calls[k] < |s|
    ensures n <= |calls|
    decreases |calls|
  {
    if calls == [] then 0
    else BearingCount(s, calls[..|calls| - 1]) + (if Bearing(s[calls[|calls| - 1]]) then 1 else 0)
  }

  /** Replaying count_entities over the calls of a flood adds the number of
      bearing tiles among them, and never stops the flood. */
  lemma {:induction false} ReplayCount(s: seq<Tile>, calls: seq<int>, count: int)
    requires forall k :: 0 <= k < |calls| ==> 0 <= calls[k] < |s|
    ensures Replay(CountEntities, s, calls, count) == (count + BearingCount(s, calls), false)
    decreases |calls|
  {
    if calls != [] {
      ReplayCount(s, calls[..|calls| - 1], count);
    }
  }

  /** A tile that is bare floor, wall or spikes bears nothing, so a flood
      over such tiles counts nothing. */
  lemma {:induction false} BareCountsNothing(s: seq<Tile>, calls: seq<int>)
    requires forall k :: 0 <= k < |calls| ==> 0 <= calls[k] < |s| && s[calls[k]] & !WALKABLE_MASK == 0
    ensures BearingCount(s, calls) == 0
    decreases |calls|
  {
    if calls != [] {
      BareCountsNothing(s, calls[..|calls| - 1]);
    }
  }

  // ---------------------------------------------------------------------
  // The scattering of gold, enemies and spikes shared by both placers.

  /** `t |= bits`. */
  function AddBits(t: Tile, bits: Tile): Tile { t | bits }

  /** True iff `r` is `t` with at most one of gold, enemy or spikes added,
      and with nothing added when `t` is a wall. */
  predicate Decorated(t: Tile, r: Tile) {
    if t & Bit(WALL) != 0 then r == t
    else r == t || r == AddBits(t, Bit(GOLD)) || r == AddBits(t, Bit(ENEMY)) || r == AddBits(t, Bit(SPIKES))
  }

  /** Decorating adds no player, key or exit, and a tile decorated into bare
      floor was bare floor. */
  lemma DecoratedKeeps(t: Tile, r: Tile)
    requires Decorated(t, r)
    ensures Has(r, PLAYER) <==> Has(t, PLAYER)
    ensures Has(r, KEY) <==> Has(t, KEY)
    ensures Has(r, EXIT) <==> Has(t, EXIT)
    ensures r == Bit(FLOOR) ==> t == Bit(FLOOR)
  {
    BitValues();
  }

  /** One tile of the scattering loop: a tile without a wall gets gold on
      the first coin, else an enemy on the second, else spikes on the third. */
  method DecorateTile(rng: Oracle, t: Tile) returns (r: Tile)
    modifies rng
    ensures Decorated(t, r)
    ensures rng.usedInts == old(rng.usedInts)
    ensures t & Bit(WALL) != 0 ==> rng.usedCoins == old(rng.usedCoins)
    ensures t & Bit(WALL) == 0 ==>
      var u := old(rng.usedCoins);
      r == (if rng.coins(u) then AddBits(t, Bit(GOLD))
            else if rng.coins(u + 1) then AddBits(t, Bit(ENEMY))
            else if rng.coins(u + 2) then AddBits(t, Bit(SPIKES))
            else t) &&
      rng.usedCoins == u + (if rng.coins(u) then 1 else if rng.coins(u + 1) then 2 else 3)
  {
    r := t;
    if t & Bit(WALL) == 0 {
      var gold := rng.Chance();
      if gold {
        r := AddBits(t, Bit(GOLD));
      } else {
        var enemy := rng.Chance();
        if enemy {
          r := AddBits(t, Bit(ENEMY));
        } else {
          var spikes := rng.Chance();
          if spikes {
            r := AddBits(t, Bit(SPIKES));
          }
        }
      }
    }
  }

  /** The scattering loop over the interior, row by row. */
  method ScatterEntities(level: array<Tile>, rng: Oracle)
    requires level.Length == CELLS
    modifies level, rng
    ensures rng.usedInts == old(rng.usedInts)
    ensures forall i :: 0 <= i < CELLS ==>
      if Interior(i) then Decorated(old(level[i]), level[i]) else level[i] == old(level[i])
  {
    var y := 1;
    while y < LEVEL_SIZE - 1
      invariant 1 <= y <= LEVEL_SIZE - 1
      invariant rng.usedInts == old(rng.usedInts)
      invariant forall i :: 0 <= i < CELLS ==>
        if Interior(i) && Row(i) < y then Decorated(old(level[i]), level[i]) else level[i] == old(level[i])
    {
      var x := 1;
      while x < LEVEL_SIZE - 1
        invariant 1 <= x <= LEVEL_SIZE - 1
        invariant rng.usedInts == old(rng.usedInts)
        invariant forall i :: 0 <= i < CELLS ==>
          if Interior(i) && (Row(i) < y || (Row(i) == y && Col(i) < x))
          then Decorated(old(level[i]), level[i]) else level[i] == old(level[i])
      {
        IndexCoords(x, y);
        InteriorCoords(x, y);
        var t := level[Index(x, y)];
        t := DecorateTile(rng, t);
        level[Index(x, y)] := t;
        x := x + 1;
      }
      y := y + 1;
    }
  }

  // ---------------------------------------------------------------------
  // scatter_placer

  /** The tiles the placers leave at the exit, the key and the player. */
  const LOCKED_EXIT: Tile := Bit(FLOOR) | Bit(EXIT) | Bit(LOCK)
  const KEY_TILE: Tile := Bit(FLOOR) | Bit(KEY)
  const PLAYER_TILE: Tile := Bit(FLOOR) | Bit(PLAYER)

  lemma LockedExitBits()
    ensures Walkable(LOCKED_EXIT) && LOCKED_EXIT != Bit(FLOOR)
    ensures Has(LOCKED_EXIT, EXIT) && Has(LOCKED_EXIT, LOCK) && !Has(LOCKED_EXIT, KEY) && !Has(LOCKED_EXIT, PLAYER)
    ensures AddBits(Bit(FLOOR), Bit(EXIT) | Bit(LOCK)) == LOCKED_EXIT
  {
    BitValues();
  }

  lemma KeyTileBits()
    ensures Walkable(KEY_TILE) && KEY_TILE != Bit(FLOOR)
    ensures Has(KEY_TILE, KEY) && !Has(KEY_TILE, EXIT) && !Has(KEY_TILE, PLAYER)
    ensures AddBits(Bit(FLOOR), Bit(KEY)) == KEY_TILE
  {
    BitValues();
  }

  lemma PlayerTileBits()
    ensures Walkable(PLAYER_TILE) && PLAYER_TILE != Bit(FLOOR)
    ensures Has(PLAYER_TILE, PLAYER) && !Has(PLAYER_TILE, KEY) && !Has(PLAYER_TILE, EXIT)
    ensures AddBits(Bit(FLOOR), Bit(PLAYER)) == PLAYER_TILE
  {
    BitValues();
  }

  lemma FloorBits()
    ensures Walkable(Bit(FLOOR)) && !Has(Bit(FLOOR), PLAYER) && !Has(Bit(FLOOR), KEY) && !Has(Bit(FLOOR), EXIT)
  {
    BitValues();
  }

  /** Draw in [1, LEVEL_SIZE-1] until the tile is bare floor (at most
      max(1, fuel) times) and write `value` there. */
  method PlaceOnFloor(level: array<Tile>, rng: Oracle, fuel: nat, value: Tile) returns (ok: bool, ghost c: int)
    requires level.Length == CELLS
    modifies level, rng
    ensures rng.usedCoins == old(rng.usedCoins)
    ensures ok ==> 0 <= c < CELLS && old(level[c]) == Bit(FLOOR) && level[..] == old(level[..])[c := value]
    ensures !ok ==> level[..] == old(level[..])
  {
    var found, x, y := DrawTile(level, rng, LEVEL_SIZE - 1, true, fuel);
    IndexCoords(x, y);
    c := Index(x, y);
    if !found {
      return false, c;
    }
    level[Index(x, y)] := value;
    return true, c;
  }

  /** True iff no tile of `s` holds the player. */
  ghost predicate NoPlayer(s: seq<Tile>)
    requires |s| == CELLS
  {
    forall i :: 0 <= i < CELLS ==> !Has(s[i], PLAYER)
  }

  /** scatter_placer: scatter gold, enemies and spikes over the interior,
      then put a locked exit, a key and the player, in that order, on three
      bare floor tiles drawn in [1, LEVEL_SIZE-1]. `ok` is false when a
      placement runs out of fuel. */
  method ScatterPlacer(level: array<Tile>, rng: Oracle, fuel: nat)
      returns (ok: bool, ghost exitAt: int, ghost keyAt: int, ghost playerAt: int)
    requires level.Length == CELLS
    modifies level, rng
    ensures ok ==> 0 <= exitAt < CELLS && 0 <= keyAt < CELLS && 0 <= playerAt < CELLS
    ensures ok ==> exitAt != keyAt && exitAt != playerAt && keyAt != playerAt
    ensures ok ==> old(level[exitAt]) == Bit(FLOOR) && old(level[keyAt]) == Bit(FLOOR) && old(level[playerAt]) == Bit(FLOOR)
    ensures ok ==> level[exitAt] == LOCKED_EXIT && level[keyAt] == KEY_TILE && level[playerAt] == PLAYER_TILE
    ensures ok ==> forall i :: 0 <= i < CELLS && i != exitAt && i != keyAt && i != playerAt ==>
      if Interior(i) then Decorated(old(level[i]), level[i]) else level[i] == old(level[i])
    ensures ok && old(NoPlayer(level[..])) ==>
      FirstPlayer(level[..]) == playerAt && forall i :: 0 <= i < CELLS && Has(level[i], PLAYER) ==> i == playerAt
    ensures forall i :: OnRing(i) && old(level[i]) != Bit(FLOOR) ==> level[i] == old(level[i])
  {
    ScatterEntities(level, rng);
    ghost var decorated := level[..];
    forall i | 0 <= i < CELLS && decorated[i] == Bit(FLOOR) ensures old(level[i]) == Bit(FLOOR) {
      if Interior(i) {
        DecoratedKeeps(old(level[i]), decorated[i]);
      }
    }
    LockedExitBits();
    KeyTileBits();
    PlayerTileBits();
    ok, exitAt := PlaceOnFloor(level, rng, fuel, LOCKED_EXIT);
    keyAt, playerAt := 0, 0;
    if !ok {
      return;
    }
    ok, keyAt := PlaceOnFloor(level, rng, fuel, KEY_TILE);
    if !ok {
      return;
    }
    ok, playerAt := PlaceOnFloor(level, rng, fuel, PLAYER_TILE);
    if !ok {
      return;
    }
    assert level[..] == decorated[exitAt := LOCKED_EXIT][keyAt := KEY_TILE][playerAt := PLAYER_TILE];
    if NoPlayer(old(level[..])) {
      forall i | 0 <= i < CELLS && i != playerAt ensures !Has(level[i], PLAYER) {
        if Interior(i) && i != exitAt && i != keyAt {
          DecoratedKeeps(old(level[i]), level[i]);
        }
      }
      FirstIsLeast(level[..], PLAYER, playerAt);
    }
  }

  // ---------------------------------------------------------------------
  // verified_scatter_placer

  /** What a complete recording flood from `p` leaves in the accumulator. */
  lemma RecordedRegion(s: seq<Tile>, p: int, calls: seq<int>, seen0: Tile, seen: Tile, e: Entity)
    requires |s| == CELLS
    requires forall k :: 0 <= k < |calls| ==> 0 <= calls[k] < CELLS
    requires seen == Replay(RecordTiles, s, calls, seen0).0
    requires !Replay(RecordTiles, s, calls, seen0).1 ==> forall t :: t in PlayerRegion(s, p) <==> t in calls
    ensures Has(seen, e) <==> Has(seen0, e) || RegionHas(s, p, e)
  {
    ReplayRecord(s, calls, seen0);
    HasUnion(seen0, UnionOf(s, calls), e);
    UnionMeansRegionHas(s, p, calls, e);
  }

  /** One flood from (x, y) over walkable tiles with flood_record_tiles,
      or-ing every flooded tile into `seen0`; of the entities recorded, the
      key and the exit are the ones the placer looks at. */
  method FloodRecord(level: array<Tile>, x: int, y: int, seen0: Tile) returns (seen: Tile)
    requires level.Length == CELLS && InGrid(x, y)
    ensures Has(seen, KEY) <==> Has(seen0, KEY) || RegionHas(level[..], Index(x, y), KEY)
    ensures Has(seen, EXIT) <==> Has(seen0, EXIT) || RegionHas(level[..], Index(x, y), EXIT)
  {
    var steps;
    ghost var calls;
    steps, seen, calls := Flood(level, x, y, WALKABLE_MASK, Bit(FLOOR), RecordTiles, seen0);
    RecordedRegion(level[..], Index(x, y), calls, seen0, seen, KEY);
    RecordedRegion(level[..], Index(x, y), calls, seen0, seen, EXIT);
  }

  /** The exit test of the key and player loops as written: stop on a bare
      floor tile, or as soon as anything flooded so far shows one of the
      wanted entities. */
  predicate StopAsWritten(t: Tile, seen: Tile, want: Tile) {
    !(t != Bit(FLOOR) && seen & want == 0)
  }

  /** The test the comments describe: a bare floor tile whose own region
      shows every wanted entity. */
  predicate StopChecked(t: Tile, seen: Tile, want: Tile) {
    t == Bit(FLOOR) && seen & want == want
  }

  /** True iff the region around one of the tiles `tried` holds entity `e`. */
  ghost predicate AnyRegionHas(s: seq<Tile>, tried: seq<int>, e: Entity)
    requires |s| == CELLS
  {
    exists k :: 0 <= k < |tried| && RegionHas(s, tried[k], e)
  }

  lemma AnyRegionHasAppend(s: seq<Tile>, tried: seq<int>, c: int, e: Entity)
    requires |s| == CELLS
    ensures AnyRegionHas(s, tried + [c], e) <==> AnyRegionHas(s, tried, e) || RegionHas(s, c, e)
  {
    var t := tried + [c];
    assert t[|tried|] == c;
    if AnyRegionHas(s, t, e) {
      var k :| 0 <= k < |t| && RegionHas(s, t[k], e);
      if k < |tried| {
        assert t[k] == tried[k];
      }
    }
    if AnyRegionHas(s, tried, e) {
      var k :| 0 <= k < |tried| && RegionHas(s, tried[k], e);
      assert t[k] == tried[k];
    }
  }

  /** True iff the region around `p` shows one of the entities of `want`
      that the placer looks for, the exit or the key. */
  ghost predicate RegionShows(s: seq<Tile>, p: int, want: Tile)
    requires |s| == CELLS
  {
    (Has(want, EXIT) && RegionHas(s, p, EXIT)) || (Has(want, KEY) && RegionHas(s, p, KEY))
  }

  /** For the two masks the placer tests, `seen & want` is non-zero iff
      `seen` holds one of the wanted entities. */
  lemma WantedSeen(seen: Tile, want: Tile)
    requires want == Bit(EXIT) || want == Bit(EXIT) | Bit(KEY)
    ensures seen & want != 0 <==> (Has(want, EXIT) && Has(seen, EXIT)) || (Has(want, KEY) && Has(seen, KEY))
  {
  }

  /** A region that shows anything starts on a walkable tile. */
  lemma RegionShowsWalkable(s: seq<Tile>, p: int, want: Tile)
    requires |s| == CELLS && 0 <= p < CELLS && RegionShows(s, p, want)
    ensures Walkable(s[p])
  {
    EmptyRegion(s, WALKABLE_MASK, Bit(FLOOR), p);
  }

  /** What the accumulator of the key or player loop records after the
      draws `tried`, the last of which is tile `c`: the key and the exit
      exactly when the region of some tried tile holds them, and anything
      wanted only when the region of `c` itself holds it. */
  ghost predicate SeenMatches(s: seq<Tile>, seen: Tile, tried: seq<int>, c: int, want: Tile)
    requires |s| == CELLS
  {
    |tried| >= 1 && tried[|tried| - 1] == c &&
    (Has(seen, KEY) <==> AnyRegionHas(s, tried, KEY)) &&
    (Has(seen, EXIT) <==> AnyRegionHas(s, tried, EXIT)) &&
    (seen & want != 0 ==> RegionShows(s, c, want))
  }

  /** One iteration of the key or player loop: draw x and y in
      [1, LEVEL_SIZE-1] and flood from there, or-ing into `seen0`, which
      shows nothing wanted yet. */
  method DrawRecorded(level: array<Tile>, rng: Oracle, seen0: Tile, ghost tried0: seq<int>, want: Tile)
      returns (x: int, y: int, seen: Tile, ghost tried: seq<int>)
    requires level.Length == CELLS
    requires want == Bit(EXIT) || want == Bit(EXIT) | Bit(KEY)
    requires seen0 & want == 0
    requires Has(seen0, KEY) <==> AnyRegionHas(level[..], tried0, KEY)
    requires Has(seen0, EXIT) <==> AnyRegionHas(level[..], tried0, EXIT)
    modifies rng
    ensures 1 <= x < LEVEL_SIZE && 1 <= y < LEVEL_SIZE
    ensures tried == tried0 + [Index(x, y)]
    ensures SeenMatches(level[..], seen, tried, Index(x, y), want)
    ensures rng.usedCoins == old(rng.usedCoins)
  {
    x := rng.IntRange(1, LEVEL_SIZE - 1);
    y := rng.IntRange(1, LEVEL_SIZE - 1);
    AnyRegionHasAppend(level[..], tried0, Index(x, y), KEY);
    AnyRegionHasAppend(level[..], tried0, Index(x, y), EXIT);
    WantedSeen(seen0, want);
    seen := FloodRecord(level, x, y, seen0);
    WantedSeen(seen, want);
    tried := tried0 + [Index(x, y)];
  }

  /** The key or player loop as written: draw in [1, LEVEL_SIZE-1], flood
      from the draw recording into `seen` (never reset between draws), and
      repeat unless StopAsWritten holds, at most max(1, fuel) times. `tried`
      are the drawn tiles; `seen` shows the key (the exit) exactly when the
      region of one of them holds it. Since the loop stops as soon as
      `seen & want` turns non-zero, that can only be the last draw's doing:
      a tile accepted other than bare floor is walkable and its own region
      shows a wanted entity. */
  method DrawFloodedAsWritten(level: array<Tile>, rng: Oracle, fuel: nat, want: Tile)
      returns (ok: bool, x: int, y: int, seen: Tile, ghost tried: seq<int>)
    requires level.Length == CELLS
    requires want == Bit(EXIT) || want == Bit(EXIT) | Bit(KEY)
    modifies rng
    ensures 1 <= x < LEVEL_SIZE && 1 <= y < LEVEL_SIZE
    ensures ok <==> StopAsWritten(level[Index(x, y)], seen, want)
    ensures seen & want != 0 ==> RegionShows(level[..], Index(x, y), want)
    ensures ok && level[Index(x, y)] != Bit(FLOOR) ==>
      RegionShows(level[..], Index(x, y), want) && Walkable(level[Index(x, y)])
    ensures |tried| >= 1 && tried[|tried| - 1] == Index(x, y)
    ensures Has(seen, KEY) <==> AnyRegionHas(level[..], tried, KEY)
    ensures Has(seen, EXIT) <==> AnyRegionHas(level[..], tried, EXIT)
    ensures rng.usedCoins == old(rng.usedCoins)
  {
    x, y, seen, tried := DrawRecorded(level, rng, 0, [], want);
    var tries := 1;
    while !StopAsWritten(level[Index(x, y)], seen, want) && tries < fuel
      invariant 1 <= x < LEVEL_SIZE && 1 <= y < LEVEL_SIZE && tries >= 1
      invariant SeenMatches(level[..], seen, tried, Index(x, y), want)
      invariant rng.usedCoins == old(rng.usedCoins)
      decreases fuel - tries
    {
      x, y, seen, tried := DrawRecorded(level, rng, seen, tried, want);
      tries := tries + 1;
    }
    ok := StopAsWritten(level[Index(x, y)], seen, want);
    if ok && level[Index(x, y)] != Bit(FLOOR) {
      IndexCoords(x, y);
      RegionShowsWalkable(level[..], Index(x, y), want);
    }
  }

  lemma NothingInZero()
    ensures !Has(0, KEY) && !Has(0, EXIT)
  {
  }

  /** The key or player loop with the intended test: `seen` is reset for
      every draw, and the loop stops only on a bare floor tile whose region
      shows every wanted entity. */
  method DrawFloodedChecked(level: array<Tile>, rng: Oracle, fuel: nat, want: Tile)
      returns (ok: bool, x: int, y: int, seen: Tile)
    requires level.Length == CELLS
    modifies rng
    ensures 1 <= x < LEVEL_SIZE && 1 <= y < LEVEL_SIZE
    ensures ok <==> StopChecked(level[Index(x, y)], seen, want)
    ensures Has(seen, KEY) <==> RegionHas(level[..], Index(x, y), KEY)
    ensures Has(seen, EXIT) <==> RegionHas(level[..], Index(x, y), EXIT)
    ensures rng.usedCoins == old(rng.usedCoins)
  {
    NothingInZero();
    x := rng.IntRange(1, LEVEL_SIZE - 1);
    y := rng.IntRange(1, LEVEL_SIZE - 1);
    seen := FloodRecord(level, x, y, 0);
    var tries := 1;
    while !StopChecked(level[Index(x, y)], seen, want) && tries < fuel
      invariant 1 <= x < LEVEL_SIZE && 1 <= y < LEVEL_SIZE && tries >= 1
      invariant Has(seen, KEY) <==> RegionHas(level[..], Index(x, y), KEY)
      invariant Has(seen, EXIT) <==> RegionHas(level[..], Index(x, y), EXIT)
      invariant rng.usedCoins == old(rng.usedCoins)
      decreases fuel - tries
    {
      x := rng.IntRange(1, LEVEL_SIZE - 1);
      y := rng.IntRange(1, LEVEL_SIZE - 1);
      seen := FloodRecord(level, x, y, 0);
      tries := tries + 1;
    }
    ok := StopChecked(level[Index(x, y)], seen, want);
  }

  lemma AddBitsHas(t: Tile, bits: Tile, e: Entity)
    ensures Has(AddBits(t, bits), e) <==> Has(t, e) || Has(bits, e)
  {
    HasUnion(t, bits, e);
  }

  /** What the key or player loop as written promises of the tile `at` it
      accepted on level `s`: it is the last of the tiles `tried`, it passes
      StopAsWritten, the accumulator `seen` shows the key and the exit
      exactly when the region of some tried tile holds them, and a tile
      other than bare floor is walkable with a wanted entity in its region. */
  ghost predicate AcceptedAsWritten(s: seq<Tile>, at: int, seen: Tile, tried: seq<int>, want: Tile)
    requires |s| == CELLS
  {
    0 <= at < CELLS && |tried| >= 1 && tried[|tried| - 1] == at &&
    StopAsWritten(s[at], seen, want) &&
    (Has(seen, KEY) <==> AnyRegionHas(s, tried, KEY)) &&
    (Has(seen, EXIT) <==> AnyRegionHas(s, tried, EXIT)) &&
    (s[at] != Bit(FLOOR) ==> Walkable(s[at]) && RegionShows(s, at, want))
  }

  /** The key or player placement as written: the loop of
      DrawFloodedAsWritten, then `|=` of `bit` into the tile it stopped on. */
  method PlaceFloodedAsWritten(level: array<Tile>, rng: Oracle, fuel: nat, want: Tile, bit: Tile)
      returns (ok: bool, at: int, ghost seen: Tile, ghost tried: seq<int>)
    requires level.Length == CELLS
    requires want == Bit(EXIT) || want == Bit(EXIT) | Bit(KEY)
    modifies level, rng
    ensures 0 <= at < CELLS && |tried| >= 1 && tried[|tried| - 1] == at
    ensures ok <==> StopAsWritten(old(level[at]), seen, want)
    ensures Has(seen, KEY) <==> AnyRegionHas(old(level[..]), tried, KEY)
    ensures Has(seen, EXIT) <==> AnyRegionHas(old(level[..]), tried, EXIT)
    ensures ok && old(level[at]) != Bit(FLOOR) ==>
      Walkable(old(level[at])) && RegionShows(old(level[..]), at, want)
    ensures ok ==> AcceptedAsWritten(old(level[..]), at, seen, tried, want)
    ensures level[..] == if ok then old(level[..])[at := AddBits(old(level[at]), bit)] else old(level[..])
  {
    var x, y, s;
    ok, x, y, s, tried := DrawFloodedAsWritten(level, rng, fuel, want);
    seen := s;
    IndexCoords(x, y);
    at := Index(x, y);
    if ok {
      level[at] := AddBits(level[at], bit);
    }
  }

  /** verified_scatter_placer as written: scatter, or the locked exit into a
      bare floor tile, then place the key and the player with the loops
      whose exit test is StopAsWritten, each or-ing its bit into whatever
      tile the loop stopped on. The three tiles need not differ. `scattered`
      is the level after the scattering loop; `keySeen` and `keyTried` are
      the accumulator and the drawn tiles of the key loop, `playerSeen` and
      `playerTried` those of the player loop. */
  method VerifiedScatterPlacer(level: array<Tile>, rng: Oracle, fuel: nat)
      returns (ok: bool, ghost exitAt: int, ghost keyAt: int, ghost playerAt: int,
               ghost scattered: seq<Tile>, ghost keySeen: Tile, ghost keyTried: seq<int>,
               ghost playerSeen: Tile, ghost playerTried: seq<int>)
    requires level.Length == CELLS
    modifies level, rng
    ensures |scattered| == CELLS
    ensures forall i :: 0 <= i < CELLS ==>
      if Interior(i) then Decorated(old(level[i]), scattered[i]) else scattered[i] == old(level[i])
    ensures ok ==> 0 <= exitAt < CELLS && 0 <= keyAt < CELLS && 0 <= playerAt < CELLS
    ensures ok ==> scattered[exitAt] == Bit(FLOOR) && old(level[exitAt]) == Bit(FLOOR)
    ensures ok ==>
      var withExit := scattered[exitAt := AddBits(scattered[exitAt], Bit(EXIT) | Bit(LOCK))];
      var withKey := withExit[keyAt := AddBits(withExit[keyAt], Bit(KEY))];
      AcceptedAsWritten(withExit, keyAt, keySeen, keyTried, Bit(EXIT)) &&
      AcceptedAsWritten(withKey, playerAt, playerSeen, playerTried, Bit(EXIT) | Bit(KEY)) &&
      level[..] == withKey[playerAt := AddBits(withKey[playerAt], Bit(PLAYER))]
    ensures ok ==> Has(level[exitAt], EXIT) && Has(level[exitAt], LOCK) && Has(level[keyAt], KEY) && Has(level[playerAt], PLAYER)
    ensures ok ==> forall i :: 0 <= i < CELLS && i != exitAt && i != keyAt && i != playerAt ==>
      if Interior(i) then Decorated(old(level[i]), level[i]) else level[i] == old(level[i])
  {
    ScatterEntities(level, rng);
    scattered := level[..];
    keyAt, playerAt := 0, 0;
    keySeen, keyTried, playerSeen, playerTried := 0, [0], 0, [0];
    var x, y;
    ok, x, y := DrawTile(level, rng, LEVEL_SIZE - 1, true, fuel);
    IndexCoords(x, y);
    exitAt := Index(x, y);
    if !ok {
      return;
    }
    DecoratedKeeps(old(level[exitAt]), scattered[exitAt]);
    level[Index(x, y)] := AddBits(level[Index(x, y)], Bit(EXIT) | Bit(LOCK));
    LockedExitBits();
    ghost var withExit := level[..];
    assert withExit == scattered[exitAt := AddBits(scattered[exitAt], Bit(EXIT) | Bit(LOCK))];
    ok, keyAt, keySeen, keyTried := PlaceFloodedAsWritten(level, rng, fuel, Bit(EXIT), Bit(KEY));
    if !ok {
      return;
    }
    ghost var withKey := level[..];
    AddBitsHas(withExit[keyAt], Bit(KEY), EXIT);
    AddBitsHas(withExit[keyAt], Bit(KEY), LOCK);
    AddBitsHas(withExit[keyAt], Bit(KEY), KEY);
    ok, playerAt, playerSeen, playerTried := PlaceFloodedAsWritten(level, rng, fuel, Bit(EXIT) | Bit(KEY), Bit(PLAYER));
    if !ok {
      return;
    }
    AddBitsHas(withKey[playerAt], Bit(PLAYER), EXIT);
    AddBitsHas(withKey[playerAt], Bit(PLAYER), LOCK);
    AddBitsHas(withKey[playerAt], Bit(PLAYER), KEY);
    AddBitsHas(withKey[playerAt], Bit(PLAYER), PLAYER);
  }

  /** A region whose start has no walkable neighbour is just the start. */
  lemma WalledInRegion(s: seq<Tile>, c: int)
    requires |s| == CELLS
    requires forall j :: Adjacent(c, j) ==> !Walkable(s[j])
    ensures forall t :: t in PlayerRegion(s, c) ==> t == c
  {
    forall t | t in PlayerRegion(s, c) ensures t == c {
      var w :| IsWalk(s, WALKABLE_MASK, Bit(FLOOR), w) && w[0] == c && w[|w| - 1] == t;
      WalkSecondStep(s, w);
    }
  }

  /** The second tile of a walk, if any, is a walkable neighbour of the first. */
  lemma WalkSecondStep(s: seq<Tile>, w: seq<int>)
    requires |s| == CELLS && IsWalk(s, WALKABLE_MASK, Bit(FLOOR), w)
    ensures |w| > 1 ==> Adjacent(w[0], w[1]) && Walkable(s[w[1]])
  {
  }

  /** A level with a bare floor tile at (5, 5) walled in on all sides, a
      locked exit at (10, 10) and a key at (15, 15), walls elsewhere. */
  function WalledInLevel(): (s: seq<Tile>)
    ensures |s| == CELLS
    ensures s[Index(5, 5)] == Bit(FLOOR) && s[Index(10, 10)] == LOCKED_EXIT && s[Index(15, 15)] == KEY_TILE
    ensures forall i :: 0 <= i < CELLS && i != Index(5, 5) && i != Index(10, 10) && i != Index(15, 15) ==>
      s[i] == Bit(WALL)
  {
    seq(CELLS, i => if i == Index(5, 5) then Bit(FLOOR)
                    else if i == Index(10, 10) then LOCKED_EXIT
                    else if i == Index(15, 15) then KEY_TILE
                    else Bit(WALL))
  }

  /** The player loop as written stops at once on the walled-in floor tile
      of WalledInLevel whatever has been seen, and or-ing the player in
      there leaves a level that cannot be completed: the corrected test
      refuses that tile, since its region shows neither key nor exit. */
  lemma PlayerLoopAcceptsWalledInFloor(seen: Tile)
    ensures var s := WalledInLevel(); var c := Index(5, 5);
      StopAsWritten(s[c], seen, Bit(EXIT) | Bit(KEY)) &&
      !StopChecked(s[c], Bit(FLOOR), Bit(EXIT) | Bit(KEY)) &&
      !Completable(s[c := AddBits(s[c], Bit(PLAYER))])
  {
    var s := WalledInLevel();
    var c := Index(5, 5);
    PlayerTileBits();
    WallBlocks(0);
    BitValues();
    var s' := s[c := AddBits(s[c], Bit(PLAYER))];
    assert s'[c] == PLAYER_TILE;
    forall j | Adjacent(c, j) ensures !Walkable(s'[j]) {
      assert j != c && j != Index(10, 10) && j != Index(15, 15);
    }
    WalledInRegion(s', c);
    forall j | 0 <= j < c ensures !Has(s'[j], PLAYER) {
      assert s'[j] == s[j] == Bit(WALL);
    }
    FirstIsLeast(s', PLAYER, c);
  }

  /** Or-ing the player into a bare floor tile keeps the entities of its
      region, and with no other player makes it the first player. */
  lemma PlacePlayerKeeps(s: seq<Tile>, p: int, e: Entity)
    requires |s| == CELLS && 0 <= p < CELLS && s[p] == Bit(FLOOR)
    requires e == KEY || e == EXIT
    ensures RegionHas(s, p, e) ==> RegionHas(s[p := PLAYER_TILE], p, e)
    ensures NoPlayer(s) ==> FirstPlayer(s[p := PLAYER_TILE]) == p
  {
    var s' := s[p := PLAYER_TILE];
    PlayerTileBits();
    FloorBits();
    RegionTransfer(s, s', p);
    if RegionHas(s, p, e) {
      var t :| t in PlayerRegion(s, p) && Has(s[t], e);
      assert t != p;
      assert t in PlayerRegion(s', p) && Has(s'[t], e);
    }
    if NoPlayer(s) {
      FirstIsLeast(s', PLAYER, p);
    }
  }

  /** verified_scatter_placer with the intended tests: the key goes on a bare
      floor tile whose region holds the exit, the player on a bare floor tile
      whose region holds both key and exit, and the level is completable. */
  method VerifiedScatterPlacerChecked(level: array<Tile>, rng: Oracle, fuel: nat)
      returns (ok: bool, ghost exitAt: int, ghost keyAt: int, ghost playerAt: int)
    requires level.Length == CELLS
    modifies level, rng
    ensures ok ==> 0 <= exitAt < CELLS && 0 <= keyAt < CELLS && 0 <= playerAt < CELLS
    ensures ok ==> exitAt != keyAt && exitAt != playerAt && keyAt != playerAt
    ensures ok ==> old(level[exitAt]) == Bit(FLOOR) && old(level[keyAt]) == Bit(FLOOR) && old(level[playerAt]) == Bit(FLOOR)
    ensures ok ==> level[exitAt] == LOCKED_EXIT && level[keyAt] == KEY_TILE && level[playerAt] == PLAYER_TILE
    ensures ok ==> forall i :: 0 <= i < CELLS && i != exitAt && i != keyAt && i != playerAt ==>
      if Interior(i) then Decorated(old(level[i]), level[i]) else level[i] == old(level[i])
    ensures ok ==> RegionHas(level[..], playerAt, KEY) && RegionHas(level[..], playerAt, EXIT)
    ensures ok && old(NoPlayer(level[..])) ==> Completable(level[..])
  {
    ScatterEntities(level, rng);
    ghost var decorated := level[..];
    forall i | 0 <= i < CELLS ensures decorated[i] == Bit(FLOOR) ==> old(level[i]) == Bit(FLOOR)
      ensures Has(decorated[i], PLAYER) <==> old(Has(level[i], PLAYER))
    {
      if Interior(i) {
        DecoratedKeeps(old(level[i]), decorated[i]);
      }
    }
    LockedExitBits();
    KeyTileBits();
    PlayerTileBits();
    keyAt, playerAt := 0, 0;
    var x, y;
    ok, x, y := DrawTile(level, rng, LEVEL_SIZE - 1, true, fuel);
    IndexCoords(x, y);
    exitAt := Index(x, y);
    if !ok {
      return;
    }
    level[Index(x, y)] := AddBits(level[Index(x, y)], Bit(EXIT) | Bit(LOCK));
    var seen;
    ok, x, y, seen := DrawFloodedChecked(level, rng, fuel, Bit(EXIT));
    IndexCoords(x, y);
    keyAt := Index(x, y);
    if !ok {
      return;
    }
    level[Index(x, y)] := AddBits(level[Index(x, y)], Bit(KEY));
    ghost var beforePlayer := level[..];
    ok, x, y, seen := DrawFloodedChecked(level, rng, fuel, Bit(EXIT) | Bit(KEY));
    IndexCoords(x, y);
    playerAt := Index(x, y);
    if !ok {
      return;
    }
    GoalMeans(seen);
    level[Index(x, y)] := AddBits(level[Index(x, y)], Bit(PLAYER));
    assert level[..] == beforePlayer[playerAt := PLAYER_TILE];
    PlacePlayerKeeps(beforePlayer, playerAt, KEY);
    PlacePlayerKeeps(beforePlayer, playerAt, EXIT);
  }
}
