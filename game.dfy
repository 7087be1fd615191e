/** The turn update of game.c. One call of update_level builds a fresh
    level from the static entities, moves every enemy one random step and
    the player one step in the chosen direction, collects what the player
    walks onto, copies the gold and keys that are left, keeps the locks
    only while some key is left, and reports whether the game has ended.
    The counters of collected gold and killed enemies live in a Game object. */
module Game {
  import opened Tiles
  import opened Completion

  /** The bits a player's step takes off the tile it enters. */
  const PICKUPS: Tile := Bit(GOLD) | Bit(KEY) | Bit(ENEMY)

  lemma EntityValues()
    ensures Bit(FLOOR) == 2 && Bit(WALL) == 4 && Bit(SPIKES) == 8 && Bit(EXIT) == 16
    ensures Bit(LOCK) == 32 && Bit(GOLD) == 64 && Bit(KEY) == 128
    ensures Bit(ENEMY) == 256 && Bit(PLAYER) == 512
    ensures STATIC_ENTITIES == 30 && SOLID_ENTITIES == 4 && PICKUPS == 448
  {
  }

  /** A tile a move cannot enter. */
  predicate Solid(t: Tile) {
    t & SOLID_ENTITIES != 0
  }

  /** The solid test of a move reads only the wall bit. */
  lemma SolidMeansWall(t: Tile)
    ensures Solid(t) <==> Has(t, WALL)
  {
    EntityValues();
  }

  /** A tile with the given static part and the given dynamic entities. */
  function Compose(t: Tile, enemy: bool, player: bool, gold: bool, key: bool, lock: bool): Tile {
    (t & STATIC_ENTITIES)
      | (if enemy then Bit(ENEMY) else 0)
      | (if player then Bit(PLAYER) else 0)
      | (if gold then Bit(GOLD) else 0)
      | (if key then Bit(KEY) else 0)
      | (if lock then Bit(LOCK) else 0)
  }

  /** The entities the first three passes of update_level place. */
  const DYNAMIC_ENTITIES: Tile := Bit(LOCK) | Bit(GOLD) | Bit(KEY) | Bit(ENEMY) | Bit(PLAYER)

  /** The static part of a tile, which every update keeps. */
  function StaticOf(t: Tile): Tile {
    t & STATIC_ENTITIES
  }

  /** Tile `u` carries the static part of `t`, exactly the listed dynamic
      entities, and no other bit. */
  predicate Shows(u: Tile, t: Tile, enemy: bool, player: bool, gold: bool, key: bool, lock: bool) {
    u & !DYNAMIC_ENTITIES == StaticOf(t) &&
    Has(u, ENEMY) == enemy && Has(u, PLAYER) == player &&
    Has(u, GOLD) == gold && Has(u, KEY) == key && Has(u, LOCK) == lock
  }

  /** The entity tests of a tile as tests of literal bits. */
  lemma HasLiterals(u: Tile)
    ensures Has(u, FLOOR) == (u & 2 != 0) && Has(u, WALL) == (u & 4 != 0)
    ensures Has(u, SPIKES) == (u & 8 != 0) && Has(u, EXIT) == (u & 16 != 0)
    ensures Has(u, ENEMY) == (u & 256 != 0) && Has(u, PLAYER) == (u & 512 != 0)
    ensures Has(u, GOLD) == (u & 64 != 0) && Has(u, KEY) == (u & 128 != 0)
    ensures Has(u, LOCK) == (u & 32 != 0)
  {
  }

  function Flag(b: bool, m: Tile): Tile {
    if b then m else 0
  }

  lemma FlagMatches(u: Tile, b: bool, m: Tile)
    requires m == 32 || m == 64 || m == 128 || m == 256 || m == 512
    ensures (u & m == Flag(b, m)) <==> ((u & m != 0) == b)
  {
    if b {
    } else {
    }
  }

  lemma SplitDynamic(u: Tile)
    ensures u == (u & !0x3E0) | (u & 256) | (u & 512) | (u & 64) | (u & 128) | (u & 32)
  {
  }

  lemma ComposeFlags(t: Tile, enemy: bool, player: bool, gold: bool, key: bool, lock: bool)
    ensures Compose(t, enemy, player, gold, key, lock) ==
      (t & 30) | Flag(enemy, 256) | Flag(player, 512) | Flag(gold, 64) | Flag(key, 128) | Flag(lock, 32)
  {
    EntityValues();
  }

  /** A tile is determined by what it shows. */
  lemma ShowsCompose(u: Tile, t: Tile, enemy: bool, player: bool, gold: bool, key: bool, lock: bool)
    requires Shows(u, t, enemy, player, gold, key, lock)
    ensures u == Compose(t, enemy, player, gold, key, lock)
  {
    EntityValues();
    HasLiterals(u);
    SplitDynamic(u);
    ComposeFlags(t, enemy, player, gold, key, lock);
    FlagMatches(u, enemy, 256);
    FlagMatches(u, player, 512);
    FlagMatches(u, gold, 64);
    FlagMatches(u, key, 128);
    FlagMatches(u, lock, 32);
  }

  lemma FlagCases(enemy: bool, player: bool, gold: bool, key: bool, lock: bool)
    ensures var f := Flag(enemy, 256) | Flag(player, 512) | Flag(gold, 64) | Flag(key, 128) | Flag(lock, 32);
      f & !0x3E0 == 0 && (f & 256 != 0) == enemy && (f & 512 != 0) == player &&
      (f & 64 != 0) == gold && (f & 128 != 0) == key && (f & 32 != 0) == lock
  {
  }

  /** A composed tile carries exactly the static bits of `t` and the chosen
      dynamic entities. */
  lemma ComposeMeans(t: Tile, enemy: bool, player: bool, gold: bool, key: bool, lock: bool)
    ensures var r := Compose(t, enemy, player, gold, key, lock);
      Shows(r, t, enemy, player, gold, key, lock) && StaticOf(r) == StaticOf(t) &&
      (Has(r, FLOOR) <==> Has(t, FLOOR)) && (Has(r, WALL) <==> Has(t, WALL)) &&
      (Has(r, SPIKES) <==> Has(t, SPIKES)) && (Has(r, EXIT) <==> Has(t, EXIT))
  {
    EntityValues();
    var r := Compose(t, enemy, player, gold, key, lock);
    ComposeFlags(t, enemy, player, gold, key, lock);
    HasLiterals(r);
    FlagCases(enemy, player, gold, key, lock);
  }

  /** A tile equal to a composition shows what was composed. */
  lemma ComposedShows(u: Tile, t: Tile, enemy: bool, player: bool, gold: bool, key: bool, lock: bool)
    requires u == Compose(t, enemy, player, gold, key, lock)
    ensures Shows(u, t, enemy, player, gold, key, lock) && StaticOf(u) == StaticOf(t)
  {
    ComposeMeans(t, enemy, player, gold, key, lock);
  }

  /** The single-bit updates of update_level, each leaving the static part. */
  function WithEnemy(u: Tile): (r: Tile)
    ensures StaticOf(r) == StaticOf(u)
  {
    EntityValues();
    u | Bit(ENEMY)
  }

  function WithPlayer(u: Tile): (r: Tile)
    ensures StaticOf(r) == StaticOf(u)
  {
    EntityValues();
    u | Bit(PLAYER)
  }

  function WithGold(u: Tile): (r: Tile)
    ensures StaticOf(r) == StaticOf(u)
  {
    EntityValues();
    u | Bit(GOLD)
  }

  function WithKey(u: Tile): (r: Tile)
    ensures StaticOf(r) == StaticOf(u)
  {
    EntityValues();
    u | Bit(KEY)
  }

  function WithLock(u: Tile): (r: Tile)
    ensures StaticOf(r) == StaticOf(u)
  {
    EntityValues();
    u | Bit(LOCK)
  }

  function FlipEnemy(u: Tile): (r: Tile)
    ensures StaticOf(r) == StaticOf(u)
  {
    EntityValues();
    u ^ Bit(ENEMY)
  }

  function FlipGold(u: Tile): Tile {
    u ^ Bit(GOLD)
  }

  function FlipKey(u: Tile): Tile {
    u ^ Bit(KEY)
  }

  /** What a tile shows after each single-bit update. */
  lemma ShowsWithEnemy(u: Tile, t: Tile, enemy: bool, player: bool, gold: bool, key: bool, lock: bool)
    requires Shows(u, t, enemy, player, gold, key, lock)
    ensures Shows(WithEnemy(u), t, true, player, gold, key, lock)
  {
    EntityValues();
    HasLiterals(u);
    HasLiterals(WithEnemy(u));
  }

  lemma ShowsWithPlayer(u: Tile, t: Tile, enemy: bool, player: bool, gold: bool, key: bool, lock: bool)
    requires Shows(u, t, enemy, player, gold, key, lock)
    ensures Shows(WithPlayer(u), t, enemy, true, gold, key, lock)
  {
    EntityValues();
    HasLiterals(u);
    HasLiterals(WithPlayer(u));
  }

  lemma ShowsFlipEnemy(u: Tile, t: Tile, player: bool, gold: bool, key: bool, lock: bool)
    requires Shows(u, t, true, player, gold, key, lock)
    ensures Shows(FlipEnemy(u), t, false, player, gold, key, lock)
  {
    EntityValues();
    HasLiterals(u);
    HasLiterals(FlipEnemy(u));
  }

  lemma ShowsWithGold(u: Tile, t: Tile, enemy: bool, player: bool, gold: bool, key: bool, lock: bool)
    requires Shows(u, t, enemy, player, gold, key, lock)
    ensures Shows(WithGold(u), t, enemy, player, true, key, lock)
  {
    EntityValues();
    HasLiterals(u);
    HasLiterals(WithGold(u));
  }

  lemma ShowsWithKey(u: Tile, t: Tile, enemy: bool, player: bool, gold: bool, key: bool, lock: bool)
    requires Shows(u, t, enemy, player, gold, key, lock)
    ensures Shows(WithKey(u), t, enemy, player, gold, true, lock)
  {
    EntityValues();
    HasLiterals(u);
    HasLiterals(WithKey(u));
  }

  lemma ShowsWithLock(u: Tile, t: Tile, enemy: bool, player: bool, gold: bool, key: bool, lock: bool)
    requires Shows(u, t, enemy, player, gold, key, lock)
    ensures Shows(WithLock(u), t, enemy, player, gold, key, true)
  {
    EntityValues();
    HasLiterals(u);
    HasLiterals(WithLock(u));
  }

  /** The first pass starts each tile from its static part. */
  lemma ShowsStatic(t: Tile)
    ensures Shows(StaticOf(t), t, false, false, false, false, false)
  {
    EntityValues();
    HasLiterals(StaticOf(t));
  }

  lemma StaticOfEmpty(t: Tile)
    ensures 0 | StaticOf(t) == StaticOf(t)
    ensures StaticOf(StaticOf(t)) == StaticOf(t)
  {
  }

  /** The tile the player entered, once its gold, key and enemy are taken. */
  function Clear(t: Tile): Tile {
    t & !PICKUPS
  }

  lemma ClearMeans(t: Tile)
    ensures var r := Clear(t);
      StaticOf(r) == StaticOf(t) &&
      (Has(r, WALL) <==> Has(t, WALL)) && (Has(r, LOCK) <==> Has(t, LOCK)) &&
      (Has(r, PLAYER) <==> Has(t, PLAYER)) &&
      !Has(r, GOLD) && !Has(r, KEY) && !Has(r, ENEMY)
  {
    EntityValues();
  }

  /** Toggling each pickup the tile carries clears exactly the pickups. */
  lemma PickupsCleared(t: Tile)
    ensures var a := if Has(t, GOLD) then FlipGold(t) else t;
      var b := if Has(t, KEY) then FlipKey(a) else a;
      (if Has(t, ENEMY) then FlipEnemy(b) else b) == Clear(t)
  {
    var a := if Has(t, GOLD) then FlipGold(t) else t;
    DropGold(t);
    var b := if Has(t, KEY) then FlipKey(a) else a;
    DropKey(t, a);
    DropEnemy(t, b);
  }

  lemma DropGold(t: Tile)
    ensures (if Has(t, GOLD) then FlipGold(t) else t) == t & 0xFFBF
  {
    EntityValues();
    HasLiterals(t);
    if Has(t, GOLD) {
    } else {
    }
  }

  lemma DropKey(t: Tile, a: Tile)
    requires a == t & 0xFFBF
    ensures (if Has(t, KEY) then FlipKey(a) else a) == t & 0xFF3F
  {
    EntityValues();
    HasLiterals(t);
    if Has(t, KEY) {
    } else {
    }
  }

  lemma DropEnemy(t: Tile, b: Tile)
    requires b == t & 0xFF3F
    ensures (if Has(t, ENEMY) then FlipEnemy(b) else b) == Clear(t)
  {
    EntityValues();
    HasLiterals(t);
    if Has(t, ENEMY) {
    } else {
    }
  }

  /** Taking the pickups of one tile leaves no player or enemy on the ring. */
  lemma ClearKeepsRing(s: seq<Tile>, q: int)
    requires |s| == CELLS && 0 <= q < CELLS
    ensures NoneOnRing(s) ==> NoneOnRing(s[q := Clear(s[q])])
  {
    ClearMeans(s[q]);
  }

  /** No player and no enemy stands on the outer ring, so every step the
      update reads stays inside the level. */
  predicate NoneOnRing(s: seq<Tile>)
    requires |s| == CELLS
  {
    forall i :: 0 <= i < CELLS && OnRing(i) ==> !Has(s[i], PLAYER) && !Has(s[i], ENEMY)
  }

  predicate AtMostOnePlayer(s: seq<Tile>)
    requires |s| == CELLS
  {
    forall i :: 0 <= i < CELLS && Has(s[i], PLAYER) ==> i == FirstPlayer(s)
  }

  /** The player's part of a turn: whether there is a player, the tile it
      stands on, the tile the direction points at, and whether that tile
      can be entered. */
  datatype Move = Move(present: bool, from: int, to: int, enters: bool) {
    function Dest(): int {
      if enters then to else from
    }
  }

  predicate Sound(m: Move) {
    (m.present ==> 0 <= m.from < CELLS && 0 <= m.to < CELLS) && (m.enters ==> m.present)
  }

  /** The move of the first player in scan order: one step in `direction`,
      taken unless the tile there is solid; a direction other than UP, DOWN,
      LEFT and RIGHT points at the player's own tile. */
  function PlayerMove(s: seq<Tile>, direction: int): (m: Move)
    requires |s| == CELLS && NoneOnRing(s)
    ensures Sound(m)
    ensures m.present <==> FirstPlayer(s) < CELLS
    ensures !m.present ==> !m.enters
    ensures m.present ==> m.from == FirstPlayer(s) && Interior(m.from) && Has(s[m.from], PLAYER)
    ensures m.present ==> m.to == Step(m.from, direction) && (m.to == m.from || Adjacent(m.from, m.to))
    ensures m.present ==> (m.to == m.from <==> !(UP <= direction <= RIGHT))
    ensures m.present ==> (m.enters <==> !Has(s[m.to], WALL))
  {
    var p := FirstPlayer(s);
    if p == CELLS then Move(false, p, p, false)
    else
      StepFromInterior(p, direction);
      var q := Step(p, direction);
      Move(true, p, q, !Has(s[q], WALL))
  }

  /** Where the enemy on tile `c` ends up for the die roll `draw` in [1, 6]:
      one step for rolls 1 to 4 unless the tile there is solid, else where
      it was. */
  function EnemyTarget(s: seq<Tile>, c: int, draw: int): (r: int)
    requires |s| == CELLS && 0 <= c < CELLS
    ensures 0 <= r < CELLS
    ensures Interior(c) ==> r == c || (Adjacent(c, r) && !Has(s[r], WALL))
    ensures Interior(c) && !(UP <= draw <= RIGHT) ==> r == c
  {
    var n := Step(c, draw);
    if 0 <= n < CELLS && !Has(s[n], WALL) then n else c
  }

  /** The enemy on tile `c` takes its turn: the one on the tile the player
      enters later in scan order is removed before its turn comes. */
  predicate Active(s: seq<Tile>, m: Move, c: int)
    requires 0 <= c < |s|
  {
    Has(s[c], ENEMY) && !(m.enters && m.from < m.to && c == m.to)
  }

  /** Some enemy of a tile in [lo, hi) that takes its turn moves onto tile `i`. */
  function Arrived(s: seq<Tile>, m: Move, draws: seq<int>, i: int, lo: int, hi: int): bool
    requires |s| == CELLS && |draws| == CELLS && 0 <= lo <= hi <= CELLS
    decreases hi - lo
  {
    if hi == lo then false
    else (Arrived(s, m, draws, i, lo, hi - 1) ||
          (Active(s, m, hi - 1) && EnemyTarget(s, hi - 1, draws[hi - 1]) == i))
  }

  /** Arrived is the existence of such an enemy. */
  lemma {:induction false} ArrivedMeans(s: seq<Tile>, m: Move, draws: seq<int>, i: int, lo: int, hi: int)
    requires |s| == CELLS && |draws| == CELLS && 0 <= lo <= hi <= CELLS
    ensures Arrived(s, m, draws, i, lo, hi) <==>
      exists c :: lo <= c < hi && Active(s, m, c) && EnemyTarget(s, c, draws[c]) == i
    decreases hi - lo
  {
    if hi > lo {
      ArrivedMeans(s, m, draws, i, lo, hi - 1);
    }
  }

  /** The enemy bit of tile `i` once the enemies of the tiles below `hi`
      have moved and the player, if it stands below `done`, has moved: the
      player's start loses every enemy that reached it up to its own turn. */
  function EnemyFlag(s: seq<Tile>, m: Move, draws: seq<int>, i: int, done: int, hi: int): bool
    requires |s| == CELLS && |draws| == CELLS && Sound(m) && 0 <= done <= hi <= CELLS
  {
    if m.present && m.from < done && i == m.from then Arrived(s, m, draws, i, m.from + 1, hi)
    else Arrived(s, m, draws, i, 0, hi)
  }

  predicate PlayerAfter(m: Move, i: int, done: int) {
    m.present && m.from < done && i == m.Dest()
  }

  /** The input level once the player, if it stands below `done`, has
      taken the gold, key and enemy of the tile it entered. */
  function LevelAfter(s: seq<Tile>, m: Move, done: int): seq<Tile>
    requires |s| == CELLS && Sound(m)
  {
    if m.enters && m.from < done then s[m.to := Clear(s[m.to])] else s
  }

  function GoldAfter(s: seq<Tile>, m: Move, done: int): int
    requires |s| == CELLS && Sound(m)
  {
    if m.enters && m.from < done && Has(s[m.to], GOLD) then 1 else 0
  }

  /** The kills counted once the player has moved: one for an enemy that
      reached its start up to its turn, one for an enemy on the tile it enters. */
  function KillsAfter(s: seq<Tile>, m: Move, draws: seq<int>, done: int): int
    requires |s| == CELLS && |draws| == CELLS && Sound(m)
  {
    if m.present && m.from < done then
      (if Arrived(s, m, draws, m.from, 0, m.from + 1) then 1 else 0) +
      (if m.enters && Has(s[m.to], ENEMY) then 1 else 0)
    else 0
  }

  /** The player entered spikes, or an exit without a lock. */
  predicate Ends(s: seq<Tile>, m: Move)
    requires |s| == CELLS && Sound(m)
  {
    m.enters && ((Has(s[m.to], EXIT) && !Has(s[m.to], LOCK)) || Has(s[m.to], SPIKES))
  }

  /** The first pass of update_level stopped after the enemies of tiles
      below `hi` and the player of a tile below `done`: `lv` is the input
      level, `u` the level being built, `gold` and `killed` the counter
      increments so far. */
  ghost predicate PassState(s: seq<Tile>, m: Move, draws: seq<int>, done: int, hi: int,
                            lv: seq<Tile>, u: seq<Tile>, gold: int, killed: int)
    requires |s| == CELLS && |draws| == CELLS && Sound(m) && 0 <= done <= hi <= CELLS
  {
    lv == LevelAfter(s, m, done) && |u| == CELLS &&
    (forall i {:trigger u[i]} :: 0 <= i < CELLS ==>
      Shows(u[i], s[i], EnemyFlag(s, m, draws, i, done, hi), PlayerAfter(m, i, done), false, false, false)) &&
    gold == GoldAfter(s, m, done) && killed == KillsAfter(s, m, draws, done)
  }

  /** The outcome of one turn. */
  datatype Turn = Turn(level: seq<Tile>, gold: int, killed: int, over: bool)

  /** update_level on a level `s` with at most one player, the player
      stepping in `direction` and the enemy of tile c rolling draws[c]. */
  function Update(s: seq<Tile>, direction: int, draws: seq<int>): (o: Turn)
    requires |s| == CELLS && |draws| == CELLS && NoneOnRing(s)
    ensures |o.level| == CELLS
  {
    var m := PlayerMove(s, direction);
    var l := LevelAfter(s, m, CELLS);
    var keyLeft := exists j :: 0 <= j < CELLS && Has(l[j], KEY);
    Turn(seq(CELLS, i requires 0 <= i < CELLS =>
           Compose(s[i], EnemyFlag(s, m, draws, i, CELLS, CELLS), PlayerAfter(m, i, CELLS),
                   Has(l[i], GOLD), Has(l[i], KEY), Has(l[i], LOCK) && keyLeft)),
         GoldAfter(s, m, CELLS), KillsAfter(s, m, draws, CELLS), Ends(s, m))
  }

  /** The tile that the input level shows the first pass on its own turn. */
  lemma LevelAfterAt(s: seq<Tile>, m: Move, k: int, draw: int)
    requires |s| == CELLS && Sound(m) && 0 <= k < CELLS
    ensures var lv := LevelAfter(s, m, k);
      |lv| == CELLS &&
      (Has(lv[k], ENEMY) <==> Active(s, m, k)) &&
      (Has(lv[k], PLAYER) <==> Has(s[k], PLAYER)) &&
      (forall i :: 0 <= i < CELLS ==> (Has(lv[i], PLAYER) <==> Has(s[i], PLAYER))) &&
      (forall i :: 0 <= i < CELLS && Has(lv[i], ENEMY) ==> Has(s[i], ENEMY)) &&
      EnemyTarget(lv, k, draw) == EnemyTarget(s, k, draw)
  {
    if m.enters {
      ClearMeans(s[m.to]);
    }
  }

  /** The first pass starts from the static part of every tile. */
  lemma PassStart(s: seq<Tile>, direction: int, draws: seq<int>, u: seq<Tile>)
    requires |s| == CELLS && |draws| == CELLS && NoneOnRing(s) && |u| == CELLS
    requires forall j :: 0 <= j < CELLS ==> u[j] == StaticOf(s[j])
    ensures PassState(s, PlayerMove(s, direction), draws, 0, 0, s, u, 0, 0)
  {
    forall j | 0 <= j < CELLS
      ensures Shows(u[j], s[j], EnemyFlag(s, PlayerMove(s, direction), draws, j, 0, 0), false, false, false, false)
    {
      ShowsStatic(s[j]);
    }
  }

  /** Moving the enemy of tile k extends the first pass by that tile's enemy. */
  lemma EnemyPassStep(s: seq<Tile>, m: Move, draws: seq<int>, k: int,
                      lv: seq<Tile>, u: seq<Tile>, u': seq<Tile>, gold: int, killed: int)
    requires |s| == CELLS && |draws| == CELLS && Sound(m) && 0 <= k < CELLS
    requires PassState(s, m, draws, k, k, lv, u, gold, killed)
    requires Active(s, m, k) ==>
      var t := EnemyTarget(s, k, draws[k]); u' == u[t := WithEnemy(u[t])]
    requires !Active(s, m, k) ==> u' == u
    ensures PassState(s, m, draws, k, k + 1, lv, u', gold, killed)
  {
    forall i | 0 <= i < CELLS
      ensures Shows(u'[i], s[i], EnemyFlag(s, m, draws, i, k, k + 1), PlayerAfter(m, i, k), false, false, false)
    {
      if Active(s, m, k) && i == EnemyTarget(s, k, draws[k]) {
        ShowsWithEnemy(u[i], s[i], EnemyFlag(s, m, draws, i, k, k), PlayerAfter(m, i, k), false, false, false);
      }
    }
  }

  /** A tile without the player finishes its turn after its enemy. */
  lemma NoPlayerPassStep(s: seq<Tile>, m: Move, draws: seq<int>, k: int,
                         lv: seq<Tile>, u: seq<Tile>, gold: int, killed: int)
    requires |s| == CELLS && |draws| == CELLS && Sound(m) && 0 <= k < CELLS
    requires PassState(s, m, draws, k, k + 1, lv, u, gold, killed)
    requires m.present ==> Has(s[m.from], PLAYER)
    requires !Has(lv[k], PLAYER)
    ensures PassState(s, m, draws, k + 1, k + 1, lv, u, gold, killed)
    ensures !(m.present && m.from == k)
  {
  }

  /** A player stands inside the ring. */
  lemma PlayerInterior(s: seq<Tile>, c: int)
    requires |s| == CELLS && 0 <= c < CELLS && NoneOnRing(s) && Has(s[c], PLAYER)
    ensures Interior(c)
  {
  }

  /** The player's turn on tile k, as MovePlayer carries it out, finishes
      the first pass on that tile. */
  lemma PlayerPassStep(s: seq<Tile>, direction: int, draws: seq<int>, k: int,
                       lv: seq<Tile>, u: seq<Tile>, gold: int, killed: int,
                       lv': seq<Tile>, u': seq<Tile>, gold': int, killed': int, over: bool)
    requires |s| == CELLS && |draws| == CELLS && NoneOnRing(s) && 0 <= k < CELLS
    requires AtMostOnePlayer(s) && PassState(s, PlayerMove(s, direction), draws, k, k + 1, lv, u, gold, killed)
    requires Has(lv[k], PLAYER)
    requires var q := Step(k, direction);
      var hit := Has(u[k], ENEMY);
      var u1 := if hit then u[k := FlipEnemy(u[k])] else u;
      var t := lv[q];
      var enters := !Has(t, WALL);
      u' == (if enters then u1[q := WithPlayer(u1[q])] else u1[k := WithPlayer(u1[k])]) &&
      lv' == (if enters then lv[q := Clear(t)] else lv) &&
      gold' == gold + (if enters && Has(t, GOLD) then 1 else 0) &&
      killed' == killed + (if hit then 1 else 0) + (if enters && Has(t, ENEMY) then 1 else 0) &&
      over == (enters && ((Has(t, EXIT) && !Has(t, LOCK)) || Has(t, SPIKES)))
    ensures var m := PlayerMove(s, direction);
      PassState(s, m, draws, k + 1, k + 1, lv', u', gold', killed') &&
      m.present && m.from == k && over == Ends(s, m)
  {
    var m := PlayerMove(s, direction);
    assert Has(s[k], PLAYER);
    assert m.from == k;
    var hit := Has(u[k], ENEMY);
    var u1 := if hit then u[k := FlipEnemy(u[k])] else u;
    KillStep(s, m, draws, k, u, u1);
    KillFlag(s, m, draws, k);
    PlaceStep(s, m, draws, k, u1, u');
  }

  /** The player of tile k removes the enemy that reached its start. */
  lemma KillStep(s: seq<Tile>, m: Move, draws: seq<int>, k: int, u: seq<Tile>, u1: seq<Tile>)
    requires |s| == CELLS && |draws| == CELLS && Sound(m) && 0 <= k < CELLS && |u| == CELLS
    requires m.present && m.from == k
    requires forall i {:trigger u[i]} :: 0 <= i < CELLS ==>
      Shows(u[i], s[i], EnemyFlag(s, m, draws, i, k, k + 1), PlayerAfter(m, i, k), false, false, false)
    requires u1 == if Has(u[k], ENEMY) then u[k := FlipEnemy(u[k])] else u
    ensures Has(u[k], ENEMY) == EnemyFlag(s, m, draws, k, k, k + 1)
    ensures forall i {:trigger u1[i]} :: 0 <= i < CELLS ==>
      Shows(u1[i], s[i], EnemyFlag(s, m, draws, i, k + 1, k + 1), false, false, false, false)
  {
    assert !PlayerAfter(m, k, k);
    if Has(u[k], ENEMY) {
      ShowsFlipEnemy(u[k], s[k], false, false, false, false);
    }
    assert !EnemyFlag(s, m, draws, k, k + 1, k + 1);
    forall i | 0 <= i < CELLS && i != k
      ensures Shows(u1[i], s[i], EnemyFlag(s, m, draws, i, k + 1, k + 1), false, false, false, false)
    {
      KillElsewhere(s, m, draws, k, i);
    }
  }

  /** The enemy on the player's start is the one that reached it by its turn. */
  lemma KillFlag(s: seq<Tile>, m: Move, draws: seq<int>, k: int)
    requires |s| == CELLS && |draws| == CELLS && Sound(m) && 0 <= k < CELLS
    requires m.present && m.from == k
    ensures EnemyFlag(s, m, draws, k, k, k + 1) == Arrived(s, m, draws, k, 0, k + 1)
  {
  }

  lemma KillElsewhere(s: seq<Tile>, m: Move, draws: seq<int>, k: int, i: int)
    requires |s| == CELLS && |draws| == CELLS && Sound(m) && 0 <= k < CELLS && 0 <= i < CELLS
    requires m.present && m.from == k && i != k
    ensures EnemyFlag(s, m, draws, i, k + 1, k + 1) == EnemyFlag(s, m, draws, i, k, k + 1)
    ensures !PlayerAfter(m, i, k)
  {
  }

  /** The player of tile k lands on its destination. */
  lemma PlaceStep(s: seq<Tile>, m: Move, draws: seq<int>, k: int, u1: seq<Tile>, u': seq<Tile>)
    requires |s| == CELLS && |draws| == CELLS && Sound(m) && 0 <= k < CELLS && |u1| == CELLS
    requires m.present && m.from == k
    requires forall i {:trigger u1[i]} :: 0 <= i < CELLS ==>
      Shows(u1[i], s[i], EnemyFlag(s, m, draws, i, k + 1, k + 1), false, false, false, false)
    requires u' == u1[m.Dest() := WithPlayer(u1[m.Dest()])]
    ensures |u'| == CELLS
    ensures forall i {:trigger u'[i]} :: 0 <= i < CELLS ==>
      Shows(u'[i], s[i], EnemyFlag(s, m, draws, i, k + 1, k + 1), PlayerAfter(m, i, k + 1), false, false, false)
  {
    var d := m.Dest();
    ShowsWithPlayer(u1[d], s[d], EnemyFlag(s, m, draws, d, k + 1, k + 1), false, false, false, false);
  }

  /** The second pass copies the gold and the key of input tile `t` into `u`. */
  function Collect(u: Tile, t: Tile): Tile {
    var g := if Has(t, GOLD) then WithGold(u) else u;
    if Has(t, KEY) then WithKey(g) else g
  }

  /** The final pass keeps the lock of input tile `t` while a key is left. */
  function KeepLock(u: Tile, t: Tile, keyHasBeenCollected: bool): Tile {
    if Has(t, LOCK) && !keyHasBeenCollected then WithLock(u) else u
  }

  /** The second and final passes on a tile the first pass left showing
      only an enemy and a player flag. */
  lemma ComposeCollect(u: Tile, t: Tile, enemy: bool, player: bool, l: Tile, keyHasBeenCollected: bool)
    requires Shows(u, t, enemy, player, false, false, false)
    ensures KeepLock(Collect(u, l), l, keyHasBeenCollected) ==
      Compose(t, enemy, player, Has(l, GOLD), Has(l, KEY), Has(l, LOCK) && !keyHasBeenCollected)
  {
    var g := if Has(l, GOLD) then WithGold(u) else u;
    if Has(l, GOLD) {
      ShowsWithGold(u, t, enemy, player, false, false, false);
    }
    var c := Collect(u, l);
    if Has(l, KEY) {
      ShowsWithKey(g, t, enemy, player, Has(l, GOLD), false, false);
    }
    var r := KeepLock(c, l, keyHasBeenCollected);
    if Has(l, LOCK) && !keyHasBeenCollected {
      ShowsWithLock(c, t, enemy, player, Has(l, GOLD), Has(l, KEY), false);
    }
    ShowsCompose(r, t, enemy, player, Has(l, GOLD), Has(l, KEY), Has(l, LOCK) && !keyHasBeenCollected);
  }

  lemma StaticCollect(u: Tile, t: Tile, keyHasBeenCollected: bool)
    ensures StaticOf(KeepLock(Collect(u, t), t, keyHasBeenCollected)) == StaticOf(u)
  {
  }

  /** The end of the first pass, followed by the second and final passes,
      is the turn Update describes. */
  lemma AssembleTurn(s: seq<Tile>, direction: int, draws: seq<int>, lv: seq<Tile>, u: seq<Tile>,
                     gold: int, killed: int, keyHasBeenCollected: bool, out: seq<Tile>)
    requires |s| == CELLS && |draws| == CELLS && NoneOnRing(s)
    requires PassState(s, PlayerMove(s, direction), draws, CELLS, CELLS, lv, u, gold, killed)
    requires keyHasBeenCollected <==> forall j :: 0 <= j < CELLS ==> !Has(lv[j], KEY)
    requires |out| == CELLS
    requires forall i :: 0 <= i < CELLS ==> out[i] == KeepLock(Collect(u[i], lv[i]), lv[i], keyHasBeenCollected)
    ensures out == Update(s, direction, draws).level
  {
    var m := PlayerMove(s, direction);
    var o := Update(s, direction, draws);
    forall i | 0 <= i < CELLS ensures out[i] == o.level[i] {
      ComposeCollect(u[i], s[i], EnemyFlag(s, m, draws, i, CELLS, CELLS), PlayerAfter(m, i, CELLS),
                     lv[i], keyHasBeenCollected);
    }
  }

  /** The enemy of tile (x, y) rolls `draw` and moves there in the level
      being built, or stays when the tile it would enter is solid. */
  method MoveEnemy(level: array<Tile>, updated: array<Tile>, x: int, y: int, draw: int)
    requires level.Length == CELLS && updated.Length == CELLS && level != updated
    requires InGrid(x, y) && Interior(Index(x, y))
    modifies updated
    ensures var t := EnemyTarget(level[..], Index(x, y), draw);
      updated[..] == old(updated[..])[t := WithEnemy(old(updated[t]))]
    ensures forall j :: 0 <= j < CELLS ==> StaticOf(updated[j]) == StaticOf(old(updated[j]))
  {
    var newX, newY := x, y;
    if draw == UP {
      newY := newY - 1;
    } else if draw == DOWN {
      newY := newY + 1;
    } else if draw == LEFT {
      newX := newX - 1;
    } else if draw == RIGHT {
      newX := newX + 1;
    }
    StepFromInterior(Index(x, y), draw);
    assert Index(newX, newY) == Step(Index(x, y), draw);
    var t := Index(newX, newY);
    SolidMeansWall(level[t]);
    if !Solid(level[t]) {
      updated[t] := WithEnemy(updated[t]);
    } else {
      t := Index(x, y);
      updated[t] := WithEnemy(updated[t]);
    }
  }

  /** The enemy's turn on tile (x, y), whose input tile is `tile`, with
      the roll `draw`. */
  method EnemyTurn(level: array<Tile>, updated: array<Tile>, x: int, y: int, tile: Tile, draw: int,
                   ghost s: seq<Tile>, ghost draws: seq<int>, ghost one: bool,
                   ghost gold: int, ghost killed: int, ghost m: Move)
    requires level.Length == CELLS && updated.Length == CELLS && level != updated
    requires |draws| == CELLS && |s| == CELLS && InGrid(x, y) && tile == level[Index(x, y)]
    requires draw == draws[Index(x, y)]
    requires NoneOnRing(level[..])
    requires forall j :: 0 <= j < CELLS ==> StaticOf(updated[j]) == StaticOf(s[j])
    requires one ==> (Sound(m) &&
      PassState(s, m, draws, Index(x, y), Index(x, y), level[..], updated[..], gold, killed))
    modifies updated
    ensures forall j :: 0 <= j < CELLS ==> StaticOf(updated[j]) == StaticOf(s[j])
    ensures one ==> PassState(s, m, draws, Index(x, y), Index(x, y) + 1, level[..], updated[..], gold, killed)
  {
    var c := Index(x, y);
    IndexCoords(x, y);
    ghost var u0 := updated[..];
    if one {
      LevelAfterAt(s, m, c, draw);
    }
    if Has(tile, ENEMY) {
      MoveEnemy(level, updated, x, y, draw);
    }
    if one {
      EnemyPassStep(s, m, draws, c, level[..], u0, updated[..], gold, killed);
    }
  }

  /** The two statistics globals of game.c that update_level bumps: gold
      collected and enemies killed. */
  class Game {
    var goldCollected: int
    var enemiesKilled: int

    constructor ()
      ensures goldCollected == 0 && enemiesKilled == 0
    {
      goldCollected, enemiesKilled := 0, 0;
    }

    /** The player on tile (x, y) takes its turn: an enemy already placed
        on its start in the level being built is removed and counted; then
        unless the tile in `direction` is solid the player moves there,
        taking and counting its gold, taking its key and removing and
        counting its enemy, and the game ends on spikes or an unlocked
        exit; otherwise the player stays. */
    method MovePlayer(level: array<Tile>, updated: array<Tile>, x: int, y: int, direction: int)
        returns (over: bool)
      requires level.Length == CELLS && updated.Length == CELLS && level != updated
      requires InGrid(x, y) && Interior(Index(x, y))
      modifies this, level, updated
      ensures var c := Index(x, y);
        var q := Step(c, direction);
        var hit := Has(old(updated[c]), ENEMY);
        var u1 := if hit then old(updated[..])[c := FlipEnemy(old(updated[c]))] else old(updated[..]);
        var t := old(level[q]);
        var enters := !Has(t, WALL);
        updated[..] == (if enters then u1[q := WithPlayer(u1[q])] else u1[c := WithPlayer(u1[c])]) &&
        level[..] == (if enters then old(level[..])[q := Clear(t)] else old(level[..])) &&
        goldCollected == old(goldCollected) + (if enters && Has(t, GOLD) then 1 else 0) &&
        enemiesKilled == old(enemiesKilled) + (if hit then 1 else 0) + (if enters && Has(t, ENEMY) then 1 else 0) &&
        over == (enters && ((Has(t, EXIT) && !Has(t, LOCK)) || Has(t, SPIKES)))
      ensures forall j :: 0 <= j < CELLS ==> StaticOf(updated[j]) == StaticOf(old(updated[j]))
      ensures NoneOnRing(old(level[..])) ==> NoneOnRing(level[..])
    {
      var c := Index(x, y);
      if Has(updated[c], ENEMY) {
        updated[c] := FlipEnemy(updated[c]);
        enemiesKilled := enemiesKilled + 1;
      }
      var newX, newY := x, y;
      if direction == UP {
        newY := newY - 1;
      } else if direction == DOWN {
        newY := newY + 1;
      } else if direction == LEFT {
        newX := newX - 1;
      } else if direction == RIGHT {
        newX := newX + 1;
      }
      StepFromInterior(c, direction);
      assert Index(newX, newY) == Step(c, direction);
      var q := Index(newX, newY);
      var newTile := level[q];
      SolidMeansWall(newTile);
      over := false;
      ghost var before := level[..];
      if !Solid(newTile) {
        ClearMeans(newTile);
        ClearKeepsRing(before, q);
        updated[q] := WithPlayer(updated[q]);
        TakePickups(level, q);
        if Has(newTile, EXIT) && !Has(newTile, LOCK) {
          over := true;
        }
        if Has(newTile, SPIKES) {
          over := true;
        }
      } else {
        updated[c] := WithPlayer(updated[c]);
      }
    }

    /** The player collects the gold of tile q, takes its key and kills its
        enemy, counting the gold and the kill. */
    method TakePickups(level: array<Tile>, q: int)
      requires level.Length == CELLS && 0 <= q < CELLS
      modifies this, level
      ensures var t := old(level[q]);
        level[..] == old(level[..])[q := Clear(t)] &&
        goldCollected == old(goldCollected) + (if Has(t, GOLD) then 1 else 0) &&
        enemiesKilled == old(enemiesKilled) + (if Has(t, ENEMY) then 1 else 0)
    {
      var newTile := level[q];
      PickupsCleared(newTile);
      if Has(newTile, GOLD) {
        level[q] := FlipGold(level[q]);
        goldCollected := goldCollected + 1;
      }
      if Has(newTile, KEY) {
        level[q] := FlipKey(level[q]);
      }
      if Has(newTile, ENEMY) {
        level[q] := FlipEnemy(level[q]);
        enemiesKilled := enemiesKilled + 1;
      }
    }

    /** The player's turn on tile (x, y), whose input tile is `tile`. */
    method PlayerTurn(level: array<Tile>, updated: array<Tile>, x: int, y: int, tile: Tile, direction: int,
                      ghost s: seq<Tile>, ghost draws: seq<int>, ghost one: bool, ghost gold0: int, ghost killed0: int)
        returns (over: bool)
      requires level.Length == CELLS && updated.Length == CELLS && level != updated
      requires |draws| == CELLS && |s| == CELLS && InGrid(x, y) && tile == level[Index(x, y)]
      requires NoneOnRing(level[..])
      requires forall j :: 0 <= j < CELLS ==> StaticOf(updated[j]) == StaticOf(s[j])
      requires goldCollected >= gold0 && enemiesKilled >= killed0
      requires one ==> (NoneOnRing(s) && AtMostOnePlayer(s) &&
        PassState(s, PlayerMove(s, direction), draws, Index(x, y), Index(x, y) + 1,
                  level[..], updated[..], goldCollected - gold0, enemiesKilled - killed0))
      modifies this, level, updated
      ensures NoneOnRing(level[..])
      ensures forall j :: 0 <= j < CELLS ==> StaticOf(updated[j]) == StaticOf(s[j])
      ensures goldCollected >= gold0 && enemiesKilled >= killed0
      ensures one ==> var m := PlayerMove(s, direction);
        PassState(s, m, draws, Index(x, y) + 1, Index(x, y) + 1,
                  level[..], updated[..], goldCollected - gold0, enemiesKilled - killed0) &&
        over == (m.present && m.from == Index(x, y) && Ends(s, m))
    {
      ghost var m := if one then PlayerMove(s, direction) else Move(false, 0, 0, false);
      IndexCoords(x, y);
      over := false;
      if Has(tile, PLAYER) {
        over := PlayerMoves(level, updated, x, y, direction, s, draws, one, gold0, killed0);
      } else if one {
        NoPlayerPassStep(s, m, draws, Index(x, y), level[..], updated[..], goldCollected - gold0, enemiesKilled - killed0);
      }
    }

    /** The turn of the player standing on tile (x, y). */
    method PlayerMoves(level: array<Tile>, updated: array<Tile>, x: int, y: int, direction: int,
                       ghost s: seq<Tile>, ghost draws: seq<int>, ghost one: bool, ghost gold0: int, ghost killed0: int)
        returns (over: bool)
      requires level.Length == CELLS && updated.Length == CELLS && level != updated
      requires |draws| == CELLS && |s| == CELLS && InGrid(x, y) && Has(level[Index(x, y)], PLAYER)
      requires NoneOnRing(level[..])
      requires forall j :: 0 <= j < CELLS ==> StaticOf(updated[j]) == StaticOf(s[j])
      requires goldCollected >= gold0 && enemiesKilled >= killed0
      requires one ==> (NoneOnRing(s) && AtMostOnePlayer(s) &&
        PassState(s, PlayerMove(s, direction), draws, Index(x, y), Index(x, y) + 1,
                  level[..], updated[..], goldCollected - gold0, enemiesKilled - killed0))
      modifies this, level, updated
      ensures NoneOnRing(level[..])
      ensures forall j :: 0 <= j < CELLS ==> StaticOf(updated[j]) == StaticOf(s[j])
      ensures goldCollected >= gold0 && enemiesKilled >= killed0
      ensures one ==> var m := PlayerMove(s, direction);
        PassState(s, m, draws, Index(x, y) + 1, Index(x, y) + 1,
                  level[..], updated[..], goldCollected - gold0, enemiesKilled - killed0) &&
        over == (m.present && m.from == Index(x, y) && Ends(s, m))
    {
      var c := Index(x, y);
      IndexCoords(x, y);
      ghost var lv, u, g, k := level[..], updated[..], goldCollected, enemiesKilled;
      PlayerInterior(lv, c);
      over := MovePlayer(level, updated, x, y, direction);
      if one {
        PlayerPassStep(s, direction, draws, c, lv, u, g - gold0, k - killed0,
                       level[..], updated[..], goldCollected - gold0, enemiesKilled - killed0, over);
      }
    }

    /** The first pass on tile (x, y): its enemy moves, then its player. */
    method UpdateTile(level: array<Tile>, updated: array<Tile>, x: int, y: int, direction: int, draws: seq<int>,
                      ghost s: seq<Tile>, ghost one: bool, ghost gold0: int, ghost killed0: int)
        returns (over: bool)
      requires level.Length == CELLS && updated.Length == CELLS && level != updated
      requires |draws| == CELLS && |s| == CELLS && InGrid(x, y)
      requires NoneOnRing(level[..])
      requires forall j :: 0 <= j < CELLS ==> StaticOf(updated[j]) == StaticOf(s[j])
      requires goldCollected >= gold0 && enemiesKilled >= killed0
      requires one ==> (NoneOnRing(s) && AtMostOnePlayer(s) &&
        PassState(s, PlayerMove(s, direction), draws, Index(x, y), Index(x, y),
                  level[..], updated[..], goldCollected - gold0, enemiesKilled - killed0))
      modifies this, level, updated
      ensures NoneOnRing(level[..])
      ensures forall j :: 0 <= j < CELLS ==> StaticOf(updated[j]) == StaticOf(s[j])
      ensures goldCollected >= gold0 && enemiesKilled >= killed0
      ensures one ==> var m := PlayerMove(s, direction);
        PassState(s, m, draws, Index(x, y) + 1, Index(x, y) + 1,
                  level[..], updated[..], goldCollected - gold0, enemiesKilled - killed0) &&
        over == (m.present && m.from == Index(x, y) && Ends(s, m))
    {
      IndexCoords(x, y);
      var tile := level[Index(x, y)];
      EnemyTurn(level, updated, x, y, tile, draws[Index(x, y)], s, draws, one,
                goldCollected - gold0, enemiesKilled - killed0,
                if one then PlayerMove(s, direction) else Move(false, 0, 0, false));
      over := PlayerTurn(level, updated, x, y, tile, direction, s, draws, one, gold0, killed0);
    }

    /** Row y of the first pass of update_level, tile by tile. */
    method MoveRow(level: array<Tile>, updated: array<Tile>, y: int, direction: int, draws: seq<int>,
                   ghost s: seq<Tile>, ghost one: bool, ghost gold0: int, ghost killed0: int)
        returns (rowOver: bool)
      requires level.Length == CELLS && updated.Length == CELLS && level != updated
      requires |draws| == CELLS && |s| == CELLS && 0 <= y < LEVEL_SIZE
      requires NoneOnRing(level[..])
      requires forall j :: 0 <= j < CELLS ==> StaticOf(updated[j]) == StaticOf(s[j])
      requires goldCollected >= gold0 && enemiesKilled >= killed0
      requires one ==> (NoneOnRing(s) && AtMostOnePlayer(s) &&
        PassState(s, PlayerMove(s, direction), draws, Index(0, y), Index(0, y),
                  level[..], updated[..], goldCollected - gold0, enemiesKilled - killed0))
      modifies this, level, updated
      ensures NoneOnRing(level[..])
      ensures forall j :: 0 <= j < CELLS ==> StaticOf(updated[j]) == StaticOf(s[j])
      ensures goldCollected >= gold0 && enemiesKilled >= killed0
      ensures one ==> var m := PlayerMove(s, direction);
        PassState(s, m, draws, Index(0, y + 1), Index(0, y + 1),
                  level[..], updated[..], goldCollected - gold0, enemiesKilled - killed0) &&
        rowOver == (m.present && Index(0, y) <= m.from < Index(0, y + 1) && Ends(s, m))
    {
      rowOver := false;
      var x := 0;
      while x < LEVEL_SIZE
        invariant 0 <= x <= LEVEL_SIZE
        invariant NoneOnRing(level[..])
        invariant forall j :: 0 <= j < CELLS ==> StaticOf(updated[j]) == StaticOf(s[j])
        invariant goldCollected >= gold0 && enemiesKilled >= killed0
        invariant one ==> var m := PlayerMove(s, direction);
          PassState(s, m, draws, Index(x, y), Index(x, y), level[..], updated[..],
                    goldCollected - gold0, enemiesKilled - killed0) &&
          rowOver == (m.present && Index(0, y) <= m.from < Index(x, y) && Ends(s, m))
      {
        var over := UpdateTile(level, updated, x, y, direction, draws, s, one, gold0, killed0);
        if over {
          rowOver := true;
        }
        x := x + 1;
      }
      assert Index(x, y) == Index(0, y + 1);
    }

    /** The first pass of update_level: every tile in scan order. */
    method MovePass(level: array<Tile>, updated: array<Tile>, direction: int, draws: seq<int>)
        returns (gameOver: bool)
      requires level.Length == CELLS && updated.Length == CELLS && level != updated
      requires |draws| == CELLS
      requires NoneOnRing(level[..])
      requires forall j :: 0 <= j < CELLS ==> updated[j] == StaticOf(level[j])
      modifies this, level, updated
      ensures forall j :: 0 <= j < CELLS ==> StaticOf(updated[j]) == StaticOf(old(level[j]))
      ensures goldCollected >= old(goldCollected) && enemiesKilled >= old(enemiesKilled)
      ensures AtMostOnePlayer(old(level[..])) ==> var m := PlayerMove(old(level[..]), direction);
        PassState(old(level[..]), m, draws, CELLS, CELLS, level[..], updated[..],
                  goldCollected - old(goldCollected), enemiesKilled - old(enemiesKilled)) &&
        gameOver == (m.present && Ends(old(level[..]), m))
    {
      ghost var s := level[..];
      ghost var one := AtMostOnePlayer(s);
      ghost var gold0, killed0 := goldCollected, enemiesKilled;
      forall j | 0 <= j < CELLS ensures StaticOf(updated[j]) == StaticOf(s[j]) {
        StaticOfEmpty(s[j]);
      }
      if one {
        PassStart(s, direction, draws, updated[..]);
      }
      gameOver := false;
      var y := 0;
      while y < LEVEL_SIZE
        invariant 0 <= y <= LEVEL_SIZE
        invariant NoneOnRing(level[..])
        invariant forall j :: 0 <= j < CELLS ==> StaticOf(updated[j]) == StaticOf(s[j])
        invariant goldCollected >= gold0 && enemiesKilled >= killed0
        invariant one ==> var m := PlayerMove(s, direction);
          PassState(s, m, draws, Index(0, y), Index(0, y), level[..], updated[..],
                    goldCollected - gold0, enemiesKilled - killed0) &&
          gameOver == (m.present && m.from < Index(0, y) && Ends(s, m))
      {
        var rowOver := MoveRow(level, updated, y, direction, draws, s, one, gold0, killed0);
        if rowOver {
          gameOver := true;
        }
        y := y + 1;
      }
    }

    /** update_level: one turn, the player stepping in `direction` and the
        enemy of tile c rolling draws[c]. The static entities of every tile
        are kept and the counters never go down; on a level with at most one
        player the new level, the counters and the result are those of Update. */
    method UpdateLevel(level: array<Tile>, direction: int, draws: seq<int>) returns (gameOver: bool)
      requires level.Length == CELLS && |draws| == CELLS
      requires NoneOnRing(level[..])
      modifies this, level
      ensures forall i :: 0 <= i < CELLS ==> StaticOf(level[i]) == StaticOf(old(level[i]))
      ensures goldCollected >= old(goldCollected) && enemiesKilled >= old(enemiesKilled)
      ensures AtMostOnePlayer(old(level[..])) ==>
        var o := Update(old(level[..]), direction, draws);
        level[..] == o.level && gameOver == o.over &&
        goldCollected == old(goldCollected) + o.gold && enemiesKilled == old(enemiesKilled) + o.killed
    {
      ghost var s := level[..];
      var updated := StartUpdate(level);
      gameOver := MovePass(level, updated, direction, draws);
      ghost var lv, u := level[..], updated[..];
      var keyHasBeenCollected := CollectPass(level, updated);
      LockPass(level, updated, keyHasBeenCollected);
      forall j | 0 <= j < CELLS
        ensures StaticOf(updated[j]) == StaticOf(s[j])
      {
        StaticCollect(u[j], lv[j], keyHasBeenCollected);
      }
      CopyBack(level, updated);
      if AtMostOnePlayer(s) {
        AssembleTurn(s, direction, draws, lv, u, goldCollected - old(goldCollected),
                     enemiesKilled - old(enemiesKilled), keyHasBeenCollected, updated[..]);
      }
    }
  }

  /** The start of update_level: a fresh level holding only the static
      entities of each input tile. */
  method StartUpdate(level: array<Tile>) returns (updated: array<Tile>)
    requires level.Length == CELLS
    ensures fresh(updated) && updated.Length == CELLS
    ensures forall j :: 0 <= j < CELLS ==> updated[j] == StaticOf(level[j])
  {
    updated := new Tile[CELLS](_ => 0);
    for i := 0 to CELLS
      invariant forall j :: 0 <= j < i ==> updated[j] == StaticOf(level[j])
      invariant forall j :: i <= j < CELLS ==> updated[j] == 0
    {
      StaticOfEmpty(level[i]);
      updated[i] := updated[i] | StaticOf(level[i]);
    }
  }

  /** The end of update_level: the level built replaces the input level. */
  method CopyBack(level: array<Tile>, updated: array<Tile>)
    requires level.Length == CELLS && updated.Length == CELLS && level != updated
    modifies level
    ensures level[..] == updated[..]
  {
    for i := 0 to CELLS
      invariant forall j :: 0 <= j < i ==> level[j] == updated[j]
    {
      level[i] := updated[i];
    }
  }

  /** The second pass of update_level: copy the gold and keys left in the
      input level into the level being built, and report whether no key is
      left. */
  method CollectPass(level: array<Tile>, updated: array<Tile>) returns (keyHasBeenCollected: bool)
    requires level.Length == CELLS && updated.Length == CELLS && level != updated
    modifies updated
    ensures forall i :: 0 <= i < CELLS ==> updated[i] == Collect(old(updated[i]), level[i])
    ensures keyHasBeenCollected <==> forall i :: 0 <= i < CELLS ==> !Has(level[i], KEY)
  {
    keyHasBeenCollected := true;
    var y := 0;
    while y < LEVEL_SIZE
      invariant 0 <= y <= LEVEL_SIZE
      invariant forall j :: 0 <= j < Index(0, y) ==> updated[j] == Collect(old(updated[j]), level[j])
      invariant forall j :: Index(0, y) <= j < CELLS ==> updated[j] == old(updated[j])
      invariant keyHasBeenCollected <==> forall j :: 0 <= j < Index(0, y) ==> !Has(level[j], KEY)
    {
      var x := 0;
      while x < LEVEL_SIZE
        invariant 0 <= x <= LEVEL_SIZE
        invariant forall j :: 0 <= j < Index(x, y) ==> updated[j] == Collect(old(updated[j]), level[j])
        invariant forall j :: Index(x, y) <= j < CELLS ==> updated[j] == old(updated[j])
        invariant keyHasBeenCollected <==> forall j :: 0 <= j < Index(x, y) ==> !Has(level[j], KEY)
      {
        var c := Index(x, y);
        var tile := level[c];
        if Has(tile, GOLD) {
          updated[c] := WithGold(updated[c]);
        }
        if Has(tile, KEY) {
          keyHasBeenCollected := false;
          updated[c] := WithKey(updated[c]);
        }
        x := x + 1;
      }
      y := y + 1;
    }
  }

  /** The final pass of update_level: keep every lock of the input level
      when some key is left. */
  method LockPass(level: array<Tile>, updated: array<Tile>, keyHasBeenCollected: bool)
    requires level.Length == CELLS && updated.Length == CELLS && level != updated
    modifies updated
    ensures forall i :: 0 <= i < CELLS ==> updated[i] == KeepLock(old(updated[i]), level[i], keyHasBeenCollected)
  {
    var y := 0;
    while y < LEVEL_SIZE
      invariant 0 <= y <= LEVEL_SIZE
      invariant forall j :: 0 <= j < Index(0, y) ==> updated[j] == KeepLock(old(updated[j]), level[j], keyHasBeenCollected)
      invariant forall j :: Index(0, y) <= j < CELLS ==> updated[j] == old(updated[j])
    {
      var x := 0;
      while x < LEVEL_SIZE
        invariant 0 <= x <= LEVEL_SIZE
        invariant forall j :: 0 <= j < Index(x, y) ==> updated[j] == KeepLock(old(updated[j]), level[j], keyHasBeenCollected)
        invariant forall j :: Index(x, y) <= j < CELLS ==> updated[j] == old(updated[j])
      {
        var c := Index(x, y);
        var tile := level[c];
        if Has(tile, LOCK) && !keyHasBeenCollected {
          updated[c] := WithLock(updated[c]);
        }
        x := x + 1;
      }
      y := y + 1;
    }
  }
}
