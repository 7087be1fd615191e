# Tile-level generator and game turn, modelled in Dafny

This project models the core of a small tile-based game with procedural
levels. A level is a 22 x 22 grid of 16-bit tiles. Each tile is a bit set
over nine entities: floor, wall, spikes, exit, lock, gold, key, enemy and
player. The model covers:

- **Tiles** (`tiles.dfy`): the entity bits, `BIT`, `CLAMP`, row-major
  indexing, four-way adjacency and the outer ring.
- **Xoroshiro** (`xoroshiro.dfy`): the xoroshiro128+ generator
  (`random_u64`, `set_seed`), modelled bit-exactly on `bv64`. The model
  proves that one step is a bijection and that the all-zero state is a
  fixed point that no other state ever reaches.
- **Draws** (`draws.dfy`): `random_int_range` and `chance`. They read from
  an oracle that holds the raw integer draws and the coin outcomes; floats
  are not modelled.
- **FloodFill** (`flood.dfy`): the generic four-way `flood` with a
  tri-state marker array and a visitor that may stop the fill. It is
  proved to call the visitor at most once on each tile of the matching
  region around the start, and on every one of them unless the visitor
  stops, and to return the right step count.
- **Completion** (`completion.dfy`): `flood_record_tiles`, `find_player`
  and `level_is_completable`. The last is proved equal to the predicate
  "the walkable region around the first player holds a key and an exit".
- **Generators** (`level.dfy`):
  - `fill_level`, `empty_level`, `scatter_generator`, `digger_generator`
    (connectivity of the dug tiles), `basic_room_generator` and
    `reverse_verified_scatter_generator` (completability is preserved);
  - `count_entities`, `scatter_placer` and `verified_scatter_placer`.
- **Game** (`game.dfy`): `update_level` as a class holding the
  `gold_collected` and `enemies_killed` counters. The method's arrays
  pass by pass are proved to compute the function `Update`.
- **TurnFacts** (`turn_facts.dfy`): what one turn does, proved about
  `Update` entity by entity: static entities, the player, pickups, locks,
  the end of the game, the enemies and the kill count.
- **KillFinding** (`kill_finding.dfy`): the kill on the tile the player
  enters, as written and corrected.

The enum, the entity numbering, `LEVEL_SIZE`, the four directions and every
generator constant are those of the C source:

| constant | value |
|---|---|
| floor count | 242 |
| dug tiles per walk | 96 |
| walks | 5 |
| rooms | 8, sized 2 to 6 |
| wall placements | 1936, with 32 attempts each |
| seed warm-up | 64 discarded outputs |

In these details the model follows the code as written:

- a visitor that stops the flood makes `flood` return the number of tiles
  visited before the stopping one, not including it (common.c:132-133);
- `digger_generator` draws its starts in [1, 21], so a start can lie on the
  outer ring (level.c:81-82);
- the digger's turn chance is never reset after a turn (level.c:74 and
  98-99). The model keeps no probabilities, so this only shows in the coin
  stream;
- `verified_scatter_placer` combines the two exit conditions of its key
  and player loops with `&&` (level.c:353-354 and 367-368). It ors each
  entity into whatever tile the loop stopped on. That tile is bare floor,
  or a walkable tile whose own region shows a wanted entity, such as the
  exit tile itself.

The second and the fourth of these, the digger start and the placer's
exit test, are findings below.

## Model

| member | source | states |
|---|---|---|
| Tiles.Bit | common.c:61 | BIT(e) is a non-zero tile |
| Tiles.HasBit | common.c:61 | an entity is present exactly when its bit is set |
| Tiles.HasUnion | common.c:167 | or-ing two tiles carries exactly the entities of either |
| Tiles.BitsDisjoint | common.c:33-41 | distinct entity numbers select disjoint bits, and equal ones do not |
| Tiles.IndexCoords | common.c:51-52 | index x + y*22 of an in-grid pair is in range and gives back its column and row |
| Tiles.InteriorCoords | common.c:120-126 | an index is off the outer ring exactly when both coordinates lie in [1, 20] |
| Tiles.AdjacentSymmetric | common.c:138-149 | four-way adjacency is symmetric |
| Tiles.AdjacentCoords | common.c:138-149 | two tiles are adjacent exactly when one coordinate is equal and the other differs by one |
| Tiles.Index | level.c:89 | the row-major index `x + y * LEVEL_SIZE` of a tile |
| Tiles.Step | game.c:98-101 | the index after one move in a direction: up and down by a row, left and right by one, no move otherwise |
| Tiles.Clamp | common.c:63-65 | CLAMP lands in [low, high] and leaves an in-range value unchanged |
| Tiles.StepFromInterior | game.c:97-101 | a step from an interior tile lands on a neighbour, or on the tile itself exactly when the direction is not UP..RIGHT |
| Xoroshiro.Generator.constructor | common.c:69 | the generator starts in the given seed state |
| Xoroshiro.NextS0 | common.c:75-77 | the first word after a step: LS(s0, 55) ^ (s1 ^ s0) ^ ((s1 ^ s0) << 14) |
| Xoroshiro.NextS1 | common.c:75-78 | the second word after a step: LS(s1 ^ s0, 36) |
| Xoroshiro.Advance | common.c:87 | the state after n calls of random_u64 |
| Xoroshiro.Mix | common.c:85-86 | the state after xor-ing the seed words a and b into it |
| Xoroshiro.Generator.RandomU64 | common.c:71-81 | returns s0 + s1 mod 2^64 and steps both words as xoroshiro128+ does |
| Xoroshiro.Generator.Discard | common.c:87 | n calls of random_u64 leave the state advanced n steps |
| Xoroshiro.Generator.SetSeed | common.c:84-88 | the new state is the old state xored with (a, b), advanced 64 steps |
| Xoroshiro.Rotate36Inverse | common.c:76-78 | rotating left by 36 is undone by rotating right by 36 |
| Xoroshiro.Rotate55Inverse | common.c:76-77 | rotating left by 55 is undone by rotating right by 55 |
| Xoroshiro.PrevNextS0 | common.c:75-78 | the first word before a step can be recovered from both words after it |
| Xoroshiro.PrevNext | common.c:71-81 | one step of the generator is a bijection of the state space: Prev undoes it |
| Xoroshiro.ZeroIsFixed | common.c:71-81 | the all-zero state steps to itself and outputs only 0 |
| Xoroshiro.NonZeroStaysNonZero | common.c:71-81 | a non-zero state never steps to the all-zero state |
| Xoroshiro.AdvanceNonZero | common.c:71-81 | any number of steps from a non-zero state stays non-zero |
| Xoroshiro.AdvanceSucc | common.c:87 | advancing n + 1 steps is advancing n steps and then one more |
| Xoroshiro.SeededStateNonZero | common.c:84-88 | a seed whose mixed state is non-zero leaves the generator in a state that never reaches zero |
| Draws.Pick | common.c:96-99 | an integer draw lies in [low, high] |
| Draws.PickCovers | common.c:96-99 | every value of [low, high] is the draw of some raw value |
| Draws.PickSingleton | common.c:96-99 | random_int_range(v, v) is always v |
| Draws.Oracle.constructor | common.c:69 | a fresh oracle has used no integer draws and no coins |
| Draws.Oracle.IntRange | common.c:96-99 | returns the next integer draw in [low, high] and uses exactly one integer draw |
| Draws.Oracle.Chance | common.c:102-104 | returns the next coin and uses exactly one coin |
| FloodFill.Matches | common.c:131 | a tile matches when its masked bits equal the target's masked bits |
| FloodFill.MatchesIgnoresUnmasked | common.c:131 | bits outside the mask never decide whether a tile matches |
| FloodFill.RegionMembers | common.c:131 | every tile of a region, and its start, is in range and matches |
| FloodFill.StartInRegion | common.c:116 | a matching start belongs to its own region |
| FloodFill.EmptyRegion | common.c:116-131 | a region is empty exactly when its start does not match |
| FloodFill.ExtendRegion | common.c:138-149 | a matching neighbour of a region tile is in the region |
| FloodFill.ReplayedAppend | common.c:132 | one more visitor call that does not stop extends the replay of the calls |
| FloodFill.PendingInRegion | common.c:126-131 | a pending tile that matches belongs to the region |
| FloodFill.Frontier | common.c:123-157 | while a region tile is unvisited, some matching tile is pending |
| FloodFill.DistinctElements | common.c:120 | a duplicate-free list has as many elements as entries |
| FloodFill.DistinctBound | common.c:120 | at most n distinct tiles can be drawn from [0, n) |
| FloodFill.Pigeonhole | common.c:120 | n distinct tiles of [0, n) are all of them |
| FloodFill.MarkDone | common.c:135-149 | the tile is marked done and exactly its neighbours that were not done become pending |
| FloodFill.VisitKeepsInv | common.c:131-151 | visiting a pending matching tile keeps the invariant: visited tiles distinct and in the region, every pending tile queued by a visited neighbour |
| FloodFill.PassSkip | common.c:126 | a scan position with nothing to visit keeps the pass invariant and records that a pending tile was seen |
| FloodFill.PassVisit | common.c:126-151 | a scan position that is visited keeps the pass invariant |
| FloodFill.ScanTile | common.c:126-152 | the scan body visits a pending matching tile unless the visitor stops, and then leaves the markers unchanged |
| FloodFill.FloodPass | common.c:124-155 | one pass visits every tile that was pending and matching when it began, or stops where the visitor asked |
| FloodFill.NoPendingCovers | common.c:123-157 | with nothing pending, every tile of the region has been visited |
| FloodFill.FloodRound | common.c:120-158 | a pass that does not stop covers the region or visits a new tile; one that finds nothing pending covers it |
| FloodFill.FloodLoop | common.c:120-160 | the bounded outer loop ends with the region covered or with the visitor's stop |
| FloodFill.Progress | common.c:120-158 | each pass covers the region or visits at least one tile it had not visited |
| FloodFill.FinishStopped | common.c:132-133 | when the visitor stops, the stopping tile is its last call and no earlier call stopped |
| FloodFill.FinishComplete | common.c:157-160 | without a stop, the calls are exactly the region, whose size they equal |
| FloodFill.Flood | common.c:111-161 | the visitor is called at most once on each tile of the matching region, and on every one of them unless it stops, in order, and the data is its replay; without a stop the steps equal the region's size, with a stop they count the calls before the stopping one |
| Completion.WalkableMeans | common.c:190 | a tile passes the completability flood exactly when it has floor and neither wall nor spikes |
| Completion.GoalMeans | common.c:193 | the final test holds exactly when both key and exit were seen |
| Completion.FirstWith | common.c:171-182 | the result is the first index from k whose tile carries the entity, or the end |
| Completion.RecordTiles | common.c:165-169 | flood_record_tiles keeps every bit it had, adds every bit of the tile and never stops |
| Completion.ReplayRecord | common.c:165-169 | replaying flood_record_tiles over the calls ors in the union of their tiles and never stops |
| Completion.UnionOfHas | common.c:167 | the union of the visited tiles carries an entity exactly when one of them does |
| Completion.FindPlayer | common.c:171-182 | finds a player exactly when one exists, and returns the coordinates of the first in row-major order |
| Completion.FirstIsLeast | common.c:171-182 | an index before which no tile carries the entity, and which does or is the end, is the first one |
| Completion.LevelIsCompletable | common.c:184-194 | true exactly when there is a player and the walkable region around the first one holds a key and an exit |
| Completion.UnionMeansRegionHas | common.c:188-193 | the union over a complete flood holds an entity exactly when some tile of the region does |
| Completion.CompletableFromUnion | common.c:188-193 | the union over a complete flood from the first player decides completability |
| Completion.CompletablePlayerWalkable | common.c:184-194 | the first player of a completable level stands on a walkable tile |
| Completion.RegionTransfer | common.c:189-191 | levels that agree on walkability have the same region around any tile |
| Completion.FirstWithSame | common.c:171-182 | levels that agree on where an entity is find the same first one |
| Completion.CompletableIgnores | common.c:184-194 | rewriting a tile that is unwalkable and playerless before and after leaves completability unchanged |
| Generators.FillLevel | level.c:18-24 | every tile becomes exactly the given entity's bit |
| Generators.EmptyLevel | level.c:27-39 | the outer ring is bare wall and every other tile is bare floor |
| Generators.ScatterSpot | level.c:53-54 | each scatter draw lands on an interior tile |
| Generators.ScatterGenerator | level.c:43-57 | a tile is bare floor exactly when one of the 242 draw pairs landed on it, else bare wall; 484 integer draws are used |
| Generators.ScatteredShape | level.c:43-57 | a scattered level has a wall ring and no player, and its first draw is floor |
| Generators.WalkWidens | level.c:89-90 | a walk stays a walk when no walkable tile stops being walkable |
| Generators.ReachWidens | level.c:89-90 | reachability survives making more tiles walkable |
| Generators.ReachPrepend | level.c:92-97 | a walkable neighbour of a walk's first tile can start it |
| Generators.ReachAppend | level.c:92-97 | a walkable neighbour of a walk's last tile can end it |
| Generators.CarveKeepsConnected | level.c:89-90 | carving a tile attached to a connected set of walkable tiles keeps them connected |
| Generators.ClampedMove | level.c:92-97 | a clamped digger move from an interior tile stays on it or moves to a neighbour |
| Generators.DrawPair | level.c:81-82 | two integer draws in [1, high], x before y, using exactly two integer draws |
| Generators.DrawTile | level.c:80-83 | the last draw pair is returned; an accepted pair is plain floor when floor was needed; running out of fuel used at least 2*fuel draws |
| Generators.DigStep | level.c:89-97 | carves exactly one tile into bare floor and moves into the interior, keeping the walkable tiles connected and the new position attached |
| Generators.DigTunnel | level.c:86-100 | the start becomes floor, only interior tiles besides the start change, each only to floor, and connectivity is kept |
| Generators.DiggerRun | level.c:73-101 | tiles change only to bare floor, within the drawn range; the first start is floor; with interior starts in solid rock the walkable tiles end connected |
| Generators.DiggerGenerator | level.c:61-102 | as written: tiles change only to bare floor, never in row 0 or column 0, and the first drawn start is floor |
| Generators.DiggerGeneratorInterior | level.c:59-102 | with interior starts the outer ring is untouched, and dug from solid rock every walkable tile reaches every other |
| Generators.DiggerStartOnRing | level.c:81-82 | a first x draw of 21 puts the first walk's start on the outer ring |
| Generators.RingStartMovesDiagonally | level.c:92-97 | from (21, 5) going up the clamp lands on (20, 4), which is not a neighbour |
| Generators.RingStartDisconnects | level.c:60 | solid rock with (21, 5) and the clamped (20, 4) carved has two walkable tiles neither of which reaches the other, against the promise that every walkable tile is accessible |
| Generators.Inside | level.c:129-130 | a clamped room coordinate lies in [1, 20] |
| Generators.PaintRoom | level.c:125-133 | exactly the tiles between the clamped corners become bare floor; all others keep their value |
| Generators.RoomDrawn | level.c:115-121 | a room is the pick of four consecutive integer draws: centre x and y in [1, 21], then width and height in [2, 6] |
| Generators.DrawnInOrder | level.c:113-121 | each room is the pick of its own four draws, and the rooms' draws follow one another in the stream |
| Generators.PlaceRoom | level.c:114-134 | one room: the accepted centre was bare floor, the room is the last four draws made, and exactly its clamped block becomes bare floor |
| Generators.BasicRoomGenerator | level.c:107-135 | eight rooms, each the pick of the four integer draws that ended its iteration, in increasing stream order; centres in [1, 21] and sizes in [2, 6]; each centre was bare floor when drawn; the level is the input after painting the rooms in order |
| Generators.RoomsAppend | level.c:114-134 | painting one more room changes exactly the tiles that room covers |
| Generators.RoomInterior | level.c:129-131 | a room paints only interior tiles |
| Generators.AfterRoomsShape | level.c:125-133 | after painting, a tile is unchanged or bare floor, and never changed on the outer ring |
| Generators.RoomCoversCentre | level.c:120-123 | a room covers its clamped centre |
| Generators.BitValues | common.c:33-45 | the floor, wall and player bits and the completability mask have their numeric values |
| Generators.AddWall | level.c:157 | `|= BIT(WALL)`: the tile with the wall bit added, other bits kept |
| Generators.ToggleWall | level.c:162 | `^= BIT(WALL)`: the tile with the wall bit flipped |
| Generators.WallBlocks | level.c:157-165 | a tile with the wall bit is not walkable, and a bare wall carries no player |
| Generators.WallKeepsPlayerBit | level.c:157-162 | adding and toggling the wall bit leaves the player bit alone |
| Generators.ToggleRestores | level.c:157-162 | toggling the wall back out restores a tile that had none; adding it to a wall tile changes nothing |
| Generators.TryWall | level.c:157-169 | a wall is placed exactly when the level with the wall bit added is completable; the tile is then a bare wall; otherwise the wall bit is toggled back out: a tile without a wall is restored, a tile with one loses it |
| Generators.RollbackClearsWall | level.c:157-163 | on a level that cannot be completed, an attempt at a tile that already had a wall leaves that tile with the wall bit cleared |
| Generators.AttemptKeeps | level.c:153-169 | an attempt adds no player, keeps a completable level completable, and changes a tile only into a bare wall |
| Generators.WallAttempt | level.c:148-170 | one attempt, with a player tile skipped, uses two draws and keeps player tiles and completability |
| Generators.ReverseVerifiedScatterGenerator | level.c:139-172 | completability is kept, player tiles and the outer ring are untouched, and on a completable level every changed tile is a bare wall |
| Generators.CountEntities | level.c:174-180 | count_entities adds one exactly for a tile with a bit besides floor, wall and spikes, and never stops |
| Generators.BearingCount | level.c:174-180 | the count over the calls is at most their number |
| Generators.ReplayCount | level.c:174-180 | replaying count_entities adds the number of bearing tiles among the calls |
| Generators.BareCountsNothing | level.c:176 | a flood over bare floor, wall and spikes counts nothing |
| Generators.DecoratedKeeps | level.c:271-275 | decorating adds no player, key or exit, and only bare floor stays bare floor |
| Generators.DecorateTile | level.c:270-276 | a non-wall tile gets gold on the first coin, else an enemy on the second, else spikes on the third; a wall uses no coin |
| Generators.ScatterEntities | level.c:268-278 | every interior tile is decorated and every ring tile is unchanged |
| Generators.LockedExitBits | level.c:287 | the locked exit is walkable and not bare floor, carries exit and lock, and has no key or player |
| Generators.KeyTileBits | level.c:294 | the key tile is walkable and not bare floor, carries a key, and has no exit or player |
| Generators.PlayerTileBits | level.c:301 | the player tile is walkable and not bare floor, carries the player, and has no key or exit |
| Generators.FloorBits | level.c:286 | bare floor is walkable and carries no player, key or exit |
| Generators.PlaceOnFloor | level.c:283-287 | on success exactly one tile, bare floor before, gets the value; otherwise nothing changes |
| Generators.ScatterPlacer | level.c:256-302 | the exit, key and player land on three distinct tiles that were bare floor, with exactly those values; every other tile is decorated or unchanged; on a playerless level the player is the only and first player |
| Generators.RecordedRegion | level.c:350-352 | a complete recording flood shows an entity exactly when it was seen before or lies in the region |
| Generators.FloodRecord | level.c:350-352 | the accumulator shows the key and the exit exactly when they were shown before or lie in the region of the start |
| Generators.AnyRegionHasAppend | level.c:347-354 | one more draw adds its region to the regions tried |
| Generators.StopAsWritten | level.c:353-354 | the loop test as written: stop on bare floor, or once the accumulator shows a wanted entity |
| Generators.StopChecked | level.c:353-354 | the intended test: stop only on bare floor whose region shows every wanted entity |
| Generators.RegionShows | level.c:353-354 | the region around a tile shows the exit or the key that the loop asks for |
| Generators.WantedSeen | level.c:353-354 | for the two masks the loops use, `seen & want` is non-zero exactly when a wanted entity was seen |
| Generators.RegionShowsWalkable | common.c:131 | a region that shows anything starts on a walkable tile, since a start that does not match is never visited |
| Generators.SeenMatches | level.c:347-354 | the accumulator shows key and exit exactly when some tried region holds them, and anything wanted only when the last draw's own region holds it |
| Generators.DrawRecorded | level.c:348-352 | one loop iteration: two draws in [1, 21], a recording flood from there, and the accumulator facts extended by that draw |
| Generators.DrawFloodedAsWritten | level.c:347-354 | the loop stops on the as-written test; the accumulator, not reset between draws, shows what the regions of all drawn tiles hold; because the loop stops as soon as the accumulator shows a wanted entity, that entity is in the last draw's own region, so an accepted tile that is not bare floor is walkable |
| Generators.AcceptedAsWritten | level.c:347-354 | what the loop as written promises of the tile it accepted: the last draw, passing the as-written test, the accumulator matching the regions tried, and walkable with a wanted entity in its region unless bare floor |
| Generators.PlaceFloodedAsWritten | level.c:347-355 | the loop of DrawFloodedAsWritten, then its bit or-ed into the accepted tile and nowhere else |
| Generators.NothingInZero | level.c:344 | an empty accumulator shows neither key nor exit |
| Generators.DrawFloodedChecked | level.c:347-354 | the intended loop stops on bare floor whose own region shows all the wanted entities |
| Generators.AddBitsHas | level.c:342 | or-ing bits into a tile adds exactly their entities |
| Generators.VerifiedScatterPlacer | level.c:308-370 | as written: the scattered level is decorated tile by tile; the locked exit is or-ed into a bare floor tile; the key tile and then the player tile each pass the as-written test on the level of that moment, with the accumulator showing what the regions of the drawn tiles hold, and an accepted tile that is not bare floor is walkable with a wanted entity in its region; the final level is exactly the scattered level with those three `|=` applied |
| Generators.WalledInRegion | level.c:361-368 | a tile with no walkable neighbour is alone in its region |
| Generators.WalkSecondStep | level.c:361-368 | the second tile of a walk is a walkable neighbour of the first |
| Generators.WalledInLevel | level.c:361-369 | a level with a walled-in floor tile at (5, 5), a locked exit and a key elsewhere and walls around |
| Generators.PlayerLoopAcceptsWalledInFloor | level.c:361-369 | the as-written player loop accepts the walled-in floor tile, though the corrected test refuses it and the resulting level cannot be completed |
| Generators.PlacePlayerKeeps | level.c:369 | putting the player on bare floor keeps its region's key and exit, and makes it the first player |
| Generators.VerifiedScatterPlacerChecked | level.c:308-370 | exit, key and player on distinct bare floor tiles; the player's region holds key and exit; a playerless level becomes completable |
| Game.EntityValues | common.c:33-47 | the numeric values of the entity bits and of the static and solid masks |
| Game.SolidMeansWall | common.c:47 | the solid test reads only the wall bit |
| Game.ShowsCompose | game.c:56-62 | a tile is determined by its static part and its five dynamic entities |
| Game.ComposeMeans | game.c:56-62 | a composed tile carries the static part and exactly the chosen dynamic entities |
| Game.ComposedShows | game.c:56-62 | a tile equal to a composition shows what was composed |
| Game.WithEnemy | game.c:83 | setting the enemy bit keeps the static part |
| Game.WithPlayer | game.c:107 | setting the player bit keeps the static part |
| Game.WithGold | game.c:147 | setting the gold bit keeps the static part |
| Game.WithKey | game.c:150 | setting the key bit keeps the static part |
| Game.WithLock | game.c:160 | setting the lock bit keeps the static part |
| Game.FlipEnemy | game.c:92 | toggling the enemy bit keeps the static part |
| Game.ShowsWithEnemy | game.c:83-85 | setting the enemy bit turns exactly the enemy flag on |
| Game.ShowsWithPlayer | game.c:107 | setting the player bit turns exactly the player flag on |
| Game.ShowsFlipEnemy | game.c:92 | toggling a present enemy turns exactly the enemy flag off |
| Game.ShowsWithGold | game.c:147 | setting the gold bit turns exactly the gold flag on |
| Game.ShowsWithKey | game.c:150 | setting the key bit turns exactly the key flag on |
| Game.ShowsWithLock | game.c:160 | setting the lock bit turns exactly the lock flag on |
| Game.ShowsStatic | game.c:60-62 | the copied static part shows no dynamic entity |
| Game.FlipGold | game.c:111 | `^= BIT(GOLD)` on the entered tile |
| Game.FlipKey | game.c:115 | `^= BIT(KEY)` on the entered tile |
| Game.Clear | game.c:110-122 | the entered tile with its gold, key and enemy bits cleared, which the three guarded xors amount to |
| Game.ClearMeans | game.c:110-122 | the entered tile loses its gold, key and enemy and keeps everything else |
| Game.PickupsCleared | game.c:110-122 | toggling each pickup the tile carries clears exactly the pickups |
| Game.ClearKeepsRing | game.c:110-122 | taking pickups puts no player or enemy on the ring |
| Game.PlayerMove | game.c:96-107 | the first player moves one step in the direction unless the tile there has a wall; other directions point at its own tile |
| Game.EnemyTarget | game.c:72-87 | an interior enemy ends on its tile or on a neighbour without a wall, and stays for rolls 5 and 6 |
| Game.ArrivedMeans | game.c:72-87 | Arrived holds exactly when an active enemy of the range targets the tile |
| Game.Update | game.c:53-174 | the turn's new level has one tile per cell |
| Game.LevelAfterAt | game.c:109-122 | the input level the pass reads at a tile shows its enemy exactly when that enemy is still active, and every player unchanged |
| Game.PassStart | game.c:56-62 | the first pass starts from the static part of every tile |
| Game.EnemyPassStep | game.c:72-87 | moving one enemy extends the pass state by that enemy |
| Game.NoPlayerPassStep | game.c:89 | a tile without the player finishes its turn after its enemy |
| Game.PlayerInterior | game.c:97-103 | the player stands inside the ring |
| Game.PlayerPassStep | game.c:89-139 | the player's turn, as carried out, finishes the pass on its tile and ends the game as Ends says |
| Game.KillStep | game.c:90-94 | the enemy on the player's start is removed, and the flag it had is the arrivals flag |
| Game.KillFlag | game.c:90-94 | the enemy on the player's start is one that arrived by its turn |
| Game.KillElsewhere | game.c:90-94 | the start kill leaves every other tile's enemy flag unchanged |
| Game.PlaceStep | game.c:106-107 | the player lands on its destination and nowhere else |
| Game.Collect | game.c:146-151 | the second pass on one tile: gold and key of the input tile or-ed back into the new tile |
| Game.KeepLock | game.c:157-160 | the final pass on one tile: the lock of the input tile or-ed back while no key was collected |
| Game.ComposeCollect | game.c:143-163 | the second and final passes produce the composed tile |
| Game.StaticCollect | game.c:143-163 | the second and final passes keep the static part |
| Game.AssembleTurn | game.c:143-168 | the end of the first pass, with the second and final passes, is Update's level |
| Game.MoveEnemy | game.c:72-87 | sets the enemy bit exactly on the enemy's target in the level being built |
| Game.EnemyTurn | game.c:72-87 | the enemy's turn extends the pass state and keeps static parts |
| Game.Game.constructor | game.c:19-20 | both counters start at zero |
| Game.Game.MovePlayer | game.c:89-139 | removes and counts an enemy on the start; moves the player unless the target has a wall; takes the pickups; ends on spikes or an unlocked exit |
| Game.Game.TakePickups | game.c:109-122 | the entered tile loses gold, key and enemy; the gold and the enemy are counted |
| Game.Game.PlayerTurn | game.c:89-139 | the player's turn finishes the pass on its tile, and the game ends exactly as Ends says |
| Game.Game.PlayerMoves | game.c:89-139 | the turn of the player standing on the tile finishes the pass there |
| Game.Game.UpdateTile | game.c:70-139 | one tile of the first pass: its enemy, then its player |
| Game.Game.MoveRow | game.c:69-140 | a row of the first pass; game over exactly when the player of that row ends the game |
| Game.Game.MovePass | game.c:67-141 | the first pass ends in Update's pass state, and game over exactly when the player ends the game |
| Game.Game.UpdateLevel | game.c:53-174 | static entities kept and counters never decrease; with at most one player the new level, counters and result are those of Update |
| Game.StartUpdate | game.c:56-62 | a fresh level holding only the static part of each tile |
| Game.CopyBack | game.c:165-168 | the level built replaces the input level |
| Game.CollectPass | game.c:143-153 | copies the gold and keys left in the input; reports no key left exactly when none is |
| Game.LockPass | game.c:155-163 | keeps the input's locks exactly while a key is left |
| TurnFacts.StaticHas | game.c:60-62 | tiles with the same static part agree on floor, wall, spikes and exit |
| TurnFacts.Picked | game.c:109-122 | the input level after the player's pickups has one tile per cell |
| TurnFacts.UpdateAt | game.c:53-174 | each new tile shows the static part, the enemies left on it, the player, the gold and key left, and its lock only while a key is left |
| TurnFacts.UpdateTileIs | game.c:143-163 | each new tile is the composition of its static part and its flags |
| TurnFacts.PickedAt | game.c:109-122 | the entered tile loses its gold and key and keeps its lock; every other tile is as it was |
| TurnFacts.UpdateKeepsStatic | game.c:59-62 | every tile keeps floor, wall, spikes and exit, and carries no other bits beyond the dynamic entities |
| TurnFacts.UpdatePlayer | game.c:96-138 | the one player moves one step unless a wall is there, and then stays; no player gives none |
| TurnFacts.UpdateStandStill | game.c:96-102 | with a direction outside UP..RIGHT the player tiles are unchanged |
| TurnFacts.UpdateCollects | game.c:109-153 | the gold and key on the entered tile are taken and only the gold is counted; all other gold and keys stay |
| TurnFacts.UpdateLocks | game.c:143-163 | a lock stays exactly when its tile had one and some key is left |
| TurnFacts.UpdateOver | game.c:124-133 | the turn ends exactly when the player enters spikes or an exit without a lock |
| TurnFacts.UpdateEnemiesCome | game.c:72-87 | every enemy afterwards stands where some enemy went: its own tile or a neighbour without a wall; rolls 5 and 6 stay |
| TurnFacts.EnemyOffRing | game.c:72-87 | an enemy of a level with none on the ring stands inside it |
| TurnFacts.UpdateEnemiesGo | game.c:72-122 | each enemy reaches its target unless the player walked onto it before its turn or it reached the player's start first |
| TurnFacts.UpdateKills | game.c:89-122 | kills are one for an enemy that met the player's start, plus one for an enemy of the input on the entered tile |
| TurnFacts.UpdateStartCleared | game.c:89-94 | the player's start keeps an enemy exactly when a later active enemy moves onto it |
| KillFinding.UpdateCorrected | game.c:118-122 | the corrected turn has one tile per cell |
| KillFinding.CorrectedTileIs | game.c:118-122 | each corrected tile is the composition of its static part and its corrected flags |
| KillFinding.CorrectedAt | game.c:118-122 | each corrected tile shows its static part and the corrected enemy flag |
| KillFinding.WitnessLevel | game.c:118-122 | a concrete level: the player on floor at (12, 4), an enemy on floor at (11, 4), nothing elsewhere |
| KillFinding.WitnessShowsFinding | game.c:118-122 | the witness level meets the finding's precondition with every enemy rolling 6 |
| KillFinding.LeftMove | game.c:97-107 | stepping LEFT next to a staying enemy enters its tile after the enemy has moved |
| KillFinding.KillCountedEnemyRemains | game.c:118-122 | as written, stepping onto the enemy counts one kill, yet the enemy remains beside the player |
| KillFinding.CorrectedKillRemoves | game.c:118-122 | corrected, the same step counts one kill and removes the enemy |
| KillFinding.CorrectedEntry | game.c:118-122 | corrected, the entered tile ends with an enemy exactly when a later enemy moves onto it after the player's turn |
| KillFinding.CorrectedKills | game.c:89-122 | corrected, the kills count the enemies met on the start and on the entered tile at the player's turn |
| KillFinding.ArrivedSplit | game.c:72-87 | arrivals over a range split at any point between |
| KillFinding.UpdateCorrectedAgrees | game.c:89-122 | the corrected and as-written turns agree unless the player enters a tile an already-moved enemy stood on or reached |
| KillFinding.LevelsAgree | game.c:143-163 | the two levels agree wherever their enemy flags do |

## Left out

- Floating point is not modelled. `random_float` (common.c:91-93) has no
  counterpart. Integer draws and coins come from the `Draws.Oracle`
  streams, which are not tied to the xoroshiro state.
- Draws.Pick: the model assumes the float draw is below 1.0.
  `random_float` can return exactly 1.0: every output within about 2^39 of
  UINT64_MAX rounds to it. `random_int_range` then yields `high + 1`.
- Draws.Oracle.IntRange: requires `low <= high`. Every caller meets it, and
  the `abs` for reversed bounds is not modelled.
- Draws.Oracle.Chance: the probability argument is dropped. Only the coin
  outcome is modelled, so the gold, enemy and spikes chances are not.
- The `parameters` arrays of `digger_generator` and
  `verified_scatter_placer` are not modelled. They only scale float
  probabilities and the walkable portion. The model takes the default
  constants (NULL parameters).
- The digger's turn chance (level.c:74, 98-99) is a float and is not
  modelled. Only the coin outcome of each turn draw is.
- Rejection loops: `DrawTile`, `PlaceOnFloor`, `DiggerRun`,
  `BasicRoomGenerator`, `ScatterPlacer`, `VerifiedScatterPlacer` and their
  relatives carry a `fuel` bound and an `ok` outcome. The source loops
  forever, so behaviour after more than `fuel` draws is not modelled.
- The initial seed from `__DATE__` and `__TIME__` (common.c:69) is a
  constructor parameter.
- Flood visitors are pure functions `(tile, x, y, data) -> (data, stop)`.
  A visitor that changes the tile through its pointer is not modelled;
  none of the modelled callers does.
- Generators.ScatterEntities: states per tile only that the tile is
  decorated (at most one of gold, enemy or spikes, none on a wall). Which
  coins decided it is stated per tile by `DecorateTile`, not for the loop.
- Generators.BasicRoomGenerator: no connectivity is claimed; the source
  promises none.
- Generators.DiggerGenerator: connectivity is not stated for the code as
  written, because it does not hold (see Findings).
  `DiggerGeneratorInterior` states it.
- Generators.VerifiedScatterPlacer: neither completability nor distinct
  tiles are stated, because as written neither holds (see Findings).
  `VerifiedScatterPlacerChecked` states both.
- Generators.ReverseVerifiedScatterGenerator: the number of walls placed
  is not stated, and neither is the rule that each round's attempts stop
  at the first success.
- Game.Game.UpdateLevel: requires that no player or enemy stands on the
  outer ring. Otherwise the source reads outside the row, or outside the
  array.
- Game.Game.UpdateLevel: the exact new level is stated only for levels
  with at most one player. With several players only the static parts and
  the counters are stated.
- Game.Game.UpdateLevel: each enemy's roll of `random_int_range(1, 6)` is
  a parameter, `draws[c]` for the enemy on tile c. The order of the rolls
  in the random stream is not modelled.
- The `gold_collected` and `enemies_killed` counters are unbounded. The C
  `int` overflow is not modelled.
- `reverse_entity_preserving_scatter_generator` (level.c:183-230) and
  `reverse_verified_fill_generator` (level.c:233-251) are not modelled:
  both are marked TODO in the source. `count_entities`, their visitor, is
  modelled.
- Rendering, SDL, input handling, the game's main loop, `steps_taken` in
  game.c, level loading and writing, and `main` are I/O and not part of
  this model. editor.c is not part of this model.

## Findings

| source | as written | input that shows it | evidently intended | confidence | as-written member | corrected member |
|---|---|---|---|---|---|---|
| level.c:81-82 | the digger's start is drawn with `random_int_range(1, LEVEL_SIZE-1)`, so a walk can start in column or row 21, on the outer ring; a move from (21, 5) going up clamps to (20, 4), a diagonal, so the start is cut off from the rest of the walk | first x draw 21 (raw 20), y draw 5, direction UP: after two steps the carved (21, 5) and (20, 4) do not reach each other | starts drawn in [1, LEVEL_SIZE-2], like every other move, so every walkable tile stays reachable | not executed | Generators.RingStartDisconnects | Generators.DiggerGeneratorInterior |
| level.c:353-354 | the key and player loops repeat only while the tile is not bare floor AND nothing wanted was seen: any bare floor tile is accepted at once, with no check that its region reaches the key or the exit; a tile that is not bare floor, such as the exit tile itself, is accepted when its region shows a wanted entity, so the key or the player can share the exit's tile | WalledInLevel: a bare floor tile at (5, 5) walled in on all sides is accepted for the player, and the level cannot be completed | repeat until the tile is bare floor and its own region holds the wanted entities (the two tests joined by or, with `seen` reset for every draw) | not executed | Generators.PlayerLoopAcceptsWalledInFloor | Generators.VerifiedScatterPlacerChecked |
| game.c:118-122 | the kill on the entered tile tests and toggles the enemy bit of the input level; for LEFT or UP the enemy there has already moved, so it is counted as killed and stays in the new level | WitnessLevel: player at (12, 4), enemy at (11, 4) rolling 6, direction LEFT gives kills 1 with the enemy left on the player's tile | kill the enemy that stands on the entered tile at the player's turn, as game.c:90-94 does for the start | not executed | KillFinding.KillCountedEnemyRemains | KillFinding.CorrectedKillRemoves |
