/** Level completability from common.c: find the first player in scan
    order, flood from it over tiles that are plain floor as far as floor,
    wall and spikes are concerned, and require both a key and an exit
    among the flooded tiles. */
module Completion {
  import opened Tiles
  import opened FloodFill

  /** The bits level_is_completable floods on: floor, no wall, no spikes. */
  const WALKABLE_MASK: Tile := Bit(FLOOR) | Bit(WALL) | Bit(SPIKES)

  /** The bits both of which must be seen. */
  const GOAL: Tile := Bit(KEY) | Bit(EXIT)

  /** True iff tile `t` is one the completability flood passes. */
  predicate Walkable(t: Tile) {
    Matches(t, WALKABLE_MASK, Bit(FLOOR))
  }

  /** A walkable tile has floor and neither wall nor spikes. */
  lemma WalkableMeans(t: Tile)
    ensures Walkable(t) <==> Has(t, FLOOR) && !Has(t, WALL) && !Has(t, SPIKES)
  {
  }

  lemma GoalMeans(t: Tile)
    ensures t & GOAL == GOAL <==> Has(t, KEY) && Has(t, EXIT)
  {
  }

  /** The lowest index from `k` on whose tile carries entity `e`, or |s|. */
  function FirstWith(s: seq<Tile>, e: Entity, k: int): (r: int)
    requires 0 <= k <= |s|
    ensures k <= r <= |s|
    ensures r < |s| ==> Has(s[r], e)
    ensures forall j :: k <= j < r ==> !Has(s[j], e)
    decreases |s| - k
  {
    if k == |s| then |s|
    else if Has(s[k], e) then k
    else FirstWith(s, e, k + 1)
  }

  /** The index of the first player in row-major order; CELLS when there is none. */
  function FirstPlayer(s: seq<Tile>): int
    requires |s| == CELLS
  {
    FirstWith(s, PLAYER, 0)
  }

  /** The region the completability flood covers from the player at `p`. */
  ghost function PlayerRegion(s: seq<Tile>, p: int): set<int>
    requires |s| == CELLS
  {
    Region(s, WALKABLE_MASK, Bit(FLOOR), p)
  }

  ghost predicate RegionHas(s: seq<Tile>, p: int, e: Entity)
    requires |s| == CELLS
  {
    exists t :: t in PlayerRegion(s, p) && Has(s[t], e)
  }

  /** The level has a player, and the walkable region around the first
      player holds both a key and an exit. */
  ghost predicate Completable(s: seq<Tile>)
    requires |s| == CELLS
  {
    var p := FirstPlayer(s);
    p < CELLS && RegionHas(s, p, KEY) && RegionHas(s, p, EXIT)
  }

  /** flood_record_tiles: or the visited tile into the accumulator; never stop. */
  function RecordTiles(t: Tile, x: int, y: int, seen: Tile): (r: (Tile, bool))
    ensures r.0 & seen == seen && r.0 & t == t
    ensures !r.1
  {
    (seen | t, false)
  }

  /** The bitwise union of the tiles at `calls`. */
  function UnionOf(s: seq<Tile>, calls: seq<int>): Tile
    requires forall k :: 0 <= k < |calls| ==> 0 <= calls[k] < |s|
    decreases |calls|
  {
    if calls == [] then 0 else UnionOf(s, calls[..|calls| - 1]) | s[calls[|calls| - 1]]
  }

  /** Replaying flood_record_tiles collects the union and never stops. */
  lemma {:induction false} ReplayRecord(s: seq<Tile>, calls: seq<int>, seen: Tile)
    requires forall k :: 0 <= k < |calls| ==> 0 <= calls[k] < |s|
    ensures Replay(RecordTiles, s, calls, seen) == (seen | UnionOf(s, calls), false)
    decreases |calls|
  {
    if calls != [] {
      ReplayRecord(s, calls[..|calls| - 1], seen);
    }
  }

  /** An entity is in the union exactly when one of the tiles carries it. */
  lemma {:induction false} UnionOfHas(s: seq<Tile>, calls: seq<int>, e: Entity)
    requires forall k :: 0 <= k < |calls| ==> 0 <= calls[k] < |s|
    ensures Has(UnionOf(s, calls), e) <==> exists k :: 0 <= k < |calls| && Has(s[calls[k]], e)
    decreases |calls|
  {
    if calls != [] {
      var u := calls[..|calls| - 1];
      UnionOfHas(s, u, e);
      assert forall k :: 0 <= k < |u| ==> u[k] == calls[k];
      var last := s[calls[|calls| - 1]];
      HasUnion(UnionOf(s, u), last, e);
    }
  }

  /** find_player: the coordinates of the first tile in row-major order that
      carries the player, and whether there is one. */
  method FindPlayer(level: array<Tile>) returns (found: bool, px: int, py: int)
    requires level.Length == CELLS
    ensures found <==> FirstPlayer(level[..]) < CELLS
    ensures found ==> InGrid(px, py) && Index(px, py) == FirstPlayer(level[..])
  {
    ghost var s := level[..];
    var y := 0;
    while y < LEVEL_SIZE
      invariant 0 <= y <= LEVEL_SIZE
      invariant forall j :: 0 <= j < y * LEVEL_SIZE ==> !Has(s[j], PLAYER)
    {
      var x := 0;
      while x < LEVEL_SIZE
        invariant 0 <= x <= LEVEL_SIZE
        invariant forall j :: 0 <= j < x + y * LEVEL_SIZE ==> !Has(s[j], PLAYER)
      {
        IndexCoords(x, y);
        if level[Index(x, y)] & Bit(PLAYER) != 0 {
          FirstIsLeast(s, PLAYER, Index(x, y));
          return true, x, y;
        }
        x := x + 1;
      }
      assert LEVEL_SIZE + y * LEVEL_SIZE == (y + 1) * LEVEL_SIZE;
      y := y + 1;
    }
    FirstIsLeast(s, PLAYER, CELLS);
    return false, 0, 0;
  }

  /** If nothing before `r` carries `e` and `r` does (or is the end), `r` is the first. */
  lemma FirstIsLeast(s: seq<Tile>, e: Entity, r: int)
    requires 0 <= r <= |s|
    requires forall j :: 0 <= j < r ==> !Has(s[j], e)
    requires r < |s| ==> Has(s[r], e)
    ensures FirstWith(s, e, 0) == r
  {
  }

  /** level_is_completable: true exactly when Completable holds. */
  method LevelIsCompletable(level: array<Tile>) returns (b: bool)
    requires level.Length == CELLS
    ensures b == Completable(level[..])
  {
    var found, px, py := FindPlayer(level);
    if !found {
      return false;
    }
    var steps, seen, calls := Flood(level, px, py, WALKABLE_MASK, Bit(FLOOR), RecordTiles, 0);
    ReplayRecord(level[..], calls, 0);
    GoalMeans(seen);
    b := seen & GOAL == GOAL;
    CompletableFromUnion(level[..], Index(px, py), calls);
  }

  /** The union over a complete flood from `p` holds an entity exactly when
      some tile of the region around `p` does. */
  lemma UnionMeansRegionHas(s: seq<Tile>, p: int, calls: seq<int>, e: Entity)
    requires |s| == CELLS
    requires forall t :: t in PlayerRegion(s, p) <==> t in calls
    requires forall k :: 0 <= k < |calls| ==> 0 <= calls[k] < CELLS
    ensures RegionHas(s, p, e) <==> Has(UnionOf(s, calls), e)
  {
    UnionOfHas(s, calls, e);
    if RegionHas(s, p, e) {
      var t :| t in PlayerRegion(s, p) && Has(s[t], e);
      var k :| 0 <= k < |calls| && calls[k] == t;
    }
  }

  /** The union over a complete flood from the first player decides completability. */
  lemma CompletableFromUnion(s: seq<Tile>, p: int, calls: seq<int>)
    requires |s| == CELLS && p == FirstPlayer(s) && p < CELLS
    requires forall t :: t in PlayerRegion(s, p) <==> t in calls
    requires forall k :: 0 <= k < |calls| ==> 0 <= calls[k] < CELLS
    ensures Completable(s) <==> Has(UnionOf(s, calls), KEY) && Has(UnionOf(s, calls), EXIT)
  {
    UnionMeansRegionHas(s, p, calls, KEY);
    UnionMeansRegionHas(s, p, calls, EXIT);
  }

  /** A completable level's first player stands on a walkable tile. */
  lemma CompletablePlayerWalkable(s: seq<Tile>)
    requires |s| == CELLS
    requires Completable(s)
    ensures Walkable(s[FirstPlayer(s)])
    ensures Has(s[FirstPlayer(s)], PLAYER)
  {
    var t :| t in PlayerRegion(s, FirstPlayer(s)) && Has(s[t], KEY);
    RegionMembers(s, WALKABLE_MASK, Bit(FLOOR), FirstPlayer(s), t);
  }

  /** Levels that agree on which tiles are walkable have the same regions. */
  lemma RegionTransfer(s: seq<Tile>, s': seq<Tile>, p: int)
    requires |s| == CELLS && |s'| == CELLS
    requires forall i :: 0 <= i < CELLS ==> (Walkable(s[i]) <==> Walkable(s'[i]))
    ensures forall t :: t in PlayerRegion(s, p) <==> t in PlayerRegion(s', p)
  {
    forall t | t in PlayerRegion(s, p) ensures t in PlayerRegion(s', p) {
      var w :| IsWalk(s, WALKABLE_MASK, Bit(FLOOR), w) && w[0] == p && w[|w| - 1] == t;
      assert IsWalk(s', WALKABLE_MASK, Bit(FLOOR), w) by {
        forall k | 0 <= k < |w| ensures Walkable(s'[w[k]]) {
          assert Walkable(s[w[k]]);
        }
      }
    }
    forall t | t in PlayerRegion(s', p) ensures t in PlayerRegion(s, p) {
      var w :| IsWalk(s', WALKABLE_MASK, Bit(FLOOR), w) && w[0] == p && w[|w| - 1] == t;
      assert IsWalk(s, WALKABLE_MASK, Bit(FLOOR), w) by {
        forall k | 0 <= k < |w| ensures Walkable(s[w[k]]) {
          assert Walkable(s'[w[k]]);
        }
      }
    }
  }

  /** Levels that agree on where entity `e` is find the same first one. */
  lemma {:induction false} FirstWithSame(s: seq<Tile>, s': seq<Tile>, e: Entity, k: int)
    requires |s| == |s'| && 0 <= k <= |s|
    requires forall i :: 0 <= i < |s| ==> (Has(s[i], e) <==> Has(s'[i], e))
    ensures FirstWith(s, e, k) == FirstWith(s', e, k)
    decreases |s| - k
  {
    if k < |s| && !Has(s[k], e) {
      FirstWithSame(s, s', e, k + 1);
    }
  }

  /** Rewriting one tile that is not walkable before or after, and that
      carries no player before or after, cannot change completability: the
      player, the region around it and every tile of that region stay put. */
  lemma CompletableIgnores(s: seq<Tile>, c: int, v: Tile)
    requires |s| == CELLS && 0 <= c < CELLS
    requires !Walkable(s[c]) && !Walkable(v)
    requires !Has(s[c], PLAYER) && !Has(v, PLAYER)
    ensures Completable(s) <==> Completable(s[c := v])
  {
    var s' := s[c := v];
    FirstWithSame(s, s', PLAYER, 0);
    var p := FirstPlayer(s);
    RegionTransfer(s, s', p);
    forall t | t in PlayerRegion(s, p) ensures s[t] == s'[t] {
      RegionMembers(s, WALKABLE_MASK, Bit(FLOOR), p, t);
    }
    forall e: Entity ensures RegionHas(s, p, e) <==> RegionHas(s', p, e) {
      if RegionHas(s, p, e) {
        var t :| t in PlayerRegion(s, p) && Has(s[t], e);
        assert t in PlayerRegion(s', p) && Has(s'[t], e);
      }
      if RegionHas(s', p, e) {
        var t :| t in PlayerRegion(s', p) && Has(s'[t], e);
        assert t in PlayerRegion(s, p) && Has(s[t], e);
      }
    }
  }
}
