/** The kill on the tile the player enters (game.c:118-122) tests and
    clears the enemy bit of the input level. That is the enemy on the tile
    only while it has not had its own turn, which holds when the tile comes
    later in scan order (DOWN, RIGHT). For UP and LEFT, and when the player
    stands still, that enemy has already moved: it is counted as killed
    and still stands in the new level, while an enemy that moved onto the
    tile earlier in the pass is neither killed nor counted.

    UpdateCorrected reads the kill as the start-tile kill of game.c:90-94
    does: the player kills whatever enemy stands on the tile it enters at
    the moment of its turn, once. */
module KillFinding {
  import opened Tiles
  import opened Completion
  import opened Game
  import opened TurnFacts

  /** The enemy bit of tile `i` in the corrected turn: the player's start
      and the tile it enters keep only the enemies that move onto them
      after the player's turn. */
  function CorrectedEnemy(s: seq<Tile>, m: Move, draws: seq<int>, i: int): bool
    requires |s| == CELLS && |draws| == CELLS && Sound(m)
  {
    if m.present && (i == m.from || (m.enters && i == m.to)) then Arrived(s, m, draws, i, m.from + 1, CELLS)
    else Arrived(s, m, draws, i, 0, CELLS)
  }

  /** An enemy stands on the tile the player enters, other than its start,
      when the player takes its turn: one that has moved there from a tile
      up to the player's, or the enemy of a later tile that has not moved yet. */
  predicate MetOnEntry(s: seq<Tile>, m: Move, draws: seq<int>)
    requires |s| == CELLS && |draws| == CELLS && Sound(m)
  {
    m.enters && m.to != m.from &&
    (Arrived(s, m, draws, m.to, 0, m.from + 1) || (m.from < m.to && Has(s[m.to], ENEMY)))
  }

  function KillsCorrected(s: seq<Tile>, m: Move, draws: seq<int>): int
    requires |s| == CELLS && |draws| == CELLS && Sound(m)
  {
    (if m.present && Arrived(s, m, draws, m.from, 0, m.from + 1) then 1 else 0) +
    (if MetOnEntry(s, m, draws) then 1 else 0)
  }

  /** Update with the corrected kill on the entered tile. */
  function UpdateCorrected(s: seq<Tile>, direction: int, draws: seq<int>): (o: Turn)
    requires |s| == CELLS && |draws| == CELLS && NoneOnRing(s)
    ensures |o.level| == CELLS
  {
    var m := PlayerMove(s, direction);
    var l := LevelAfter(s, m, CELLS);
    var keyLeft := exists j :: 0 <= j < CELLS && Has(l[j], KEY);
    Turn(seq(CELLS, i requires 0 <= i < CELLS =>
           Compose(s[i], CorrectedEnemy(s, m, draws, i), PlayerAfter(m, i, CELLS),
                   Has(l[i], GOLD), Has(l[i], KEY), Has(l[i], LOCK) && keyLeft)),
         GoldAfter(s, m, CELLS), KillsCorrected(s, m, draws), Ends(s, m))
  }

  lemma CorrectedTileIs(s: seq<Tile>, direction: int, draws: seq<int>, i: int)
    requires |s| == CELLS && |draws| == CELLS && NoneOnRing(s) && 0 <= i < CELLS
    ensures var m := PlayerMove(s, direction);
      var l := Picked(s, direction);
      UpdateCorrected(s, direction, draws).level[i] ==
        Compose(s[i], CorrectedEnemy(s, m, draws, i), PlayerAfter(m, i, CELLS),
                Has(l[i], GOLD), Has(l[i], KEY), Has(l[i], LOCK) && KeyLeft(s, direction))
  {
  }

  /** Tile i of the corrected level, entity by entity. */
  lemma CorrectedAt(s: seq<Tile>, direction: int, draws: seq<int>, i: int)
    requires |s| == CELLS && |draws| == CELLS && NoneOnRing(s) && 0 <= i < CELLS
    ensures var m := PlayerMove(s, direction);
      var l := Picked(s, direction);
      Shows(UpdateCorrected(s, direction, draws).level[i], s[i],
            CorrectedEnemy(s, m, draws, i), PlayerAfter(m, i, CELLS),
            Has(l[i], GOLD), Has(l[i], KEY), Has(l[i], LOCK) && KeyLeft(s, direction))
  {
    var m := PlayerMove(s, direction);
    var l := Picked(s, direction);
    var u := UpdateCorrected(s, direction, draws).level[i];
    var enemy, player := CorrectedEnemy(s, m, draws, i), PlayerAfter(m, i, CELLS);
    var gold, key, lock := Has(l[i], GOLD), Has(l[i], KEY), Has(l[i], LOCK) && KeyLeft(s, direction);
    CorrectedTileIs(s, direction, draws, i);
    ComposedShows(u, s[i], enemy, player, gold, key, lock);
  }

  /** The level of a player one step right of an enemy that rolls a 6
      (stays), with no other enemy anywhere. */
  predicate EnemyLeftOfPlayer(s: seq<Tile>, draws: seq<int>)
    requires |s| == CELLS && |draws| == CELLS
  {
    var p := FirstPlayer(s);
    0 < p < CELLS && Has(s[p - 1], ENEMY) && !Has(s[p - 1], WALL) && draws[p - 1] == 6 &&
    forall c :: 0 <= c < CELLS && c != p - 1 ==> !Has(s[c], ENEMY)
  }

  /** A level that shows the finding: the player at (12, 4) on floor and an
      enemy at (11, 4) on floor, every enemy rolling a 6. */
  function WitnessLevel(): (s: seq<Tile>)
    ensures |s| == CELLS
  {
    seq(CELLS, i => if i == 100 then 0x202 else if i == 99 then 0x102 else 0)
  }

  lemma WitnessShowsFinding()
    ensures NoneOnRing(WitnessLevel())
    ensures EnemyLeftOfPlayer(WitnessLevel(), seq(CELLS, i => 6))
  {
    var s := WitnessLevel();
    FirstIsLeast(s, PLAYER, 100);
  }

  /** Applies the facts of EnemyLeftOfPlayer to the move LEFT. */
  lemma LeftMove(s: seq<Tile>, draws: seq<int>)
    requires |s| == CELLS && |draws| == CELLS && NoneOnRing(s) && EnemyLeftOfPlayer(s, draws)
    ensures var m := PlayerMove(s, LEFT);
      var q := FirstPlayer(s) - 1;
      m.present && m.enters && m.to == q && m.from == q + 1 &&
      Active(s, m, q) && EnemyTarget(s, q, draws[q]) == q &&
      !Arrived(s, m, draws, m.from, 0, m.from + 1) &&
      Arrived(s, m, draws, q, 0, CELLS) && Arrived(s, m, draws, q, 0, m.from + 1) &&
      !Arrived(s, m, draws, q, m.from + 1, CELLS)
  {
    var m := PlayerMove(s, LEFT);
    var q := FirstPlayer(s) - 1;
    EnemyOffRing(s, q);
    ArrivedMeans(s, m, draws, m.from, 0, m.from + 1);
    ArrivedMeans(s, m, draws, q, 0, CELLS);
    ArrivedMeans(s, m, draws, q, 0, m.from + 1);
    ArrivedMeans(s, m, draws, q, m.from + 1, CELLS);
  }

  /** As written: the player steps LEFT onto an enemy that stayed put; the
      enemy is counted as killed and still stands beside the player on
      that tile. */
  lemma KillCountedEnemyRemains(s: seq<Tile>, draws: seq<int>)
    requires |s| == CELLS && |draws| == CELLS && NoneOnRing(s) && EnemyLeftOfPlayer(s, draws)
    ensures var o := Update(s, LEFT, draws);
      var q := FirstPlayer(s) - 1;
      o.killed == 1 && Has(o.level[q], ENEMY) && Has(o.level[q], PLAYER)
  {
    LeftMove(s, draws);
    UpdateAt(s, LEFT, draws, FirstPlayer(s) - 1);
  }

  /** Corrected: in the same level the enemy is counted once and is gone. */
  lemma CorrectedKillRemoves(s: seq<Tile>, draws: seq<int>)
    requires |s| == CELLS && |draws| == CELLS && NoneOnRing(s) && EnemyLeftOfPlayer(s, draws)
    ensures var o := UpdateCorrected(s, LEFT, draws);
      var q := FirstPlayer(s) - 1;
      o.killed == 1 && !Has(o.level[q], ENEMY) && Has(o.level[q], PLAYER)
  {
    LeftMove(s, draws);
    CorrectedAt(s, LEFT, draws, FirstPlayer(s) - 1);
  }

  /** Corrected, in general: the tile the player enters ends with an enemy
      exactly when the enemy of a later tile in scan order moves onto it
      after the player's turn. */
  lemma CorrectedEntry(s: seq<Tile>, direction: int, draws: seq<int>)
    requires |s| == CELLS && |draws| == CELLS && NoneOnRing(s)
    ensures var m := PlayerMove(s, direction);
      var o := UpdateCorrected(s, direction, draws);
      m.enters ==>
        (Has(o.level[m.to], ENEMY) <==>
          exists c :: m.from < c < CELLS && Active(s, m, c) && EnemyTarget(s, c, draws[c]) == m.to)
  {
    var m := PlayerMove(s, direction);
    if m.enters {
      CorrectedAt(s, direction, draws, m.to);
      ArrivedMeans(s, m, draws, m.to, m.from + 1, CELLS);
    }
  }

  /** Corrected, in general: the kills are one for an enemy that reached
      the player's start by its turn, and one when an enemy stood on the
      other tile the player enters as it arrived: one that moved there from
      a tile up to the player's, or the enemy of a later tile. */
  lemma CorrectedKills(s: seq<Tile>, direction: int, draws: seq<int>)
    requires |s| == CELLS && |draws| == CELLS && NoneOnRing(s)
    ensures var m := PlayerMove(s, direction);
      var o := UpdateCorrected(s, direction, draws);
      (!m.present ==> o.killed == 0) &&
      (m.present ==>
        o.killed ==
          (if exists c :: 0 <= c <= m.from && Active(s, m, c) && EnemyTarget(s, c, draws[c]) == m.from then 1 else 0) +
          (if m.enters && m.to != m.from &&
              ((exists c :: 0 <= c <= m.from && Active(s, m, c) && EnemyTarget(s, c, draws[c]) == m.to) ||
               (m.from < m.to && Has(s[m.to], ENEMY)))
           then 1 else 0))
  {
    var m := PlayerMove(s, direction);
    if m.present {
      ArrivedMeans(s, m, draws, m.from, 0, m.from + 1);
      ArrivedMeans(s, m, draws, m.to, 0, m.from + 1);
    }
  }

  /** Arrived over [lo, hi) splits at any `k` between. */
  lemma ArrivedSplit(s: seq<Tile>, m: Move, draws: seq<int>, i: int, lo: int, k: int, hi: int)
    requires |s| == CELLS && |draws| == CELLS && 0 <= lo <= k <= hi <= CELLS
    ensures Arrived(s, m, draws, i, lo, hi) <==> Arrived(s, m, draws, i, lo, k) || Arrived(s, m, draws, i, k, hi)
  {
    ArrivedMeans(s, m, draws, i, lo, hi);
    ArrivedMeans(s, m, draws, i, lo, k);
    ArrivedMeans(s, m, draws, i, k, hi);
  }

  /** The two readings agree unless the player enters a tile on which an
      enemy of a tile up to its own has arrived, or enters a tile earlier
      in scan order (or its own) that had an enemy. */
  lemma UpdateCorrectedAgrees(s: seq<Tile>, direction: int, draws: seq<int>)
    requires |s| == CELLS && |draws| == CELLS && NoneOnRing(s)
    requires var m := PlayerMove(s, direction);
      m.enters ==>
        !Arrived(s, m, draws, m.to, 0, m.from + 1) && (m.to <= m.from ==> !Has(s[m.to], ENEMY))
    ensures UpdateCorrected(s, direction, draws) == Update(s, direction, draws)
  {
    var m := PlayerMove(s, direction);
    forall i | 0 <= i < CELLS
      ensures CorrectedEnemy(s, m, draws, i) == EnemyFlag(s, m, draws, i, CELLS, CELLS)
    {
      if m.enters && i == m.to && i != m.from {
        ArrivedSplit(s, m, draws, i, 0, m.from + 1, CELLS);
      }
    }
    LevelsAgree(s, direction, draws);
  }

  /** The two levels agree where the enemy flags do. */
  lemma LevelsAgree(s: seq<Tile>, direction: int, draws: seq<int>)
    requires |s| == CELLS && |draws| == CELLS && NoneOnRing(s)
    requires var m := PlayerMove(s, direction);
      forall i :: 0 <= i < CELLS ==> CorrectedEnemy(s, m, draws, i) == EnemyFlag(s, m, draws, i, CELLS, CELLS)
    ensures UpdateCorrected(s, direction, draws).level == Update(s, direction, draws).level
  {
    var o := Update(s, direction, draws).level;
    var c := UpdateCorrected(s, direction, draws).level;
    forall i | 0 <= i < CELLS
      ensures c[i] == o[i]
    {
      UpdateTileIs(s, direction, draws, i);
      CorrectedTileIs(s, direction, draws, i);
    }
  }
}
