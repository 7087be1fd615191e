/** What one turn of update_level does to a level, stated about the
    function Update that UpdateLevel is proved to compute: the static
    entities stay, the player takes one step unless a wall is in the way,
    it collects the gold and key it walks onto, the locks stay only while a
    key is left, the turn ends on spikes or an unlocked exit, and every
    enemy takes one step or stays. */
module TurnFacts {
  import opened Tiles
  import opened Completion
  import opened Game

  /** Two tiles with the same static part agree on each static entity. */
  lemma StaticHas(a: Tile, b: Tile)
    requires StaticOf(a) == StaticOf(b)
    ensures (Has(a, FLOOR) <==> Has(b, FLOOR)) && (Has(a, WALL) <==> Has(b, WALL))
    ensures (Has(a, SPIKES) <==> Has(b, SPIKES)) && (Has(a, EXIT) <==> Has(b, EXIT))
  {
    EntityValues();
  }

  /** The input level after the player's pickups. */
  function Picked(s: seq<Tile>, direction: int): (l: seq<Tile>)
    requires |s| == CELLS && NoneOnRing(s)
    ensures |l| == CELLS
  {
    LevelAfter(s, PlayerMove(s, direction), CELLS)
  }

  /** Some key is left once the player has moved. */
  ghost predicate KeyLeft(s: seq<Tile>, direction: int)
    requires |s| == CELLS && NoneOnRing(s)
  {
    exists j :: 0 <= j < CELLS && Has(Picked(s, direction)[j], KEY)
  }

  /** Tile i of the new level, entity by entity. */
  lemma UpdateAt(s: seq<Tile>, direction: int, draws: seq<int>, i: int)
    requires |s| == CELLS && |draws| == CELLS && NoneOnRing(s) && 0 <= i < CELLS
    ensures var m := PlayerMove(s, direction);
      var l := Picked(s, direction);
      Shows(Update(s, direction, draws).level[i], s[i],
            EnemyFlag(s, m, draws, i, CELLS, CELLS), PlayerAfter(m, i, CELLS),
            Has(l[i], GOLD), Has(l[i], KEY), Has(l[i], LOCK) && KeyLeft(s, direction))
    ensures StaticOf(Update(s, direction, draws).level[i]) == StaticOf(s[i])
  {
    var m := PlayerMove(s, direction);
    var l := Picked(s, direction);
    var u := Update(s, direction, draws).level[i];
    var enemy, player := EnemyFlag(s, m, draws, i, CELLS, CELLS), PlayerAfter(m, i, CELLS);
    var gold, key, lock := Has(l[i], GOLD), Has(l[i], KEY), Has(l[i], LOCK) && KeyLeft(s, direction);
    UpdateTileIs(s, direction, draws, i);
    ComposedShows(u, s[i], enemy, player, gold, key, lock);
  }

  lemma UpdateTileIs(s: seq<Tile>, direction: int, draws: seq<int>, i: int)
    requires |s| == CELLS && |draws| == CELLS && NoneOnRing(s) && 0 <= i < CELLS
    ensures var m := PlayerMove(s, direction);
      var l := Picked(s, direction);
      Update(s, direction, draws).level[i] ==
        Compose(s[i], EnemyFlag(s, m, draws, i, CELLS, CELLS), PlayerAfter(m, i, CELLS),
                Has(l[i], GOLD), Has(l[i], KEY), Has(l[i], LOCK) && KeyLeft(s, direction))
  {
  }

  /** The pickups leave every tile but the entered one as it was, and take
      the gold, key and enemy of the entered one. */
  lemma PickedAt(s: seq<Tile>, direction: int, i: int)
    requires |s| == CELLS && NoneOnRing(s) && 0 <= i < CELLS
    ensures var m := PlayerMove(s, direction);
      var l := Picked(s, direction);
      (m.enters && i == m.to ==> !Has(l[i], GOLD) && !Has(l[i], KEY) && (Has(l[i], LOCK) <==> Has(s[i], LOCK))) &&
      (!(m.enters && i == m.to) ==> l[i] == s[i])
  {
    var m := PlayerMove(s, direction);
    if m.enters {
      ClearMeans(s[m.to]);
    }
  }

  /** game.c:60-62: every tile keeps its floor, wall, spikes and exit, and
      carries no bit beyond those and the five entities a turn places. */
  lemma UpdateKeepsStatic(s: seq<Tile>, direction: int, draws: seq<int>)
    requires |s| == CELLS && |draws| == CELLS && NoneOnRing(s)
    ensures var o := Update(s, direction, draws);
      forall i :: 0 <= i < CELLS ==>
        o.level[i] & !DYNAMIC_ENTITIES == StaticOf(s[i]) &&
        (Has(o.level[i], FLOOR) <==> Has(s[i], FLOOR)) && (Has(o.level[i], WALL) <==> Has(s[i], WALL)) &&
        (Has(o.level[i], SPIKES) <==> Has(s[i], SPIKES)) && (Has(o.level[i], EXIT) <==> Has(s[i], EXIT))
  {
    var o := Update(s, direction, draws);
    forall i | 0 <= i < CELLS
      ensures o.level[i] & !DYNAMIC_ENTITIES == StaticOf(s[i]) &&
        (Has(o.level[i], FLOOR) <==> Has(s[i], FLOOR)) && (Has(o.level[i], WALL) <==> Has(s[i], WALL)) &&
        (Has(o.level[i], SPIKES) <==> Has(s[i], SPIKES)) && (Has(o.level[i], EXIT) <==> Has(s[i], EXIT))
    {
      UpdateAt(s, direction, draws, i);
      StaticHas(o.level[i], s[i]);
    }
  }

  /** game.c:97-107 and 134-138: the player of a level with one player
      ends on the tile one step in `direction` from it unless that tile
      has a wall, and on its own tile otherwise; a level without a player
      has none afterwards. */
  lemma UpdatePlayer(s: seq<Tile>, direction: int, draws: seq<int>)
    requires |s| == CELLS && |draws| == CELLS && NoneOnRing(s)
    ensures var o := Update(s, direction, draws);
      var p := FirstPlayer(s);
      var q := Step(p, direction);
      (p == CELLS ==> forall i :: 0 <= i < CELLS ==> !Has(o.level[i], PLAYER)) &&
      (p < CELLS ==>
        0 <= q < CELLS && (q == p || Adjacent(p, q)) &&
        forall i :: 0 <= i < CELLS ==>
          (Has(o.level[i], PLAYER) <==> i == (if Has(s[q], WALL) then p else q)))
  {
    var m := PlayerMove(s, direction);
    forall i | 0 <= i < CELLS
      ensures Has(Update(s, direction, draws).level[i], PLAYER) <==> PlayerAfter(m, i, CELLS)
    {
      UpdateAt(s, direction, draws, i);
    }
  }

  /** game.c:97-102 with a direction outside UP..RIGHT (the space key
      passes ~0): nobody moves, so each player tile of the input is the
      only one of the output. */
  lemma UpdateStandStill(s: seq<Tile>, direction: int, draws: seq<int>)
    requires |s| == CELLS && |draws| == CELLS && NoneOnRing(s) && AtMostOnePlayer(s)
    requires !(UP <= direction <= RIGHT)
    ensures var o := Update(s, direction, draws);
      forall i :: 0 <= i < CELLS ==> (Has(o.level[i], PLAYER) <==> Has(s[i], PLAYER))
  {
    UpdatePlayer(s, direction, draws);
    var p := FirstPlayer(s);
    if p < CELLS {
      StepFromInterior(p, direction);
      PlayerInterior(s, p);
    }
  }

  /** game.c:110-116 and 140-150: the player collects the gold and the key
      of the tile it enters, counting the gold; every other gold and key
      stays where it was. */
  lemma UpdateCollects(s: seq<Tile>, direction: int, draws: seq<int>)
    requires |s| == CELLS && |draws| == CELLS && NoneOnRing(s)
    ensures var o := Update(s, direction, draws);
      var p := FirstPlayer(s);
      var q := Step(p, direction);
      (p == CELLS ==>
        o.gold == 0 &&
        forall i :: 0 <= i < CELLS ==>
          (Has(o.level[i], GOLD) <==> Has(s[i], GOLD)) && (Has(o.level[i], KEY) <==> Has(s[i], KEY))) &&
      (p < CELLS ==>
        0 <= q < CELLS &&
        var enters := !Has(s[q], WALL);
        o.gold == (if enters && Has(s[q], GOLD) then 1 else 0) &&
        forall i :: 0 <= i < CELLS ==>
          (Has(o.level[i], GOLD) <==> Has(s[i], GOLD) && !(enters && i == q)) &&
          (Has(o.level[i], KEY) <==> Has(s[i], KEY) && !(enters && i == q)))
  {
    var o := Update(s, direction, draws);
    forall i | 0 <= i < CELLS
      ensures var m := PlayerMove(s, direction);
        (Has(o.level[i], GOLD) <==> Has(s[i], GOLD) && !(m.enters && i == m.to)) &&
        (Has(o.level[i], KEY) <==> Has(s[i], KEY) && !(m.enters && i == m.to))
    {
      UpdateAt(s, direction, draws, i);
      PickedAt(s, direction, i);
    }
  }

  /** game.c:140-163: a lock stays exactly when its tile had one and some
      key is left in the new level. */
  lemma UpdateLocks(s: seq<Tile>, direction: int, draws: seq<int>)
    requires |s| == CELLS && |draws| == CELLS && NoneOnRing(s)
    ensures var o := Update(s, direction, draws);
      forall i :: 0 <= i < CELLS ==>
        (Has(o.level[i], LOCK) <==> Has(s[i], LOCK) && exists j :: 0 <= j < CELLS && Has(o.level[j], KEY))
  {
    var o := Update(s, direction, draws);
    var l := Picked(s, direction);
    assert KeyLeft(s, direction) <==> exists j :: 0 <= j < CELLS && Has(o.level[j], KEY) by {
      if KeyLeft(s, direction) {
        var j :| 0 <= j < CELLS && Has(l[j], KEY);
        UpdateAt(s, direction, draws, j);
      }
      if exists j :: 0 <= j < CELLS && Has(o.level[j], KEY) {
        var j :| 0 <= j < CELLS && Has(o.level[j], KEY);
        UpdateAt(s, direction, draws, j);
      }
    }
    forall i | 0 <= i < CELLS
      ensures Has(o.level[i], LOCK) <==> Has(s[i], LOCK) && KeyLeft(s, direction)
    {
      UpdateAt(s, direction, draws, i);
      PickedAt(s, direction, i);
    }
  }

  /** game.c:124-133: the turn ends exactly when the player enters a tile
      with spikes, or one with an exit and no lock in the input level. */
  lemma UpdateOver(s: seq<Tile>, direction: int, draws: seq<int>)
    requires |s| == CELLS && |draws| == CELLS && NoneOnRing(s)
    ensures var o := Update(s, direction, draws);
      var p := FirstPlayer(s);
      var q := Step(p, direction);
      (o.over <==>
        p < CELLS && 0 <= q < CELLS && !Has(s[q], WALL) &&
        (Has(s[q], SPIKES) || (Has(s[q], EXIT) && !Has(s[q], LOCK))))
  {
    var m := PlayerMove(s, direction);
  }

  /** game.c:72-87: an enemy in the new level stands where some enemy of
      the input level went: on its own tile, or on a neighbour without a
      wall; die rolls 5 and 6 stay put. */
  lemma UpdateEnemiesCome(s: seq<Tile>, direction: int, draws: seq<int>)
    requires |s| == CELLS && |draws| == CELLS && NoneOnRing(s)
    ensures var o := Update(s, direction, draws);
      forall i :: 0 <= i < CELLS && Has(o.level[i], ENEMY) ==>
        exists c :: 0 <= c < CELLS && Has(s[c], ENEMY) && EnemyTarget(s, c, draws[c]) == i &&
          (c == i || (Adjacent(c, i) && !Has(s[i], WALL))) &&
          (!(UP <= draws[c] <= RIGHT) ==> c == i)
  {
    var o := Update(s, direction, draws);
    var m := PlayerMove(s, direction);
    forall i | 0 <= i < CELLS && Has(o.level[i], ENEMY)
      ensures exists c ::
          0 <= c < CELLS && Has(s[c], ENEMY) && EnemyTarget(s, c, draws[c]) == i &&
          (c == i || (Adjacent(c, i) && !Has(s[i], WALL))) &&
          (!(UP <= draws[c] <= RIGHT) ==> c == i)
    {
      UpdateAt(s, direction, draws, i);
      var lo := if m.present && i == m.from then m.from + 1 else 0;
      ArrivedMeans(s, m, draws, i, lo, CELLS);
      var c :| lo <= c < CELLS && Active(s, m, c) && EnemyTarget(s, c, draws[c]) == i;
      EnemyOffRing(s, c);
    }
  }

  /** The enemies of a level with none on the ring stand inside it. */
  lemma EnemyOffRing(s: seq<Tile>, c: int)
    requires |s| == CELLS && NoneOnRing(s) && 0 <= c < CELLS && Has(s[c], ENEMY)
    ensures Interior(c)
  {
  }

  /** game.c:72-94 and 118-122: an enemy of the input level reaches the
      tile its roll takes it to, unless the player walked onto it before
      its turn, or it reached the player's start by the player's turn. */
  lemma UpdateEnemiesGo(s: seq<Tile>, direction: int, draws: seq<int>)
    requires |s| == CELLS && |draws| == CELLS && NoneOnRing(s)
    ensures var o := Update(s, direction, draws);
      var p := FirstPlayer(s);
      var q := Step(p, direction);
      forall c :: 0 <= c < CELLS && Has(s[c], ENEMY) ==>
        var t := EnemyTarget(s, c, draws[c]);
        Has(o.level[t], ENEMY) ||
        (p < CELLS && c == q && p < q && !Has(s[q], WALL)) ||
        (p < CELLS && t == p && c <= p)
  {
    var o := Update(s, direction, draws);
    var m := PlayerMove(s, direction);
    forall c | 0 <= c < CELLS && Has(s[c], ENEMY)
      ensures var t := EnemyTarget(s, c, draws[c]);
        Has(o.level[t], ENEMY) || (m.enters && c == m.to && m.from < m.to) ||
        (m.present && t == m.from && c <= m.from)
    {
      var t := EnemyTarget(s, c, draws[c]);
      UpdateAt(s, direction, draws, t);
      if Active(s, m, c) && !(m.present && t == m.from && c <= m.from) {
        var lo := if m.present && t == m.from then m.from + 1 else 0;
        ArrivedMeans(s, m, draws, t, lo, CELLS);
      }
    }
  }

  /** game.c:90-94 and 118-122: the kills are one for an enemy that reached
      the player's start by the player's turn, and one for an enemy of the
      input level on the tile the player enters. */
  lemma UpdateKills(s: seq<Tile>, direction: int, draws: seq<int>)
    requires |s| == CELLS && |draws| == CELLS && NoneOnRing(s)
    ensures var o := Update(s, direction, draws);
      var p := FirstPlayer(s);
      var q := Step(p, direction);
      (p == CELLS ==> o.killed == 0) &&
      (p < CELLS ==>
        0 <= q < CELLS &&
        o.killed ==
          (if exists c :: 0 <= c <= p && Has(s[c], ENEMY) && EnemyTarget(s, c, draws[c]) == p then 1 else 0) +
          (if !Has(s[q], WALL) && Has(s[q], ENEMY) then 1 else 0))
  {
    var m := PlayerMove(s, direction);
    if m.present {
      ArrivedMeans(s, m, draws, m.from, 0, m.from + 1);
      var p := m.from;
      if exists c :: 0 <= c <= p && Has(s[c], ENEMY) && EnemyTarget(s, c, draws[c]) == p {
        var c :| 0 <= c <= p && Has(s[c], ENEMY) && EnemyTarget(s, c, draws[c]) == p;
        assert Active(s, m, c);
      }
    }
  }

  /** game.c:90-94: the player's start keeps an enemy only when one of a
      later tile moves onto it after the player's turn. */
  lemma UpdateStartCleared(s: seq<Tile>, direction: int, draws: seq<int>)
    requires |s| == CELLS && |draws| == CELLS && NoneOnRing(s)
    requires FirstPlayer(s) < CELLS
    ensures var o := Update(s, direction, draws);
      var p := FirstPlayer(s);
      Has(o.level[p], ENEMY) <==>
        exists c :: p < c < CELLS && Active(s, PlayerMove(s, direction), c) && EnemyTarget(s, c, draws[c]) == p
  {
    var m := PlayerMove(s, direction);
    UpdateAt(s, direction, draws, m.from);
    ArrivedMeans(s, m, draws, m.from, m.from + 1, CELLS);
  }
}
