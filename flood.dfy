/** The masked four-way flood fill of common.c. A tile matches when its
    masked bits equal the target's masked bits; the fill calls a visitor on
    every matching tile connected to the start through matching tiles,
    and stops early when the visitor asks it to. */
module FloodFill {
  import opened Tiles

  /** The per-tile marker of the fill's worklist. */
  datatype Mark = Unseen | Todo | Done

  /** The flood predicate: (tile & mask) == (target & mask). */
  predicate Matches(t: Tile, mask: Tile, target: Tile) {
    t & mask == target & mask
  }

  /** Bits outside the mask never decide a match. */
  lemma MatchesIgnoresUnmasked(t: Tile, u: Tile, mask: Tile, target: Tile)
    requires t & mask == u & mask
    ensures Matches(t, mask, target) <==> Matches(u, mask, target)
  {
  }

  predicate Distinct(w: seq<int>) {
    forall a, b :: 0 <= a < b < |w| ==> w[a] != w[b]
  }

  /** A walk: a non-empty chain of adjacent tiles, all of which match. */
  ghost predicate IsWalk(s: seq<Tile>, mask: Tile, target: Tile, w: seq<int>)
    requires |s| == CELLS
  {
    |w| > 0 &&
    (forall k :: 0 <= k < |w| ==> 0 <= w[k] < CELLS && Matches(s[w[k]], mask, target)) &&
    (forall k :: 0 <= k < |w| - 1 ==> Adjacent(w[k], w[k + 1]))
  }

  ghost predicate Reachable(s: seq<Tile>, mask: Tile, target: Tile, from: int, to: int)
    requires |s| == CELLS
  {
    exists w :: IsWalk(s, mask, target, w) && w[0] == from && w[|w| - 1] == to
  }

  /** The four-connected region of matching tiles that contains `start`;
      empty when `start` itself does not match. */
  ghost function Region(s: seq<Tile>, mask: Tile, target: Tile, start: int): set<int>
    requires |s| == CELLS
  {
    set t | 0 <= t < CELLS && Reachable(s, mask, target, start, t)
  }

  lemma RegionMembers(s: seq<Tile>, mask: Tile, target: Tile, start: int, t: int)
    requires |s| == CELLS
    requires t in Region(s, mask, target, start)
    ensures 0 <= t < CELLS && Matches(s[t], mask, target)
    ensures 0 <= start < CELLS && Matches(s[start], mask, target)
  {
  }

  lemma StartInRegion(s: seq<Tile>, mask: Tile, target: Tile, start: int)
    requires |s| == CELLS && 0 <= start < CELLS
    requires Matches(s[start], mask, target)
    ensures start in Region(s, mask, target, start)
  {
    assert IsWalk(s, mask, target, [start]);
  }

  /** A region is empty exactly when its start does not match. */
  lemma EmptyRegion(s: seq<Tile>, mask: Tile, target: Tile, start: int)
    requires |s| == CELLS && 0 <= start < CELLS
    ensures Region(s, mask, target, start) == {} <==> !Matches(s[start], mask, target)
  {
    if Matches(s[start], mask, target) {
      StartInRegion(s, mask, target, start);
    } else {
      forall t | t in Region(s, mask, target, start) ensures false {
        RegionMembers(s, mask, target, start, t);
      }
    }
  }

  /** A matching neighbour of a region tile belongs to the region. */
  lemma ExtendRegion(s: seq<Tile>, mask: Tile, target: Tile, start: int, p: int, c: int)
    requires |s| == CELLS
    requires p in Region(s, mask, target, start)
    requires Adjacent(p, c) && Matches(s[c], mask, target)
    ensures c in Region(s, mask, target, start)
  {
    var w :| IsWalk(s, mask, target, w) && w[0] == start && w[|w| - 1] == p;
    var w' := w + [c];
    assert forall k :: 0 <= k < |w| ==> w'[k] == w[k];
    assert IsWalk(s, mask, target, w');
  }

  /** The visitor's effect: replaying the calls in order from `data`.
      The result is the final data and what the last call answered. */
  function Replay<A>(visit: (Tile, int, int, A) -> (A, bool), s: seq<Tile>, calls: seq<int>, data: A): (A, bool)
    requires forall k :: 0 <= k < |calls| ==> 0 <= calls[k] < |s|
    decreases |calls|
  {
    if calls == [] then (data, false)
    else
      var c := calls[|calls| - 1];
      visit(s[c], Col(c), Row(c), Replay(visit, s, calls[..|calls| - 1], data).0)
  }

  /** `data` is the replay of `visited`, none of whose calls asked to stop. */
  ghost predicate Replayed<A>(visit: (Tile, int, int, A) -> (A, bool), s: seq<Tile>, visited: seq<int>, data0: A, data: A)
  {
    (forall k :: 0 <= k < |visited| ==> 0 <= visited[k] < |s|) &&
    data == Replay(visit, s, visited, data0).0 &&
    forall k :: 0 < k <= |visited| ==> !Replay(visit, s, visited[..k], data0).1
  }

  lemma ReplayedAppend<A>(visit: (Tile, int, int, A) -> (A, bool), s: seq<Tile>, visited: seq<int>, data0: A, data: A, c: int)
    requires Replayed(visit, s, visited, data0, data)
    requires 0 <= c < |s|
    requires !visit(s[c], Col(c), Row(c), data).1
    ensures Replayed(visit, s, visited + [c], data0, visit(s[c], Col(c), Row(c), data).0)
  {
    var v := visited + [c];
    assert v[..|v| - 1] == visited;
    assert v[..|v|] == v;
    forall k | 0 < k <= |visited| ensures v[..k] == visited[..k] {
    }
  }

  /** The state of the fill between two tiles: the marker array `m`, the
      tiles visited so far in order, and for each pending tile other than
      the start a visited neighbour that queued it. */
  ghost predicate FloodInv(s: seq<Tile>, mask: Tile, target: Tile, start: int,
                           m: seq<Mark>, visited: seq<int>, parent: map<int, int>)
  {
    |s| == CELLS && |m| == CELLS && 0 <= start < CELLS &&
    m[start] != Unseen &&
    Distinct(visited) &&
    (forall k :: 0 <= k < |visited| ==> 0 <= visited[k] < CELLS && visited[k] in Region(s, mask, target, start)) &&
    (forall i :: 0 <= i < CELLS ==> (m[i] == Done <==> i in visited)) &&
    (forall i :: 0 <= i < CELLS && m[i] == Todo && i != start ==>
       i in parent && 0 <= parent[i] < CELLS && m[parent[i]] == Done && Adjacent(parent[i], i)) &&
    (forall i, j :: 0 <= i < CELLS && m[i] == Done && Adjacent(i, j) ==> m[j] != Unseen)
  }

  /** A pending tile that matches belongs to the region. */
  lemma PendingInRegion(s: seq<Tile>, mask: Tile, target: Tile, start: int,
                        m: seq<Mark>, visited: seq<int>, parent: map<int, int>, c: int)
    requires FloodInv(s, mask, target, start, m, visited, parent)
    requires 0 <= c < CELLS && m[c] == Todo && Matches(s[c], mask, target)
    ensures c in Region(s, mask, target, start)
  {
    if c == start {
      StartInRegion(s, mask, target, start);
    } else {
      var p := parent[c];
      assert p in visited;
      ExtendRegion(s, mask, target, start, p, c);
    }
  }

  /** While some region tile is still unvisited, some matching tile is pending. */
  lemma Frontier(s: seq<Tile>, mask: Tile, target: Tile, start: int,
                 m: seq<Mark>, visited: seq<int>, parent: map<int, int>, t: int)
      returns (u: int)
    requires FloodInv(s, mask, target, start, m, visited, parent)
    requires t in Region(s, mask, target, start) && t !in visited
    ensures 0 <= u < CELLS && m[u] == Todo && Matches(s[u], mask, target)
  {
    var w :| IsWalk(s, mask, target, w) && w[0] == start && w[|w| - 1] == t;
    var k := 0;
    while m[w[k]] == Done
      invariant 0 <= k < |w|
      invariant forall j :: 0 <= j < k ==> m[w[j]] == Done
      decreases |w| - k
    {
      assert w[k] in visited;
      k := k + 1;
    }
    if k > 0 {
      assert Adjacent(w[k - 1], w[k]);
    }
    u := w[k];
  }

  /** No entries except those of `w`. */
  function Elements(w: seq<int>): set<int> {
    set x | x in w
  }

  lemma {:induction false} DistinctElements(w: seq<int>)
    requires Distinct(w)
    ensures |Elements(w)| == |w|
    decreases |w|
  {
    if w != [] {
      var u := w[..|w| - 1];
      assert Distinct(u);
      DistinctElements(u);
      assert Elements(w) == Elements(u) + {w[|w| - 1]};
      assert w[|w| - 1] !in Elements(u);
    }
  }

  /** Distinct tiles drawn from [0, n) number at most n. */
  lemma {:induction false} DistinctBound(w: seq<int>, n: nat)
    requires Distinct(w)
    requires forall k :: 0 <= k < |w| ==> 0 <= w[k] < n
    ensures |w| <= n
    decreases n
  {
    if w == [] {
    } else if n - 1 in w {
      var p :| 0 <= p < |w| && w[p] == n - 1;
      var u := w[..p] + w[p + 1..];
      assert forall j :: 0 <= j < |u| ==> u[j] == if j < p then w[j] else w[j + 1];
      DistinctBound(u, n - 1);
    } else {
      assert 0 <= w[0] < n;
      DistinctBound(w, n - 1);
    }
  }

  /** Pigeonhole: n distinct tiles of [0, n) are all of them. */
  lemma Pigeonhole(w: seq<int>, n: nat)
    requires Distinct(w) && |w| >= n
    requires forall k :: 0 <= k < |w| ==> 0 <= w[k] < n
    ensures forall i :: 0 <= i < n ==> i in w
  {
    forall i | 0 <= i < n ensures i in w {
      if i !in w {
        var v := seq(|w|, k requires 0 <= k < |w| => if w[k] == n - 1 then i else w[k]);
        DistinctBound(v, n - 1);
        assert false;
      }
    }
  }

  /** Mark tile (x, y) done and queue every neighbour that is not done. */
  method MarkDone(todo: array<Mark>, x: int, y: int)
    requires todo.Length == CELLS && InGrid(x, y)
    modifies todo
    ensures todo[Index(x, y)] == Done
    ensures forall j :: 0 <= j < CELLS && j != Index(x, y) ==>
      todo[j] == (if Adjacent(Index(x, y), j) && old(todo[j]) != Done then Todo else old(todo[j]))
  {
    IndexCoords(x, y);
    var c := x + y * LEVEL_SIZE;
    todo[c] := Done;
    if x > 0 && todo[c - 1] != Done {
      todo[c - 1] := Todo;
    }
    if x < LEVEL_SIZE - 1 && todo[c + 1] != Done {
      todo[c + 1] := Todo;
    }
    if y > 0 && todo[c - LEVEL_SIZE] != Done {
      todo[c - LEVEL_SIZE] := Todo;
    }
    if y < LEVEL_SIZE - 1 && todo[c + LEVEL_SIZE] != Done {
      todo[c + LEVEL_SIZE] := Todo;
    }
  }

  /** Parents after visiting `c`: every neighbour of `c` now hangs off `c`. */
  ghost function Relink(parent: map<int, int>, c: int): map<int, int> {
    map j | 0 <= j < CELLS :: if Adjacent(c, j) then c else if j in parent then parent[j] else 0
  }

  /** Visiting pending matching tile `c` keeps the fill's state consistent. */
  lemma VisitKeepsInv(s: seq<Tile>, mask: Tile, target: Tile, start: int,
                      m: seq<Mark>, visited: seq<int>, parent: map<int, int>,
                      c: int, m': seq<Mark>)
    requires FloodInv(s, mask, target, start, m, visited, parent)
    requires 0 <= c < CELLS && m[c] == Todo && Matches(s[c], mask, target)
    requires |m'| == CELLS && m'[c] == Done
    requires forall j :: 0 <= j < CELLS && j != c ==>
      m'[j] == (if Adjacent(c, j) && m[j] != Done then Todo else m[j])
    ensures FloodInv(s, mask, target, start, m', visited + [c], Relink(parent, c))
  {
    PendingInRegion(s, mask, target, start, m, visited, parent, c);
    var v := visited + [c];
    var p := Relink(parent, c);
    assert c !in visited;
    forall a, b | 0 <= a < b < |v| ensures v[a] != v[b] {
      assert v[a] == visited[a];
      if b < |visited| {
        assert v[b] == visited[b];
      }
    }
    forall k | 0 <= k < |v|
      ensures 0 <= v[k] < CELLS && v[k] in Region(s, mask, target, start)
    {
      if k < |visited| {
        assert v[k] == visited[k];
      }
    }
    forall i | 0 <= i < CELLS ensures m'[i] == Done <==> i in v {
      assert i in v <==> i in visited || i == c;
    }
    forall i | 0 <= i < CELLS && m'[i] == Todo && i != start
      ensures i in p && 0 <= p[i] < CELLS && m'[p[i]] == Done && Adjacent(p[i], i)
    {
      if !Adjacent(c, i) {
        assert m[i] == Todo;
        assert p[i] == parent[i];
      }
    }
    forall i, j | 0 <= i < CELLS && m'[i] == Done && Adjacent(i, j) ensures m'[j] != Unseen {
      if i != c {
        assert m[i] == Done;
      }
    }
  }

  /** While scanning a pass, up to scan position q: the state is consistent,
      the visits of the pass extend those before it, every tile before q that
      was pending and matching at the start of the pass is done, tiles from q
      on are done only if they were done before, and `cleared` means nothing
      pending has been seen yet. */
  ghost predicate PassInv(s: seq<Tile>, mask: Tile, target: Tile, start: int,
                          m0: seq<Mark>, visited0: seq<int>,
                          m: seq<Mark>, visited: seq<int>, parent: map<int, int>,
                          q: int, cleared: bool)
  {
    FloodInv(s, mask, target, start, m, visited, parent) &&
    |m0| == CELLS && 0 <= q <= CELLS &&
    |visited0| <= |visited| && visited[..|visited0|] == visited0 &&
    (forall i :: 0 <= i < CELLS && m0[i] != Unseen ==> m[i] != Unseen) &&
    (forall i :: 0 <= i < q && m0[i] == Todo && Matches(s[i], mask, target) ==> m[i] == Done) &&
    (forall i :: q <= i < CELLS ==> (m[i] == Done <==> m0[i] == Done)) &&
    (cleared ==> m == m0 && visited == visited0 && forall i :: 0 <= i < q ==> m0[i] != Todo)
  }

  /** Scan position q holds nothing to visit. */
  lemma PassSkip(s: seq<Tile>, mask: Tile, target: Tile, start: int,
                 m0: seq<Mark>, visited0: seq<int>,
                 m: seq<Mark>, visited: seq<int>, parent: map<int, int>,
                 q: int, cleared: bool)
    requires PassInv(s, mask, target, start, m0, visited0, m, visited, parent, q, cleared)
    requires q < CELLS && (m[q] != Todo || !Matches(s[q], mask, target))
    ensures PassInv(s, mask, target, start, m0, visited0, m, visited, parent, q + 1, cleared && m[q] != Todo)
  {
  }

  /** Scan position q is visited and marked done. */
  lemma PassVisit(s: seq<Tile>, mask: Tile, target: Tile, start: int,
                  m0: seq<Mark>, visited0: seq<int>,
                  m: seq<Mark>, visited: seq<int>, parent: map<int, int>,
                  q: int, cleared: bool, m': seq<Mark>)
    requires PassInv(s, mask, target, start, m0, visited0, m, visited, parent, q, cleared)
    requires q < CELLS && m[q] == Todo && Matches(s[q], mask, target)
    requires |m'| == CELLS && m'[q] == Done
    requires forall j :: 0 <= j < CELLS && j != q ==>
      m'[j] == (if Adjacent(q, j) && m[j] != Done then Todo else m[j])
    ensures PassInv(s, mask, target, start, m0, visited0, m', visited + [q], Relink(parent, q), q + 1, false)
  {
    VisitKeepsInv(s, mask, target, start, m, visited, parent, q, m');
    var v := visited + [q];
    assert v[..|visited0|] == visited[..|visited0|];
    forall i | 0 <= i < q + 1 && m0[i] == Todo && Matches(s[i], mask, target) ensures m'[i] == Done {
      if i < q {
        assert m[i] == Done;
      }
    }
  }

  /** The body of the scan at tile (x, y): visit it if it is pending and
      matches, then mark it done and queue its neighbours. */
  method ScanTile<A>(level: array<Tile>, todo: array<Mark>, ghost start: int, mask: Tile, target: Tile,
                     visit: (Tile, int, int, A) -> (A, bool), ghost data0: A,
                     ghost m0: seq<Mark>, ghost visited0: seq<int>, x: int, y: int,
                     cleared: bool, acc: A, count: int, ghost seen: seq<int>, ghost links: map<int, int>)
      returns (nowCleared: bool, stopped: bool, nextAcc: A, nextCount: int,
               ghost nextSeen: seq<int>, ghost nextLinks: map<int, int>)
    requires level.Length == CELLS && todo.Length == CELLS && level as object != todo && InGrid(x, y)
    requires PassInv(level[..], mask, target, start, m0, visited0, todo[..], seen, links, Index(x, y), cleared)
    requires Replayed(visit, level[..], seen, data0, acc) && count == |seen|
    modifies todo
    ensures !stopped ==>
      PassInv(level[..], mask, target, start, m0, visited0, todo[..], nextSeen, nextLinks, Index(x, y) + 1, nowCleared) &&
      Replayed(visit, level[..], nextSeen, data0, nextAcc) && nextCount == |nextSeen|
    ensures stopped ==>
      todo[..] == old(todo[..]) && nextSeen == seen && nextLinks == links && nextCount == count &&
      todo[Index(x, y)] == Todo && Matches(level[Index(x, y)], mask, target) &&
      visit(level[Index(x, y)], Col(Index(x, y)), Row(Index(x, y)), acc).1 &&
      visit(level[Index(x, y)], Col(Index(x, y)), Row(Index(x, y)), acc).0 == nextAcc
  {
    ghost var s := level[..];
    IndexCoords(x, y);
    var c := Index(x, y);
    nowCleared, stopped, nextAcc, nextCount, nextSeen, nextLinks := cleared, false, acc, count, seen, links;
    if todo[c] == Todo && level[c] & mask == target & mask {
      var answer := visit(level[c], x, y, acc);
      assert answer == visit(level[c], Col(c), Row(c), acc);
      if answer.1 {
        stopped := true;
        nextAcc := answer.0;
        return;
      }
      ghost var mBefore := todo[..];
      ReplayedAppend(visit, s, seen, data0, acc, c);
      MarkDone(todo, x, y);
      assert level[..] == s;
      PassVisit(s, mask, target, start, m0, visited0, mBefore, seen, links, c, cleared, todo[..]);
      nowCleared := false;
      nextAcc := answer.0;
      nextSeen, nextLinks := seen + [c], Relink(links, c);
      nextCount := count + 1;
    } else {
      PassSkip(s, mask, target, start, m0, visited0, todo[..], seen, links, c, cleared);
      nowCleared := cleared && todo[c] != Todo;
    }
  }

  /** One pass of the outer loop: scan every row and column once, visiting
      each pending matching tile. Stops with `stopped` when the visitor asks. */
  method FloodPass<A>(level: array<Tile>, todo: array<Mark>, ghost start: int, mask: Tile, target: Tile,
                      visit: (Tile, int, int, A) -> (A, bool), ghost data0: A,
                      data: A, steps: int, ghost visited: seq<int>, ghost parent: map<int, int>)
      returns (cleared: bool, stopped: bool, acc: A, count: int,
               ghost seen: seq<int>, ghost links: map<int, int>, ghost stopAt: int)
    requires level.Length == CELLS && todo.Length == CELLS && level as object != todo
    requires FloodInv(level[..], mask, target, start, todo[..], visited, parent)
    requires Replayed(visit, level[..], visited, data0, data) && steps == |visited|
    modifies todo
    ensures FloodInv(level[..], mask, target, start, todo[..], seen, links)
    ensures count == |seen| && |visited| <= |seen| && seen[..|visited|] == visited
    ensures Replayed(visit, level[..], seen, data0, Replay(visit, level[..], seen, data0).0)
    ensures !stopped ==> acc == Replay(visit, level[..], seen, data0).0
    ensures stopped ==>
      0 <= stopAt < CELLS && todo[stopAt] == Todo && Matches(level[stopAt], mask, target) &&
      visit(level[stopAt], Col(stopAt), Row(stopAt), Replay(visit, level[..], seen, data0).0).1 &&
      visit(level[stopAt], Col(stopAt), Row(stopAt), Replay(visit, level[..], seen, data0).0).0 == acc
    ensures !stopped ==>
      forall i :: 0 <= i < CELLS && old(todo[i]) == Todo && Matches(level[i], mask, target) ==> todo[i] == Done
    ensures !stopped && cleared ==> forall i :: 0 <= i < CELLS ==> todo[i] != Todo
  {
    ghost var s := level[..];
    ghost var m0 := todo[..];
    cleared, stopped, acc, count, seen, links, stopAt := true, false, data, steps, visited, parent, 0;
    assert seen[..|visited|] == visited;
    var y := 0;
    while y < LEVEL_SIZE
      invariant 0 <= y <= LEVEL_SIZE
      invariant level[..] == s
      invariant PassInv(s, mask, target, start, m0, visited, todo[..], seen, links, y * LEVEL_SIZE, cleared)
      invariant Replayed(visit, s, seen, data0, acc) && count == |seen|
    {
      var x := 0;
      while x < LEVEL_SIZE
        invariant 0 <= x <= LEVEL_SIZE
        invariant level[..] == s
        invariant PassInv(s, mask, target, start, m0, visited, todo[..], seen, links, x + y * LEVEL_SIZE, cleared)
        invariant Replayed(visit, s, seen, data0, acc) && count == |seen|
      {
        ghost var before := acc;
        cleared, stopped, acc, count, seen, links := ScanTile(level, todo, start, mask, target, visit, data0,
          m0, visited, x, y, cleared, acc, count, seen, links);
        if stopped {
          stopAt := Index(x, y);
          assert before == Replay(visit, s, seen, data0).0;
          return;
        }
        x := x + 1;
      }
      assert LEVEL_SIZE + y * LEVEL_SIZE == (y + 1) * LEVEL_SIZE;
      y := y + 1;
    }
  }

  /** A fill with no pending tile has visited its whole region. */
  lemma NoPendingCovers(s: seq<Tile>, mask: Tile, target: Tile, start: int,
                        m: seq<Mark>, visited: seq<int>, parent: map<int, int>)
    requires FloodInv(s, mask, target, start, m, visited, parent)
    requires forall i :: 0 <= i < CELLS ==> m[i] != Todo
    ensures forall t :: t in Region(s, mask, target, start) ==> t in visited
  {
    forall t | t in Region(s, mask, target, start) ensures t in visited {
      if t !in visited {
        var u := Frontier(s, mask, target, start, m, visited, parent, t);
        assert false;
      }
    }
  }

  /** One iteration of the outer loop of the fill: a pass, together with
      the reason the loop's bound suffices. Each pass that does not stop
      visits a new tile unless the region is already covered. */
  method FloodRound<A>(level: array<Tile>, todo: array<Mark>, ghost start: int, mask: Tile, target: Tile,
                       visit: (Tile, int, int, A) -> (A, bool), ghost data0: A,
                       data: A, steps: int, ghost visited: seq<int>, ghost parent: map<int, int>, ghost i: int)
      returns (cleared: bool, stopped: bool, acc: A, count: int,
               ghost seen: seq<int>, ghost links: map<int, int>, ghost stopAt: int)
    requires level.Length == CELLS && todo.Length == CELLS && level as object != todo
    requires FloodInv(level[..], mask, target, start, todo[..], visited, parent)
    requires Replayed(visit, level[..], visited, data0, data) && steps == |visited|
    requires Covers(level[..], mask, target, start, visited) || |visited| >= i
    modifies todo
    ensures FloodInv(level[..], mask, target, start, todo[..], seen, links)
    ensures count == |seen|
    ensures Replayed(visit, level[..], seen, data0, Replay(visit, level[..], seen, data0).0)
    ensures !stopped ==> acc == Replay(visit, level[..], seen, data0).0
    ensures stopped ==>
      0 <= stopAt < CELLS && todo[stopAt] == Todo && Matches(level[stopAt], mask, target) &&
      visit(level[stopAt], Col(stopAt), Row(stopAt), Replay(visit, level[..], seen, data0).0).1 &&
      visit(level[stopAt], Col(stopAt), Row(stopAt), Replay(visit, level[..], seen, data0).0).0 == acc
    ensures !stopped ==> Covers(level[..], mask, target, start, seen) || |seen| >= i + 1
    ensures !stopped && cleared ==> Covers(level[..], mask, target, start, seen)
  {
    ghost var s := level[..];
    ghost var covered := Covers(s, mask, target, start, visited);
    ghost var u := 0;
    if !covered {
      var t :| t in Region(s, mask, target, start) && t !in visited;
      u := Frontier(s, mask, target, start, todo[..], visited, parent, t);
    }
    cleared, stopped, acc, count, seen, links, stopAt :=
      FloodPass(level, todo, start, mask, target, visit, data0, data, steps, visited, parent);
    if !stopped {
      Progress(s, mask, target, start, visited, seen, covered, u);
      if cleared {
        NoPendingCovers(s, mask, target, start, todo[..], seen, links);
      }
    }
  }

  /** The outer loop of the fill: at most CELLS passes, leaving early when
      a pass finds nothing pending or the visitor stops the fill. */
  method FloodLoop<A>(level: array<Tile>, todo: array<Mark>, ghost start: int, mask: Tile, target: Tile,
                      visit: (Tile, int, int, A) -> (A, bool), data: A)
      returns (steps: int, result: A, ghost calls: seq<int>, ghost parent: map<int, int>,
               ghost stopped: bool, ghost stopAt: int)
    requires level.Length == CELLS && todo.Length == CELLS && level as object != todo
    requires FloodInv(level[..], mask, target, start, todo[..], [], map[])
    modifies todo
    ensures FloodInv(level[..], mask, target, start, todo[..], calls, parent)
    ensures Replayed(visit, level[..], calls, data, Replay(visit, level[..], calls, data).0) && steps == |calls|
    ensures !stopped ==> result == Replay(visit, level[..], calls, data).0 && Covers(level[..], mask, target, start, calls)
    ensures stopped ==>
      0 <= stopAt < CELLS && todo[stopAt] == Todo && Matches(level[stopAt], mask, target) &&
      visit(level[stopAt], Col(stopAt), Row(stopAt), Replay(visit, level[..], calls, data).0).1 &&
      visit(level[stopAt], Col(stopAt), Row(stopAt), Replay(visit, level[..], calls, data).0).0 == result
  {
    ghost var s := level[..];
    steps, result, calls, parent, stopped, stopAt := 0, data, [], map[], false, 0;
    var i := 0;
    while i < CELLS
      invariant 0 <= i <= CELLS
      invariant level[..] == s
      invariant FloodInv(s, mask, target, start, todo[..], calls, parent)
      invariant Replayed(visit, s, calls, data, result) && steps == |calls|
      invariant Covers(s, mask, target, start, calls) || |calls| >= i
    {
      var cleared, stop;
      cleared, stop, result, steps, calls, parent, stopAt :=
        FloodRound(level, todo, start, mask, target, visit, data, result, steps, calls, parent, i);
      if stop {
        stopped := true;
        return;
      }
      if cleared {
        return;
      }
      i := i + 1;
    }
    if !Covers(s, mask, target, start, calls) {
      Pigeonhole(calls, CELLS);
    }
  }

  /** flood(level, start_x, start_y, mask, target, func, data): the visitor
      is called on tiles of the matching region of the start, each at most
      once; `calls` lists those tiles in call order. Without an early stop
      the calls cover exactly that region and the result is its size; when
      the visitor stops the fill, the stopping tile is not counted. */
  method Flood<A>(level: array<Tile>, startX: int, startY: int, mask: Tile, target: Tile,
                  visit: (Tile, int, int, A) -> (A, bool), data: A)
      returns (steps: int, result: A, ghost calls: seq<int>)
    requires level.Length == CELLS
    requires InGrid(startX, startY)
    ensures Distinct(calls)
    ensures forall k :: 0 <= k < |calls| ==>
      0 <= calls[k] < CELLS && Matches(level[calls[k]], mask, target) &&
      calls[k] in Region(level[..], mask, target, Index(startX, startY))
    ensures result == Replay(visit, level[..], calls, data).0
    ensures forall k :: 0 < k < |calls| ==> !Replay(visit, level[..], calls[..k], data).1
    ensures Replay(visit, level[..], calls, data).1 ==> steps == |calls| - 1
    ensures !Replay(visit, level[..], calls, data).1 ==>
      steps == |calls| && steps == |Region(level[..], mask, target, Index(startX, startY))| &&
      forall t :: t in Region(level[..], mask, target, Index(startX, startY)) <==> t in calls
  {
    IndexCoords(startX, startY);
    var start := Index(startX, startY);
    var todo := new Mark[CELLS](_ => Unseen);
    todo[start] := Todo;
    ghost var parent, stopped, stopAt;
    steps, result, calls, parent, stopped, stopAt := FloodLoop(level, todo, start, mask, target, visit, data);
    if stopped {
      FinishStopped(visit, level[..], mask, target, start, todo[..], calls, parent, data, stopAt, result);
      calls := calls + [stopAt];
    } else {
      FinishComplete(visit, level[..], mask, target, start, todo[..], calls, parent, data);
    }
  }

  ghost predicate Covers(s: seq<Tile>, mask: Tile, target: Tile, start: int, visited: seq<int>)
    requires |s| == CELLS
  {
    forall t :: t in Region(s, mask, target, start) ==> t in visited
  }

  /** A pass keeps a covered region covered, and otherwise visits at least
      one new tile: the frontier tile `u` that was pending when it began. */
  lemma Progress(s: seq<Tile>, mask: Tile, target: Tile, start: int,
                 before: seq<int>, after: seq<int>, covered: bool, u: int)
    requires |s| == CELLS
    requires |before| <= |after| && after[..|before|] == before
    requires covered == Covers(s, mask, target, start, before)
    requires !covered ==> u in after && u !in before
    ensures Covers(s, mask, target, start, after) || |after| > |before|
  {
    forall k | 0 <= k < |before| ensures before[k] in after {
      assert after[k] == before[k];
    }
  }

  lemma FinishStopped<A>(visit: (Tile, int, int, A) -> (A, bool), s: seq<Tile>, mask: Tile, target: Tile,
                         start: int, m: seq<Mark>, seen: seq<int>, parent: map<int, int>,
                         data: A, stopAt: int, result: A)
    requires FloodInv(s, mask, target, start, m, seen, parent)
    requires Replayed(visit, s, seen, data, Replay(visit, s, seen, data).0)
    requires 0 <= stopAt < CELLS && m[stopAt] == Todo && Matches(s[stopAt], mask, target)
    requires visit(s[stopAt], Col(stopAt), Row(stopAt), Replay(visit, s, seen, data).0).1
    requires visit(s[stopAt], Col(stopAt), Row(stopAt), Replay(visit, s, seen, data).0).0 == result
    ensures Distinct(seen + [stopAt])
    ensures forall k :: 0 <= k < |seen + [stopAt]| ==>
      0 <= (seen + [stopAt])[k] < CELLS && Matches(s[(seen + [stopAt])[k]], mask, target) &&
      (seen + [stopAt])[k] in Region(s, mask, target, start)
    ensures result == Replay(visit, s, seen + [stopAt], data).0
    ensures Replay(visit, s, seen + [stopAt], data).1
    ensures forall k :: 0 < k <= |seen| ==> !Replay(visit, s, (seen + [stopAt])[..k], data).1
  {
    PendingInRegion(s, mask, target, start, m, seen, parent, stopAt);
    var v := seen + [stopAt];
    assert v[..|v| - 1] == seen;
    assert stopAt !in seen;
    forall k | 0 <= k < |v|
      ensures 0 <= v[k] < CELLS && Matches(s[v[k]], mask, target) && v[k] in Region(s, mask, target, start)
    {
      if k < |seen| {
        assert v[k] == seen[k];
        RegionMembers(s, mask, target, start, v[k]);
      }
    }
    forall a, b | 0 <= a < b < |v| ensures v[a] != v[b] {
      assert v[a] == seen[a];
      if b < |seen| {
        assert v[b] == seen[b];
      }
    }
    forall k | 0 < k <= |seen| ensures v[..k] == seen[..k] {
    }
  }

  lemma FinishComplete<A>(visit: (Tile, int, int, A) -> (A, bool), s: seq<Tile>, mask: Tile, target: Tile,
                          start: int, m: seq<Mark>, calls: seq<int>, parent: map<int, int>, data: A)
    requires FloodInv(s, mask, target, start, m, calls, parent)
    requires Replayed(visit, s, calls, data, Replay(visit, s, calls, data).0)
    requires Covers(s, mask, target, start, calls)
    ensures forall k :: 0 <= k < |calls| ==>
      0 <= calls[k] < CELLS && Matches(s[calls[k]], mask, target) && calls[k] in Region(s, mask, target, start)
    ensures !Replay(visit, s, calls, data).1
    ensures |calls| == |Region(s, mask, target, start)|
    ensures forall t :: t in Region(s, mask, target, start) <==> t in calls
  {
    forall k | 0 <= k < |calls| ensures Matches(s[calls[k]], mask, target) {
      RegionMembers(s, mask, target, start, calls[k]);
    }
    assert calls[..|calls|] == calls;
    DistinctElements(calls);
    assert Elements(calls) == Region(s, mask, target, start);
  }

}
