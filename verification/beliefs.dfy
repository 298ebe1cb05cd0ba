/** Everything the bot believes about the game, updated once a turn: the tick, the grid of
    cells, the pacs by key and the two teams; and, after each update, how likely each unseen
    pellet is to have been eaten by an enemy that could have reached it. */
module AgentBeliefs {
  import opened Wrappers
  import opened Traverse
  import opened Model
  import opened CellBeliefs
  import opened PacBeliefs
  import opened TeamBeliefs
  import opened PathMaps

  /** The passability callback for a grid whose walls are `walls`. */
  function Open(walls: set<Vec>): Vec -> bool {
    p => p !in walls
  }

  /** The walls of a grid of cells. */
  ghost function WallsOf(g: map<Vec, Cell>): set<Vec> {
    set p | p in g && g[p].wall
  }

  /** The cells of `g` a pac at `from` can walk through. */
  ghost function WalkGraph(dims: Dims, from: Vec, g: map<Vec, Cell>): Graph {
    Graph(dims, from, Open(WallsOf(g)))
  }

  /** The cells whose shortest walk from the source takes exactly `k` moves. */
  ghost function Ring(g: Graph, k: int): (r: set<Vec>)
    ensures r <= Cells(g.dims)
    ensures k < 0 ==> r == {}
  {
    if k < 0 then {} else set p | p in Cells(g.dims) && IsShortest(g, p, k)
  }

  /** The probability write of `updateStillAvailableProbabilities` for one cell: a cell not
      seen since `arrivalTick` drops to `v` unless it is already lower. */
  function Lower(cell: Cell, v: real, arrivalTick: int): Cell {
    if cell.seenTick < arrivalTick && v < cell.stillAvailableProbability then cell.(stillAvailableProbability := v) else cell
  }

  /** `Lower` on every cell of `ring`. */
  ghost function LowerAll(g: map<Vec, Cell>, ring: set<Vec>, v: real, arrivalTick: int): (r: map<Vec, Cell>)
    ensures r.Keys == g.Keys
  {
    map p | p in g :: if p in ring then Lower(g[p], v, arrivalTick) else g[p]
  }

  /** The grid `g` after the enemy `e`'s part of the probability update, with a spread of `m`:
      the cells of its ring on `tick` drop to `1 - 1/m` unless seen on or after `tick`. */
  ghost function AfterEnemy(dims: Dims, tick: int, g: map<Vec, Cell>, e: Pac, m: int): (r: map<Vec, Cell>)
    requires m >= 1
    ensures r.Keys == g.Keys
  {
    LowerAll(g, Ring(WalkGraph(dims, e.pos, g), tick - e.seenTick), 1.0 - 1.0 / m as real, e.seenTick + (tick - e.seenTick))
  }

  /** The spread of a visit after `k` ticks: the size of the largest ring at a distance from 0
      to `k`, and at least one. */
  ghost function Spread(g: Graph, k: int): (r: int)
    ensures r >= 1
    decreases k
  {
    if k < 0 then 1
    else if |Ring(g, k)| > Spread(g, k - 1) then |Ring(g, k)|
    else Spread(g, k - 1)
  }

  /** `Spread` is the largest ring size up to `k`, or one when every such ring is smaller. */
  lemma {:induction false} SpreadIsLargestRing(g: Graph, k: int)
    ensures forall j :: 0 <= j <= k ==> |Ring(g, j)| <= Spread(g, k)
    ensures Spread(g, k) == 1 || exists j :: 0 <= j <= k && |Ring(g, j)| == Spread(g, k)
  {
    if k >= 0 {
      SpreadIsLargestRing(g, k - 1);
    }
  }

  /** One alive enemy's part of the update as `updateStillAvailableProbabilities` makes it: its
      ring on `tick` lowered with the spread of its rings through the walls of `g`. */
  ghost function EnemyPass(dims: Dims, tick: int, g: map<Vec, Cell>, e: Pac): (r: map<Vec, Cell>)
    ensures r.Keys == g.Keys
  {
    AfterEnemy(dims, tick, g, e, Spread(WalkGraph(dims, e.pos, g), tick - e.seenTick))
  }

  /** The value `EnemyPass` writes: a cell it changes lies on the enemy's ring, was last seen
      before `tick`, and now holds one less the chance of a visit spread over the largest ring. */
  lemma EnemyPassValue(dims: Dims, tick: int, g: map<Vec, Cell>, e: Pac, p: Vec)
    requires p in g
    ensures EnemyPass(dims, tick, g, e)[p] != g[p] ==>
      && p in Ring(WalkGraph(dims, e.pos, g), tick - e.seenTick)
      && g[p].seenTick < tick
      && EnemyPass(dims, tick, g, e)[p]
         == g[p].(stillAvailableProbability := 1.0 - 1.0 / Spread(WalkGraph(dims, e.pos, g), tick - e.seenTick) as real)
  {
    var m := Spread(WalkGraph(dims, e.pos, g), tick - e.seenTick);
    var ring := Ring(WalkGraph(dims, e.pos, g), tick - e.seenTick);
    assert EnemyPass(dims, tick, g, e) == LowerAll(g, ring, 1.0 - 1.0 / m as real, tick);
  }

  /** The enemies' parts one after another, in the order of `order`. */
  ghost function AfterAll(dims: Dims, tick: int, g: map<Vec, Cell>, order: seq<Pac>): (r: map<Vec, Cell>)
    ensures r.Keys == g.Keys
  {
    if order == [] then g else EnemyPass(dims, tick, AfterAll(dims, tick, g, order[..|order| - 1]), order[|order| - 1])
  }

  /** `order` lists each of `enemies` exactly once. */
  ghost predicate Enumerates(order: seq<Pac>, enemies: set<Pac>) {
    && (forall e :: e in order <==> e in enemies)
    && forall i, j :: 0 <= i < j < |order| ==> order[i] != order[j]
  }

  /** The alive enemies among `pacs`. */
  ghost function Enemies(pacs: map<string, Pac>): set<Pac> {
    set e | e in pacs.Values && e.alive && e.team == Enemy
  }

  /** `now` is `start` with only probabilities changed, each lowered, each change in [0, 1) at a
      cell not seen since some enemy of `enemies` could have reached it, and every such cell
      below one. */
  ghost predicate ProbsLowered(dims: Dims, tick: int, start: map<Vec, Cell>, now: map<Vec, Cell>, enemies: set<Pac>) {
    && now.Keys == start.Keys
    && forall p :: p in now ==>
      && now[p] == start[p].(stillAvailableProbability := now[p].stillAvailableProbability)
      && now[p].stillAvailableProbability <= start[p].stillAvailableProbability
      && (now[p].stillAvailableProbability != start[p].stillAvailableProbability ==>
            && 0.0 <= now[p].stillAvailableProbability < 1.0
            && start[p].seenTick < tick
            && exists e :: e in enemies && p in Ring(WalkGraph(dims, e.pos, start), tick - e.seenTick))
      && (forall e :: e in enemies && p in Ring(WalkGraph(dims, e.pos, start), tick - e.seenTick) && start[p].seenTick < tick ==>
            now[p].stillAvailableProbability < 1.0)
  }

  /** Nothing lowered yet. */
  lemma ProbsLoweredNone(dims: Dims, tick: int, g: map<Vec, Cell>)
    ensures ProbsLowered(dims, tick, g, g, {})
  {
  }

  /** Lowering the ring of one more enemy keeps `ProbsLowered`. */
  lemma ProbsLoweredStep(dims: Dims, tick: int, start: map<Vec, Cell>, now: map<Vec, Cell>, enemies: set<Pac>, e: Pac, m: int)
    requires ProbsLowered(dims, tick, start, now, enemies) && m >= 1
    ensures ProbsLowered(dims, tick, start, AfterEnemy(dims, tick, now, e, m), enemies + {e})
  {
    assert WallsOf(now) == WallsOf(start);
    var next := AfterEnemy(dims, tick, now, e, m);
    forall p | p in next
      ensures next[p] == start[p].(stillAvailableProbability := next[p].stillAvailableProbability)
      ensures next[p].stillAvailableProbability <= start[p].stillAvailableProbability
      ensures next[p].stillAvailableProbability != start[p].stillAvailableProbability ==>
            && 0.0 <= next[p].stillAvailableProbability < 1.0
            && start[p].seenTick < tick
            && exists f :: f in enemies + {e} && p in Ring(WalkGraph(dims, f.pos, start), tick - f.seenTick)
      ensures forall f :: f in enemies + {e} && p in Ring(WalkGraph(dims, f.pos, start), tick - f.seenTick) && start[p].seenTick < tick ==>
            next[p].stillAvailableProbability < 1.0
    {
      LoweredCell(dims, tick, start, now, enemies, e, m, p);
    }
  }

  /** The enemies' parts in any order lower the probabilities as `ProbsLowered` says. */
  lemma {:induction false} AfterAllLowers(dims: Dims, tick: int, g: map<Vec, Cell>, order: seq<Pac>)
    ensures ProbsLowered(dims, tick, g, AfterAll(dims, tick, g, order), set e | e in order)
  {
    if order == [] {
      ProbsLoweredNone(dims, tick, g);
    } else {
      var init := order[..|order| - 1];
      var e := order[|order| - 1];
      AfterAllLowers(dims, tick, g, init);
      var now := AfterAll(dims, tick, g, init);
      var before := set f | f in init;
      EnemyPassLowers(dims, tick, g, now, before, e);
      assert before + {e} == set f | f in order by {
        assert order == init + [e];
      }
    }
  }

  /** `ProbsLoweredStep` for the spread the update uses. */
  lemma EnemyPassLowers(dims: Dims, tick: int, start: map<Vec, Cell>, now: map<Vec, Cell>, enemies: set<Pac>, e: Pac)
    requires ProbsLowered(dims, tick, start, now, enemies)
    ensures ProbsLowered(dims, tick, start, EnemyPass(dims, tick, now, e), enemies + {e})
  {
    ProbsLoweredStep(dims, tick, start, now, enemies, e, Spread(WalkGraph(dims, e.pos, now), tick - e.seenTick));
  }

  /** `ProbsLoweredStep` at one cell. */
  lemma LoweredCell(dims: Dims, tick: int, start: map<Vec, Cell>, now: map<Vec, Cell>, enemies: set<Pac>, e: Pac, m: int, p: Vec)
    requires ProbsLowered(dims, tick, start, now, enemies) && m >= 1 && p in now
    requires WallsOf(now) == WallsOf(start)
    ensures var next := AfterEnemy(dims, tick, now, e, m);
      && p in next
      && next[p] == start[p].(stillAvailableProbability := next[p].stillAvailableProbability)
      && next[p].stillAvailableProbability <= start[p].stillAvailableProbability
      && (next[p].stillAvailableProbability != start[p].stillAvailableProbability ==>
            && 0.0 <= next[p].stillAvailableProbability < 1.0
            && start[p].seenTick < tick
            && exists f :: f in enemies + {e} && p in Ring(WalkGraph(dims, f.pos, start), tick - f.seenTick))
      && (forall f :: f in enemies + {e} && p in Ring(WalkGraph(dims, f.pos, start), tick - f.seenTick) && start[p].seenTick < tick ==>
            next[p].stillAvailableProbability < 1.0)
  {
    var v := 1.0 - 1.0 / m as real;
    assert 0.0 <= v < 1.0;
    assert WalkGraph(dims, e.pos, now) == WalkGraph(dims, e.pos, start);
    var ring := Ring(WalkGraph(dims, e.pos, start), tick - e.seenTick);
    var next := AfterEnemy(dims, tick, now, e, m);
    assert next == LowerAll(now, ring, v, tick);
    assert next[p] == if p in ring then Lower(now[p], v, tick) else now[p];
    assert now[p] == start[p].(stillAvailableProbability := now[p].stillAvailableProbability);
    if p in ring && start[p].seenTick < tick {
      assert next[p].stillAvailableProbability <= v;
    }
  }

  /** Lowering leaves the walls where they are. */
  lemma LowerAllKeepsWalls(g: map<Vec, Cell>, ring: set<Vec>, v: real, arrivalTick: int)
    ensures WallsOf(LowerAll(g, ring, v, arrivalTick)) == WallsOf(g)
  {
  }

  /** Two lowerings of one cell on the same tick commute: the smaller value wins. */
  lemma LowerCommutes(cell: Cell, v1: real, v2: real, arrivalTick: int)
    ensures Lower(Lower(cell, v1, arrivalTick), v2, arrivalTick) == Lower(Lower(cell, v2, arrivalTick), v1, arrivalTick)
  {
  }

  lemma LowerAllCommutes(g: map<Vec, Cell>, r1: set<Vec>, v1: real, r2: set<Vec>, v2: real, arrivalTick: int)
    ensures LowerAll(LowerAll(g, r1, v1, arrivalTick), r2, v2, arrivalTick)
         == LowerAll(LowerAll(g, r2, v2, arrivalTick), r1, v1, arrivalTick)
  {
    var a := LowerAll(LowerAll(g, r1, v1, arrivalTick), r2, v2, arrivalTick);
    var b := LowerAll(LowerAll(g, r2, v2, arrivalTick), r1, v1, arrivalTick);
    forall p | p in g ensures a[p] == b[p] {
      LowerCommutes(g[p], v1, v2, arrivalTick);
    }
  }

  /** Two enemies' parts give the same grid in either order, so the order in which the pacs
      are visited does not matter. */
  lemma AfterEnemiesCommute(dims: Dims, tick: int, g: map<Vec, Cell>, e1: Pac, m1: int, e2: Pac, m2: int)
    requires m1 >= 1 && m2 >= 1
    ensures AfterEnemy(dims, tick, AfterEnemy(dims, tick, g, e1, m1), e2, m2)
         == AfterEnemy(dims, tick, AfterEnemy(dims, tick, g, e2, m2), e1, m1)
  {
    var r1 := Ring(WalkGraph(dims, e1.pos, g), tick - e1.seenTick);
    var r2 := Ring(WalkGraph(dims, e2.pos, g), tick - e2.seenTick);
    var v1 := 1.0 - 1.0 / m1 as real;
    var v2 := 1.0 - 1.0 / m2 as real;
    LowerAllKeepsWalls(g, r1, v1, tick);
    LowerAllKeepsWalls(g, r2, v2, tick);
    assert AfterEnemy(dims, tick, g, e1, m1) == LowerAll(g, r1, v1, tick);
    assert AfterEnemy(dims, tick, g, e2, m2) == LowerAll(g, r2, v2, tick);
    assert WalkGraph(dims, e2.pos, LowerAll(g, r1, v1, tick)) == WalkGraph(dims, e2.pos, g);
    assert WalkGraph(dims, e1.pos, LowerAll(g, r2, v2, tick)) == WalkGraph(dims, e1.pos, g);
    assert AfterEnemy(dims, tick, LowerAll(g, r1, v1, tick), e2, m2) == LowerAll(LowerAll(g, r1, v1, tick), r2, v2, tick);
    assert AfterEnemy(dims, tick, LowerAll(g, r2, v2, tick), e1, m1) == LowerAll(LowerAll(g, r2, v2, tick), r1, v1, tick);
    LowerAllCommutes(g, r1, v1, r2, v2, tick);
  }

  /** Two enemies' parts as the update makes them, spreads included, give the same grid in
      either order: the first part leaves the walls, so the second's spread is unchanged. */
  lemma EnemyPassesCommute(dims: Dims, tick: int, g: map<Vec, Cell>, e1: Pac, e2: Pac)
    ensures EnemyPass(dims, tick, EnemyPass(dims, tick, g, e1), e2) == EnemyPass(dims, tick, EnemyPass(dims, tick, g, e2), e1)
  {
    EnemyPassTwice(dims, tick, g, e1, e2);
    EnemyPassTwice(dims, tick, g, e2, e1);
    AfterEnemiesCommute(dims, tick, g, e1, Spread(WalkGraph(dims, e1.pos, g), tick - e1.seenTick),
                        e2, Spread(WalkGraph(dims, e2.pos, g), tick - e2.seenTick));
  }

  /** Two enemies' parts one after the other use the spreads both have on the first grid. */
  lemma EnemyPassTwice(dims: Dims, tick: int, g: map<Vec, Cell>, e1: Pac, e2: Pac)
    ensures EnemyPass(dims, tick, EnemyPass(dims, tick, g, e1), e2)
         == AfterEnemy(dims, tick, AfterEnemy(dims, tick, g, e1, Spread(WalkGraph(dims, e1.pos, g), tick - e1.seenTick)),
                       e2, Spread(WalkGraph(dims, e2.pos, g), tick - e2.seenTick))
  {
    var m1 := Spread(WalkGraph(dims, e1.pos, g), tick - e1.seenTick);
    var m2 := Spread(WalkGraph(dims, e2.pos, g), tick - e2.seenTick);
    var a1 := EnemyPass(dims, tick, g, e1);
    assert a1 == AfterEnemy(dims, tick, g, e1, m1);
    EnemyPassKeepsWalls(dims, tick, g, e1);
    assert WalkGraph(dims, e2.pos, a1) == WalkGraph(dims, e2.pos, g);
    assert Spread(WalkGraph(dims, e2.pos, a1), tick - e2.seenTick) == m2;
    assert EnemyPass(dims, tick, a1, e2) == AfterEnemy(dims, tick, a1, e2, m2);
  }

  /** One enemy's part leaves the walls where they are. */
  lemma EnemyPassKeepsWalls(dims: Dims, tick: int, g: map<Vec, Cell>, e: Pac)
    ensures WallsOf(EnemyPass(dims, tick, g, e)) == WallsOf(g)
  {
    var m := Spread(WalkGraph(dims, e.pos, g), tick - e.seenTick);
    var ring := Ring(WalkGraph(dims, e.pos, g), tick - e.seenTick);
    assert EnemyPass(dims, tick, g, e) == LowerAll(g, ring, 1.0 - 1.0 / m as real, tick);
    LowerAllKeepsWalls(g, ring, 1.0 - 1.0 / m as real, tick);
  }

  /** Within a grid with a correct cost map, the ring at `k` is the set of cells of cost `k`. */
  lemma RingIsCost(g: Graph, dist: map<Vec, Cost>, parent: map<Vec, Vec>, k: int, p: Vec)
    requires dist.Keys == Cells(g.dims) && p in dist
    requires WithinBounds(g.from, g.dims) ==> Distances(g, dist, parent)
    requires !WithinBounds(g.from, g.dims) ==> forall q :: q in dist ==> dist[q] == Inf
    ensures p in Ring(g, k) <==> k >= 0 && dist[p] == Fin(k)
  {
    if WithinBounds(g.from, g.dims) {
      InfIsUnreachable(g, dist, parent, p);
      if dist[p].Fin? {
        CostIsShortest(g, dist, parent, p);
      }
      if k >= 0 && IsShortest(g, p, k) {
        var walk :| IsWalk(g, walk) && walk[|walk| - 1] == p && |walk| == k + 1;
        if dist[p].Fin? {
          assert dist[p].n + 1 <= |walk|;
          var w :| IsWalk(g, w) && w[|w| - 1] == p && |w| == dist[p].n + 1;
          assert k + 1 <= |w|;
        }
      }
    }
  }

  /** The cells of the bucket at `k`, or none when it is missing (JavaScript's `undefined`). */
  ghost function BucketSet(isochrones: seq<Option<seq<Vec>>>, k: int): set<Vec> {
    if 0 <= k < |isochrones| && isochrones[k].Some? then set q | q in isochrones[k].value else {}
  }

  /** The bucket of `isochrones(maxCost)` at `k <= maxCost`, when there is one, holds exactly
      the ring at `k`; when there is none the ring is empty. */
  lemma IsochroneIsRing(g: Graph, dist: map<Vec, Cost>, parent: map<Vec, Vec>, isochrones: seq<Option<seq<Vec>>>, maxCost: int, k: int)
    requires dist.Keys == Cells(g.dims)
    requires WithinBounds(g.from, g.dims) ==> Distances(g, dist, parent)
    requires !WithinBounds(g.from, g.dims) ==> forall q :: q in dist ==> dist[q] == Inf
    requires IsIsochrones(dist, isochrones, maxCost) && k <= maxCost
    ensures BucketSet(isochrones, k) == Ring(g, k)
    ensures forall q :: q in BucketSet(isochrones, k) ==> WithinBounds(q, g.dims)
  {
    if 0 <= k < |isochrones| {
      assert BucketHolds(dist, dist.Keys, isochrones, k);
    }
    forall p | p in dist ensures p in Ring(g, k) <==> k >= 0 && dist[p] == Fin(k) {
      RingIsCost(g, dist, parent, k, p);
    }
  }

  /** Every bucket up to `maxCost` is the ring at its distance, there are none beyond, and
      each present bucket holds as many cells as its ring. */
  ghost predicate RingBuckets(g: Graph, isochrones: seq<Option<seq<Vec>>>, maxCost: int) {
    && (forall k :: 0 <= k <= maxCost ==> BucketSet(isochrones, k) == Ring(g, k))
    && (|isochrones| == 0 || |isochrones| - 1 <= maxCost)
    && forall k :: 0 <= k < |isochrones| && isochrones[k].Some? ==> |isochrones[k].value| == |Ring(g, k)|
  }

  /** The buckets of `isochrones(maxCost)` are the rings up to `maxCost`. */
  lemma BucketsAreRings(g: Graph, dist: map<Vec, Cost>, parent: map<Vec, Vec>, isochrones: seq<Option<seq<Vec>>>, maxCost: int)
    requires dist.Keys == Cells(g.dims)
    requires WithinBounds(g.from, g.dims) ==> Distances(g, dist, parent)
    requires !WithinBounds(g.from, g.dims) ==> forall q :: q in dist ==> dist[q] == Inf
    requires IsIsochrones(dist, isochrones, maxCost)
    ensures RingBuckets(g, isochrones, maxCost)
  {
    forall k | 0 <= k <= maxCost ensures BucketSet(isochrones, k) == Ring(g, k) {
      IsochroneIsRing(g, dist, parent, isochrones, maxCost, k);
    }
    forall k | 0 <= k < |isochrones| && isochrones[k].Some? ensures |isochrones[k].value| == |Ring(g, k)| {
      assert BucketHolds(dist, dist.Keys, isochrones, k);
      RowMajorCard(isochrones[k].value);
      assert BucketSet(isochrones, k) == Ring(g, k);
    }
  }

  /** `MaxNumCells` over buckets that are the rings up to `maxCost` is their spread. */
  lemma MaxNumCellsIsSpread(g: Graph, isochrones: seq<Option<seq<Vec>>>, maxCost: int, m: int)
    requires RingBuckets(g, isochrones, maxCost)
    requires m >= 1
    requires forall k :: 0 <= k < |isochrones| && isochrones[k].Some? ==> |isochrones[k].value| <= m
    requires m == 1 || exists k :: 0 <= k < |isochrones| && isochrones[k].Some? && |isochrones[k].value| == m
    ensures m == Spread(g, maxCost)
  {
    SpreadIsLargestRing(g, maxCost);
    if Spread(g, maxCost) != 1 {
      var j :| 0 <= j <= maxCost && |Ring(g, j)| == Spread(g, maxCost);
      assert BucketSet(isochrones, j) == Ring(g, j);
      assert 0 <= j < |isochrones| && isochrones[j].Some?;
    }
    if m != 1 {
      var k :| 0 <= k < |isochrones| && isochrones[k].Some? && |isochrones[k].value| == m;
      assert k <= maxCost;
    }
  }

  /** Lowering the bucket at the seen age, when it is the ring through the grid's walls, with
      the spread of those rings, is the enemy's part of the update. */
  lemma BucketPassIsEnemyPass(dims: Dims, tick: int, start: map<Vec, Cell>, e: Pac, walls: set<Vec>,
                              isochrones: seq<Option<seq<Vec>>>, m: int)
    requires walls == WallsOf(start)
    requires BucketSet(isochrones, tick - e.seenTick) == Ring(Graph(dims, e.pos, Open(walls)), tick - e.seenTick)
    requires m == Spread(Graph(dims, e.pos, Open(walls)), tick - e.seenTick)
    ensures m == Spread(WalkGraph(dims, e.pos, start), tick - e.seenTick)
    ensures EnemyPass(dims, tick, start, e)
         == LowerAll(start, BucketSet(isochrones, tick - e.seenTick), 1.0 - 1.0 / m as real, e.seenTick + (tick - e.seenTick))
  {
    assert Graph(dims, e.pos, Open(walls)) == WalkGraph(dims, e.pos, start);
  }

  class Beliefs {
    var tick: int
    const width: nat
    const height: nat
    /** The cells, indexed `[y, x]`. */
    const cells: array2<Cell>
    /** The pacs by `Key`. */
    var pacs: map<string, Pac>
    /** The teams, indexed by team number. */
    const teams: array<Team>

    function Bounds(): Dims {
      Dims(width, height)
    }

    ghost predicate Valid()
      reads this, teams
    {
      && cells.Length0 == height && cells.Length1 == width
      && teams.Length == 2
      && forall i :: 0 <= i < 2 ==> teams[i].id == i
    }

    /** The beliefs before any update: the grid of `initializeCells`, no pacs, both teams at zero. */
    constructor (view: View)
      ensures Valid()
      ensures tick == view.tick && width == view.width && height == view.height
      ensures fresh(cells) && fresh(teams)
      ensures forall y, x :: 0 <= y < height && 0 <= x < width ==> cells[y, x] == Init(view, x, y)
      ensures pacs == map[]
      ensures teams[..] == InitializeTeams()
    {
      tick := view.tick;
      width := view.width;
      height := view.height;
      var grid := InitializeCells(view);
      cells := grid;
      pacs := map[];
      var initial := InitializeTeams();
      teams := new Team[2] [initial[0], initial[1]];
    }

    /** The walls of the grid as it is now. */
    method Walls() returns (walls: set<Vec>)
      requires cells.Length0 == height && cells.Length1 == width
      ensures walls == WallsOf(Grid(cells))
    {
      var all := All(Bounds());
      walls := {};
      for i := 0 to |all|
        invariant forall p :: p in walls <==> p in all[..i] && WithinBounds(p, Bounds()) && cells[p.y, p.x].wall
      {
        var pos := all[i];
        assert pos in all;
        assert all[..i + 1] == all[..i] + [pos];
        if cells[pos.y, pos.x].wall {
          walls := walls + {pos};
        }
      }
      assert all[..|all|] == all;
      GridAt(cells);
    }

    /** `update`: the tick, then the teams, the pacs and the cells from the view, then the
        probabilities. */
    method Update(view: View)
      requires Valid() && view.width == width && view.height == height && |view.scores| <= teams.Length
      requires forall s :: s in view.pacs && s.team == Self ==> WithinBounds(s.pos, view.Dims())
      requires forall pellet :: pellet in view.pellets ==> WithinBounds(pellet.pos, view.Dims())
      requires forall s :: s in view.pacs ==> SensorKey(s) in pacs || (view.tick == 0 && SensorKey(s) in SeededKeys(view.pacs))
      modifies this, cells, teams
      ensures Valid() && tick == view.tick
      ensures forall i :: 0 <= i < |view.scores| ==> teams[i].score == view.scores[i]
      ensures forall i :: |view.scores| <= i < teams.Length ==> teams[i] == old(teams[i])
      ensures pacs.Keys == old(pacs).Keys + if view.tick == 0 then SeededKeys(view.pacs) else {}
      ensures view.tick != 0 ==> forall k :: k in pacs ==> pacs[k] == SeenBy(old(pacs)[k], view.tick, SensorsFor(view.pacs, k))
      ensures view.tick == 0 ==>
        exists s :: SeededBy(view, old(pacs), view.pacs, s) && forall k :: k in pacs ==> k in s && pacs[k] == SeenBy(s[k], view.tick, SensorsFor(view.pacs, k))
      ensures ProbsLowered(Bounds(), tick, Observe(view, old(Grid(cells))), Grid(cells), Enemies(pacs))
      ensures exists order ::
        Enumerates(order, Enemies(pacs)) && Grid(cells) == AfterAll(Bounds(), tick, Observe(view, old(Grid(cells))), order)
    {
      tick := view.tick;
      TeamBeliefs.Update(view.scores, teams);
      var updated := PacBeliefs.Update(view, pacs);
      pacs := updated;
      CellBeliefs.Update(view, cells);
      ghost var order := UpdateStillAvailableProbabilities();
    }

    /** `updateStillAvailableProbabilities`: each alive enemy's part in turn. The enemies are
        visited in no particular order; the result does not depend on it. */
    method UpdateStillAvailableProbabilities() returns (ghost order: seq<Pac>)
      requires cells.Length0 == height && cells.Length1 == width
      modifies cells
      ensures Enumerates(order, Enemies(pacs))
      ensures Grid(cells) == AfterAll(Bounds(), tick, old(Grid(cells)), order)
      ensures ProbsLowered(Bounds(), tick, old(Grid(cells)), Grid(cells), Enemies(pacs))
    {
      ghost var start := Grid(cells);
      order := [];
      var remaining := pacs.Values;
      ghost var done: set<Pac> := {};
      while remaining != {}
        invariant done <= Enemies(pacs) && Enemies(pacs) <= done + remaining && done !! remaining
        invariant Enumerates(order, done)
        invariant Grid(cells) == AfterAll(Bounds(), tick, start, order)
        decreases remaining
      {
        var enemy :| enemy in remaining;
        remaining := remaining - {enemy};
        if !(enemy.alive && enemy.team == Enemy) {
          continue;
        }
        var maxNumCells := LowerAround(enemy);
        assert (order + [enemy])[..|order|] == order;
        order := order + [enemy];
        done := done + {enemy};
      }
      AfterAllLowers(Bounds(), tick, start, order);
      assert (set e | e in order) == Enemies(pacs);
    }

    /** One alive enemy's part of `updateStillAvailableProbabilities`: the cells a shortest walk
        from the enemy's last known position reaches in exactly the ticks since it was seen, and
        that have not been seen since, drop to one less the chance of a visit spread over the
        largest ring up to then. `maxNumCells` is that spread. */
    method LowerAround(enemy: Pac) returns (maxNumCells: int)
      requires cells.Length0 == height && cells.Length1 == width
      modifies cells
      ensures maxNumCells == Spread(WalkGraph(Bounds(), enemy.pos, old(Grid(cells))), tick - enemy.seenTick)
      ensures Grid(cells) == EnemyPass(Bounds(), tick, old(Grid(cells)), enemy)
    {
      ghost var start := Grid(cells);
      var seenAge := tick - enemy.seenTick;
      var walls := Walls();
      var isochrones := Isochrones(enemy.pos, walls, seenAge);
      maxNumCells := MaxNumCells(isochrones);
      MaxNumCellsIsSpread(Graph(Bounds(), enemy.pos, Open(walls)), isochrones, seenAge, maxNumCells);
      BucketPassIsEnemyPass(Bounds(), tick, start, enemy, walls, isochrones, maxNumCells);
      LowerBucket(isochrones, seenAge, maxNumCells, enemy.seenTick);
    }

    /** The enemy's path map over the grid with walls `walls`, and its isochrones up to
        `seenAge`: each bucket up to `seenAge` is the ring at its distance and holds as many
        cells, and there are none beyond. */
    method Isochrones(from: Vec, walls: set<Vec>, seenAge: int) returns (isochrones: seq<Option<seq<Vec>>>)
      ensures BucketSet(isochrones, seenAge) == Ring(Graph(Bounds(), from, Open(walls)), seenAge)
      ensures forall q :: q in BucketSet(isochrones, seenAge) ==> WithinBounds(q, Bounds())
      ensures RingBuckets(Graph(Bounds(), from, Open(walls)), isochrones, seenAge)
    {
      var pathMap := PathMap.Generate(from, Bounds(), Open(walls));
      isochrones := pathMap.Isochrones(seenAge);
      IsochroneIsRing(pathMap.G(), pathMap.dist, pathMap.parent, isochrones, seenAge, seenAge);
      BucketsAreRings(pathMap.G(), pathMap.dist, pathMap.parent, isochrones, seenAge);
    }

    /** The cells of the bucket at `seenAge`, when it is present, not seen since the enemy
        could have arrived, drop to one less the chance of a visit. */
    method LowerBucket(isochrones: seq<Option<seq<Vec>>>, seenAge: int, maxNumCells: int, enemySeenTick: int)
      requires cells.Length0 == height && cells.Length1 == width && maxNumCells >= 1
      requires forall q :: q in BucketSet(isochrones, seenAge) ==> WithinBounds(q, Bounds())
      modifies cells
      ensures Grid(cells) == LowerAll(old(Grid(cells)), BucketSet(isochrones, seenAge), 1.0 - 1.0 / maxNumCells as real, enemySeenTick + seenAge)
    {
      if 0 <= seenAge < |isochrones| && isochrones[seenAge].Some? {
        var isochrone := isochrones[seenAge].value;
        var range := seenAge;
        var visitProbability := 1.0 / maxNumCells as real;
        var arrivalTick := enemySeenTick + range;
        LowerRing(isochrone, 1.0 - visitProbability, arrivalTick);
      }
    }

    /** The spread of `updateStillAvailableProbabilities`: the size of the largest bucket, and at
        least one. */
    static method MaxNumCells(isochrones: seq<Option<seq<Vec>>>) returns (maxNumCells: int)
      ensures maxNumCells >= 1
      ensures forall k :: 0 <= k < |isochrones| && isochrones[k].Some? ==> |isochrones[k].value| <= maxNumCells
      ensures maxNumCells == 1 || exists k :: 0 <= k < |isochrones| && isochrones[k].Some? && |isochrones[k].value| == maxNumCells
    {
      maxNumCells := 1;
      for range := 0 to |isochrones|
        invariant maxNumCells >= 1
        invariant forall k :: 0 <= k < range && isochrones[k].Some? ==> |isochrones[k].value| <= maxNumCells
        invariant maxNumCells == 1 || exists k :: 0 <= k < range && isochrones[k].Some? && |isochrones[k].value| == maxNumCells
      {
        var isochrone := isochrones[range];
        if isochrone.None? {
          continue;
        }
        var numCells := |isochrone.value|;
        if numCells > maxNumCells {
          maxNumCells := numCells;
        }
      }
    }

    /** The loop over one enemy's ring. */
    method LowerRing(isochrone: seq<Vec>, stillAvailableProbability: real, arrivalTick: int)
      requires cells.Length0 == height && cells.Length1 == width
      requires forall p :: p in isochrone ==> WithinBounds(p, Bounds())
      modifies cells
      ensures Grid(cells) == LowerAll(old(Grid(cells)), (set q | q in isochrone), stillAvailableProbability, arrivalTick)
    {
      ghost var start := Grid(cells);
      GridAt(cells);
      for i := 0 to |isochrone|
        invariant LoweredAs(start, FirstOf(isochrone, i), stillAvailableProbability, arrivalTick)
      {
        var pos := isochrone[i];
        assert pos in isochrone;
        LowerCell(pos, stillAvailableProbability, arrivalTick, start, FirstOf(isochrone, i));
      }
      FirstOfAll(isochrone);
      GridLowered(start, FirstOf(isochrone, |isochrone|), stillAvailableProbability, arrivalTick);
    }

    /** `cells` is `start` with the cells of `done` lowered as `Lower` says. */
    ghost predicate LoweredAs(start: map<Vec, Cell>, done: set<Vec>, v: real, arrivalTick: int)
      reads cells
    {
      && start.Keys == Cells(Dims(cells.Length1, cells.Length0))
      && forall y, x :: 0 <= y < cells.Length0 && 0 <= x < cells.Length1 ==>
           cells[y, x] == if Vec(x, y) in done then Lower(start[Vec(x, y)], v, arrivalTick) else start[Vec(x, y)]
    }

    /** The per-cell body of the loop over one enemy's ring. */
    method LowerCell(pos: Vec, stillAvailableProbability: real, arrivalTick: int, ghost start: map<Vec, Cell>, ghost done: set<Vec>)
      requires cells.Length0 == height && cells.Length1 == width && WithinBounds(pos, Bounds())
      requires LoweredAs(start, done, stillAvailableProbability, arrivalTick)
      modifies cells
      ensures LoweredAs(start, done + {pos}, stillAvailableProbability, arrivalTick)
    {
      var seenTick := cells[pos.y, pos.x].seenTick;
      if seenTick < arrivalTick {
        if stillAvailableProbability < cells[pos.y, pos.x].stillAvailableProbability {
          cells[pos.y, pos.x] := cells[pos.y, pos.x].(stillAvailableProbability := stillAvailableProbability);
        }
      }
    }

    lemma GridLowered(start: map<Vec, Cell>, done: set<Vec>, v: real, arrivalTick: int)
      requires LoweredAs(start, done, v, arrivalTick)
      ensures Grid(cells) == LowerAll(start, done, v, arrivalTick)
    {
      forall p | p in start ensures Grid(cells)[p] == LowerAll(start, done, v, arrivalTick)[p] {
        assert cells[p.y, p.x] == Grid(cells)[p];
      }
    }
  }
}
